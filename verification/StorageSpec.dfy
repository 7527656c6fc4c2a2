/** The state of one storage server and what each request does to it.

    The document, undo and checkpoint directories are maps from file name to content, the metadata
    and checkpoint tables a map and a list of rows.  The clock is an input of the request.  Local
    file operations are assumed to succeed.
 */
module StorageSpec {
  import opened Options
  import opened Scan
  import opened Location
  import opened Text
  import opened TextLoops
  import opened WordEdit

  const MAX_FILENAME: nat := 256

  datatype Stats = Stats(words: nat, chars: nat, sentences: nat)

  function CountWords(ss: seq<string>): nat {
    if ss == [] then 0 else CountWords(ss[..|ss| - 1]) + |Words(ss[|ss| - 1])|
  }

  function StatsOf(content: string): Stats {
    Stats(CountWords(Parse(content)), |content|, |Parse(content)|)
  }

  datatype Row = Row(file: string, tag: string, checkpointFile: string)

  datatype Disk = Disk(
    files: map<string, string>,
    undo: map<string, string>,
    saved: map<string, string>,
    rows: seq<Row>,
    meta: map<string, Stats>)

  const EMPTY_DISK: Disk := Disk(map[], map[], map[], [], map[])

  datatype ErrorCode = FileNotFound | FileExists | PermissionDenied | InvalidParam | ServerError | CheckpointNotFound

  datatype Reply = Failed(error: ErrorCode) | Ok(data: string) | Streamed(words: seq<string>)

  datatype Request =
    | Create(user: string, file: string)
    | Read(user: string, file: string)
    | Write(user: string, file: string, data: string)
    | Delete(user: string, file: string)
    | Stream(user: string, file: string)
    | Undo(user: string, file: string)
    | Replicate(file: string, data: string)
    | CheckpointOp(file: string, data: string, time: int)

  predicate ValidName(file: string) {
    file != "" && !Contains(file, "..") && !Contains(file, "/")
  }

  /** validate_basic_request */
  predicate Validates(user: string, file: string) {
    user != "" && ValidName(file)
  }

  /** The data directory also holds itself, the two snapshot directories, the database and, during a
      transaction, its rollback journal. */
  predicate Reserved(file: string) {
    file == "." || file == "undo" || file == "checkpoints" || file == "metadata.db" || file == "metadata.db-journal"
  }

  predicate PlainName(file: string) {
    file != "" && file != ".." && !Contains(file, "/") && !Reserved(file)
  }

  /** Reading a file into a buffer. */
  function Load(content: string): string {
    Take(content, BUFFER_SIZE - 1)
  }

  function Save(d: Disk, file: string, content: string): Disk {
    d.(files := d.files[file := content], meta := d.meta[file := StatsOf(content)])
  }

  /** Keep the current content, if there is any, in the undo slot. */
  function SaveUndo(d: Disk, file: string): Disk {
    if file in d.files then d.(undo := d.undo[file := Load(d.files[file])]) else d
  }

  function CreateStep(d: Disk, user: string, file: string): (Disk, Reply) {
    if !Validates(user, file) then (d, Failed(PermissionDenied))
    else if file in d.files then (d, Failed(FileExists))
    else
      (d.(files := d.files[file := ""],
          meta := if file in d.meta then d.meta else d.meta[file := Stats(0, 0, 0)]),
       Ok("File created"))
  }

  function ReadReply(d: Disk, user: string, file: string): Reply {
    if !Validates(user, file) then Failed(PermissionDenied)
    else if file !in d.files then Failed(FileNotFound)
    else Ok(Load(d.files[file]))
  }

  /** The end of a word edit; the undo slot has been overwritten by then. */
  function FinishEdit(d: Disk, file: string, result: EditResult): (Disk, Reply) {
    match result
    case BadSentence => (d, Failed(InvalidParam))
    case BadWord => (d, Failed(InvalidParam))
    case Edited(content) => (Save(d, file, content), Ok("Write successful"))
  }

  function WriteStep(d: Disk, user: string, file: string, data: string): (Disk, Reply) {
    if !Validates(user, file) then (d, Failed(PermissionDenied))
    else
      match ParseWrite(data)
      case WordCommand(sentence, word, text) =>
        if file !in d.files then (d, Failed(FileNotFound))
        else FinishEdit(SaveUndo(d, file), file, EditWord(Load(d.files[file]), Edit(sentence, word, text)))
      case FullWrite(_) => (Save(SaveUndo(d, file), file, data), Ok("Write successful"))
  }

  function DeleteStep(d: Disk, user: string, file: string): (Disk, Reply) {
    if !Validates(user, file) then (d, Failed(PermissionDenied))
    else if file !in d.files then (d, Failed(FileNotFound))
    else (d.(files := d.files - {file}, meta := d.meta - {file}, undo := d.undo - {file}), Ok("File deleted"))
  }

  function AllWordsOf(ss: seq<string>): seq<string> {
    if ss == [] then [] else AllWordsOf(ss[..|ss| - 1]) + Words(ss[|ss| - 1])
  }

  function StreamReply(d: Disk, user: string, file: string): Reply {
    if !Validates(user, file) then Failed(PermissionDenied)
    else if file !in d.files then Failed(FileNotFound)
    else Streamed(AllWordsOf(Parse(Load(d.files[file]))))
  }

  /** The slot survives: a second UNDO writes the same content again. */
  function UndoStep(d: Disk, user: string, file: string): (Disk, Reply) {
    if !Validates(user, file) then (d, Failed(PermissionDenied))
    else if file !in d.undo || file !in d.files then (d, Failed(FileNotFound))
    else (Save(d, file, Load(d.undo[file])), Ok("Undo successful"))
  }

  function RawName(file: string, tag: string, time: int): string {
    file + "_" + tag + "_" + PrintInt(time)
  }

  function CheckpointName(file: string, tag: string, time: int): string {
    Take(RawName(file, tag, time), MAX_FILENAME - 1)
  }

  /** The checkpoint file of the first row for (file, tag). */
  function FindRow(rows: seq<Row>, file: string, tag: string): Option<string> {
    if rows == [] then None
    else if rows[0].file == file && rows[0].tag == tag then Some(rows[0].checkpointFile)
    else FindRow(rows[1..], file, tag)
  }

  /** A checkpoint file cannot be opened below a directory that does not exist, and nothing ever makes
      a directory inside the checkpoint directory. */
  function CheckpointStep(d: Disk, file: string, tag: string, time: int): (Disk, Reply) {
    var name := CheckpointName(file, tag, time);
    if file !in d.files then (d, Failed(FileNotFound))
    else if Contains(name, "/") then (d, Failed(ServerError))
    else
      (d.(saved := d.saved[name := Load(d.files[file])], rows := d.rows + [Row(file, tag, name)]),
       Ok("Checkpoint '" + tag + "' created"))
  }

  function RevertStep(d: Disk, file: string, tag: string): (Disk, Reply) {
    match FindRow(d.rows, file, tag)
    case None => (d, Failed(CheckpointNotFound))
    case Some(name) =>
      if name !in d.saved then (d, Failed(CheckpointNotFound))
      else (Save(SaveUndo(d, file), file, Load(d.saved[name])), Ok("Reverted to checkpoint '" + tag + "'"))
  }

  datatype Command = NoCommand | CreateTag(tag: string) | RevertTag(tag: string) | MissingTag | Other

  /** "%[^|]|%s"; LIST and unknown commands change nothing. */
  function ParseCommand(data: string): Command {
    match ScanNot(data, '|', |data|)
    case None => NoCommand
    case Some((cmd, rest)) =>
      if cmd != "CREATE" && cmd != "REVERT" then Other
      else
        match MatchChar(rest, '|')
        case None => MissingTag
        case Some(rest') =>
          match ScanToken(rest')
          case None => MissingTag
          case Some((tag, _)) => if cmd == "CREATE" then CreateTag(tag) else RevertTag(tag)
  }

  function CheckpointOpStep(d: Disk, file: string, data: string, time: int): (Disk, Reply)
    requires !ParseCommand(data).MissingTag?
  {
    match ParseCommand(data)
    case NoCommand => (d, Failed(InvalidParam))
    case CreateTag(tag) => CheckpointStep(d, file, tag, time)
    case RevertTag(tag) => RevertStep(d, file, tag)
    case Other => (d, Ok(""))
  }

  /** The fixed buffers: message data, one word, one sentence, one document. */
  predicate FitsBuffers(d: Disk, file: string, data: string) {
    && |data| < BUFFER_SIZE && NoNul(data)
    && (var cmd := ParseWrite(data);
        cmd.WordCommand? && file in d.files ==>
          FitsEdit(Load(d.files[file]), Edit(cmd.sentence, cmd.word, cmd.text)))
  }

  /** The unbounded conversions of a checkpoint command stay inside their buffers. */
  predicate FitsCommand(data: string) {
    && !ParseCommand(data).MissingTag?
    && SpanNot(data, '|') < 32
    && (ParseCommand(data).CreateTag? || ParseCommand(data).RevertTag? ==> |ParseCommand(data).tag| < 64)
  }

  /** What the program takes for granted about a request.  Replication and checkpoints do not look at
      the file name. */
  predicate WellFormed(d: Disk, r: Request) {
    && !Reserved(r.file)
    && (r.Replicate? || r.CheckpointOp? ==> PlainName(r.file))
    && (r.Write? ==> FitsBuffers(d, r.file, r.data))
    && (r.Replicate? ==> |r.data| < BUFFER_SIZE && NoNul(r.data))
    && (r.CheckpointOp? ==> FitsCommand(r.data))
  }

  function Step(d: Disk, r: Request): (Disk, Reply)
    requires WellFormed(d, r)
  {
    match r
    case Create(user, file) => CreateStep(d, user, file)
    case Read(user, file) => (d, ReadReply(d, user, file))
    case Write(user, file, data) => WriteStep(d, user, file, data)
    case Delete(user, file) => DeleteStep(d, user, file)
    case Stream(user, file) => (d, StreamReply(d, user, file))
    case Undo(user, file) => UndoStep(d, user, file)
    case Replicate(file, data) => (Save(d, file, data), Ok("Replicated successfully"))
    case CheckpointOp(file, data, time) => CheckpointOpStep(d, file, data, time)
  }

  predicate WellFormedRun(d: Disk, rs: seq<Request>)
    decreases |rs|
  {
    rs == [] || (WellFormed(d, rs[0]) && WellFormedRun(Step(d, rs[0]).0, rs[1..]))
  }

  function Run(d: Disk, rs: seq<Request>): Disk
    requires WellFormedRun(d, rs)
    decreases |rs|
  {
    if rs == [] then d else Run(Step(d, rs[0]).0, rs[1..])
  }
}
