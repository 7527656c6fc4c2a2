/** What each request to the storage server does, said outright: its answer and the whole state
    afterwards, on the dispatcher's `Step`.
 */
module StorageEffects {
  import opened Scan
  import opened Location
  import opened Text
  import opened WordEdit
  import opened StorageSpec
  import opened StorageRuns
  import opened Checkpoints

  // ----- validation -----

  predicate IsValidated(r: Request) {
    r.Create? || r.Read? || r.Write? || r.Delete? || r.Stream? || r.Undo?
  }

  /** An anonymous user, no file name, or a name that could lead out of the directory. */
  predicate IsBad(user: string, file: string) {
    || user == "" || file == "" || (exists i :: 0 <= i < |file| && file[i] == '/')
    || (exists i :: 0 <= i < |file| - 1 && file[i] == '.' && file[i + 1] == '.')
  }

  lemma ValidatesExactly(user: string, file: string)
    ensures Validates(user, file) <==> !IsBad(user, file)
  {
    ContainsSlash(file);
    if i: nat :| i <= |file| && At(file, "..", i) {
      AtChar(file, "..", i, 0);
      AtChar(file, "..", i, 1);
    }
    if i :| 0 <= i < |file| - 1 && file[i] == '.' && file[i + 1] == '.' {
      assert file[i..i + 2] == "..";
      assert At(file, "..", i);
    }
  }

  lemma BadIsDenied(d: Disk, r: Request)
    requires WellFormed(d, r) && IsValidated(r) && IsBad(r.user, r.file)
    ensures Step(d, r) == (d, Failed(PermissionDenied))
  {
    ValidatesExactly(r.user, r.file);
  }

  // ----- CREATE, READ, UNDO, REPLICATE -----

  lemma CreateExactly(d: Disk, user: string, file: string)
    requires Inv(d) && WellFormed(d, Create(user, file)) && !IsBad(user, file)
    ensures Step(d, Create(user, file))
            == if file in d.files then (d, Failed(FileExists))
               else (d.(files := d.files[file := ""], meta := d.meta[file := Stats(0, 0, 0)]), Ok("File created"))
  {
    ValidatesExactly(user, file);
  }

  lemma ReadExactly(d: Disk, user: string, file: string)
    requires Inv(d) && WellFormed(d, Read(user, file)) && !IsBad(user, file)
    ensures Step(d, Read(user, file)) == (d, if file in d.files then Ok(d.files[file]) else Failed(FileNotFound))
  {
    ValidatesExactly(user, file);
  }

  lemma UndoExactly(d: Disk, user: string, file: string)
    requires Inv(d) && WellFormed(d, Undo(user, file)) && !IsBad(user, file)
    ensures Step(d, Undo(user, file))
            == if file !in d.undo then (d, Failed(FileNotFound))
               else (d.(files := d.files[file := d.undo[file]], meta := d.meta[file := StatsOf(d.undo[file])]),
                     Ok("Undo successful"))
  {
    ValidatesExactly(user, file);
    assert file in d.undo ==> file in d.files;
  }

  lemma ReplicateExactly(d: Disk, file: string, data: string)
    requires WellFormed(d, Replicate(file, data))
    ensures var (d', reply) := Step(d, Replicate(file, data));
            && reply.Ok? && d'.files == d.files[file := data] && d'.meta == d.meta[file := StatsOf(data)]
            && d'.undo == d.undo && d'.saved == d.saved && d'.rows == d.rows
  {
  }

  // ----- WRITE -----

  /** Only contents, statistics and slot of the file change. */
  predicate Replaced(d: Disk, file: string, content: string, d': Disk) {
    && d'.files == d.files[file := content] && d'.meta == d.meta[file := StatsOf(content)]
    && d'.undo == (if file in d.files then d.undo[file := d.files[file]] else d.undo)
    && d'.saved == d.saved && d'.rows == d.rows
  }

  lemma FullWriteExactly(d: Disk, user: string, file: string, data: string)
    requires Inv(d) && WellFormed(d, Write(user, file, data)) && !IsBad(user, file) && ParseWrite(data).FullWrite?
    ensures var (d', reply) := Step(d, Write(user, file, data));
            reply.Ok? && Replaced(d, file, data, d')
  {
    ValidatesExactly(user, file);
  }

  /** A word edit needs a document and a position in it; the slot is taken before the position is checked. */
  lemma WordWriteExactly(d: Disk, user: string, file: string, data: string, e: Edit)
    requires Inv(d) && WellFormed(d, Write(user, file, data)) && !IsBad(user, file)
    requires ParseWrite(data) == WordCommand(e.sentence, e.word, e.text)
    ensures var (d', reply) := Step(d, Write(user, file, data));
            if file !in d.files then (d', reply) == (d, Failed(FileNotFound))
            else if !InRange(d.files[file], e) then
              (d', reply) == (d.(undo := d.undo[file := d.files[file]]), Failed(InvalidParam))
            else reply.Ok? && Replaced(d, file, Join(NewSentences(d.files[file], e)), d')
  {
    ValidatesExactly(user, file);
    if file in d.files {
      WriteOfEdit(d, user, file, e, data);
      assert Step(d, Write(user, file, data)) == WriteStep(d, user, file, data);
    }
  }

  lemma WriteOfEdit(d: Disk, user: string, file: string, e: Edit, data: string)
    requires Inv(d) && Validates(user, file) && file in d.files
    requires ParseWrite(data) == WordCommand(e.sentence, e.word, e.text)
    ensures var (d', reply) := WriteStep(d, user, file, data);
            if !InRange(d.files[file], e) then
              (d', reply) == (d.(undo := d.undo[file := d.files[file]]), Failed(InvalidParam))
            else reply.Ok? && Replaced(d, file, Join(NewSentences(d.files[file], e)), d')
  {
    assert Edit(e.sentence, e.word, e.text) == e;
    assert SaveUndo(d, file) == d.(undo := d.undo[file := d.files[file]]);
  }

  // ----- DELETE -----

  /** Nothing of the document is left, and nothing else has changed. */
  predicate Gone(d: Disk, file: string, d': Disk) {
    && d'.files == d.files - {file} && d'.meta == d.meta - {file} && d'.undo == d.undo - {file}
    && d'.saved == d.saved && d'.rows == d.rows
  }

  lemma DeleteExactly(d: Disk, user: string, file: string)
    requires WellFormed(d, Delete(user, file))
    ensures var (d', reply) := Step(d, Delete(user, file));
            if IsBad(user, file) then (d', reply) == (d, Failed(PermissionDenied))
            else if file !in d.files then (d', reply) == (d, Failed(FileNotFound))
            else reply.Ok? && Gone(d, file, d')
  {
    ValidatesExactly(user, file);
  }

  predicate Absent(d: Disk, file: string) {
    file !in d.files && file !in d.meta && file !in d.undo
  }

  /** A document that is not there cannot be read, streamed or restored, and can be created. */
  lemma AbsentExactly(d: Disk, user: string, file: string)
    requires Inv(d) && Absent(d, file) && !IsBad(user, file) && !Reserved(file)
    ensures Step(d, Read(user, file)) == (d, Failed(FileNotFound))
    ensures Step(d, Stream(user, file)) == (d, Failed(FileNotFound))
    ensures Step(d, Undo(user, file)) == (d, Failed(FileNotFound))
    ensures Step(d, Delete(user, file)) == (d, Failed(FileNotFound))
    ensures var (d', reply) := Step(d, Create(user, file)); reply.Ok? && file in d'.files && d'.files[file] == ""
  {
    ValidatesExactly(user, file);
  }

  /** The requests that can make a document of this name. */
  predicate MakesDocument(r: Request, file: string) {
    && r.file == file
    && (r.Create? || r.Write? || r.Replicate? || (r.CheckpointOp? && ParseCommand(r.data).RevertTag?))
  }

  lemma StepLeavesAbsent(d: Disk, r: Request, file: string)
    requires WellFormed(d, r) && Absent(d, file) && !MakesDocument(r, file)
    ensures Absent(Step(d, r).0, file)
  {
    if r.CheckpointOp? && !ParseCommand(r.data).RevertTag? {
      OtherOpsKeepDocuments(d, r.file, r.data, r.time);
    }
  }

  lemma OtherOpsKeepDocuments(d: Disk, file: string, data: string, time: int)
    requires !ParseCommand(data).MissingTag? && !ParseCommand(data).RevertTag?
    ensures var d' := CheckpointOpStep(d, file, data, time).0;
            d'.files == d.files && d'.meta == d.meta && d'.undo == d.undo
  {
  }

  lemma {:induction false} RunLeavesAbsent(d: Disk, rs: seq<Request>, file: string)
    requires WellFormedRun(d, rs) && Absent(d, file) && forall i :: 0 <= i < |rs| ==> !MakesDocument(rs[i], file)
    ensures Absent(Run(d, rs), file)
    decreases |rs|
  {
    if rs != [] {
      StepLeavesAbsent(d, rs[0], file);
      RunLeavesAbsent(Step(d, rs[0]).0, rs[1..], file);
    }
  }

  /** A deleted document stays away until a request that writes it. */
  lemma DeletedStaysAway(d: Disk, user: string, file: string, rs: seq<Request>)
    requires WellFormed(d, Delete(user, file)) && Step(d, Delete(user, file)).1.Ok?
    requires WellFormedRun(Step(d, Delete(user, file)).0, rs)
    requires forall i :: 0 <= i < |rs| ==> !MakesDocument(rs[i], file)
    ensures Absent(Run(Step(d, Delete(user, file)).0, rs), file)
  {
    DeleteExactly(d, user, file);
    RunLeavesAbsent(Step(d, Delete(user, file)).0, rs, file);
  }

  // ----- STREAM and the statistics -----

  /** The words come in the order of the sentences, and within a sentence in its own order. */
  lemma {:induction false} StreamOrder(ss: seq<string>, i: nat, j: nat)
    requires i < |ss| && j < |Words(ss[i])|
    ensures WordAt(AllWordsOf(ss), ss, i, j)
  {
    var n := |ss| - 1;
    WordsCounted(ss[..n]);
    if i == n {
      assert ss[..i] == ss[..n];
    } else {
      assert ss[..n][..i] == ss[..i] && ss[..n][i] == ss[i];
      StreamOrder(ss[..n], i, j);
    }
  }

  /** These are the words of all the sentences, in order. */
  ghost predicate InOrder(words: seq<string>, ss: seq<string>) {
    |words| == CountWords(ss) && forall i: nat, j: nat :: i < |ss| && j < |Words(ss[i])| ==> WordAt(words, ss, i, j)
  }

  /** Word `j` of sentence `i` comes after all words of the earlier sentences. */
  predicate WordAt(words: seq<string>, ss: seq<string>, i: nat, j: nat)
    requires i < |ss| && j < |Words(ss[i])|
  {
    var k := CountWords(ss[..i]) + j;
    k < |words| && words[k] == Words(ss[i])[j]
  }

  lemma AllInOrder(ss: seq<string>)
    ensures InOrder(AllWordsOf(ss), ss)
  {
    WordsCounted(ss);
    forall i: nat, j: nat | i < |ss| && j < |Words(ss[i])| ensures WordAt(AllWordsOf(ss), ss, i, j) {
      StreamOrder(ss, i, j);
    }
  }

  lemma StreamExactly(d: Disk, user: string, file: string)
    requires Inv(d) && WellFormed(d, Stream(user, file)) && !IsBad(user, file)
    ensures var (d', reply) := Step(d, Stream(user, file));
            && d' == d
            && (file !in d.files ==> reply == Failed(FileNotFound))
            && (file in d.files ==> reply.Streamed? && InOrder(reply.words, Parse(d.files[file])))
  {
    ValidatesExactly(user, file);
    if file in d.files {
      StreamedWords(d, user, file);
      AllInOrder(Parse(d.files[file]));
    }
  }

  lemma StreamedWords(d: Disk, user: string, file: string)
    requires Inv(d) && WellFormed(d, Stream(user, file)) && Validates(user, file) && file in d.files
    ensures Step(d, Stream(user, file)) == (d, Streamed(AllWordsOf(Parse(d.files[file]))))
  {
    WholeText(d, file);
    assert Step(d, Stream(user, file)) == (d, StreamReply(d, user, file));
  }

  lemma WholeText(d: Disk, file: string)
    requires Inv(d) && file in d.files
    ensures Load(d.files[file]) == d.files[file]
  {
  }

  /** The number of words in all sentences, counted from the front. */
  function WordsIn(ss: seq<string>): nat {
    if ss == [] then 0 else |Words(ss[0])| + WordsIn(ss[1..])
  }

  lemma {:induction false} CountsAgree(ss: seq<string>)
    ensures CountWords(ss) == WordsIn(ss)
  {
    if |ss| == 1 {
      assert ss[..0] == [] && ss[1..] == [];
    } else if |ss| > 1 {
      var n := |ss| - 1;
      CountsAgree(ss[..n]);
      CountsAgree(ss[1..]);
      CountsAgree(ss[..n][1..]);
      assert ss[1..][..n - 1] == ss[..n][1..] && ss[1..][n - 1] == ss[n];
    }
  }

  /** In every reachable state a document's row gives its words, characters and sentences. */
  lemma RowsExactly(rs: seq<Request>, file: string)
    requires WellFormedRun(EMPTY_DISK, rs) && file in Run(EMPTY_DISK, rs).files
    ensures var d := Run(EMPTY_DISK, rs);
            && file in d.meta
            && d.meta[file] == Stats(WordsIn(Parse(d.files[file])), |d.files[file]|, |Parse(d.files[file])|)
  {
    RunKeepsInv(EMPTY_DISK, rs);
    CountsAgree(Parse(Run(EMPTY_DISK, rs).files[file]));
  }
}
