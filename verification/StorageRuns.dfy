/** What every run of a storage server keeps. */
module StorageRuns {
  import opened Options
  import opened Scan
  import opened Text
  import opened TextLoops
  import opened WordEdit
  import opened PlainText
  import opened StorageSpec

  // ----- the state invariant -----

  predicate Small(m: map<string, string>) {
    forall f :: f in m ==> |m[f]| < BUFFER_SIZE && NoNul(m[f])
  }

  /** Cached statistics are those of the current content; undo slots and checkpoint rows refer to
      things that exist; every stored text fits a buffer. */
  predicate Inv(d: Disk) {
    && d.meta.Keys == d.files.Keys
    && (forall f :: f in d.files ==> d.meta[f] == StatsOf(d.files[f]))
    && d.undo.Keys <= d.files.Keys
    && (forall i :: 0 <= i < |d.rows| ==> d.rows[i].checkpointFile in d.saved)
    && Small(d.files) && Small(d.undo) && Small(d.saved)
  }

  lemma EmptyTextStats()
    ensures StatsOf("") == Stats(0, 0, 0) && Parse("") == []
  {
    assert Segments("") == [];
    assert Keep([]) == [];
  }

  // ----- one step -----

  lemma SaveKeepsInv(d: Disk, file: string, content: string)
    requires Inv(d) && |content| < BUFFER_SIZE && NoNul(content)
    ensures Inv(Save(d, file, content))
  {
  }

  lemma SaveUndoKeepsInv(d: Disk, file: string)
    requires Inv(d)
    ensures Inv(SaveUndo(d, file))
  {
  }

  lemma FinishEditKeepsInv(d: Disk, file: string, result: EditResult)
    requires Inv(d) && (result.Edited? ==> |result.content| < BUFFER_SIZE && NoNul(result.content))
    ensures Inv(FinishEdit(d, file, result).0)
  {
    if result.Edited? {
      SaveKeepsInv(d, file, result.content);
    }
  }

  lemma EditedFits(content: string, e: Edit)
    requires NoNul(content) && NoNul(e.text) && FitsEdit(content, e)
    ensures var result := EditWord(content, e);
            result.Edited? ==> |result.content| < BUFFER_SIZE && NoNul(result.content)
  {
    if InRange(content, e) {
      EditNoNul(content, e);
    }
  }

  lemma WordCommandKeepsInv(d: Disk, file: string, content: string, e: Edit)
    requires Inv(d) && NoNul(content) && NoNul(e.text) && FitsEdit(content, e)
    ensures Inv(FinishEdit(SaveUndo(d, file), file, EditWord(content, e)).0)
  {
    SaveUndoKeepsInv(d, file);
    EditedFits(content, e);
    FinishEditKeepsInv(SaveUndo(d, file), file, EditWord(content, e));
  }

  lemma FullWriteKeepsInv(d: Disk, file: string, data: string)
    requires Inv(d) && |data| < BUFFER_SIZE && NoNul(data)
    ensures Inv(Save(SaveUndo(d, file), file, data))
  {
    SaveUndoKeepsInv(d, file);
    SaveKeepsInv(SaveUndo(d, file), file, data);
  }

  lemma WriteKeepsInv(d: Disk, user: string, file: string, data: string)
    requires Inv(d) && FitsBuffers(d, file, data)
    ensures Inv(WriteStep(d, user, file, data).0)
  {
    match ParseWrite(data)
    case FullWrite(_) => FullWriteKeepsInv(d, file, data);
    case WordCommand(sentence, word, text) =>
      if file in d.files {
        CommandTextNoNul(data);
        WordCommandKeepsInv(d, file, Load(d.files[file]), Edit(sentence, word, text));
      }
  }

  lemma {:induction false} FindRowIn(rows: seq<Row>, file: string, tag: string)
    ensures FindRow(rows, file, tag).Some? ==>
              exists i :: 0 <= i < |rows| && rows[i] == Row(file, tag, FindRow(rows, file, tag).value)
  {
    if rows != [] && !(rows[0].file == file && rows[0].tag == tag) {
      FindRowIn(rows[1..], file, tag);
      if FindRow(rows, file, tag).Some? {
        var i :| 0 <= i < |rows[1..]| && rows[1..][i] == Row(file, tag, FindRow(rows, file, tag).value);
        assert rows[i + 1] == rows[1..][i];
      }
    } else if rows != [] {
      assert rows[0] == Row(file, tag, rows[0].checkpointFile);
    }
  }

  lemma RevertKeepsInv(d: Disk, file: string, tag: string)
    requires Inv(d)
    ensures Inv(RevertStep(d, file, tag).0)
  {
    if RevertStep(d, file, tag).1.Ok? {
      SaveUndoKeepsInv(d, file);
      SaveKeepsInv(SaveUndo(d, file), file, Load(d.saved[FindRow(d.rows, file, tag).value]));
    }
  }

  lemma CreateKeepsInv(d: Disk, user: string, file: string)
    requires Inv(d)
    ensures Inv(CreateStep(d, user, file).0)
  {
    EmptyTextStats();
  }

  lemma DeleteKeepsInv(d: Disk, user: string, file: string)
    requires Inv(d)
    ensures Inv(DeleteStep(d, user, file).0)
  {
  }

  lemma UndoKeepsInv(d: Disk, user: string, file: string)
    requires Inv(d)
    ensures Inv(UndoStep(d, user, file).0)
  {
    if UndoStep(d, user, file).1.Ok? {
      SaveKeepsInv(d, file, Load(d.undo[file]));
    }
  }

  lemma SnapshotKeepsInv(d: Disk, row: Row, content: string)
    requires Inv(d) && |content| < BUFFER_SIZE && NoNul(content)
    ensures Inv(d.(saved := d.saved[row.checkpointFile := content], rows := d.rows + [row]))
  {
  }

  lemma CheckpointKeepsInv(d: Disk, file: string, tag: string, time: int)
    requires Inv(d)
    ensures Inv(CheckpointStep(d, file, tag, time).0)
  {
    if file in d.files {
      SnapshotKeepsInv(d, Row(file, tag, CheckpointName(file, tag, time)), Load(d.files[file]));
    }
  }

  lemma StepKeepsInv(d: Disk, r: Request)
    requires Inv(d) && WellFormed(d, r)
    ensures Inv(Step(d, r).0)
  {
    match r
    case Create(user, file) => CreateKeepsInv(d, user, file);
    case Read(_, _) =>
    case Write(user, file, data) => WriteKeepsInv(d, user, file, data);
    case Delete(user, file) => DeleteKeepsInv(d, user, file);
    case Stream(_, _) =>
    case Undo(user, file) => UndoKeepsInv(d, user, file);
    case Replicate(file, data) => SaveKeepsInv(d, file, data);
    case CheckpointOp(file, data, time) =>
      match ParseCommand(data) {
        case RevertTag(tag) => RevertKeepsInv(d, file, tag);
        case CreateTag(tag) => CheckpointKeepsInv(d, file, tag, time);
        case _ =>
      }
  }

  /** In every reachable state the metadata rows are those of the current contents. */
  lemma {:induction false} RunKeepsInv(d: Disk, rs: seq<Request>)
    requires Inv(d) && WellFormedRun(d, rs)
    ensures Inv(Run(d, rs))
    decreases |rs|
  {
    if rs != [] {
      StepKeepsInv(d, rs[0]);
      RunKeepsInv(Step(d, rs[0]).0, rs[1..]);
    }
  }

  lemma {:induction false} WordsCounted(ss: seq<string>)
    ensures |AllWordsOf(ss)| == CountWords(ss)
  {
    if ss != [] {
      WordsCounted(ss[..|ss| - 1]);
    }
  }

  /** An uninterrupted stream emits exactly as many words as the metadata row says. */
  lemma StreamMatchesStats(rs: seq<Request>, user: string, file: string)
    requires WellFormedRun(EMPTY_DISK, rs) && Validates(user, file)
    ensures var d := Run(EMPTY_DISK, rs);
            && (file in d.files <==> file in d.meta)
            && (file in d.files ==> StreamReply(d, user, file).Streamed?
                                    && |StreamReply(d, user, file).words| == d.meta[file].words)
  {
    RunKeepsInv(EMPTY_DISK, rs);
    var d := Run(EMPTY_DISK, rs);
    if file in d.files {
      WordsCounted(Parse(d.files[file]));
    }
  }

  // ----- what a write stores -----

  /** Data is stored verbatim in every state that has the document exactly when it does not have the
      shape of a word edit; it is then stored verbatim without the document, too. */
  lemma StoredVerbatim(user: string, file: string, data: string)
    requires Validates(user, file) && !Reserved(file) && |data| < BUFFER_SIZE && NoNul(data)
    ensures (forall d :: Inv(d) && WellFormed(d, Write(user, file, data)) && file in d.files ==>
               Stores(d, user, file, data))
            <==> ParseWrite(data).FullWrite?
    ensures ParseWrite(data).FullWrite? ==>
              forall d :: Inv(d) && WellFormed(d, Write(user, file, data)) ==> Stores(d, user, file, data)
  {
    if ParseWrite(data).WordCommand? {
      EmptyDocumentRefuses(user, file, data);
    }
  }

  predicate Stores(d: Disk, user: string, file: string, data: string)
    requires WellFormed(d, Write(user, file, data))
  {
    var (d', reply) := Step(d, Write(user, file, data));
    reply.Ok? && file in d'.files && d'.files[file] == data
  }

  function EmptyDocument(file: string): Disk {
    Disk(map[file := ""], map[], map[], [], map[file := Stats(0, 0, 0)])
  }

  /** An empty document has no sentence to edit. */
  lemma EmptyDocumentRefuses(user: string, file: string, data: string)
    requires Validates(user, file) && !Reserved(file) && |data| < BUFFER_SIZE && NoNul(data)
    requires ParseWrite(data).WordCommand?
    ensures var d := EmptyDocument(file);
            && Inv(d) && file in d.files && WellFormed(d, Write(user, file, data))
            && Step(d, Write(user, file, data)).1 == Failed(InvalidParam)
  {
    EmptyTextStats();
    assert Parse("") == [];
  }

  lemma ReadReturnsContent(d: Disk, user: string, file: string)
    requires Inv(d) && Validates(user, file)
    ensures ReadReply(d, user, file) == if file in d.files then Ok(d.files[file]) else Failed(FileNotFound)
  {
  }

  lemma {:induction false} CountWordsUpdate(ss: seq<string>, k: nat, t: string)
    requires k < |ss| && |Words(t)| == |Words(ss[k])|
    ensures CountWords(ss[k := t]) == CountWords(ss)
  {
    var n := |ss| - 1;
    if k == n {
      assert ss[k := t][..n] == ss[..n];
    } else {
      assert ss[k := t][..n] == ss[..n][k := t];
      CountWordsUpdate(ss[..n], k, t);
    }
  }

  lemma WholeLine(text: string)
    requires IsWord(text)
    ensures text[0] != '\n' && text[..SpanNot(text, '\n')] == text
  {
    assert SpanNot(text, '\n') < |text| ==> IsSpace(text[SpanNot(text, '\n')]);
  }

  lemma PrintedEdit(e: Edit)
    requires IsWord(e.text)
    ensures ParseWrite(PrintWordCommand(e.sentence, e.word, e.text)) == WordCommand(e.sentence, e.word, e.text)
  {
    WordCommandRoundTrip(e.sentence, e.word, e.text);
    WholeLine(e.text);
  }

  lemma EditKeepsCounts(content: string, e: Edit)
    requires EditOk(content, e)
    ensures EditWord(content, e).Edited?
    ensures Parse(EditWord(content, e).content) == NewSentences(content, e)
    ensures var after, before := StatsOf(EditWord(content, e).content), StatsOf(content);
            after.words == before.words && after.sentences == before.sentences
  {
    EditOkReadsBack(content, e);
    CountWordsUpdate(Parse(content), e.sentence, Join(NewWords(content, e)));
  }

  lemma EditStored(d: Disk, user: string, file: string, e: Edit, data: string)
    requires Validates(user, file) && file in d.files && |d.files[file]| < BUFFER_SIZE
    requires ParseWrite(data) == WordCommand(e.sentence, e.word, e.text)
    requires EditWord(d.files[file], e).Edited?
    ensures var (d', reply) := WriteStep(d, user, file, data);
            && reply.Ok? && file in d'.files && d'.files[file] == EditWord(d.files[file], e).content
            && file in d'.meta && d'.meta[file] == StatsOf(EditWord(d.files[file], e).content)
            && Slot(d', file) == Some(d.files[file])
  {
    assert Edit(e.sentence, e.word, e.text) == e;
    assert SaveUndo(d, file).undo == d.undo[file := d.files[file]];
  }

  /** A printed word edit, sent as a WRITE, is carried out as that edit; the saved document reads back
      with one word replaced, its word and sentence counts stay, and the old text can be undone. */
  lemma WordWrite(d: Disk, user: string, file: string, e: Edit)
    requires Inv(d) && Validates(user, file) && file in d.files && EditOk(d.files[file], e)
    requires FitsBuffers(d, file, PrintWordCommand(e.sentence, e.word, e.text))
    ensures Inv(WriteStep(d, user, file, PrintWordCommand(e.sentence, e.word, e.text)).0)
    ensures var (d', reply) := WriteStep(d, user, file, PrintWordCommand(e.sentence, e.word, e.text));
            && reply.Ok? && file in d'.files && file in d'.meta
            && Edited(d'.files[file]) == EditWord(d.files[file], e)
            && Parse(d'.files[file]) == NewSentences(d.files[file], e)
            && d'.meta[file].words == d.meta[file].words
            && d'.meta[file].sentences == d.meta[file].sentences
            && Slot(d', file) == Some(d.files[file])
  {
    PrintedEdit(e);
    EditKeepsCounts(d.files[file], e);
    EditStored(d, user, file, e, PrintWordCommand(e.sentence, e.word, e.text));
    WriteKeepsInv(d, user, file, PrintWordCommand(e.sentence, e.word, e.text));
  }

  // ----- frame -----

  lemma FinishEditFrame(d: Disk, file: string, result: EditResult, other: string)
    requires other != file && other in d.files
    ensures var d' := FinishEdit(d, file, result).0; other in d'.files && d'.files[other] == d.files[other]
  {
  }

  lemma WriteFrame(d: Disk, user: string, file: string, data: string, other: string)
    requires other != file && other in d.files
    ensures var d' := WriteStep(d, user, file, data).0; other in d'.files && d'.files[other] == d.files[other]
  {
    var cmd := ParseWrite(data);
    if file in d.files && cmd.WordCommand? {
      FinishEditFrame(SaveUndo(d, file), file,
                      EditWord(Load(d.files[file]), Edit(cmd.sentence, cmd.word, cmd.text)), other);
    }
  }

  lemma CheckpointOpFrame(d: Disk, file: string, data: string, time: int, other: string)
    requires other != file && other in d.files && !ParseCommand(data).MissingTag?
    ensures var d' := CheckpointOpStep(d, file, data, time).0;
            other in d'.files && d'.files[other] == d.files[other]
  {
  }

  /** A request on one document leaves the content of every other one alone. */
  lemma StepTouchesOne(d: Disk, r: Request, other: string)
    requires WellFormed(d, r) && r.file != other && other in d.files
    ensures other in Step(d, r).0.files && Step(d, r).0.files[other] == d.files[other]
  {
    match r
    case Write(user, file, data) => WriteFrame(d, user, file, data, other);
    case CheckpointOp(file, data, time) => CheckpointOpFrame(d, file, data, time, other);
    case _ =>
  }

  lemma CheckpointsKeepFiles(d: Disk, file: string, data: string, time: int)
    requires !ParseCommand(data).MissingTag? && !ParseCommand(data).RevertTag?
    ensures CheckpointOpStep(d, file, data, time).0.files == d.files
  {
  }

  // ----- undo -----

  /** A validated write that finds the file, even one that is then rejected for a bad position, and a
      successful revert that finds it, put the current content into the undo slot. */
  predicate SavesSlot(d: Disk, r: Request, file: string)
    requires WellFormed(d, r)
  {
    && r.file == file && file in d.files
    && ((r.Write? && Validates(r.user, file))
        || (r.CheckpointOp? && ParseCommand(r.data).RevertTag? && Step(d, r).1.Ok?))
  }

  predicate Removes(d: Disk, r: Request, file: string)
    requires WellFormed(d, r)
  {
    r.Delete? && r.file == file && Step(d, r).1.Ok?
  }

  function Slot(d: Disk, file: string): Option<string> {
    if file in d.undo then Some(d.undo[file]) else None
  }

  lemma UndoStepTwice(d: Disk, user: string, file: string)
    requires Inv(d) && Validates(user, file) && file in d.files && file in d.undo
    ensures var d2 := UndoStep(UndoStep(d, user, file).0, user, file).0;
            file in d2.files && d2.files[file] == d.undo[file]
  {
  }

  /** A second UNDO is a redo only if the first one changed nothing. */
  lemma UndoIsNoRedo(d: Disk, user: string, file: string)
    requires Inv(d) && Validates(user, file) && !Reserved(file) && file in d.files && file in d.undo
    ensures var d2 := Step(Step(d, Undo(user, file)).0, Undo(user, file)).0;
            file in d2.files && (d2.files[file] == d.files[file] <==> d.undo[file] == d.files[file])
  {
    UndoStepTwice(d, user, file);
    UndoIsStep(d, user, file);
    UndoIsStep(UndoStep(d, user, file).0, user, file);
  }

  /** The request is a word edit that finds its document. */
  predicate EditsWord(d: Disk, r: Request) {
    r.Write? && Validates(r.user, r.file) && ParseWrite(r.data).WordCommand? && r.file in d.files
  }

  lemma RefusedWrite(d: Disk, user: string, file: string, data: string)
    requires Inv(d) && WriteStep(d, user, file, data).1.Failed?
    ensures WriteStep(d, user, file, data).0
            == if EditsWord(d, Write(user, file, data)) then d.(undo := d.undo[file := d.files[file]]) else d
  {
  }

  lemma SlotUnchanged(d: Disk, file: string)
    requires file in d.files
    ensures d.(undo := d.undo[file := d.files[file]]) == d <==> Slot(d, file) == Some(d.files[file])
  {
    if Slot(d, file) == Some(d.files[file]) {
      assert d.undo[file := d.files[file]] == d.undo;
    } else {
      assert Slot(d.(undo := d.undo[file := d.files[file]]), file) == Some(d.files[file]);
    }
  }

  lemma OtherRefusals(d: Disk, r: Request)
    requires WellFormed(d, r) && Step(d, r).1.Failed? && !r.Write?
    ensures Step(d, r).0 == d
  {
  }

  /** A refused request changes nothing, unless it is a word edit at a bad position: that one has already
      overwritten the slot, which shows exactly when the slot was not the current text before. */
  lemma RefusalsExactly(d: Disk, r: Request)
    requires Inv(d) && WellFormed(d, r) && Step(d, r).1.Failed?
    ensures Step(d, r).0 != d <==> EditsWord(d, r) && Slot(d, r.file) != Some(d.files[r.file])
  {
    if r.Write? {
      RefusedWrite(d, r.user, r.file, r.data);
      if EditsWord(d, r) {
        SlotUnchanged(d, r.file);
      }
    } else {
      OtherRefusals(d, r);
    }
  }

  lemma FinishEditSlot(d: Disk, file: string, result: EditResult)
    ensures FinishEdit(d, file, result).0.undo == d.undo
  {
  }

  lemma WriteSlot(d: Disk, r: Request, file: string)
    requires Inv(d) && WellFormed(d, r) && r.Write?
    ensures Slot(Step(d, r).0, file) == if SavesSlot(d, r, file) then Some(d.files[file]) else Slot(d, file)
  {
    if r.file in d.files {
      var cmd := ParseWrite(r.data);
      assert SaveUndo(d, r.file).undo == d.undo[r.file := d.files[r.file]];
      if cmd.WordCommand? {
        var result := EditWord(Load(d.files[r.file]), Edit(cmd.sentence, cmd.word, cmd.text));
        FinishEditSlot(SaveUndo(d, r.file), r.file, result);
      }
    }
  }

  lemma RevertSlot(d: Disk, file: string, tag: string)
    requires Inv(d)
    ensures RevertStep(d, file, tag).0.undo
            == if RevertStep(d, file, tag).1.Ok? && file in d.files then d.undo[file := d.files[file]] else d.undo
  {
  }

  lemma CheckpointsKeepUndo(d: Disk, file: string, data: string, time: int)
    requires !ParseCommand(data).MissingTag? && !ParseCommand(data).RevertTag?
    ensures CheckpointOpStep(d, file, data, time).0.undo == d.undo
  {
  }

  lemma CheckpointOpSlot(d: Disk, r: Request, file: string)
    requires Inv(d) && WellFormed(d, r) && r.CheckpointOp?
    ensures Slot(Step(d, r).0, file) == if SavesSlot(d, r, file) then Some(d.files[file]) else Slot(d, file)
  {
    var cmd := ParseCommand(r.data);
    if cmd.RevertTag? {
      RevertSlot(d, r.file, cmd.tag);
      assert Step(d, r) == RevertStep(d, r.file, cmd.tag);
    } else {
      CheckpointsKeepUndo(d, r.file, r.data, r.time);
      assert Step(d, r) == CheckpointOpStep(d, r.file, r.data, r.time);
    }
  }

  lemma DeleteSlot(d: Disk, r: Request, file: string)
    requires Inv(d) && WellFormed(d, r) && r.Delete?
    ensures Slot(Step(d, r).0, file) == if Removes(d, r, file) then None else Slot(d, file)
  {
  }

  /** What one request does to the slot of a file. */
  lemma StepSlot(d: Disk, r: Request, file: string)
    requires Inv(d) && WellFormed(d, r)
    ensures Slot(Step(d, r).0, file)
            == if SavesSlot(d, r, file) then Some(d.files[file])
               else if Removes(d, r, file) then None
               else Slot(d, file)
  {
    match r
    case Write(_, _, _) => WriteSlot(d, r, file);
    case CheckpointOp(_, _, _) => CheckpointOpSlot(d, r, file);
    case Delete(_, _) => DeleteSlot(d, r, file);
    case _ =>
  }

  /** No request of the run saves a new slot for the file or deletes it. */
  predicate LeavesSlot(d: Disk, rs: seq<Request>, file: string)
    requires WellFormedRun(d, rs)
    decreases |rs|
  {
    rs == [] || (!SavesSlot(d, rs[0], file) && !Removes(d, rs[0], file)
                 && LeavesSlot(Step(d, rs[0]).0, rs[1..], file))
  }

  /** The state before request `i` of a run. */
  function StateBefore(d: Disk, rs: seq<Request>, i: nat): (d': Disk)
    requires WellFormedRun(d, rs) && i <= |rs|
    ensures WellFormedRun(d', rs[i..])
    decreases |rs|
  {
    if i == 0 then assert rs[0..] == rs; d
    else assert rs[1..][i - 1..] == rs[i..]; StateBefore(Step(d, rs[0]).0, rs[1..], i - 1)
  }

  /** Request `i` saved content `c` as the slot of the file, and nothing after it touched the slot. */
  predicate SavedLast(d: Disk, rs: seq<Request>, file: string, i: nat, c: string)
    requires WellFormedRun(d, rs) && i < |rs|
  {
    var d' := StateBefore(d, rs, i);
    assert rs[i..][0] == rs[i] && rs[i..][1..] == rs[i + 1..];
    && SavesSlot(d', rs[i], file) && d'.files[file] == c
    && LeavesSlot(Step(d', rs[i]).0, rs[i + 1..], file)
  }

  lemma SavedLastShift(d: Disk, rs: seq<Request>, file: string, i: nat, c: string)
    requires WellFormedRun(d, rs) && 0 < i < |rs|
    ensures SavedLast(d, rs, file, i, c) == SavedLast(Step(d, rs[0]).0, rs[1..], file, i - 1, c)
  {
    assert rs[1..][i - 1] == rs[i] && rs[1..][i..] == rs[i + 1..];
  }

  /** The undo slot is the content just before the last request that saved it, if the file was not
      deleted since; a slot that was there from the start survives until then. */
  lemma {:induction false} SlotHistory(d: Disk, rs: seq<Request>, file: string, c: string)
    requires Inv(d) && WellFormedRun(d, rs)
    ensures Slot(Run(d, rs), file) == Some(c)
            <==> (exists i :: 0 <= i < |rs| && SavedLast(d, rs, file, i, c))
                 || (LeavesSlot(d, rs, file) && Slot(d, file) == Some(c))
    decreases |rs|
  {
    if rs != [] {
      var d', rest := Step(d, rs[0]).0, rs[1..];
      StepKeepsInv(d, rs[0]);
      StepSlot(d, rs[0], file);
      SlotHistory(d', rest, file, c);
      forall i | 0 < i < |rs| ensures SavedLast(d, rs, file, i, c) == SavedLast(d', rest, file, i - 1, c) {
        SavedLastShift(d, rs, file, i, c);
      }
      SavedFirst(d, rs, file, c);
      if i :| 0 <= i < |rest| && SavedLast(d', rest, file, i, c) {
        assert SavedLast(d, rs, file, i + 1, c);
      }
      if i :| 0 <= i < |rs| && SavedLast(d, rs, file, i, c) {
        assert i == 0 || SavedLast(d', rest, file, i - 1, c);
      }
    }
  }

  lemma SavedFirst(d: Disk, rs: seq<Request>, file: string, c: string)
    requires WellFormedRun(d, rs) && rs != []
    ensures SavedLast(d, rs, file, 0, c)
            <==> SavesSlot(d, rs[0], file) && d.files[file] == c && LeavesSlot(Step(d, rs[0]).0, rs[1..], file)
  {
  }

  lemma StepKeepsFile(d: Disk, r: Request, file: string)
    requires WellFormed(d, r) && file in d.files && !Removes(d, r, file)
    ensures file in Step(d, r).0.files
  {
  }

  lemma {:induction false} LeftSlotStays(d: Disk, rs: seq<Request>, file: string)
    requires Inv(d) && WellFormedRun(d, rs) && LeavesSlot(d, rs, file)
    requires file in d.files && file in d.undo
    ensures var d' := Run(d, rs);
            Inv(d') && file in d'.files && file in d'.undo && d'.undo[file] == d.undo[file]
    decreases |rs|
  {
    if rs != [] {
      StepKeepsInv(d, rs[0]);
      StepSlot(d, rs[0], file);
      StepKeepsFile(d, rs[0], file);
      LeftSlotStays(Step(d, rs[0]).0, rs[1..], file);
    }
  }

  lemma UndoIsStep(d: Disk, user: string, file: string)
    requires !Reserved(file)
    ensures WellFormed(d, Undo(user, file)) && Step(d, Undo(user, file)) == UndoStep(d, user, file)
  {
  }

  lemma UndoStepRestores(d: Disk, w: Request, rs: seq<Request>, user: string)
    requires Inv(d) && WellFormed(d, w) && SavesSlot(d, w, w.file)
    requires WellFormedRun(Step(d, w).0, rs) && LeavesSlot(Step(d, w).0, rs, w.file)
    requires Validates(user, w.file)
    ensures var (d', reply) := UndoStep(Run(Step(d, w).0, rs), user, w.file);
            reply.Ok? && w.file in d'.files && d'.files[w.file] == d.files[w.file]
  {
    StepKeepsInv(d, w);
    StepSlot(d, w, w.file);
    StepKeepsFile(d, w, w.file);
    LeftSlotStays(Step(d, w).0, rs, w.file);
  }

  /** After a write or revert that found the file, an UNDO gives back the content before it -- also
      after other UNDOs, replications, reads and anything done to other files. */
  lemma UndoRestores(d: Disk, w: Request, rs: seq<Request>, user: string)
    requires Inv(d) && WellFormed(d, w) && SavesSlot(d, w, w.file)
    requires WellFormedRun(Step(d, w).0, rs) && LeavesSlot(Step(d, w).0, rs, w.file)
    requires Validates(user, w.file)
    ensures var (d', reply) := Step(Run(Step(d, w).0, rs), Undo(user, w.file));
            reply.Ok? && w.file in d'.files && d'.files[w.file] == d.files[w.file]
  {
    UndoStepRestores(d, w, rs, user);
    UndoIsStep(Run(Step(d, w).0, rs), user, w.file);
  }

  /** UNDO leaves the slot alone, so any number of UNDOs in a row counts as such a run. */
  lemma {:induction false} UndosLeaveSlot(d: Disk, rs: seq<Request>, file: string)
    requires WellFormedRun(d, rs)
    requires forall i :: 0 <= i < |rs| ==> rs[i].Undo?
    ensures LeavesSlot(d, rs, file)
    decreases |rs|
  {
    if rs != [] {
      UndosLeaveSlot(Step(d, rs[0]).0, rs[1..], file);
    }
  }
}
