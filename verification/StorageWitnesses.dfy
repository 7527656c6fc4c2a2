/** Runs of a storage server after which it does not do what one might expect of it.  The conditions
    under which it does are exact, and are proved for all states beside the operations.
 */
module StorageWitnesses {
  import opened Options
  import opened Scan
  import opened Location
  import opened Text
  import opened TextLoops
  import opened WordEdit
  import opened StorageSpec
  import opened StorageRuns
  import opened Checkpoints

  // ----- building a state -----

  /** A short name of letters and underscores. */
  predicate Letters(file: string) {
    && 0 < |file| <= 3
    && forall i :: 0 <= i < |file| ==> 'a' <= file[i] <= 'z' || file[i] == '_'
  }

  lemma DotsHaveDots(s: string)
    ensures Contains(s, "..") ==> !Avoids(s, '.')
  {
    if i: nat :| i <= |s| && At(s, "..", i) {
      AtChar(s, "..", i, 0);
    }
  }

  lemma LettersAreValid(file: string)
    requires Letters(file)
    ensures ValidName(file) && !Reserved(file)
  {
    ContainsSlash(file);
    DotsHaveDots(file);
    assert file[0] != "."[0];
  }

  /** Text that begins with a letter is never taken for a word edit. */
  predicate Typed(data: string) {
    data != "" && 'a' <= data[0] <= 'z' && |data| < BUFFER_SIZE && NoNul(data)
  }

  lemma TypedIsFullWrite(data: string)
    requires Typed(data)
    ensures ParseWrite(data).FullWrite?
  {
    assert SkipCSpace(data) == data && DigitSpan(data) == 0;
  }

  lemma AfterCreate(d: Disk, user: string, file: string)
    requires Inv(d) && user != "" && Letters(file) && file !in d.files
    ensures WellFormed(d, Create(user, file)) && Inv(Step(d, Create(user, file)).0)
    ensures var (d', reply) := Step(d, Create(user, file));
            && reply.Ok? && d'.files == d.files[file := ""]
            && d'.undo == d.undo && d'.rows == d.rows && d'.saved == d.saved
  {
    LettersAreValid(file);
    CreateKeepsInv(d, user, file);
  }

  lemma AfterFullWrite(d: Disk, user: string, file: string, data: string)
    requires Inv(d) && user != "" && Letters(file) && file in d.files && Typed(data)
    ensures WellFormed(d, Write(user, file, data)) && Inv(Step(d, Write(user, file, data)).0)
    ensures var (d', reply) := Step(d, Write(user, file, data));
            && reply.Ok? && d'.files == d.files[file := data]
            && d'.undo == d.undo[file := d.files[file]] && d'.rows == d.rows && d'.saved == d.saved
  {
    LettersAreValid(file);
    TypedIsFullWrite(data);
    FullWriteKeepsInv(d, file, data);
  }

  /** One step of a run. */
  predicate Makes(d: Disk, r: Request, d': Disk) {
    WellFormed(d, r) && Step(d, r).0 == d'
  }

  lemma TwoSteps(d0: Disk, r1: Request, d1: Disk, r2: Request, d2: Disk)
    requires Makes(d0, r1, d1) && Makes(d1, r2, d2)
    ensures WellFormedRun(d0, [r1, r2]) && Run(d0, [r1, r2]) == d2
  {
    assert [r1, r2][1..] == [r2] && [r2][1..] == [];
    assert Run(d1, [r2]) == Run(d2, []);
  }

  lemma ThreeSteps(d0: Disk, r1: Request, d1: Disk, r2: Request, d2: Disk, r3: Request, d3: Disk)
    requires Makes(d0, r1, d1) && Makes(d1, r2, d2) && Makes(d2, r3, d3)
    ensures WellFormedRun(d0, [r1, r2, r3]) && Run(d0, [r1, r2, r3]) == d3
  {
    TwoSteps(d1, r2, d2, r3, d3);
    assert [r1, r2, r3][1..] == [r2, r3];
  }

  lemma ThenCreate(d: Disk, user: string, file: string) returns (d': Disk)
    requires Inv(d) && user != "" && Letters(file) && file !in d.files
    ensures Makes(d, Create(user, file), d') && Inv(d')
    ensures d'.files == d.files[file := ""] && d'.undo == d.undo && d'.rows == d.rows
  {
    AfterCreate(d, user, file);
    d' := Step(d, Create(user, file)).0;
  }

  lemma ThenWrite(d: Disk, user: string, file: string, data: string) returns (d': Disk)
    requires Inv(d) && user != "" && Letters(file) && file in d.files && Typed(data)
    ensures Makes(d, Write(user, file, data), d') && Inv(d')
    ensures d'.files == d.files[file := data] && d'.undo == d.undo[file := d.files[file]] && d'.rows == d.rows
  {
    AfterFullWrite(d, user, file, data);
    d' := Step(d, Write(user, file, data)).0;
  }

  function Written(data: string): seq<Request> {
    [Create("u", "d"), Write("u", "d", data)]
  }

  /** One document with some text. */
  lemma OneText(data: string) returns (d: Disk)
    requires Typed(data)
    ensures WellFormedRun(EMPTY_DISK, Written(data)) && d == Run(EMPTY_DISK, Written(data))
    ensures Inv(d) && "d" in d.files && d.files["d"] == data && "d" in d.undo && d.undo["d"] == ""
  {
    var d1 := ThenCreate(EMPTY_DISK, "u", "d");
    d := ThenWrite(d1, "u", "d", data);
    TwoSteps(EMPTY_DISK, Create("u", "d"), d1, Write("u", "d", data), d);
  }

  // ----- undo -----

  /** UNDO twice after a write: the written text does not come back. */
  lemma NoRedo()
    ensures WellFormedRun(EMPTY_DISK, Written("x"))
    ensures var d := Run(EMPTY_DISK, Written("x"));
            var d2 := UndoStep(UndoStep(d, "u", "d").0, "u", "d").0;
            "d" in d.files && d.files["d"] == "x" && "d" in d2.files && d2.files["d"] == ""
  {
    var d := OneText("x");
    LettersAreValid("d");
  }

  /** A word edit in an empty document is refused, yet it leaves a slot behind. */
  lemma RefusedButChanged()
    ensures WellFormedRun(EMPTY_DISK, [Create("u", "d")])
    ensures var d, r := Run(EMPTY_DISK, [Create("u", "d")]), Write("u", "d", PrintWordCommand(0, 0, "x"));
            && WellFormed(d, r)
            && Step(d, r).1 == Failed(InvalidParam)
            && Slot(d, "d") == None && Slot(Step(d, r).0, "d") == Some("")
  {
    LettersAreValid("d");
    AfterCreate(EMPTY_DISK, "u", "d");
    var d := Step(EMPTY_DISK, Create("u", "d")).0;
    assert [Create("u", "d")][1..] == [] && Run(d, []) == d;
    assert d == EmptyDocument("d");
    PrintedEdit(Edit(0, 0, "x"));
    ShortCommand(PrintWordCommand(0, 0, "x"));
    EmptyDocumentRefuses("u", "d", PrintWordCommand(0, 0, "x"));
    StepSlot(d, Write("u", "d", PrintWordCommand(0, 0, "x")), "d");
  }

  lemma ShortCommand(data: string)
    requires data == PrintWordCommand(0, 0, "x")
    ensures |data| < BUFFER_SIZE && NoNul(data)
  {
    assert PrintInt(0) == "0";
    assert data == "0" + ("|" + ("0" + ("|" + "x")));
  }

  // ----- checkpoints -----

  /** A tag with a slash names no file that could be opened. */
  lemma SlashInTag(d: Disk, time: int)
    requires "doc" in d.files
    ensures CheckpointStep(d, "doc", "v1/2", time) == (d, Failed(ServerError))
  {
    var name := CheckpointName("doc", "v1/2", time);
    assert name[6] == '/';
    ContainsSlash(name);
  }

  function TwoDocuments(f1: string, f2: string, data: string): seq<Request> {
    [Create("u", f1), Create("u", f2), Write("u", f1, data)]
  }

  /** The first one with some text, the second one empty. */
  lemma TwoTexts(f1: string, f2: string, data: string) returns (d: Disk)
    requires Letters(f1) && Letters(f2) && f1 != f2 && Typed(data)
    ensures WellFormedRun(EMPTY_DISK, TwoDocuments(f1, f2, data))
    ensures d == Run(EMPTY_DISK, TwoDocuments(f1, f2, data))
    ensures Inv(d) && f1 in d.files && d.files[f1] == data && f2 in d.files && d.files[f2] == "" && d.rows == []
  {
    var d1 := ThenCreate(EMPTY_DISK, "u", f1);
    var d2 := ThenCreate(d1, "u", f2);
    d := ThenWrite(d2, "u", f1, data);
    ThreeSteps(EMPTY_DISK, Create("u", f1), d1, Create("u", f2), d2, Write("u", f1, data), d);
  }

  lemma Mixed(f1: string, t1: string, f2: string, t2: string, data: string, time: int)
    requires Letters(f1) && Letters(f2) && f1 != f2 && Typed(data) && Avoids(t1, '/')
    requires CheckpointName(f1, t1, time) == CheckpointName(f2, t2, time)
    ensures WellFormedRun(EMPTY_DISK, TwoDocuments(f1, f2, data))
    ensures var d := Run(EMPTY_DISK, TwoDocuments(f1, f2, data));
            var now := CheckpointStep(CheckpointStep(d, f1, t1, time).0, f2, t2, time).0;
            var (reverted, reply) := RevertStep(now, f1, t1);
            && f1 in d.files && d.files[f1] == data
            && reply.Ok? && f1 in reverted.files && reverted.files[f1] == ""
  {
    var d := TwoTexts(f1, f2, data);
    NoSlash(f1, t1, time);
    ClashMixesDocuments(d, f1, t1, f2, t2, time);
  }

  /** Tag "b_c" of file "a" and tag "c" of the empty file "a_b", used in the same second: reverting "a"
      gives it the text of "a_b". */
  lemma MixedCheckpoints(time: int)
    ensures WellFormedRun(EMPTY_DISK, TwoDocuments("a", "a_b", "x"))
    ensures var d := Run(EMPTY_DISK, TwoDocuments("a", "a_b", "x"));
            var now := CheckpointStep(CheckpointStep(d, "a", "b_c", time).0, "a_b", "c", time).0;
            var (reverted, reply) := RevertStep(now, "a", "b_c");
            && "a" in d.files && d.files["a"] == "x"
            && reply.Ok? && "a" in reverted.files && reverted.files["a"] == ""
  {
    UnderscoresCollide(time);
    Mixed("a", "b_c", "a_b", "c", "x", time);
  }
}
