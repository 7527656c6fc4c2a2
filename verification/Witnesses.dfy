/** Inputs at which the program does not do what one might expect of it.  The conditions under which it
    does are exact, and are proved for all inputs beside the operations they belong to.
 */
module Witnesses {
  import opened Options
  import opened Scan
  import opened Location
  import opened Text
  import opened Conservation
  import opened WordEdit
  import opened ClientWrite
  import NS = NameServerSpec
  import NR = NameServerRuns
  import NB = NameServerBalance
  import SS = StorageSpec
  import V = Versions
  import SW = StorageWitnesses

  // ----- the text engine -----

  function Repeat(c: char, n: nat): string {
    seq(n, _ => c)
  }

  lemma KeepTwo(s1: string, s2: string)
    requires Clean(s1) != "" && Clean(s2) != ""
    ensures Keep([s1, s2]) == [Clean(s1), Clean(s2)]
  {
    assert [s1, s2][1..] == [s2] && [s2][1..] == [];
    assert Keep([]) == [];
  }

  /** Two raw pieces. */
  lemma ParseTwo(s1: string, s2: string)
    requires DelimOnlyAtEnd(s1) && EndsInDelim(s1) && DelimOnlyAtEnd(s2) && s2 != ""
    requires Clean(s1) != "" && Clean(s2) != ""
    ensures Parse(s1 + s2) == [Clean(s1), Clean(s2)]
  {
    SegmentsFirst(s1, s2);
    SegmentsOne(s2);
    assert [s1] + [s2] == [s1, s2];
    KeepTwo(s1, s2);
  }

  /** A document whose second sentence, written without a blank before it, fills the buffer: rebuilding
      the document cuts it. */
  lemma FullSentence()
    ensures var content := "a." + Repeat('b', 1023);
            && Parse(content) == ["a.", Repeat('b', 1023)]
            && Parse(Join(Parse(content))) != Parse(content)
  {
    var b := Repeat('b', 1023);
    CleanSentence("a.");
    CleanSentence(b);
    ParseTwo("a.", b);
    FullSentenceIsCut(["a.", b], 1);
  }

  /** A first sentence that is cut inside loses its delimiter, and the rebuilt document has one
      sentence less. */
  lemma MergedSentences()
    ensures var content := Repeat('a', 1023) + "." + " b.";
            && Parse(content) == [Repeat('a', 1023), "b."]
            && |Parse(Join(Parse(content)))| < 2
  {
    var a := Repeat('a', 1023);
    CutAtDelim(a);
    CleanSentence("b.");
    CleanSpaced("b.");
    assert EndsInDelim(a + ".") && DelimOnlyAtEnd(a + ".");
    ParseTwo(a + ".", " b.");
    MergedSentencesAreLost([a, "b."], 0);
  }

  lemma CutAtDelim(a: string)
    requires IsSentence(a) && |a| == MAX_SENTENCE - 1
    ensures Clean(a + ".") == a
  {
    assert Take(a + ".", MAX_SENTENCE - 1) == a;
    CleanSentence(a);
  }

  /** A word of 127 characters stays, one of 128 loses its last. */
  lemma LongWords()
    ensures Words(Repeat('a', 127)) == [Repeat('a', 127)]
    ensures Words(Repeat('a', 128)) != [Repeat('a', 128)]
  {
    OneWordList(Repeat('a', 127));
    OneWordList(Repeat('a', 128));
  }

  lemma OneWordList(w: string)
    requires IsWord(w)
    ensures Words(w) == [w] <==> |w| <= MAX_WORD - 1
  {
    WordRoundTrip([w], MAX_WORDS_PER_SENTENCE);
    assert Join([w]) == w;
  }

  /** A sentence keeps a hundred words, not one more. */
  lemma ManyWords()
    ensures var ws := seq(100, _ => "a"); Words(Join(ws)) == ws
    ensures var ws := seq(101, _ => "a"); Words(Join(ws)) != ws
  {
    WordRoundTrip(seq(100, _ => "a"), MAX_WORDS_PER_SENTENCE);
    WordRoundTrip(seq(101, _ => "a"), MAX_WORDS_PER_SENTENCE);
  }

  /** Each of the three marks ends a sentence, and a comma does not. */
  lemma Marks(c: char)
    ensures c == '.' || c == '!' || c == '?' ==> Parse("a" + [c] + "b") == ["a" + [c], "b"]
    ensures c == ',' || c == ';' || c == ':' ==> Parse("a" + [c] + "b") == ["a" + [c] + "b"]
  {
    if c == '.' || c == '!' || c == '?' {
      CleanSentence("a" + [c]);
      CleanSentence("b");
      ParseTwo("a" + [c], "b");
    } else if c == ',' || c == ';' || c == ':' {
      assert Join(["a" + [c] + "b"]) == "a" + [c] + "b";
      RoundTrip(["a" + [c] + "b"]);
    }
  }

  /** Blank, tab, line feed and carriage return separate words; a form feed does not. */
  lemma Blanks(c: char)
    ensures c == ' ' || c == '\t' || c == '\n' || c == '\r' ==> Tokens("a" + [c] + "b") == ["a", "b"]
    ensures Tokens("a\U{000c}b") == ["a\U{000c}b"]
  {
    if c == ' ' || c == '\t' || c == '\n' || c == '\r' {
      TokensFirst([c], "b", "");
      TokensFirst("", "a", [c] + "b");
      assert [c] + "b" + "" == [c] + "b" && "" + "a" + ([c] + "b") == "a" + [c] + "b";
    }
    TokenOnly("a\U{000c}b");
  }

  lemma TokenOnly(w: string)
    requires IsWord(w)
    ensures Tokens(w) == [w]
  {
    TokensOfJoin([w]);
    assert Join([w]) == w;
  }

  // ----- two sessions on different sentences -----

  lemma JoinTwo(w1: string, w2: string)
    ensures Join([w1, w2]) == w1 + " " + w2
  {
    assert [w1, w2][1..] == [w2] && Join([w2]) == w2;
  }

  /** A sentence that is a single word. */
  predicate OneWord(w: string) {
    IsSentence(w) && IsWord(w) && EndsInDelim(w) && |w| < MAX_WORD
  }

  lemma OneWordOnly(w: string)
    requires OneWord(w)
    ensures Words(w) == [w]
  {
    WordRoundTrip([w], MAX_WORDS_PER_SENTENCE);
    assert Join([w]) == w;
  }

  lemma ParsePair(w1: string, w2: string)
    requires OneWord(w1) && OneWord(w2)
    ensures Parse(w1 + " " + w2) == [w1, w2]
  {
    JoinTwo(w1, w2);
    RoundTrip([w1, w2]);
  }

  /** What a session makes of a one-word sentence whose word it replaces. */
  lemma ReplaceWord(content: string, ss: seq<string>, n: nat, w: string)
    requires Parse(content) == ss && n < |ss| && Words(ss[n]) == [ss[n]]
    requires IsToken(w) && |w| < MAX_WORD && |PrintLine(0, w)| < MAX_LINE
    ensures NewSentence(content, n, [PrintLine(0, w)]) == w
    ensures ClientEdit(content, n, [PrintLine(0, w)]) == Some(Join(ss[n := w]))
    ensures LinesFit([PrintLine(0, w)])
  {
    TypedWord([ss[n]], 0, w);
    assert [ss[n]][0 := w] == [w] && Join([w]) == w;
  }

  lemma ReplacementStays(content: string, ss: seq<string>, n: nat, w: string)
    requires Parse(content) == ss && Canonical(ss) && n < |ss| && Words(ss[n]) == [ss[n]] && EndsInDelim(ss[n])
    requires OneWord(w) && IsToken(w) && |PrintLine(0, w)| < MAX_LINE && |Join(ss[n := w])| < BUFFER_SIZE
    ensures StaysCanonical(content, n, [PrintLine(0, w)])
  {
    ReplaceWord(content, ss, n, w);
    CanonicalUpdate(ss, n, w);
  }

  /** A letter and a full stop. */
  predicate Dotted(w: string) {
    |w| == 2 && 'a' <= w[0] <= 'z' && w[1] == '.'
  }

  lemma DottedWord(w: string)
    requires Dotted(w)
    ensures OneWord(w) && IsToken(w) && |PrintLine(0, w)| < MAX_LINE
  {
    assert |PrintInt(0)| == 1;
  }

  lemma FirstOfPair(w1: string, w2: string, w: string)
    requires Dotted(w1) && Dotted(w2) && Dotted(w)
    ensures StaysCanonical(w1 + " " + w2, 0, [PrintLine(0, w)])
    ensures ClientEdit(w1 + " " + w2, 0, [PrintLine(0, w)]) == Some(w + " " + w2)
  {
    DottedPair(w1, w2);
    DottedWord(w);
    assert [w1, w2][0 := w] == [w, w2];
    JoinTwo(w, w2);
    ReplaceWord(w1 + " " + w2, [w1, w2], 0, w);
    ReplacementStays(w1 + " " + w2, [w1, w2], 0, w);
  }

  lemma SecondOfPair(w1: string, w2: string, w: string)
    requires Dotted(w1) && Dotted(w2) && Dotted(w)
    ensures StaysCanonical(w1 + " " + w2, 1, [PrintLine(0, w)])
    ensures ClientEdit(w1 + " " + w2, 1, [PrintLine(0, w)]) == Some(w1 + " " + w)
  {
    DottedPair(w1, w2);
    DottedWord(w);
    assert [w1, w2][1 := w] == [w1, w];
    JoinTwo(w1, w);
    ReplaceWord(w1 + " " + w2, [w1, w2], 1, w);
    ReplacementStays(w1 + " " + w2, [w1, w2], 1, w);
  }

  lemma DottedPair(w1: string, w2: string)
    requires Dotted(w1) && Dotted(w2)
    ensures Parse(w1 + " " + w2) == [w1, w2] && Canonical([w1, w2])
    ensures Words(w1) == [w1] && Words(w2) == [w2]
  {
    DottedWord(w1);
    DottedWord(w2);
    ParsePair(w1, w2);
    OneWordOnly(w1);
    OneWordOnly(w2);
  }

  const DOCUMENT: string := "a." + " " + "b."

  /** The second of two sessions that read the same document undoes the first, although each one holds
      the lock on its own sentence: the word "x." is gone. */
  lemma LostEdit()
    ensures StaysCanonical(DOCUMENT, 0, [PrintLine(0, "x.")]) && StaysCanonical(DOCUMENT, 1, [PrintLine(0, "y.")])
    ensures ClientEdit(DOCUMENT, 0, [PrintLine(0, "x.")]) == Some("x." + " " + "b.")
    ensures ClientEdit(DOCUMENT, 1, [PrintLine(0, "y.")]) == Some("a." + " " + "y.")
    ensures ClientEdit("x." + " " + "b.", 1, [PrintLine(0, "y.")]) == Some("x." + " " + "y.")
  {
    FirstOfPair("a.", "b.", "x.");
    SecondOfPair("a.", "b.", "y.");
    SecondOfPair("x.", "b.", "y.");
  }

  // ----- locks -----

  const PRIMARY: Address := Address("127.0.0.1", 9001)

  function StartUp(): seq<NS.Request> {
    [NS.RegisterSs(PrintAddress(PRIMARY)), NS.Create("u", "d", true)]
  }

  /** A name server with one storage server and one document. */
  lemma OneDocument() returns (s: NS.State)
    ensures NS.WellFormedRun(StartUp()) && s == NS.Run(NS.EMPTY_DATABASE, StartUp())
    ensures NR.Inv(s) && s.locks == [] && |s.servers| == 1 && "d" in s.files
    ensures s.files["d"].owner == "u" && s.files["d"].ssId == 1
  {
    NR.RegistrationRoundTrip(NS.EMPTY_DATABASE, PRIMARY);
    var rs := StartUp();
    NR.RunKeepsInv(NS.EMPTY_DATABASE, rs);
    var s1 := NS.Step(NS.EMPTY_DATABASE, rs[0]).0;
    NR.StepKeepsInv(NS.EMPTY_DATABASE, rs[0]);
    NB.CreatePlaces(s1, "u", "d", true);
    s := NS.Step(s1, rs[1]).0;
    assert rs[1..] == [rs[1]] && rs[1..][1..] == [];
    NR.StepServers(s1, rs[1]);
    assert NS.Run(s, []) == s;
  }

  /** Both sessions of the lost edit are granted their locks. */
  lemma LostEditLocks()
    ensures NS.WellFormedRun(StartUp())
    ensures var s := NS.Run(NS.EMPTY_DATABASE, StartUp());
            var (s', reply) := NS.LockStep(s, "u", "d", PrintInt(0), 1);
            reply.Granted? && NS.LockStep(s', "u", "d", PrintInt(1), 2).1.Granted?
  {
    var s := OneDocument();
    NR.DifferentSentences(s, "u", "d", 0, 1, 1, 2);
  }

  /** After a restart, before the storage server has registered again, a lock request is refused and the
      lock stays all the same. */
  lemma LockWithoutServer()
    ensures NS.WellFormedRun(StartUp())
    ensures var s := NR.Restarted(NS.Run(NS.EMPTY_DATABASE, StartUp()));
            var (s', reply) := NS.LockStep(s, "u", "d", PrintInt(0), 1);
            reply == NS.Refused(NS.SsNotFound) && s.locks == [] && s'.locks == [NS.Lock("d", 0, "u", 1)]
  {
    var before := OneDocument();
    var s := NR.Restarted(before);
    NR.RestartKeepsInv(before);
    NR.ScanNumber(0);
    NR.LockGrantedExactly(s, "u", "d", PrintInt(0), 1);
    NR.RefusedLockStays(s, "u", "d", PrintInt(0), 1);
  }

  // ----- revocation -----

  /** A blank before the name, and the grant stays. */
  lemma BlankBeforeName(s: NS.State)
    requires NR.Inv(s) && NS.IsOwner(s, "u", "d") && ("d", "bob") in s.access
    ensures NS.RevokeStep(s, "u", "d", "bob").1.Granted? && ("d", "bob") !in NS.RevokeStep(s, "u", "d", "bob").0.access
    ensures NS.RevokeStep(s, "u", "d", " bob").1.Granted? && ("d", "bob") in NS.RevokeStep(s, "u", "d", " bob").0.access
  {
    TrimUnique("", "bob", "");
    TrimUnique(" ", "bob", "");
    assert "" + "bob" + "" == "bob" && " " + "bob" + "" == " bob";
    assert " bob"[1] == 'b';
    NR.RevokesExactly(s, "u", "d", "bob");
    NR.RevokesExactly(s, "u", "d", " bob");
  }

  // ----- locations -----

  lemma {:induction false} FewDigits(n: nat)
    ensures |PrintNat(n)| <= n / 10 + 1
  {
    if n >= 10 {
      FewDigits(n / 10);
    }
  }

  lemma LocationFits(primary: Address, text: string, a: Address)
    requires ValidAddress(primary) && ValidAddress(a) && |text| < 10000
    ensures FormFits(primary, text, a)
  {
    FewDigits(primary.port);
    FewDigits(a.port);
  }

  lemma StartsAs(s: string, i: nat)
    ensures At(s, REPLICA, i) ==> i + 2 < |s| && s[i] == 'R' && s[i + 2] == 'P'
  {
    if At(s, REPLICA, i) {
      AtChar(s, REPLICA, i, 0);
      AtChar(s, REPLICA, i, 2);
    }
  }

  lemma TagInCommand(text: string)
    requires text == "CREATE|" + REPLICA + "x"
    ensures Contains(text, REPLICA) && BehindTag(text) == "x"
  {
    assert text[7..15] == REPLICA;
    assert At(text, REPLICA, 7);
    forall i | 0 <= i < 7 ensures !At(text, REPLICA, i) {
      assert text[i] == 'R' ==> text[i + 2] == 'A';
      StartsAs(text, i);
    }
    FindFirst(text, REPLICA, 7);
    FindInFirst(text, REPLICA, "");
    assert text[15..] == "x";
  }

  const REPLICA_SERVER: Address := Address("127.0.0.1", 9002)

  /** A checkpoint tag that hides the replica from the client. */
  lemma HiddenReplica()
    ensures ParseSsInfo(PrintLocation(PRIMARY, Command("CREATE|" + REPLICA + "x"), Some(REPLICA_SERVER)))
            != Wanted(PRIMARY, Some(REPLICA_SERVER))
  {
    var text := "CREATE|" + REPLICA + "x";
    TagInCommand(text);
    LocationFits(PRIMARY, text, REPLICA_SERVER);
    CommandShadows(PRIMARY, text, REPLICA_SERVER);
  }

  // ----- the lost edit as a run -----

  lemma PairIsSendable(w1: string, w2: string)
    requires Dotted(w1) && Dotted(w2)
    ensures SW.Typed(w1 + " " + w2)
  {
  }

  lemma PairCanEdit(w1: string, w2: string, n: nat, w: string, result: string)
    requires Dotted(w1) && Dotted(w2) && Dotted(w) && StaysCanonical(w1 + " " + w2, n, [PrintLine(0, w)])
    requires ClientEdit(w1 + " " + w2, n, [PrintLine(0, w)]) == Some(result) && SW.Typed(result)
    ensures V.CanEdit("d", "u", w1 + " " + w2, n, [PrintLine(0, w)])
  {
    SW.LettersAreValid("d");
    SW.TypedIsFullWrite(result);
  }

  /** Both connections get their locks, in states reached from an empty database. */
  lemma BothGranted(s: NS.State) returns (s1: NS.State, s2: NS.State)
    requires NR.Inv(s) && s.locks == [] && |s.servers| == 1 && "d" in s.files
    requires s.files["d"].owner == "u" && s.files["d"].ssId == 1
    ensures V.Grants("d", s, 1, "u", 0, s1) && V.Grants("d", s1, 2, "u", 1, s2)
  {
    NR.DifferentSentences(s, "u", "d", 0, 1, 1, 2);
    s1 := NS.LockStep(s, "u", "d", PrintInt(0), 1).0;
    s2 := NS.LockStep(s1, "u", "d", PrintInt(1), 2).0;
  }

  lemma LostEditFrom(c: V.Config)
    requires V.Start("d", c) && c.disk.files["d"] == DOCUMENT
    requires c.ns.locks == [] && |c.ns.servers| == 1 && "d" in c.ns.files
    requires c.ns.files["d"].owner == "u" && c.ns.files["d"].ssId == 1
    ensures V.EnabledRun("d", c, LostEditSteps())
    ensures var c' := V.Run("d", c, LostEditSteps());
            && c'.log == [V.Entry(1, 0, [PrintLine(0, "x.")], 0), V.Entry(2, 1, [PrintLine(0, "y.")], 0)]
            && "d" in c'.disk.files && c'.disk.files["d"] == "a." + " " + "y."
  {
    var ns1, ns2 := BothGranted(c.ns);
    FirstOfPair("a.", "b.", "x.");
    SecondOfPair("a.", "b.", "y.");
    PairIsSendable("x.", "b.");
    PairIsSendable("a.", "y.");
    PairCanEdit("a.", "b.", 0, "x.", "x." + " " + "b.");
    PairCanEdit("a.", "b.", 1, "y.", "a." + " " + "y.");
    V.OverlapLosesFirst("d", c, ns1, ns2, 1, "u", 0, [PrintLine(0, "x.")], 2, "u", 1, [PrintLine(0, "y.")]);
  }

  function LostEditSteps(): seq<V.Step> {
    V.Overlap(1, "u", 0, [PrintLine(0, "x.")], 2, "u", 1, [PrintLine(0, "y.")])
  }

  /** One run of the two servers with the two sessions of the lost edit: each holds the lock on its own
      sentence, both read the same document, and after both writes the word "x." is gone. */
  lemma LostEditRun() returns (c: V.Config)
    ensures NS.WellFormedRun(StartUp()) && c.ns == NS.Run(NS.EMPTY_DATABASE, StartUp())
    ensures SS.WellFormedRun(SS.EMPTY_DISK, SW.Written(DOCUMENT))
    ensures c.disk == SS.Run(SS.EMPTY_DISK, SW.Written(DOCUMENT))
    ensures V.Start("d", c) && V.EnabledRun("d", c, LostEditSteps())
    ensures var c' := V.Run("d", c, LostEditSteps());
            && c'.log == [V.Entry(1, 0, [PrintLine(0, "x.")], 0), V.Entry(2, 1, [PrintLine(0, "y.")], 0)]
            && "d" in c'.disk.files && c'.disk.files["d"] == "a." + " " + "y."
  {
    var ns := OneDocument();
    PairIsSendable("a.", "b.");
    var disk := SW.OneText(DOCUMENT);
    c := V.Config(ns, disk, map[], [DOCUMENT], []);
    LostEditFrom(c);
  }

  // ----- the exact text of an answer -----

  lemma PrintedHead(p: string, head: string)
    requires p == "127.0.0.1:9001" && head == "SS:127.0.0.1:9001"
    ensures "SS:" + p == head
  {
  }

  lemma PrintedForm(form: Form, text: string)
    requires (form == Sentence(3) && text == "|SENTENCE:3") || (form == Command("LIST") && text == "|CMD:LIST")
    ensures PrintForm(form) == text
  {
    assert PrintNat(3) == "3";
  }

  lemma PrintedReplica(q: string, tail: string)
    requires q == "127.0.0.1:9002" && tail == "|REPLICA:127.0.0.1:9002"
    ensures "|" + REPLICA + q == tail
  {
  }

  lemma Glued(head: string, form: string, tail: string, whole: string)
    requires head == "SS:127.0.0.1:9001" && form == "|SENTENCE:3" && tail == "|REPLICA:127.0.0.1:9002"
    requires whole == "SS:127.0.0.1:9001|SENTENCE:3|REPLICA:127.0.0.1:9002"
    ensures head + form + tail == whole
  {
  }

  /** An answer to a lock request, character by character. */
  lemma PrintedAnswer(whole: string)
    requires whole == "SS:127.0.0.1:9001|SENTENCE:3|REPLICA:127.0.0.1:9002"
    ensures PrintLocation(PRIMARY, Sentence(3), Some(REPLICA_SERVER)) == whole
  {
    PrintedAddress(PRIMARY, "9001");
    PrintedAddress(REPLICA_SERVER, "9002");
    PrintedHead(PrintAddress(PRIMARY), "SS:127.0.0.1:9001");
    PrintedForm(Sentence(3), "|SENTENCE:3");
    PrintedReplica(PrintAddress(REPLICA_SERVER), "|REPLICA:127.0.0.1:9002");
    Glued("SS:127.0.0.1:9001", "|SENTENCE:3", "|REPLICA:127.0.0.1:9002", whole);
  }

  lemma PrintedAddress(a: Address, port: string)
    requires (a == PRIMARY && port == "9001") || (a == REPLICA_SERVER && port == "9002")
    ensures PrintAddress(a) == "127.0.0.1:" + port
  {
    assert PrintNat(9001) == "9001" && PrintNat(9002) == "9002";
  }
}
