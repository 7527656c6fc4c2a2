/** Sessions on any sentences of one document.

    A session holds the lock on its own sentence only, but it reads and sends back the whole document.
    Every write is therefore an edit of the version that its session read.  `texts` lists the versions
    of the document and `log` the writes that made them, with the version each one started from.
    `Protocol` follows the sessions on one sentence; here they may be on different ones.
 */
module Versions {
  import opened Options
  import opened Scan
  import opened Text
  import opened TextLoops
  import opened ClientWrite
  import P = Protocol
  import NS = NameServerSpec
  import NR = NameServerRuns
  import SS = StorageSpec
  import SR = StorageRuns

  /** `version` is the number of writes that had happened when the session read the document. */
  datatype Phase = Holding | Editing(content: string, version: nat) | Written

  datatype Session = Session(user: string, sentence: nat, phase: Phase)

  datatype Entry = Entry(socket: int, sentence: nat, lines: seq<string>, version: nat)

  datatype Config = Config(
    ns: NS.State,
    disk: SS.Disk,
    sessions: map<int, Session>,
    texts: seq<string>,
    log: seq<Entry>)

  datatype Step =
    | AskLock(socket: int, user: string, sentence: nat)
    | ReadContent(socket: int)
    | SendWrite(socket: int, lines: seq<string>)
    | SendCommit(socket: int)
    | GiveUp(socket: int)
    | OtherNs(ns: NS.Request)
    | OtherSs(ss: SS.Request)

  // ----- the versions of the document -----

  /** Write `k` turns the version its session read into version `k + 1`. */
  predicate MadeBy(texts: seq<string>, log: seq<Entry>, k: nat)
    requires |texts| == |log| + 1 && k < |log|
  {
    var e := log[k];
    e.version <= k && ClientEdit(texts[e.version], e.sentence, e.lines) == Some(texts[k + 1])
  }

  predicate Chain(texts: seq<string>, log: seq<Entry>) {
    |texts| == |log| + 1 && forall k :: 0 <= k < |log| ==> MadeBy(texts, log, k)
  }

  /** Between the read and the write of a session nobody else writes its sentence. */
  predicate Excluded(log: seq<Entry>) {
    forall j, k :: 0 <= j < k < |log| && log[k].version <= j ==> log[j].sentence != log[k].sentence
  }

  lemma ChainOneMore(texts: seq<string>, log: seq<Entry>, e: Entry, text: string)
    requires Chain(texts, log) && e.version < |texts|
    requires ClientEdit(texts[e.version], e.sentence, e.lines) == Some(text)
    ensures Chain(texts + [text], log + [e])
  {
    forall k | 0 <= k < |log| ensures MadeBy(texts + [text], log + [e], k) {
      assert MadeBy(texts, log, k);
    }
  }

  // ----- the steps -----

  function TargetOf(file: string, s: Session): P.Target {
    P.Target(file, s.sentence)
  }

  function WriteRequest(file: string, s: Session, lines: seq<string>): SS.Request
    requires s.phase.Editing? && ClientEdit(s.phase.content, s.sentence, lines).Some?
  {
    SS.Write(s.user, file, ClientEdit(s.phase.content, s.sentence, lines).value)
  }

  predicate CanWrite(file: string, disk: SS.Disk, s: Session, lines: seq<string>) {
    && s.phase.Editing? && ClientEdit(s.phase.content, s.sentence, lines).Some?
    && FitsSession(s.phase.content, s.sentence, lines)
    && SS.WellFormed(disk, WriteRequest(file, s, lines))
    && ParseWrite(WriteRequest(file, s, lines).data).FullWrite?
  }

  /** A connection in a session commits its sentence as the last step of that session only. */
  predicate Interferes(file: string, sessions: map<int, Session>, r: NS.Request)
    requires NS.WellFormed(r)
  {
    && r.Commit? && r.file == file && r.socket in sessions
    && ScanInt(r.data).value.0 == sessions[r.socket].sentence
  }

  predicate Enabled(file: string, c: Config, step: Step) {
    match step
    case AskLock(socket, _, _) => socket !in c.sessions
    case ReadContent(socket) => socket in c.sessions && c.sessions[socket].phase == Holding
    case SendWrite(socket, lines) => socket in c.sessions && CanWrite(file, c.disk, c.sessions[socket], lines)
    case SendCommit(socket) => socket in c.sessions && c.sessions[socket].phase == Written
    case GiveUp(socket) => socket in c.sessions
    case OtherNs(r) => NS.WellFormed(r) && !Interferes(file, c.sessions, r)
    case OtherSs(r) => SS.WellFormed(c.disk, r) && P.KeepsContent(r, file)
  }

  function SetPhase(c: Config, socket: int, phase: Phase): Config
    requires socket in c.sessions
  {
    c.(sessions := c.sessions[socket := c.sessions[socket].(phase := phase)])
  }

  function Leave(c: Config, socket: int): Config {
    c.(sessions := c.sessions - {socket})
  }

  function Next(file: string, c: Config, step: Step): Config
    requires Enabled(file, c, step)
  {
    match step
    case AskLock(socket, user, sentence) =>
      var (ns, reply) := NS.Step(c.ns, P.LockRequest(P.Target(file, sentence), socket, user));
      if reply.Granted? then c.(ns := ns, sessions := c.sessions[socket := Session(user, sentence, Holding)])
      else c.(ns := ns)
    case ReadContent(socket) =>
      var reply := SS.ReadReply(c.disk, c.sessions[socket].user, file);
      if reply.Ok? && SessionSentences(reply.data, c.sessions[socket].sentence).Some?
      then SetPhase(c, socket, Editing(reply.data, |c.log|))
      else Leave(c, socket)
    case SendWrite(socket, lines) =>
      var s := c.sessions[socket];
      var (disk, reply) := SS.Step(c.disk, WriteRequest(file, s, lines));
      if reply.Ok? then
        SetPhase(c.(disk := disk, texts := c.texts + [WriteRequest(file, s, lines).data],
                    log := c.log + [Entry(socket, s.sentence, lines, s.phase.version)]), socket, Written)
      else Leave(c.(disk := disk), socket)
    case SendCommit(socket) =>
      var s := c.sessions[socket];
      P.CommitReadable(TargetOf(file, s), socket, s.user);
      Leave(c.(ns := NS.Step(c.ns, P.CommitRequest(TargetOf(file, s), socket, s.user)).0), socket)
    case GiveUp(socket) => Leave(c, socket)
    case OtherNs(r) => c.(ns := NS.Step(c.ns, r).0)
    case OtherSs(r) => c.(disk := SS.Step(c.disk, r).0)
  }

  predicate EnabledRun(file: string, c: Config, steps: seq<Step>)
    decreases |steps|
  {
    steps == [] || (Enabled(file, c, steps[0]) && EnabledRun(file, Next(file, c, steps[0]), steps[1..]))
  }

  function Run(file: string, c: Config, steps: seq<Step>): Config
    requires EnabledRun(file, c, steps)
    decreases |steps|
  {
    if steps == [] then c else Run(file, Next(file, c, steps[0]), steps[1..])
  }

  // ----- what every step keeps -----

  ghost predicate LocksHeld(file: string, ns: NS.State, sessions: map<int, Session>) {
    NR.Inv(ns) && forall k :: k in sessions ==> P.HoldsLock(TargetOf(file, sessions[k]), ns, k)
  }

  /** The document is the last version. */
  predicate Logged(file: string, disk: SS.Disk, texts: seq<string>, log: seq<Entry>) {
    && SR.Inv(disk) && file in disk.files
    && Chain(texts, log) && texts[|log|] == disk.files[file]
    && Excluded(log)
  }

  /** A session that is editing has read one of the versions, and its sentence was not written since. */
  predicate HasRead(texts: seq<string>, log: seq<Entry>, s: Session) {
    s.phase.Editing? ==>
      && s.phase.version < |texts| && texts[s.phase.version] == s.phase.content
      && forall j :: s.phase.version <= j < |log| ==> log[j].sentence != s.sentence
  }

  predicate AllRead(texts: seq<string>, log: seq<Entry>, sessions: map<int, Session>) {
    forall k :: k in sessions ==> HasRead(texts, log, sessions[k])
  }

  ghost predicate Inv(file: string, c: Config) {
    && LocksHeld(file, c.ns, c.sessions)
    && Logged(file, c.disk, c.texts, c.log)
    && AllRead(c.texts, c.log, c.sessions)
  }

  lemma AskKeepsLocks(file: string, ns: NS.State, sessions: map<int, Session>, socket: int, user: string, n: nat)
    requires LocksHeld(file, ns, sessions) && socket !in sessions
    ensures var (ns', reply) := NS.Step(ns, P.LockRequest(P.Target(file, n), socket, user));
            && LocksHeld(file, ns', sessions)
            && (reply.Granted? ==> LocksHeld(file, ns', sessions[socket := Session(user, n, Holding)]))
  {
    var t := P.Target(file, n);
    var ns' := NS.Step(ns, P.LockRequest(t, socket, user)).0;
    P.AskKeepsLocks(t, ns, map[], socket, user);
    forall k | k in sessions ensures P.HoldsLock(TargetOf(file, sessions[k]), ns', k) {
      P.NsKeepsHolder(TargetOf(file, sessions[k]), ns, P.LockRequest(t, socket, user), k);
    }
  }

  lemma CommitKeepsLocks(file: string, ns: NS.State, sessions: map<int, Session>, socket: int)
    requires LocksHeld(file, ns, sessions) && socket in sessions
    requires NS.WellFormed(P.CommitRequest(TargetOf(file, sessions[socket]), socket, sessions[socket].user))
    ensures var r := P.CommitRequest(TargetOf(file, sessions[socket]), socket, sessions[socket].user);
            LocksHeld(file, NS.Step(ns, r).0, sessions - {socket})
  {
    var r := P.CommitRequest(TargetOf(file, sessions[socket]), socket, sessions[socket].user);
    NR.StepKeepsInv(ns, r);
    forall k | k in sessions - {socket} ensures P.HoldsLock(TargetOf(file, sessions[k]), NS.Step(ns, r).0, k) {
      P.NsKeepsHolder(TargetOf(file, sessions[k]), ns, r, k);
    }
  }

  lemma OtherNsKeepsLocks(file: string, ns: NS.State, sessions: map<int, Session>, r: NS.Request)
    requires LocksHeld(file, ns, sessions) && NS.WellFormed(r) && !Interferes(file, sessions, r)
    ensures LocksHeld(file, NS.Step(ns, r).0, sessions)
  {
    NR.StepKeepsInv(ns, r);
    forall k | k in sessions ensures P.HoldsLock(TargetOf(file, sessions[k]), NS.Step(ns, r).0, k) {
      P.NsKeepsHolder(TargetOf(file, sessions[k]), ns, r, k);
    }
  }

  lemma PhaseKeepsLocks(file: string, ns: NS.State, sessions: map<int, Session>, socket: int, phase: Phase)
    requires LocksHeld(file, ns, sessions) && socket in sessions
    ensures LocksHeld(file, ns, sessions[socket := sessions[socket].(phase := phase)])
  {
    var sessions' := sessions[socket := sessions[socket].(phase := phase)];
    forall k | k in sessions' ensures P.HoldsLock(TargetOf(file, sessions'[k]), ns, k) {
      assert TargetOf(file, sessions'[k]) == TargetOf(file, sessions[k]);
    }
  }

  /** Two sessions are never on the same sentence. */
  lemma OneSession(file: string, ns: NS.State, sessions: map<int, Session>, k1: int, k2: int)
    requires LocksHeld(file, ns, sessions) && k1 in sessions && k2 in sessions
    requires sessions[k1].sentence == sessions[k2].sentence
    ensures k1 == k2
  {
    P.OneHolder(TargetOf(file, sessions[k1]), ns, k1, k2);
  }

  lemma WriteKeepsReads(file: string, ns: NS.State, texts: seq<string>, log: seq<Entry>,
                        sessions: map<int, Session>, socket: int, e: Entry, text: string)
    requires LocksHeld(file, ns, sessions) && AllRead(texts, log, sessions)
    requires socket in sessions && e.sentence == sessions[socket].sentence
    ensures AllRead(texts + [text], log + [e], sessions[socket := sessions[socket].(phase := Written)])
  {
    forall k | k in sessions && k != socket ensures HasRead(texts + [text], log + [e], sessions[k]) {
      assert HasRead(texts, log, sessions[k]);
      if sessions[k].sentence == e.sentence {
        OneSession(file, ns, sessions, k, socket);
      }
    }
  }

  lemma WriteKeepsLog(file: string, disk: SS.Disk, texts: seq<string>, log: seq<Entry>, s: Session, socket: int,
                      lines: seq<string>)
    requires Logged(file, disk, texts, log) && HasRead(texts, log, s) && CanWrite(file, disk, s, lines)
    ensures var (disk', reply) := SS.Step(disk, WriteRequest(file, s, lines));
            && (reply.Ok? ==> Logged(file, disk', texts + [WriteRequest(file, s, lines).data],
                                     log + [Entry(socket, s.sentence, lines, s.phase.version)]))
            && (!reply.Ok? ==> disk' == disk)
  {
    P.FullWriteStep(disk, WriteRequest(file, s, lines));
    ChainOneMore(texts, log, Entry(socket, s.sentence, lines, s.phase.version), WriteRequest(file, s, lines).data);
  }

  lemma WriteKeepsInv(file: string, c: Config, socket: int, lines: seq<string>)
    requires Inv(file, c) && Enabled(file, c, SendWrite(socket, lines))
    ensures Inv(file, Next(file, c, SendWrite(socket, lines)))
  {
    var s := c.sessions[socket];
    assert HasRead(c.texts, c.log, s);
    WriteKeepsLog(file, c.disk, c.texts, c.log, s, socket, lines);
    WriteKeepsReads(file, c.ns, c.texts, c.log, c.sessions, socket,
                    Entry(socket, s.sentence, lines, s.phase.version), WriteRequest(file, s, lines).data);
    PhaseKeepsLocks(file, c.ns, c.sessions, socket, Written);
  }

  lemma ReadKeepsReads(texts: seq<string>, log: seq<Entry>, sessions: map<int, Session>, socket: int, phase: Phase)
    requires AllRead(texts, log, sessions) && socket in sessions && |texts| == |log| + 1
    requires phase == Editing(texts[|log|], |log|)
    ensures AllRead(texts, log, sessions[socket := sessions[socket].(phase := phase)])
  {
    assert HasRead(texts, log, sessions[socket].(phase := phase));
  }

  lemma ReadOutcome(file: string, c: Config, socket: int)
    requires SR.Inv(c.disk) && file in c.disk.files && Enabled(file, c, ReadContent(socket))
    ensures var c' := Next(file, c, ReadContent(socket));
            c' == SetPhase(c, socket, Editing(c.disk.files[file], |c.log|)) || c' == Leave(c, socket)
  {
    assert SS.Load(c.disk.files[file]) == c.disk.files[file];
  }

  lemma ReadKeepsInv(file: string, c: Config, socket: int)
    requires Inv(file, c) && Enabled(file, c, ReadContent(socket))
    ensures Inv(file, Next(file, c, ReadContent(socket)))
  {
    var phase := Editing(c.disk.files[file], |c.log|);
    PhaseKeepsLocks(file, c.ns, c.sessions, socket, phase);
    ReadKeepsReads(c.texts, c.log, c.sessions, socket, phase);
    ReadOutcome(file, c, socket);
  }

  lemma OtherSsKeepsInv(file: string, c: Config, r: SS.Request)
    requires Inv(file, c) && Enabled(file, c, OtherSs(r))
    ensures Inv(file, Next(file, c, OtherSs(r)))
  {
    SR.StepKeepsInv(c.disk, r);
    P.OtherSsKeepsContent(c.disk, r, file);
  }

  lemma NsStepKeepsInv(file: string, c: Config, step: Step)
    requires Inv(file, c) && Enabled(file, c, step)
    requires step.AskLock? || step.SendCommit? || step.OtherNs?
    ensures Inv(file, Next(file, c, step))
  {
    match step
    case AskLock(socket, user, n) =>
      AskKeepsLocks(file, c.ns, c.sessions, socket, user, n);
    case SendCommit(socket) =>
      P.CommitReadable(TargetOf(file, c.sessions[socket]), socket, c.sessions[socket].user);
      CommitKeepsLocks(file, c.ns, c.sessions, socket);
    case OtherNs(r) => OtherNsKeepsLocks(file, c.ns, c.sessions, r);
  }

  lemma StepKeepsInv(file: string, c: Config, step: Step)
    requires Inv(file, c) && Enabled(file, c, step)
    ensures Inv(file, Next(file, c, step))
  {
    match step
    case ReadContent(socket) => ReadKeepsInv(file, c, socket);
    case SendWrite(socket, lines) => WriteKeepsInv(file, c, socket, lines);
    case GiveUp(_) =>
    case OtherSs(r) => OtherSsKeepsInv(file, c, r);
    case _ => NsStepKeepsInv(file, c, step);
  }

  lemma {:induction false} RunKeepsInv(file: string, c: Config, steps: seq<Step>)
    requires Inv(file, c) && EnabledRun(file, c, steps)
    ensures Inv(file, Run(file, c, steps))
    decreases |steps|
  {
    if steps != [] {
      StepKeepsInv(file, c, steps[0]);
      RunKeepsInv(file, Next(file, c, steps[0]), steps[1..]);
    }
  }

  predicate Start(file: string, c: Config) {
    && NR.Inv(c.ns) && SR.Inv(c.disk) && file in c.disk.files
    && c.sessions == map[] && c.texts == [c.disk.files[file]] && c.log == []
  }

  /** In every interleaving of sessions on whatever sentences, every write is an edit of the version that
      its session read, the document is the last version, and between a session's read and its write
      nobody else writes its sentence. */
  lemma EditsOfVersions(file: string, c: Config, steps: seq<Step>)
    requires Start(file, c) && EnabledRun(file, c, steps)
    ensures var c' := Run(file, c, steps);
            && Chain(c'.texts, c'.log) && Excluded(c'.log)
            && file in c'.disk.files && c'.texts[|c'.log|] == c'.disk.files[file]
  {
    RunKeepsInv(file, c, steps);
  }

  // ----- which edits survive -----

  /** What the session behind write `k` had read. */
  function BaseOf(texts: seq<string>, log: seq<Entry>, k: nat): string
    requires Chain(texts, log) && k < |log|
  {
    assert MadeBy(texts, log, k);
    texts[log[k].version]
  }

  /** The session leaves a text that reads back as it was edited. */
  predicate CanonicalAt(texts: seq<string>, log: seq<Entry>, k: nat)
    requires Chain(texts, log) && k < |log|
  {
    StaysCanonical(BaseOf(texts, log, k), log[k].sentence, log[k].lines)
  }

  /** The versions of a run in which every session does so. */
  predicate Canonicals(texts: seq<string>, log: seq<Entry>) {
    Chain(texts, log) && Excluded(log) && forall k :: 0 <= k < |log| ==> CanonicalAt(texts, log, k)
  }

  /** Write `k` is an edit of the current document: it keeps all that was there. */
  predicate Serial(texts: seq<string>, log: seq<Entry>, k: nat)
    requires Chain(texts, log) && k < |log|
  {
    ClientEdit(texts[k], log[k].sentence, log[k].lines) == Some(texts[k + 1])
  }

  /** The sentences that session `k` read are still those of the document when it writes. */
  predicate Fresh(texts: seq<string>, log: seq<Entry>, k: nat)
    requires Chain(texts, log) && k < |log|
  {
    Parse(BaseOf(texts, log, k)) == Parse(texts[k])
  }

  predicate SerialBefore(texts: seq<string>, log: seq<Entry>, k: nat)
    requires Chain(texts, log) && k <= |log|
  {
    forall j :: 0 <= j < k ==> Serial(texts, log, j)
  }

  predicate FreshBefore(texts: seq<string>, log: seq<Entry>, k: nat)
    requires Chain(texts, log) && k <= |log|
  {
    forall j :: 0 <= j < k ==> Fresh(texts, log, j)
  }

  function NewList(base: string, n: nat, lines: seq<string>): seq<string>
    requires n < |Parse(base)|
  {
    Parse(base)[n := NewSentence(base, n, lines)]
  }

  lemma AfterEdit(base: string, n: nat, lines: seq<string>, text: string)
    requires StaysCanonical(base, n, lines) && ClientEdit(base, n, lines) == Some(text)
    ensures Parse(text) == NewList(base, n, lines) && AllSentences(Parse(text)) && Canonical(Parse(text))
  {
    ParseNormalForm(base, MAX_SENTENCES);
    RoundTrip(NewList(base, n, lines));
  }

  lemma AfterWrite(texts: seq<string>, log: seq<Entry>, k: nat)
    requires Chain(texts, log) && k < |log| && CanonicalAt(texts, log, k)
    ensures log[k].sentence < |Parse(BaseOf(texts, log, k))|
    ensures Parse(texts[k + 1]) == NewList(BaseOf(texts, log, k), log[k].sentence, log[k].lines)
    ensures Canonical(Parse(texts[k + 1]))
  {
    assert MadeBy(texts, log, k);
    AfterEdit(BaseOf(texts, log, k), log[k].sentence, log[k].lines, texts[k + 1]);
  }

  /** A write puts every sentence but its own back to what it was when its session read it, whatever was
      written in between. */
  lemma StaleWriteReverts(texts: seq<string>, log: seq<Entry>, k: nat, j: nat)
    requires Canonicals(texts, log) && k < |log| && log[k].version <= j < k
    requires log[j].sentence < |Parse(BaseOf(texts, log, k))|
    ensures var m, after := log[j].sentence, Parse(texts[k + 1]);
            m < |after| && after[m] == Parse(BaseOf(texts, log, k))[m]
  {
    assert CanonicalAt(texts, log, k);
    AfterWrite(texts, log, k);
  }

  /** A session sees nothing of a document but its sentences. */
  lemma SameSentences(b: string, c: string, n: nat, lines: seq<string>)
    requires Parse(b) == Parse(c)
    ensures ClientEdit(b, n, lines) == ClientEdit(c, n, lines)
  {
  }

  lemma FreshIsSerial(texts: seq<string>, log: seq<Entry>, k: nat)
    requires Chain(texts, log) && k < |log| && Fresh(texts, log, k)
    ensures Serial(texts, log, k)
  {
    assert MadeBy(texts, log, k);
    SameSentences(BaseOf(texts, log, k), texts[k], log[k].sentence, log[k].lines);
  }

  lemma AfterFreshWrite(texts: seq<string>, log: seq<Entry>, j: nat, n: nat)
    requires Chain(texts, log) && j < |log| && CanonicalAt(texts, log, j) && Fresh(texts, log, j)
    requires n != log[j].sentence
    ensures |Parse(texts[j + 1])| == |Parse(texts[j])|
    ensures n < |Parse(texts[j])| ==> Parse(texts[j + 1])[n] == Parse(texts[j])[n]
  {
    AfterWrite(texts, log, j);
  }

  /** `now` has as many sentences as `before`, and the same sentence `n`. */
  predicate SameAt(before: seq<string>, now: seq<string>, n: nat) {
    |now| == |before| && (n < |before| ==> now[n] == before[n])
  }

  lemma OneStepKept(texts: seq<string>, log: seq<Entry>, k: nat, j: nat)
    requires Canonicals(texts, log) && k < |log| && log[k].version <= j < k && FreshBefore(texts, log, k)
    ensures SameAt(Parse(texts[j]), Parse(texts[j + 1]), log[k].sentence)
  {
    assert CanonicalAt(texts, log, j) && Fresh(texts, log, j);
    AfterFreshWrite(texts, log, j, log[k].sentence);
  }

  lemma {:induction false} KeptThroughout(lists: seq<seq<string>>, first: nat, last: nat, n: nat)
    requires first <= last < |lists|
    requires forall j :: first <= j < last ==> SameAt(lists[j], lists[j + 1], n)
    ensures SameAt(lists[first], lists[last], n)
    decreases last
  {
    if first < last {
      KeptThroughout(lists, first, last - 1, n);
      assert SameAt(lists[last - 1], lists[last - 1 + 1], n);
    }
  }

  /** After fresh writes only, the sentence of a session is still what the session read. */
  lemma TargetKept(texts: seq<string>, log: seq<Entry>, k: nat)
    requires Canonicals(texts, log) && k < |log| && log[k].version <= k && FreshBefore(texts, log, k)
    ensures SameAt(Parse(BaseOf(texts, log, k)), Parse(texts[k]), log[k].sentence)
  {
    var lists := seq(|texts|, i requires 0 <= i < |texts| => Parse(texts[i]));
    forall j | log[k].version <= j < k ensures SameAt(lists[j], lists[j + 1], log[k].sentence) {
      OneStepKept(texts, log, k, j);
    }
    KeptThroughout(lists, log[k].version, k, log[k].sentence);
  }

  lemma WrittenIsCanonical(texts: seq<string>, log: seq<Entry>, k: nat)
    requires Canonicals(texts, log) && 0 < k <= |log|
    ensures Canonical(Parse(texts[k]))
  {
    assert CanonicalAt(texts, log, k - 1);
    AfterWrite(texts, log, k - 1);
  }

  lemma SameElsewhere(b: seq<string>, c: seq<string>, n: nat, x: string)
    requires |b| == |c| <= MAX_SENTENCES && n < |b| && b[n] == c[n]
    requires AllSentences(b) && AllSentences(c) && Canonical(c)
    requires IsSentence(x) && Canonical(b[n := x]) && Join(b[n := x]) == Join(c[n := x])
    ensures b == c
  {
    assert EndsInDelim(b[n := x][n]) || n == |b| - 1;
    assert Canonical(c[n := x]);
    RoundTrip(b[n := x]);
    RoundTrip(c[n := x]);
    forall i | 0 <= i < |b| ensures b[i] == c[i] {
      assert b[n := x][i] == c[n := x][i];
    }
  }

  lemma SameText(b: string, c: string, n: nat, lines: seq<string>)
    requires StaysCanonical(b, n, lines) && Canonical(Parse(c))
    requires |Parse(b)| == |Parse(c)| && Parse(b)[n] == Parse(c)[n]
    requires ClientEdit(b, n, lines) == ClientEdit(c, n, lines)
    ensures Parse(b) == Parse(c)
  {
    ParseNormalForm(b, MAX_SENTENCES);
    ParseNormalForm(c, MAX_SENTENCES);
    SameElsewhere(Parse(b), Parse(c), n, NewSentence(b, n, lines));
  }

  lemma SerialIsFreshAt(texts: seq<string>, log: seq<Entry>, k: nat)
    requires Chain(texts, log) && k < |log| && CanonicalAt(texts, log, k) && Canonical(Parse(texts[k]))
    requires SameAt(Parse(BaseOf(texts, log, k)), Parse(texts[k]), log[k].sentence)
    requires Serial(texts, log, k)
    ensures Fresh(texts, log, k)
  {
    assert MadeBy(texts, log, k);
    SameText(BaseOf(texts, log, k), texts[k], log[k].sentence, log[k].lines);
  }

  lemma SerialIsFresh(texts: seq<string>, log: seq<Entry>, k: nat)
    requires Canonicals(texts, log) && k < |log| && FreshBefore(texts, log, k)
    requires Serial(texts, log, k)
    ensures Fresh(texts, log, k)
  {
    assert MadeBy(texts, log, k);
    if log[k].version < k {
      TargetKept(texts, log, k);
      WrittenIsCanonical(texts, log, k);
      SerialIsFreshAt(texts, log, k);
    }
  }

  /** As long as all earlier writes kept everything, a write keeps everything exactly when the document
      has the sentences that its session read. */
  lemma {:induction false} NextWriteExactly(texts: seq<string>, log: seq<Entry>, k: nat)
    requires Canonicals(texts, log) && k < |log| && SerialBefore(texts, log, k)
    ensures FreshBefore(texts, log, k)
    ensures Serial(texts, log, k) <==> Fresh(texts, log, k)
  {
    if k > 0 {
      assert Serial(texts, log, k - 1);
      NextWriteExactly(texts, log, k - 1);
    }
    if Serial(texts, log, k) {
      SerialIsFresh(texts, log, k);
    } else if Fresh(texts, log, k) {
      FreshIsSerial(texts, log, k);
    }
  }

  /** The writes apply one after the other, each one keeping the earlier ones, exactly when no session's
      document had changed between its read and its write. */
  lemma SerialExactly(texts: seq<string>, log: seq<Entry>)
    requires Canonicals(texts, log)
    ensures SerialBefore(texts, log, |log|) <==> FreshBefore(texts, log, |log|)
  {
    if FreshBefore(texts, log, |log|) {
      forall k | 0 <= k < |log| ensures Serial(texts, log, k) {
        FreshIsSerial(texts, log, k);
      }
    }
    if SerialBefore(texts, log, |log|) {
      forall k | 0 <= k < |log| ensures Fresh(texts, log, k) {
        assert SerialBefore(texts, log, k);
        NextWriteExactly(texts, log, k);
      }
    }
  }

  /** The same, read off a run: if every session leaves a text that reads back as edited, the edits of the
      run apply one after the other exactly when every session wrote to the document it had read. */
  lemma RunIsSerialExactly(file: string, c: Config, steps: seq<Step>)
    requires Start(file, c) && EnabledRun(file, c, steps)
    ensures var c' := Run(file, c, steps);
            && Chain(c'.texts, c'.log)
            && ((forall k :: 0 <= k < |c'.log| ==> CanonicalAt(c'.texts, c'.log, k))
                ==> (SerialBefore(c'.texts, c'.log, |c'.log|) <==> FreshBefore(c'.texts, c'.log, |c'.log|)))
  {
    EditsOfVersions(file, c, steps);
    var c' := Run(file, c, steps);
    if forall k :: 0 <= k < |c'.log| ==> CanonicalAt(c'.texts, c'.log, k) {
      SerialExactly(c'.texts, c'.log);
    }
  }

  // ----- two sessions that overlap -----

  /** Data that the storage server takes as it is. */
  predicate Sendable(file: string, user: string, data: string) {
    && SS.Validates(user, file) && !SS.Reserved(file)
    && |data| < BUFFER_SIZE && NoNul(data) && ParseWrite(data).FullWrite?
  }

  predicate CanEdit(file: string, user: string, content: string, n: nat, lines: seq<string>) {
    && FitsSession(content, n, lines) && ClientEdit(content, n, lines).Some?
    && Sendable(file, user, ClientEdit(content, n, lines).value)
  }

  /** A session can get the lock, leaving the name server in state `ns'`. */
  predicate Grants(file: string, ns: NS.State, socket: int, user: string, n: nat, ns': NS.State) {
    var (after, reply) := NS.Step(ns, P.LockRequest(P.Target(file, n), socket, user));
    reply.Granted? && ns' == after
  }

  lemma AskTaken(file: string, c: Config, socket: int, user: string, n: nat, ns': NS.State)
    requires socket !in c.sessions && Grants(file, c.ns, socket, user, n, ns')
    ensures Next(file, c, AskLock(socket, user, n))
            == c.(ns := ns', sessions := c.sessions[socket := Session(user, n, Holding)])
  {
  }

  lemma ReadTaken(file: string, c: Config, socket: int, user: string, n: nat)
    requires SR.Inv(c.disk) && file in c.disk.files && SS.Validates(user, file)
    requires socket in c.sessions && c.sessions[socket] == Session(user, n, Holding)
    requires SessionSentences(c.disk.files[file], n).Some?
    ensures Next(file, c, ReadContent(socket)) == SetPhase(c, socket, Editing(c.disk.files[file], |c.log|))
  {
    SR.ReadReturnsContent(c.disk, user, file);
  }

  lemma WriteTaken(file: string, c: Config, socket: int, s: Session, lines: seq<string>)
    requires socket in c.sessions && c.sessions[socket] == s && s.phase.Editing?
    requires CanEdit(file, s.user, s.phase.content, s.sentence, lines)
    ensures Enabled(file, c, SendWrite(socket, lines))
    ensures var c' := Next(file, c, SendWrite(socket, lines));
            && c'.sessions == c.sessions[socket := s.(phase := Written)]
            && c'.log == c.log + [Entry(socket, s.sentence, lines, s.phase.version)]
            && file in c'.disk.files
            && Some(c'.disk.files[file]) == ClientEdit(s.phase.content, s.sentence, lines)
  {
  }

  lemma RunFirst(file: string, c: Config, step: Step, rest: seq<Step>)
    requires Enabled(file, c, step) && EnabledRun(file, Next(file, c, step), rest)
    ensures EnabledRun(file, c, [step] + rest)
    ensures Run(file, c, [step] + rest) == Run(file, Next(file, c, step), rest)
  {
    assert ([step] + rest)[1..] == rest;
  }

  /** The second half: two sessions that have read the same text write one after the other. */
  lemma BothWrite(file: string, c: Config, k1: int, s1: Session, l1: seq<string>, k2: int, s2: Session, l2: seq<string>)
    requires k1 != k2 && k1 in c.sessions && c.sessions[k1] == s1 && k2 in c.sessions && c.sessions[k2] == s2
    requires s1.phase.Editing? && CanEdit(file, s1.user, s1.phase.content, s1.sentence, l1)
    requires s2.phase.Editing? && CanEdit(file, s2.user, s2.phase.content, s2.sentence, l2)
    ensures EnabledRun(file, c, [SendWrite(k1, l1), SendWrite(k2, l2)])
    ensures var c' := Run(file, c, [SendWrite(k1, l1), SendWrite(k2, l2)]);
            && file in c'.disk.files
            && Some(c'.disk.files[file]) == ClientEdit(s2.phase.content, s2.sentence, l2)
            && c'.log == c.log + [Entry(k1, s1.sentence, l1, s1.phase.version),
                                  Entry(k2, s2.sentence, l2, s2.phase.version)]
  {
    WriteTaken(file, c, k1, s1, l1);
    var c1 := Next(file, c, SendWrite(k1, l1));
    WriteTaken(file, c1, k2, s2, l2);
    var c2 := Next(file, c1, SendWrite(k2, l2));
    RunFirst(file, c1, SendWrite(k2, l2), []);
    RunFirst(file, c, SendWrite(k1, l1), [SendWrite(k2, l2)]);
    assert [SendWrite(k1, l1)] + [SendWrite(k2, l2)] == [SendWrite(k1, l1), SendWrite(k2, l2)];
  }

  lemma BothRead(file: string, c: Config, k1: int, u1: string, n: nat, l1: seq<string>,
                 k2: int, u2: string, m: nat, l2: seq<string>)
    requires SR.Inv(c.disk) && file in c.disk.files && k1 != k2
    requires k1 in c.sessions && c.sessions[k1] == Session(u1, n, Holding)
    requires k2 in c.sessions && c.sessions[k2] == Session(u2, m, Holding)
    requires CanEdit(file, u1, c.disk.files[file], n, l1) && CanEdit(file, u2, c.disk.files[file], m, l2)
    ensures var steps := [ReadContent(k1)] + ([ReadContent(k2)] + [SendWrite(k1, l1), SendWrite(k2, l2)]);
            && EnabledRun(file, c, steps)
            && var c' := Run(file, c, steps);
               && file in c'.disk.files && Some(c'.disk.files[file]) == ClientEdit(c.disk.files[file], m, l2)
               && c'.log == c.log + [Entry(k1, n, l1, |c.log|), Entry(k2, m, l2, |c.log|)]
  {
    var phase := Editing(c.disk.files[file], |c.log|);
    ReadTaken(file, c, k1, u1, n);
    var c1 := Next(file, c, ReadContent(k1));
    ReadTaken(file, c1, k2, u2, m);
    var c2 := Next(file, c1, ReadContent(k2));
    BothWrite(file, c2, k1, Session(u1, n, phase), l1, k2, Session(u2, m, phase), l2);
    RunFirst(file, c1, ReadContent(k2), [SendWrite(k1, l1), SendWrite(k2, l2)]);
    RunFirst(file, c, ReadContent(k1), [ReadContent(k2)] + [SendWrite(k1, l1), SendWrite(k2, l2)]);
  }

  /** Both ask, both read, both write. */
  function Overlap(k1: int, u1: string, n: nat, l1: seq<string>,
                   k2: int, u2: string, m: nat, l2: seq<string>): seq<Step>
  {
    [AskLock(k1, u1, n)] + ([AskLock(k2, u2, m)]
    + ([ReadContent(k1)] + ([ReadContent(k2)] + [SendWrite(k1, l1), SendWrite(k2, l2)])))
  }

  /** When two sessions get their locks, they can overlap like this; the first one's edit is then not in
      the document any more. */
  lemma OverlapLosesFirst(file: string, c: Config, ns1: NS.State, ns2: NS.State,
                          k1: int, u1: string, n: nat, l1: seq<string>, k2: int, u2: string, m: nat, l2: seq<string>)
    requires Start(file, c) && k1 != k2
    requires Grants(file, c.ns, k1, u1, n, ns1) && Grants(file, ns1, k2, u2, m, ns2)
    requires CanEdit(file, u1, c.disk.files[file], n, l1) && CanEdit(file, u2, c.disk.files[file], m, l2)
    ensures EnabledRun(file, c, Overlap(k1, u1, n, l1, k2, u2, m, l2))
    ensures var c' := Run(file, c, Overlap(k1, u1, n, l1, k2, u2, m, l2));
            && file in c'.disk.files && Some(c'.disk.files[file]) == ClientEdit(c.disk.files[file], m, l2)
            && c'.log == [Entry(k1, n, l1, 0), Entry(k2, m, l2, 0)]
  {
    AskTaken(file, c, k1, u1, n, ns1);
    var c1 := Next(file, c, AskLock(k1, u1, n));
    AskTaken(file, c1, k2, u2, m, ns2);
    var c2 := Next(file, c1, AskLock(k2, u2, m));
    BothRead(file, c2, k1, u1, n, l1, k2, u2, m, l2);
    var rest := [ReadContent(k1)] + ([ReadContent(k2)] + [SendWrite(k1, l1), SendWrite(k2, l2)]);
    RunFirst(file, c1, AskLock(k2, u2, m), rest);
    RunFirst(file, c, AskLock(k1, u1, n), [AskLock(k2, u2, m)] + rest);
  }
}
