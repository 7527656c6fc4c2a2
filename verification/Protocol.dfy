/** The distributed write session: clients, the name server's locks and one storage server.

    Every participant acts in atomic steps, in any interleaving.  The module follows one document and
    one sentence number; `sessions` holds, by connection, the `cmd_write` sessions on that sentence,
    and everything else that anyone does is an environment step.  Each granted lock request gets the
    next ticket, and `log` lists the writes in the order in which the storage server carried them out.
 */
module Protocol {
  import opened Options
  import opened Scan
  import opened ClientWrite
  import NS = NameServerSpec
  import NR = NameServerRuns
  import SS = StorageSpec
  import SR = StorageRuns

  datatype Target = Target(file: string, sentence: nat)

  datatype Phase = Holding | Editing(content: string) | Written

  datatype Session = Session(user: string, ticket: nat, phase: Phase)

  datatype Entry = Entry(socket: int, ticket: nat, lines: seq<string>)

  datatype Config = Config(
    ns: NS.State,
    disk: SS.Disk,
    sessions: map<int, Session>,
    nextTicket: nat,
    log: seq<Entry>)

  datatype Step =
    | AskLock(socket: int, user: string)
    | ReadContent(socket: int)
    | SendWrite(socket: int, lines: seq<string>)
    | SendCommit(socket: int)
    | GiveUp(socket: int)
    | OtherNs(ns: NS.Request)
    | OtherSs(ss: SS.Request)

  // ----- the requests that a session sends -----

  function LockRequest(t: Target, socket: int, user: string): NS.Request {
    NS.WriteLock(user, t.file, PrintInt(t.sentence), socket)
  }

  function CommitRequest(t: Target, socket: int, user: string): NS.Request {
    NS.Commit(user, t.file, PrintInt(t.sentence), socket)
  }

  function WriteRequest(t: Target, s: Session, lines: seq<string>): SS.Request
    requires s.phase.Editing? && ClientEdit(s.phase.content, t.sentence, lines).Some?
  {
    SS.Write(s.user, t.file, ClientEdit(s.phase.content, t.sentence, lines).value)
  }

  /** Requests to the storage server that cannot change the content of a document that exists. */
  predicate KeepsContent(r: SS.Request, file: string) {
    || r.file != file || r.Read? || r.Stream? || r.Create?
    || (r.CheckpointOp? && !SS.ParseCommand(r.data).RevertTag?)
  }

  /** When a step can happen.  A session sends its text only if it fits and is not taken for a word
      edit, and a connection in a session commits the sentence as the last step of that session only;
      any other connection may try to commit it at any time. */
  predicate Enabled(t: Target, c: Config, step: Step) {
    match step
    case AskLock(socket, _) => socket !in c.sessions
    case ReadContent(socket) =>
      socket in c.sessions && c.sessions[socket].phase == Holding
    case SendWrite(socket, lines) =>
      && socket in c.sessions && c.sessions[socket].phase.Editing?
      && ClientEdit(c.sessions[socket].phase.content, t.sentence, lines).Some?
      && FitsSession(c.sessions[socket].phase.content, t.sentence, lines)
      && SS.WellFormed(c.disk, WriteRequest(t, c.sessions[socket], lines))
      && ParseWrite(WriteRequest(t, c.sessions[socket], lines).data).FullWrite?
    case SendCommit(socket) => socket in c.sessions && c.sessions[socket].phase == Written
    case GiveUp(socket) => socket in c.sessions
    case OtherNs(r) =>
      && NS.WellFormed(r)
      && !(r.Commit? && r.file == t.file && ScanInt(r.data).value.0 == t.sentence && r.socket in c.sessions)
    case OtherSs(r) => SS.WellFormed(c.disk, r) && KeepsContent(r, t.file)
  }

  function SetPhase(c: Config, socket: int, phase: Phase): Config
    requires socket in c.sessions
  {
    c.(sessions := c.sessions[socket := c.sessions[socket].(phase := phase)])
  }

  /** Back to the command prompt; whatever lock there is stays in the table. */
  function Leave(c: Config, socket: int): Config {
    c.(sessions := c.sessions - {socket})
  }

  function Next(t: Target, c: Config, step: Step): Config
    requires Enabled(t, c, step)
  {
    match step
    case AskLock(socket, user) =>
      var (ns, reply) := NS.Step(c.ns, LockRequest(t, socket, user));
      if reply.Granted? then
        c.(ns := ns, sessions := c.sessions[socket := Session(user, c.nextTicket, Holding)],
           nextTicket := c.nextTicket + 1)
      else c.(ns := ns)
    case ReadContent(socket) =>
      var reply := SS.ReadReply(c.disk, c.sessions[socket].user, t.file);
      if reply.Ok? && SessionSentences(reply.data, t.sentence).Some? then SetPhase(c, socket, Editing(reply.data))
      else Leave(c, socket)
    case SendWrite(socket, lines) =>
      var s := c.sessions[socket];
      var (disk, reply) := SS.Step(c.disk, WriteRequest(t, s, lines));
      if reply.Ok? then
        SetPhase(c.(disk := disk, log := c.log + [Entry(socket, s.ticket, lines)]), socket, Written)
      else Leave(c.(disk := disk), socket)
    case SendCommit(socket) =>
      CommitReadable(t, socket, c.sessions[socket].user);
      Leave(c.(ns := NS.Step(c.ns, CommitRequest(t, socket, c.sessions[socket].user)).0), socket)
    case GiveUp(socket) => Leave(c, socket)
    case OtherNs(r) => c.(ns := NS.Step(c.ns, r).0)
    case OtherSs(r) => c.(disk := SS.Step(c.disk, r).0)
  }

  lemma SentenceReadable(n: nat)
    ensures ScanInt(PrintInt(n)) == Some((n as int, ""))
  {
    IntRoundTrip(n, "");
    assert PrintInt(n) + "" == PrintInt(n);
  }

  lemma CommitReadable(t: Target, socket: int, user: string)
    ensures NS.WellFormed(CommitRequest(t, socket, user))
  {
    SentenceReadable(t.sentence);
  }

  predicate EnabledRun(t: Target, c: Config, steps: seq<Step>)
    decreases |steps|
  {
    steps == [] || (Enabled(t, c, steps[0]) && EnabledRun(t, Next(t, c, steps[0]), steps[1..]))
  }

  function Run(t: Target, c: Config, steps: seq<Step>): Config
    requires EnabledRun(t, c, steps)
    decreases |steps|
  {
    if steps == [] then c else Run(t, Next(t, c, steps[0]), steps[1..])
  }

  // ----- the invariant -----

  predicate Locks(t: Target, l: NS.Lock, socket: int) {
    l.filename == t.file && l.sentence == t.sentence && l.socket == socket
  }

  ghost predicate HoldsLock(t: Target, ns: NS.State, socket: int) {
    exists l :: l in ns.locks && Locks(t, l, socket)
  }

  /** The logged edits, applied one after the other. */
  function Replay(content: string, n: nat, log: seq<Entry>): Option<string> {
    if log == [] then Some(content)
    else
      match Replay(content, n, log[..|log| - 1])
      case None => None
      case Some(before) => ClientEdit(before, n, log[|log| - 1].lines)
  }

  predicate Increasing(log: seq<Entry>) {
    forall i, j :: 0 <= i < j < |log| ==> log[i].ticket < log[j].ticket
  }

  /** A session that has not written yet has a later ticket than every logged write. */
  predicate Later(log: seq<Entry>, s: Session) {
    s.phase != Written ==> forall i :: 0 <= i < |log| ==> log[i].ticket < s.ticket
  }

  /** Every session holds the lock on the sentence. */
  ghost predicate LocksHeld(t: Target, ns: NS.State, sessions: map<int, Session>) {
    NR.Inv(ns) && forall socket :: socket in sessions ==> HoldsLock(t, ns, socket)
  }

  /** The document is what the log says. */
  predicate Logged(t: Target, initial: string, disk: SS.Disk, log: seq<Entry>) {
    && SR.Inv(disk) && t.file in disk.files
    && Replay(initial, t.sentence, log) == Some(disk.files[t.file])
  }

  /** What a session read is current, and its ticket fits the log. */
  predicate Current(s: Session, content: string, log: seq<Entry>) {
    && (s.phase.Editing? ==> s.phase.content == content)
    && Later(log, s)
  }

  predicate Tickets(log: seq<Entry>, next: nat) {
    Increasing(log) && forall i :: 0 <= i < |log| ==> log[i].ticket < next
  }

  ghost predicate Inv(t: Target, initial: string, c: Config) {
    && LocksHeld(t, c.ns, c.sessions)
    && Logged(t, initial, c.disk, c.log)
    && Tickets(c.log, c.nextTicket)
    && forall socket :: socket in c.sessions ==>
         Current(c.sessions[socket], c.disk.files[t.file], c.log) && c.sessions[socket].ticket < c.nextTicket
  }

  lemma OneHolder(t: Target, ns: NS.State, s1: int, s2: int)
    requires NR.Inv(ns) && HoldsLock(t, ns, s1) && HoldsLock(t, ns, s2)
    ensures s1 == s2
  {
    var l1 :| l1 in ns.locks && Locks(t, l1, s1);
    var l2 :| l2 in ns.locks && Locks(t, l2, s2);
    var i :| 0 <= i < |ns.locks| && ns.locks[i] == l1;
    var j :| 0 <= j < |ns.locks| && ns.locks[j] == l2;
    if i < j || j < i {
      assert NR.Exclusive(ns.locks);
    }
  }

  /** At most one session is between its lock and its commit. */
  lemma OneSession(t: Target, initial: string, c: Config, s1: int, s2: int)
    requires Inv(t, initial, c) && s1 in c.sessions && s2 in c.sessions
    ensures s1 == s2
  {
    OneHolder(t, c.ns, s1, s2);
  }

  lemma NsKeepsHolder(t: Target, ns: NS.State, r: NS.Request, socket: int)
    requires NR.Inv(ns) && NS.WellFormed(r) && HoldsLock(t, ns, socket)
    requires !(r.Commit? && r.file == t.file && ScanInt(r.data).value.0 == t.sentence && r.socket == socket)
    ensures HoldsLock(t, NS.Step(ns, r).0, socket)
  {
    var l :| l in ns.locks && Locks(t, l, socket);
    NR.StepKeepsLock(ns, r, l);
    assert Locks(t, l, socket);
  }

  lemma AskKeepsLocks(t: Target, ns: NS.State, sessions: map<int, Session>, socket: int, user: string)
    requires LocksHeld(t, ns, sessions)
    ensures var (ns', reply) := NS.Step(ns, LockRequest(t, socket, user));
            LocksHeld(t, ns', sessions) && (reply.Granted? ==> HoldsLock(t, ns', socket))
  {
    var r := LockRequest(t, socket, user);
    SentenceReadable(t.sentence);
    NR.StepKeepsInv(ns, r);
    forall s | s in sessions ensures HoldsLock(t, NS.Step(ns, r).0, s) {
      NsKeepsHolder(t, ns, r, s);
    }
    if NS.Step(ns, r).1.Granted? {
      NR.GrantTakesLock(ns, user, t.file, PrintInt(t.sentence), socket);
      var l :| l in NS.Step(ns, r).0.locks && l.filename == t.file && l.sentence == t.sentence && l.socket == socket;
      assert Locks(t, l, socket);
    }
  }

  lemma AskKeepsInv(t: Target, initial: string, c: Config, socket: int, user: string)
    requires Inv(t, initial, c) && socket !in c.sessions
    ensures Inv(t, initial, Next(t, c, AskLock(socket, user)))
  {
    AskKeepsLocks(t, c.ns, c.sessions, socket, user);
    var ns' := NS.Step(c.ns, LockRequest(t, socket, user)).0;
    var s := Session(user, c.nextTicket, Holding);
    assert Current(s, c.disk.files[t.file], c.log);
    assert Next(t, c, AskLock(socket, user)) == c.(ns := ns')
        || Next(t, c, AskLock(socket, user))
           == c.(ns := ns', sessions := c.sessions[socket := s], nextTicket := c.nextTicket + 1);
  }

  lemma ReadKeepsInv(t: Target, initial: string, c: Config, socket: int)
    requires Inv(t, initial, c) && Enabled(t, c, ReadContent(socket))
    ensures Inv(t, initial, Next(t, c, ReadContent(socket)))
  {
    var content := c.disk.files[t.file];
    var s := c.sessions[socket];
    assert SS.Load(content) == content;
    assert Current(s.(phase := Editing(content)), content, c.log) by {
      assert Current(s, content, c.log);
    }
    var c' := Next(t, c, ReadContent(socket));
    assert c' == SetPhase(c, socket, Editing(content)) || c' == Leave(c, socket);
  }

  lemma ReplayAppend(initial: string, n: nat, log: seq<Entry>, e: Entry, content: string)
    requires Replay(initial, n, log) == Some(content)
    ensures Replay(initial, n, log + [e]) == ClientEdit(content, n, e.lines)
  {
    assert (log + [e])[..|log + [e]| - 1] == log;
  }

  lemma FullWriteStep(disk: SS.Disk, r: SS.Request)
    requires SR.Inv(disk) && SS.WellFormed(disk, r) && r.Write? && ParseWrite(r.data).FullWrite?
    ensures var (disk', reply) := SS.Step(disk, r);
            && SR.Inv(disk')
            && (reply.Ok? ==> r.file in disk'.files && disk'.files[r.file] == r.data)
            && (!reply.Ok? ==> disk' == disk)
  {
    SR.StepKeepsInv(disk, r);
  }

  lemma TicketsAppend(log: seq<Entry>, s: Session, e: Entry)
    requires Increasing(log) && Later(log, s) && s.phase != Written && e.ticket == s.ticket
    ensures Tickets(log + [e], s.ticket + 1)
  {
  }

  lemma LogWrite(t: Target, initial: string, c: Config, socket: int, lines: seq<string>)
    requires Inv(t, initial, c) && Enabled(t, c, SendWrite(socket, lines))
    ensures var s := c.sessions[socket];
            var (disk, reply) := SS.Step(c.disk, WriteRequest(t, s, lines));
            && (reply.Ok? ==> Logged(t, initial, disk, c.log + [Entry(socket, s.ticket, lines)]))
            && (!reply.Ok? ==> disk == c.disk)
  {
    var s := c.sessions[socket];
    FullWriteStep(c.disk, WriteRequest(t, s, lines));
    ReplayAppend(initial, t.sentence, c.log, Entry(socket, s.ticket, lines), c.disk.files[t.file]);
  }

  lemma WriteKeepsInv(t: Target, initial: string, c: Config, socket: int, lines: seq<string>)
    requires Inv(t, initial, c) && Enabled(t, c, SendWrite(socket, lines))
    ensures Inv(t, initial, Next(t, c, SendWrite(socket, lines)))
  {
    var s := c.sessions[socket];
    LogWrite(t, initial, c, socket, lines);
    assert Current(s, c.disk.files[t.file], c.log);
    TicketsAppend(c.log, s, Entry(socket, s.ticket, lines));
    forall other | other in c.sessions ensures other == socket {
      OneSession(t, initial, c, other, socket);
    }
  }

  lemma CommitKeepsInv(t: Target, initial: string, c: Config, socket: int)
    requires Inv(t, initial, c) && Enabled(t, c, SendCommit(socket))
    ensures Inv(t, initial, Next(t, c, SendCommit(socket)))
  {
    CommitReadable(t, socket, c.sessions[socket].user);
    NR.StepKeepsInv(c.ns, CommitRequest(t, socket, c.sessions[socket].user));
    forall other | other in c.sessions && other != socket ensures false {
      OneSession(t, initial, c, other, socket);
    }
  }

  lemma OtherNsKeepsInv(t: Target, initial: string, c: Config, r: NS.Request)
    requires Inv(t, initial, c) && Enabled(t, c, OtherNs(r))
    ensures Inv(t, initial, Next(t, c, OtherNs(r)))
  {
    NR.StepKeepsInv(c.ns, r);
    forall s | s in c.sessions ensures HoldsLock(t, NS.Step(c.ns, r).0, s) {
      NsKeepsHolder(t, c.ns, r, s);
    }
  }

  lemma OtherSsKeepsContent(disk: SS.Disk, r: SS.Request, file: string)
    requires SR.Inv(disk) && SS.WellFormed(disk, r) && KeepsContent(r, file) && file in disk.files
    ensures file in SS.Step(disk, r).0.files && SS.Step(disk, r).0.files[file] == disk.files[file]
  {
    if r.file != file {
      SR.StepTouchesOne(disk, r, file);
    } else if r.CheckpointOp? {
      SR.CheckpointsKeepFiles(disk, file, r.data, r.time);
    } else if r.Create? {
      assert SS.CreateStep(disk, r.user, file).0 == disk;
    }
  }

  lemma OtherSsKeepsInv(t: Target, initial: string, c: Config, r: SS.Request)
    requires Inv(t, initial, c) && Enabled(t, c, OtherSs(r))
    ensures Inv(t, initial, Next(t, c, OtherSs(r)))
  {
    SR.StepKeepsInv(c.disk, r);
    OtherSsKeepsContent(c.disk, r, t.file);
  }

  lemma StepKeepsInv(t: Target, initial: string, c: Config, step: Step)
    requires Inv(t, initial, c) && Enabled(t, c, step)
    ensures Inv(t, initial, Next(t, c, step))
  {
    match step
    case AskLock(socket, user) => AskKeepsInv(t, initial, c, socket, user);
    case ReadContent(socket) => ReadKeepsInv(t, initial, c, socket);
    case SendWrite(socket, lines) => WriteKeepsInv(t, initial, c, socket, lines);
    case SendCommit(socket) => CommitKeepsInv(t, initial, c, socket);
    case GiveUp(socket) =>
    case OtherNs(r) => OtherNsKeepsInv(t, initial, c, r);
    case OtherSs(r) => OtherSsKeepsInv(t, initial, c, r);
  }

  lemma {:induction false} RunKeepsInv(t: Target, initial: string, c: Config, steps: seq<Step>)
    requires Inv(t, initial, c) && EnabledRun(t, c, steps)
    ensures Inv(t, initial, Run(t, c, steps))
    decreases |steps|
  {
    if steps != [] {
      StepKeepsInv(t, initial, c, steps[0]);
      RunKeepsInv(t, initial, Next(t, c, steps[0]), steps[1..]);
    }
  }

  // ----- no lost update -----

  predicate Start(t: Target, c: Config) {
    && NR.Inv(c.ns) && SR.Inv(c.disk) && t.file in c.disk.files
    && c.sessions == map[] && c.log == []
  }

  /** In every interleaving: what a session read is still the content of the document when it writes;
      the document is the result of applying the logged edits one after the other; and the writes
      happened in the order in which the locks were granted. */
  lemma NoLostUpdate(t: Target, c: Config, steps: seq<Step>)
    requires Start(t, c) && EnabledRun(t, c, steps)
    ensures var c' := Run(t, c, steps);
            && t.file in c'.disk.files
            && Replay(c.disk.files[t.file], t.sentence, c'.log) == Some(c'.disk.files[t.file])
            && Increasing(c'.log)
            && (forall s :: s in c'.sessions && c'.sessions[s].phase.Editing?
                            ==> c'.sessions[s].phase.content == c'.disk.files[t.file])
            && (forall s1, s2 :: s1 in c'.sessions && s2 in c'.sessions ==> s1 == s2)
  {
    var initial := c.disk.files[t.file];
    RunKeepsInv(t, initial, c, steps);
    var c' := Run(t, c, steps);
    forall s1, s2 | s1 in c'.sessions && s2 in c'.sessions ensures s1 == s2 {
      OneSession(t, initial, c', s1, s2);
    }
  }

  // ----- an unhindered session -----

  function WholeSession(socket: int, user: string, lines: seq<string>): seq<Step> {
    [AskLock(socket, user), ReadContent(socket), SendWrite(socket, lines), SendCommit(socket)]
  }

  predicate SentenceFree(t: Target, ns: NS.State) {
    forall l :: l in ns.locks ==> l.filename != t.file || l.sentence != t.sentence
  }

  /** The session's text fits and is not taken for a word edit. */
  predicate CanSend(t: Target, disk: SS.Disk, user: string, content: string, lines: seq<string>) {
    && ClientEdit(content, t.sentence, lines).Some? && FitsSession(content, t.sentence, lines)
    && var r := SS.Write(user, t.file, ClientEdit(content, t.sentence, lines).value);
       SS.WellFormed(disk, r) && ParseWrite(r.data).FullWrite? && SS.Validates(user, t.file)
  }

  lemma FreeSentenceTaken(t: Target, ns: NS.State, socket: int, user: string)
    requires SentenceFree(t, ns) && NS.Step(ns, LockRequest(t, socket, user)).1.Granted?
    ensures NS.Step(ns, LockRequest(t, socket, user)).0
            == ns.(locks := ns.locks + [NS.Lock(t.file, t.sentence, user, socket)])
  {
    SentenceReadable(t.sentence);
  }

  lemma CommitGivesBack(t: Target, ns: NS.State, socket: int, user: string)
    requires SentenceFree(t, ns)
    ensures NS.WellFormed(CommitRequest(t, socket, user))
    ensures NS.Step(ns.(locks := ns.locks + [NS.Lock(t.file, t.sentence, user, socket)]),
                    CommitRequest(t, socket, user)).0 == ns
  {
    var lock := NS.Lock(t.file, t.sentence, user, socket);
    SentenceReadable(t.sentence);
    NR.ReleaseAt(ns.locks + [lock], lock, |ns.locks|);
    assert (ns.locks + [lock])[..|ns.locks|] + (ns.locks + [lock])[|ns.locks| + 1..] == ns.locks;
  }

  lemma AskSucceeds(t: Target, c: Config, socket: int, user: string)
    requires SentenceFree(t, c.ns) && NS.Step(c.ns, LockRequest(t, socket, user)).1.Granted?
    requires socket !in c.sessions
    ensures var c1 := Next(t, c, AskLock(socket, user));
            && Taken(t, c1, c.ns, socket, Session(user, c.nextTicket, Holding))
            && c1.disk == c.disk && c1.log == c.log && c1.sessions - {socket} == c.sessions
  {
    FreeSentenceTaken(t, c.ns, socket, user);
  }

  lemma ReadSucceeds(t: Target, c: Config, socket: int)
    requires SR.Inv(c.disk) && t.file in c.disk.files && Enabled(t, c, ReadContent(socket))
    requires SS.Validates(c.sessions[socket].user, t.file)
    requires SessionSentences(c.disk.files[t.file], t.sentence).Some?
    ensures Next(t, c, ReadContent(socket)) == SetPhase(c, socket, Editing(c.disk.files[t.file]))
  {
    SR.ReadReturnsContent(c.disk, c.sessions[socket].user, t.file);
  }

  lemma WriteSucceeds(t: Target, c: Config, socket: int, lines: seq<string>)
    requires Enabled(t, c, SendWrite(socket, lines))
    requires SS.Validates(c.sessions[socket].user, t.file)
    ensures var s := c.sessions[socket];
            var disk := SS.Step(c.disk, WriteRequest(t, s, lines)).0;
            && t.file in disk.files && disk.files[t.file] == WriteRequest(t, s, lines).data
            && Next(t, c, SendWrite(socket, lines))
               == SetPhase(c.(disk := disk, log := c.log + [Entry(socket, s.ticket, lines)]), socket, Written)
  {
  }

  lemma RunFirst(t: Target, c: Config, step: Step, rest: seq<Step>)
    requires Enabled(t, c, step) && EnabledRun(t, Next(t, c, step), rest)
    ensures EnabledRun(t, c, [step] + rest)
    ensures Run(t, c, [step] + rest) == Run(t, Next(t, c, step), rest)
  {
    assert ([step] + rest)[1..] == rest;
  }

  /** A session that holds the lock on a sentence which is free in `free`. */
  predicate Taken(t: Target, c: Config, free: NS.State, socket: int, s: Session) {
    && socket in c.sessions && c.sessions[socket] == s
    && SentenceFree(t, free)
    && c.ns == free.(locks := free.locks + [NS.Lock(t.file, t.sentence, s.user, socket)])
  }

  lemma FinishCommit(t: Target, c: Config, free: NS.State, socket: int, s: Session)
    requires Taken(t, c, free, socket, s) && s.phase == Written
    ensures EnabledRun(t, c, [SendCommit(socket)])
    ensures Run(t, c, [SendCommit(socket)]) == Leave(c.(ns := free), socket)
  {
    CommitGivesBack(t, free, socket, s.user);
    RunFirst(t, c, SendCommit(socket), []);
  }

  lemma FinishWrite(t: Target, c: Config, free: NS.State, socket: int, s: Session, lines: seq<string>)
    requires Taken(t, c, free, socket, s) && s.phase.Editing?
    requires CanSend(t, c.disk, s.user, s.phase.content, lines)
    ensures EnabledRun(t, c, [SendWrite(socket, lines), SendCommit(socket)])
    ensures var c' := Run(t, c, [SendWrite(socket, lines), SendCommit(socket)]);
            && t.file in c'.disk.files
            && Some(c'.disk.files[t.file]) == ClientEdit(s.phase.content, t.sentence, lines)
            && c'.log == c.log + [Entry(socket, s.ticket, lines)]
            && c'.ns == free && c'.sessions == c.sessions - {socket}
  {
    WriteSucceeds(t, c, socket, lines);
    var c1 := Next(t, c, SendWrite(socket, lines));
    FinishCommit(t, c1, free, socket, s.(phase := Written));
    RunFirst(t, c, SendWrite(socket, lines), [SendCommit(socket)]);
    assert c1.sessions - {socket} == c.sessions - {socket};
  }

  lemma FinishRead(t: Target, c: Config, free: NS.State, socket: int, s: Session, lines: seq<string>)
    requires SR.Inv(c.disk) && t.file in c.disk.files
    requires Taken(t, c, free, socket, s) && s.phase == Holding
    requires CanSend(t, c.disk, s.user, c.disk.files[t.file], lines)
    ensures EnabledRun(t, c, [ReadContent(socket), SendWrite(socket, lines), SendCommit(socket)])
    ensures var c' := Run(t, c, [ReadContent(socket), SendWrite(socket, lines), SendCommit(socket)]);
            && t.file in c'.disk.files
            && Some(c'.disk.files[t.file]) == ClientEdit(c.disk.files[t.file], t.sentence, lines)
            && c'.log == c.log + [Entry(socket, s.ticket, lines)]
            && c'.ns == free && c'.sessions == c.sessions - {socket}
  {
    ReadSucceeds(t, c, socket);
    var c1 := Next(t, c, ReadContent(socket));
    FinishWrite(t, c1, free, socket, s.(phase := Editing(c.disk.files[t.file])), lines);
    RunFirst(t, c, ReadContent(socket), [SendWrite(socket, lines), SendCommit(socket)]);
    assert c1.sessions - {socket} == c.sessions - {socket};
  }

  /** Whenever the name server grants a free sentence, the session can run to its end: the document is
      then the edited text, the edit is logged, and locks and sessions are as they were before. */
  lemma SessionCompletes(t: Target, c: Config, socket: int, user: string, lines: seq<string>)
    requires SR.Inv(c.disk) && t.file in c.disk.files && socket !in c.sessions
    requires SentenceFree(t, c.ns) && NS.Step(c.ns, LockRequest(t, socket, user)).1.Granted?
    requires CanSend(t, c.disk, user, c.disk.files[t.file], lines)
    ensures EnabledRun(t, c, WholeSession(socket, user, lines))
    ensures var c' := Run(t, c, WholeSession(socket, user, lines));
            && t.file in c'.disk.files
            && Some(c'.disk.files[t.file]) == ClientEdit(c.disk.files[t.file], t.sentence, lines)
            && c'.log == c.log + [Entry(socket, c.nextTicket, lines)]
            && c'.ns == c.ns && c'.sessions == c.sessions
  {
    AskSucceeds(t, c, socket, user);
    FinishRead(t, Next(t, c, AskLock(socket, user)), c.ns, socket, Session(user, c.nextTicket, Holding), lines);
    RunFirst(t, c, AskLock(socket, user), [ReadContent(socket), SendWrite(socket, lines), SendCommit(socket)]);
  }
}
