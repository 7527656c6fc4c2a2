/** What every run of the name server keeps: the state invariant, mutual exclusion on sentences,
    permissions as a function of history, and conservation of counts. */
module NameServerRuns {
  import opened Options
  import opened Scan
  import opened Location
  import opened Text
  import opened NameServerSpec
  import opened Permissions

  // ----- the state invariant -----

  predicate GoodServers(servers: seq<Server>, nextSsId: int) {
    && |servers| <= MAX_STORAGE_SERVERS && nextSsId == |servers| + 1
    && forall i :: 0 <= i < |servers| ==> servers[i].id == i + 1 && servers[i].alive
  }

  /** No two live entries share a sentence. */
  predicate Exclusive(locks: seq<Lock>) {
    forall i, j :: 0 <= i < j < |locks| ==>
      locks[i].filename != locks[j].filename || locks[i].sentence != locks[j].sentence
  }

  predicate Inv(s: State) {
    && s.index == s.files.Keys
    && GoodServers(s.servers, s.nextSsId)
    && Exclusive(s.locks) && |s.locks| <= MAX_LOCKS
    && forall k :: k in s.access ==> k.0 in s.files
  }

  lemma {:induction false} ReleaseAt(ls: seq<Lock>, lock: Lock, i: nat)
    requires i <= |ls| && forall j :: 0 <= j < i ==> ls[j] != lock
    ensures i < |ls| && ls[i] == lock ==> Release(ls, lock) == ls[..i] + ls[i + 1..]
    ensures i == |ls| ==> Release(ls, lock) == ls
  {
    if i > 0 {
      ReleaseAt(ls[1..], lock, i - 1);
      assert ls == [ls[0]] + ls[1..];
      assert i < |ls| ==> [ls[0]] + (ls[1..][..i - 1] + ls[1..][i..]) == ls[..i] + ls[i + 1..];
    }
  }

  lemma {:induction false} FirstIndex(ls: seq<Lock>, lock: Lock) returns (i: nat)
    requires lock in ls
    ensures i < |ls| && ls[i] == lock && forall j :: 0 <= j < i ==> ls[j] != lock
  {
    if ls[0] == lock {
      i := 0;
    } else {
      i := FirstIndex(ls[1..], lock);
      i := i + 1;
    }
  }

  lemma ReleaseShape(locks: seq<Lock>, lock: Lock)
    ensures lock !in locks ==> Release(locks, lock) == locks
    ensures lock in locks ==> exists i :: 0 <= i < |locks| && locks[i] == lock
                                          && Release(locks, lock) == locks[..i] + locks[i + 1..]
  {
    if lock in locks {
      var i := FirstIndex(locks, lock);
      ReleaseAt(locks, lock, i);
    } else {
      ReleaseAt(locks, lock, |locks|);
    }
  }

  lemma RemoveAt(locks: seq<Lock>, i: nat)
    requires Exclusive(locks) && i < |locks|
    ensures Exclusive(locks[..i] + locks[i + 1..])
    ensures forall l :: l in locks[..i] + locks[i + 1..] <==> l in locks && l != locks[i]
  {
    var rest := locks[..i] + locks[i + 1..];
    forall l | l in locks && l != locks[i] ensures l in rest {
      var k :| 0 <= k < |locks| && locks[k] == l;
      assert rest[if k < i then k else k - 1] == l;
    }
  }

  lemma ReleaseExclusive(locks: seq<Lock>, lock: Lock)
    requires Exclusive(locks)
    ensures Exclusive(Release(locks, lock)) && |Release(locks, lock)| <= |locks|
    ensures forall l :: l in Release(locks, lock) <==> l in locks && l != lock
  {
    ReleaseShape(locks, lock);
    if lock in locks {
      var i :| 0 <= i < |locks| && locks[i] == lock && Release(locks, lock) == locks[..i] + locks[i + 1..];
      RemoveAt(locks, i);
    }
  }

  lemma {:induction false} DropCountShape(servers: seq<Server>, id: int)
    ensures |DropCount(servers, id)| == |servers|
    ensures forall i :: 0 <= i < |servers| ==>
              DropCount(servers, id)[i].(fileCount := servers[i].fileCount) == servers[i]
  {
    if servers != [] && servers[0].id != id {
      DropCountShape(servers[1..], id);
    }
  }

  lemma CreateKeepsInv(s: State, user: string, file: string, dbOk: bool, folder: bool)
    requires Inv(s)
    ensures Inv(CreateRow(s, user, file, dbOk, folder).0)
  {
  }

  lemma DeleteKeepsInv(s: State, user: string, file: string)
    requires Inv(s)
    ensures Inv(DeleteStep(s, user, file).0)
  {
    if file in s.files {
      DropCountShape(s.servers, s.files[file].ssId);
    }
  }

  lemma StepKeepsInv(s: State, r: Request)
    requires Inv(s) && WellFormed(r)
    ensures Inv(Step(s, r).0)
  {
    match r
    case Commit(user, file, data, socket) =>
      ReleaseExclusive(s.locks, Lock(file, ScanInt(data).value.0, user, socket));
    case Create(user, file, dbOk) => CreateKeepsInv(s, user, file, dbOk, false);
    case CreateFolder(user, file, dbOk) => CreateKeepsInv(s, user, file, dbOk, true);
    case Delete(user, file) => DeleteKeepsInv(s, user, file);
    case _ =>
  }

  /** In every reachable state the index holds exactly the file names, slot i holds server i + 1, the
      locks exclude each other, and access rows belong to existing files. */
  lemma {:induction false} RunKeepsInv(s: State, rs: seq<Request>)
    requires Inv(s) && WellFormedRun(rs)
    ensures Inv(Run(s, rs))
    decreases |rs|
  {
    if rs != [] {
      StepKeepsInv(s, rs[0]);
      RunKeepsInv(Step(s, rs[0]).0, rs[1..]);
    }
  }

  // ----- mutual exclusion -----

  predicate Releases(r: Request, lock: Lock) {
    && r.Commit? && ScanInt(r.data).Some?
    && Lock(r.file, ScanInt(r.data).value.0, r.user, r.socket) == lock
  }

  /** A lock request for the sentence of `lock` by another connection. */
  predicate Competes(r: Request, lock: Lock) {
    && r.WriteLock? && r.file == lock.filename && r.socket != lock.socket
    && ScanInt(r.data).Some? && ScanInt(r.data).value.0 == lock.sentence
  }

  lemma FindLockUnique(locks: seq<Lock>, lock: Lock)
    requires Exclusive(locks) && lock in locks
    ensures FindLock(locks, lock.filename, lock.sentence) < |locks|
    ensures locks[FindLock(locks, lock.filename, lock.sentence)] == lock
  {
    var k :| 0 <= k < |locks| && locks[k] == lock;
  }

  lemma StepKeepsLock(s: State, r: Request, lock: Lock)
    requires Inv(s) && WellFormed(r) && lock in s.locks && !Releases(r, lock)
    ensures lock in Step(s, r).0.locks
  {
    if r.Commit? {
      ReleaseExclusive(s.locks, Lock(r.file, ScanInt(r.data).value.0, r.user, r.socket));
    }
  }

  /** A grant leaves the requester holding the sentence. */
  lemma GrantTakesLock(s: State, user: string, file: string, data: string, socket: int)
    requires Inv(s)
    requires LockStep(s, user, file, data, socket).1.Granted?
    ensures ScanInt(data).Some?
    ensures exists l :: l in LockStep(s, user, file, data, socket).0.locks
                        && l.filename == file && l.sentence == ScanInt(data).value.0 && l.socket == socket
  {
    var sentence := ScanInt(data).value.0;
    var i := FindLock(s.locks, file, sentence);
    var locks' := LockStep(s, user, file, data, socket).0.locks;
    if i < |s.locks| {
      assert s.locks[i] in locks';
    } else {
      assert locks'[|locks'| - 1] in locks';
    }
  }

  /** A lock request succeeds exactly when it names a sentence of an existing document, the user may
      write, nobody else holds the sentence, there is room or the lock is held already, and the
      document's server is registered. */
  lemma LockGrantedExactly(s: State, user: string, file: string, data: string, socket: int)
    requires Inv(s)
    ensures LockStep(s, user, file, data, socket).1.Granted?
            <==> && ScanInt(data).Some?
                 && file in s.files && CheckPermission(s, user, file, ACCESS_WRITE)
                 && (forall l :: l in s.locks && l.filename == file && l.sentence == ScanInt(data).value.0
                                 ==> l.socket == socket)
                 && ((exists l :: l in s.locks && l.filename == file && l.sentence == ScanInt(data).value.0)
                     || |s.locks| < MAX_LOCKS)
                 && 1 <= s.files[file].ssId <= |s.servers|
  {
    if ScanInt(data).Some? && file in s.files {
      var sentence := ScanInt(data).value.0;
      var i := FindLock(s.locks, file, sentence);
      GetSsExactly(s, s.files[file].ssId);
      FindLockExactly(s.locks, file, sentence);
      if i < |s.locks| {
        assert s.locks[i] in s.locks;
      }
    }
  }

  /** A refused lock request leaves a lock behind exactly when everything but the storage server was in
      order: the sentence was free, and the server that has the document is not registered. */
  lemma RefusedLockStays(s: State, user: string, file: string, data: string, socket: int)
    requires Inv(s) && LockStep(s, user, file, data, socket).1.Refused?
    ensures LockStep(s, user, file, data, socket).0 != s
            <==> && ScanInt(data).Some?
                 && file in s.files && CheckPermission(s, user, file, ACCESS_WRITE)
                 && (forall l :: l in s.locks ==> l.filename != file || l.sentence != ScanInt(data).value.0)
                 && |s.locks| < MAX_LOCKS
                 && !(1 <= s.files[file].ssId <= |s.servers|)
    ensures LockStep(s, user, file, data, socket).0 != s
            ==> LockStep(s, user, file, data, socket).0
                == s.(locks := s.locks + [Lock(file, ScanInt(data).value.0, user, socket)])
                && LockStep(s, user, file, data, socket).1 == Refused(SsNotFound)
  {
    if ScanInt(data).Some? && file in s.files {
      var sentence := ScanInt(data).value.0;
      GetSsExactly(s, s.files[file].ssId);
      FindLockExactly(s.locks, file, sentence);
      var i := FindLock(s.locks, file, sentence);
      if i < |s.locks| {
        assert s.locks[i] in s.locks;
      } else {
        assert |s.locks + [Lock(file, sentence, user, socket)]| == |s.locks| + 1;
      }
    }
  }

  /** Locks on two different sentences do not stand in each other's way, whoever asks for them. */
  lemma DifferentSentences(s: State, user: string, file: string, n: nat, m: nat, k1: int, k2: int)
    requires Inv(s) && n != m && |s.locks| < MAX_LOCKS - 1
    requires file in s.files && CheckPermission(s, user, file, ACCESS_WRITE) && 1 <= s.files[file].ssId <= |s.servers|
    requires forall l :: l in s.locks && l.filename == file ==> l.sentence != n && l.sentence != m
    ensures var (s', reply) := LockStep(s, user, file, PrintInt(n), k1);
            reply.Granted? && LockStep(s', user, file, PrintInt(m), k2).1.Granted?
  {
    ScanNumber(n);
    ScanNumber(m);
    LockGrantedExactly(s, user, file, PrintInt(n), k1);
    var s' := LockStep(s, user, file, PrintInt(n), k1).0;
    StepKeepsInv(s, WriteLock(user, file, PrintInt(n), k1));
    assert forall l :: l in s'.locks ==> l in s.locks || l == Lock(file, n, user, k1);
    LockGrantedExactly(s', user, file, PrintInt(m), k2);
  }

  lemma ScanNumber(n: int)
    ensures ScanInt(PrintInt(n)) == Some((n, ""))
  {
    IntRoundTrip(n, "");
    assert PrintInt(n) + "" == PrintInt(n);
  }

  /** What a storage server prints to register is read back, it gets the next slot and number, and it
      reads that number from the answer. */
  lemma RegistrationRoundTrip(s: State, a: Address)
    requires Inv(s) && ValidAddress(a) && |s.servers| < MAX_STORAGE_SERVERS
    ensures WellFormed(RegisterSs(PrintAddress(a)))
    ensures var (s', reply) := Step(s, RegisterSs(PrintAddress(a)));
            && s'.servers == s.servers + [Server(|s.servers| + 1, a, true, 0)]
            && reply.Granted? && reply.data[..6] == "SS_ID:"
            && ScanInt(reply.data[6..]) == Some((|s.servers| + 1, ""))
  {
    AddressReadBack(a);
    ScanNumber(|s.servers| + 1);
    var id := PrintInt(|s.servers| + 1);
    assert ("SS_ID:" + id)[6..] == id && ("SS_ID:" + id)[..6] == "SS_ID:";
  }

  lemma AddressReadBack(a: Address)
    requires ValidAddress(a)
    ensures ScanRegistration(PrintAddress(a)) == Some(a) && SpanNot(PrintAddress(a), ':') <= IP_WIDTH
  {
    var port := PrintInt(a.port);
    SpanNotOf(a.ip, ':', ":" + port);
    assert PrintAddress(a) == a.ip + (":" + port);
    assert PrintAddress(a)[..|a.ip|] == a.ip && PrintAddress(a)[|a.ip|..] == ":" + port;
    assert (":" + port)[1..] == port;
    IntRoundTrip(a.port, "");
    assert port + "" == port;
  }

  lemma FindLockExactly(locks: seq<Lock>, file: string, sentence: int)
    requires Exclusive(locks)
    ensures var i := FindLock(locks, file, sentence);
            && (i == |locks| ==> forall l :: l in locks ==> l.filename != file || l.sentence != sentence)
            && (i < |locks| ==> forall l :: l in locks && l.filename == file && l.sentence == sentence
                                            ==> l == locks[i])
  {
    forall l | l in locks && l.filename == file && l.sentence == sentence
      ensures FindLock(locks, file, sentence) < |locks| && l == locks[FindLock(locks, file, sentence)]
    {
      FindLockUnique(locks, l);
    }
  }

  lemma {:induction false} GetSsFrom(servers: seq<Server>, k: int, id: int)
    requires forall i :: 0 <= i < |servers| ==> servers[i].id == k + i && servers[i].alive
    ensures GetSs(servers, id) == if k <= id < k + |servers| then Some(servers[id - k]) else None
  {
    if servers != [] && servers[0].id != id {
      GetSsFrom(servers[1..], k + 1, id);
    }
  }

  /** Looking up an id finds slot id - 1, and nothing else. */
  lemma GetSsExactly(s: State, id: int)
    requires Inv(s)
    ensures GetSs(s.servers, id) == if 1 <= id <= |s.servers| then Some(s.servers[id - 1]) else None
  {
    GetSsFrom(s.servers, 1, id);
  }

  /** While a lock is not released, it stays in the table and every competing request is refused
      without changing anything, at every moment of every run. */
  lemma {:induction false} LockExcludes(s: State, rs: seq<Request>, lock: Lock, k: nat)
    requires Inv(s) && WellFormedRun(rs) && lock in s.locks
    requires forall i :: 0 <= i < |rs| ==> !Releases(rs[i], lock)
    requires k <= |rs|
    ensures lock in Run(s, rs[..k]).locks
    ensures k < |rs| && Competes(rs[k], lock)
            ==> Step(Run(s, rs[..k]), rs[k]).1.Refused? && Step(Run(s, rs[..k]), rs[k]).0 == Run(s, rs[..k])
    decreases |rs|
  {
    if k == 0 {
      FindLockUnique(s.locks, lock);
    } else {
      StepKeepsInv(s, rs[0]);
      StepKeepsLock(s, rs[0], lock);
      assert rs[..k][1..] == rs[1..][..k - 1];
      LockExcludes(Step(s, rs[0]).0, rs[1..], lock, k - 1);
    }
  }

  /** Only the holder's own commit takes a lock away, and it takes away nothing else. */
  lemma CommitReleasesOne(s: State, r: Request)
    requires Inv(s) && r.Commit? && WellFormed(r)
    ensures forall l :: l in Step(s, r).0.locks <==> l in s.locks && !Releases(r, l)
    ensures var before, after := s.locks, Step(s, r).0.locks;
            after == before
            || exists i :: 0 <= i < |before| && Releases(r, before[i]) && after == before[..i] + before[i + 1..]
  {
    var lock := Lock(r.file, ScanInt(r.data).value.0, r.user, r.socket);
    ReleaseShape(s.locks, lock);
    ReleaseExclusive(s.locks, lock);
  }

  // ----- permissions as a function of history -----

  datatype Event =
    | Created(file: string, user: string)
    | Deleted(file: string)
    | Allowed(file: string, user: string, bits: int)
    | Revoked(file: string, user: string)

  /** What the outside world sees a request accomplish. */
  function Events(s: State, r: Request): seq<Event>
    requires WellFormed(r)
  {
    if Step(s, r).1.Refused? then []
    else
      match r
      case Create(user, file, _) => [Created(file, user)]
      case CreateFolder(user, file, _) => [Created(file, user)]
      case Delete(_, file) => [Deleted(file)]
      case AddAccess(_, file, data, _) =>
        if ScanGrant(data).Some? then [Allowed(file, ScanGrant(data).value.0, ScanGrant(data).value.1)] else []
      case RemAccess(_, file, data) => [Revoked(file, RevokeTarget(data))]
      case _ => []
  }

  function History(s: State, rs: seq<Request>): seq<Event>
    requires WellFormedRun(rs)
    decreases |rs|
  {
    if rs == [] then [] else Events(s, rs[0]) + History(Step(s, rs[0]).0, rs[1..])
  }

  predicate Reincarnates(e: Event, file: string) {
    (e.Created? || e.Deleted?) && e.file == file
  }

  predicate Overwrites(e: Event, file: string, user: string) {
    (e.Allowed? || e.Revoked?) && e.file == file && e.user == user
  }

  /** `user` created the current incarnation of `file`: nothing created or deleted it since. */
  ghost predicate CreatedBy(h: seq<Event>, file: string, user: string) {
    exists i :: 0 <= i < |h| && h[i] == Created(file, user)
                && forall j :: i < j < |h| ==> !Reincarnates(h[j], file)
  }

  /** The last grant or revocation for (file, user) in the current incarnation is a grant of `bits`. */
  ghost predicate GrantedBits(h: seq<Event>, file: string, user: string, bits: int) {
    exists i :: 0 <= i < |h| && h[i] == Allowed(file, user, bits)
                && forall j :: i < j < |h| ==> !Reincarnates(h[j], file) && !Overwrites(h[j], file, user)
  }

  ghost predicate Permitted(h: seq<Event>, user: string, file: string, required: int) {
    || CreatedBy(h, file, user)
    || exists bits :: GrantedBits(h, file, user, bits) && Allows(bits, required)
  }

  lemma CreatedByAppend(h: seq<Event>, e: Event, file: string, user: string)
    ensures CreatedBy(h + [e], file, user)
            <==> e == Created(file, user) || (CreatedBy(h, file, user) && !Reincarnates(e, file))
  {
    var h' := h + [e];
    if e == Created(file, user) {
      assert h'[|h|] == e;
    } else if CreatedBy(h, file, user) && !Reincarnates(e, file) {
      var i :| 0 <= i < |h| && h[i] == Created(file, user)
               && forall j :: i < j < |h| ==> !Reincarnates(h[j], file);
      assert h'[i] == Created(file, user);
    }
    if CreatedBy(h', file, user) && e != Created(file, user) {
      var i :| 0 <= i < |h'| && h'[i] == Created(file, user)
               && forall j :: i < j < |h'| ==> !Reincarnates(h'[j], file);
      assert h'[|h|] == e && h[i] == h'[i];
      assert forall j :: i < j < |h| ==> h[j] == h'[j];
    }
  }

  lemma GrantedAppend(h: seq<Event>, e: Event, file: string, user: string, bits: int)
    ensures GrantedBits(h + [e], file, user, bits)
            <==> e == Allowed(file, user, bits)
                 || (GrantedBits(h, file, user, bits) && !Reincarnates(e, file) && !Overwrites(e, file, user))
  {
    var h' := h + [e];
    if e == Allowed(file, user, bits) {
      assert h'[|h|] == e;
    } else if GrantedBits(h, file, user, bits) && !Reincarnates(e, file) && !Overwrites(e, file, user) {
      var i :| 0 <= i < |h| && h[i] == Allowed(file, user, bits)
               && forall j :: i < j < |h| ==> !Reincarnates(h[j], file) && !Overwrites(h[j], file, user);
      assert h'[i] == Allowed(file, user, bits);
    }
    if GrantedBits(h', file, user, bits) && e != Allowed(file, user, bits) {
      var i :| 0 <= i < |h'| && h'[i] == Allowed(file, user, bits)
               && forall j :: i < j < |h'| ==> !Reincarnates(h'[j], file) && !Overwrites(h'[j], file, user);
      assert h'[|h|] == e && h[i] == h'[i];
      assert forall j :: i < j < |h| ==> h[j] == h'[j];
    }
  }

  predicate HasBitsRow(s: State, f: string, u: string, b: int) {
    (f, u) in s.access && s.access[(f, u)] == b
  }

  /** The tables change as one event says. */
  ghost predicate Follows(s: State, e: Event, s': State) {
    && (forall f, u :: IsOwner(s', u, f) <==> e == Created(f, u) || (IsOwner(s, u, f) && !Reincarnates(e, f)))
    && (forall f, u, b :: HasBitsRow(s', f, u, b)
          <==> e == Allowed(f, u, b) || (HasBitsRow(s, f, u, b) && !Reincarnates(e, f) && !Overwrites(e, f, u)))
  }

  lemma CreateFollows(s: State, user: string, file: string, dbOk: bool, folder: bool)
    requires Inv(s) && CreateRow(s, user, file, dbOk, folder).1.Granted?
    ensures Follows(s, Created(file, user), CreateRow(s, user, file, dbOk, folder).0)
  {
  }

  lemma DeleteFollows(s: State, user: string, file: string)
    requires Inv(s) && DeleteStep(s, user, file).1.Granted?
    ensures Follows(s, Deleted(file), DeleteStep(s, user, file).0)
  {
    var s' := DeleteStep(s, user, file).0;
    forall f, u, b ensures HasBitsRow(s', f, u, b) <==> HasBitsRow(s, f, u, b) && f != file {
      assert (f, u).0 == f;
    }
  }

  lemma GrantFollows(s: State, user: string, file: string, data: string, dbOk: bool)
    requires GrantStep(s, user, file, data, dbOk).1.Granted?
    ensures ScanGrant(data).Some?
    ensures Follows(s, Allowed(file, ScanGrant(data).value.0, ScanGrant(data).value.1),
                    GrantStep(s, user, file, data, dbOk).0)
  {
  }

  lemma RevokeFollows(s: State, user: string, file: string, data: string)
    requires RevokeStep(s, user, file, data).1.Granted?
    ensures Follows(s, Revoked(file, RevokeTarget(data)), RevokeStep(s, user, file, data).0)
  {
  }

  lemma NoEvent(s: State, r: Request)
    requires Inv(s) && WellFormed(r) && Events(s, r) == []
    ensures Step(s, r).0.files == s.files && Step(s, r).0.access == s.access
  {
  }

  lemma StepFollows(s: State, r: Request)
    requires Inv(s) && WellFormed(r)
    ensures Events(s, r) == [] ==> Step(s, r).0.files == s.files && Step(s, r).0.access == s.access
    ensures Events(s, r) != [] ==> |Events(s, r)| == 1 && Follows(s, Events(s, r)[0], Step(s, r).0)
  {
    if Events(s, r) == [] {
      NoEvent(s, r);
    } else {
      match r
      case Create(user, file, dbOk) => CreateFollows(s, user, file, dbOk, false);
      case CreateFolder(user, file, dbOk) => CreateFollows(s, user, file, dbOk, true);
      case Delete(user, file) => DeleteFollows(s, user, file);
      case AddAccess(user, file, data, dbOk) => GrantFollows(s, user, file, data, dbOk);
      case RemAccess(user, file, data) => RevokeFollows(s, user, file, data);
      case _ =>
    }
  }

  /** The two tables hold what the history says. */
  ghost predicate Reflects(s: State, h: seq<Event>) {
    && (forall f, u :: IsOwner(s, u, f) <==> CreatedBy(h, f, u))
    && (forall f, u, b :: HasBitsRow(s, f, u, b) <==> GrantedBits(h, f, u, b))
  }

  lemma FollowsReflects(s: State, h: seq<Event>, e: Event, s': State)
    requires Reflects(s, h) && Follows(s, e, s')
    ensures Reflects(s', h + [e])
  {
    forall f, u ensures IsOwner(s', u, f) <==> CreatedBy(h + [e], f, u) {
      CreatedByAppend(h, e, f, u);
      assert IsOwner(s, u, f) <==> CreatedBy(h, f, u);
    }
    forall f, u, b ensures HasBitsRow(s', f, u, b) <==> GrantedBits(h + [e], f, u, b) {
      GrantedAppend(h, e, f, u, b);
      assert HasBitsRow(s, f, u, b) <==> GrantedBits(h, f, u, b);
    }
  }

  lemma StepReflects(s: State, r: Request, h: seq<Event>)
    requires Inv(s) && WellFormed(r) && Reflects(s, h)
    ensures Reflects(Step(s, r).0, h + Events(s, r))
  {
    var s', es := Step(s, r).0, Events(s, r);
    StepFollows(s, r);
    if es == [] {
      assert h + es == h;
      SameTables(s, s', h);
    } else {
      assert es == [es[0]];
      FollowsReflects(s, h, es[0], s');
    }
  }

  lemma SameTables(s: State, s': State, h: seq<Event>)
    requires Reflects(s, h) && s'.files == s.files && s'.access == s.access
    ensures Reflects(s', h)
  {
    assert forall f, u :: IsOwner(s', u, f) == IsOwner(s, u, f);
    assert forall f, u, b :: HasBitsRow(s', f, u, b) == HasBitsRow(s, f, u, b);
  }

  lemma HistorySplit(s: State, rs: seq<Request>, h: seq<Event>)
    requires WellFormedRun(rs) && rs != []
    ensures h + History(s, rs) == (h + Events(s, rs[0])) + History(Step(s, rs[0]).0, rs[1..])
  {
  }

  lemma {:induction false} RunReflects(s: State, rs: seq<Request>, h: seq<Event>)
    requires Inv(s) && WellFormedRun(rs) && Reflects(s, h)
    ensures Reflects(Run(s, rs), h + History(s, rs))
    decreases |rs|
  {
    if rs == [] {
      assert h + [] == h;
    } else {
      HistorySplit(s, rs, h);
      StepKeepsInv(s, rs[0]);
      StepReflects(s, rs[0], h);
      RunReflects(Step(s, rs[0]).0, rs[1..], h + Events(s, rs[0]));
    }
  }

  lemma ReflectedPermission(s: State, h: seq<Event>, user: string, file: string, required: int)
    requires Reflects(s, h)
    ensures CheckPermission(s, user, file, required) <==> Permitted(h, user, file, required)
  {
    assert IsOwner(s, user, file) <==> CreatedBy(h, file, user);
    if (file, user) in s.access {
      assert HasBitsRow(s, file, user, s.access[(file, user)]);
      HasBitsExactly(s.access[(file, user)], required);
    }
  }

  /** A grant of one permission alone does not give the other. */
  lemma OneBitOnly(h: seq<Event>, user: string, file: string)
    requires !CreatedBy(h, file, user)
    ensures GrantedBits(h, file, user, ACCESS_WRITE) ==> !Permitted(h, user, file, ACCESS_READ)
    ensures GrantedBits(h, file, user, ACCESS_READ) ==> !Permitted(h, user, file, ACCESS_WRITE)
  {
    HasBitsExactly(ACCESS_WRITE, ACCESS_READ);
    HasBitsExactly(ACCESS_READ, ACCESS_WRITE);
    AccessBits(0);
    forall b1, b2 | GrantedBits(h, file, user, b1) && GrantedBits(h, file, user, b2) ensures b1 == b2 {
      LastGrantIsOne(h, file, user, b1, b2);
    }
  }

  lemma LastGrantIsOne(h: seq<Event>, file: string, user: string, b1: int, b2: int)
    requires GrantedBits(h, file, user, b1) && GrantedBits(h, file, user, b2)
    ensures b1 == b2
  {
    var i :| 0 <= i < |h| && h[i] == Allowed(file, user, b1)
             && forall j :: i < j < |h| ==> !Reincarnates(h[j], file) && !Overwrites(h[j], file, user);
    var k :| 0 <= k < |h| && h[k] == Allowed(file, user, b2)
             && forall j :: k < j < |h| ==> !Reincarnates(h[j], file) && !Overwrites(h[j], file, user);
    assert Overwrites(h[i], file, user) && Overwrites(h[k], file, user);
  }

  /** From an empty database, a permission check answers exactly what the history of successful
      creations, deletions, grants and revocations says. */
  lemma PermissionIsHistory(rs: seq<Request>, user: string, file: string, required: int)
    requires WellFormedRun(rs)
    ensures CheckPermission(Run(EMPTY_DATABASE, rs), user, file, required)
            <==> Permitted(History(EMPTY_DATABASE, rs), user, file, required)
  {
    var h := History(EMPTY_DATABASE, rs);
    RunReflects(EMPTY_DATABASE, rs, []);
    assert [] + h == h;
    ReflectedPermission(Run(EMPTY_DATABASE, rs), h, user, file, required);
  }

  // ----- restarts -----

  /** The database survives; registrations, users and locks do not. */
  function Restarted(s: State): State {
    Loaded(s.files, s.access)
  }

  predicate WellFormedLives(lives: seq<seq<Request>>) {
    forall i :: 0 <= i < |lives| ==> WellFormedRun(lives[i])
  }

  /** Runs with a restart before each of them. */
  function RunLives(s: State, lives: seq<seq<Request>>): State
    requires WellFormedLives(lives)
  {
    if lives == [] then s
    else Run(Restarted(RunLives(s, lives[..|lives| - 1])), lives[|lives| - 1])
  }

  function HistoryOfLives(s: State, lives: seq<seq<Request>>): seq<Event>
    requires WellFormedLives(lives)
  {
    if lives == [] then []
    else
      var before := lives[..|lives| - 1];
      HistoryOfLives(s, before) + History(Restarted(RunLives(s, before)), lives[|lives| - 1])
  }

  lemma RestartKeepsInv(s: State)
    requires Inv(s)
    ensures Inv(Restarted(s))
  {
  }

  /** Every life of the server keeps the invariant, and the tables go on reflecting the whole history. */
  lemma {:induction false} LivesReflect(s: State, lives: seq<seq<Request>>, h: seq<Event>)
    requires Inv(s) && WellFormedLives(lives) && Reflects(s, h)
    ensures Inv(RunLives(s, lives)) && Reflects(RunLives(s, lives), h + HistoryOfLives(s, lives))
  {
    if lives == [] {
      assert h + [] == h;
    } else {
      var before, rs := lives[..|lives| - 1], lives[|lives| - 1];
      LivesReflect(s, before, h);
      var s0 := Restarted(RunLives(s, before));
      var h0 := h + HistoryOfLives(s, before);
      RestartKeepsInv(RunLives(s, before));
      SameTables(RunLives(s, before), s0, h0);
      RunKeepsInv(s0, rs);
      RunReflects(s0, rs, h0);
      assert h0 + History(s0, rs) == h + HistoryOfLives(s, lives);
    }
  }

  /** The same over any number of restarts, history taken from the very first start. */
  lemma PermissionSurvivesRestarts(lives: seq<seq<Request>>, user: string, file: string, required: int)
    requires WellFormedLives(lives)
    ensures CheckPermission(RunLives(EMPTY_DATABASE, lives), user, file, required)
            <==> Permitted(HistoryOfLives(EMPTY_DATABASE, lives), user, file, required)
  {
    var h := HistoryOfLives(EMPTY_DATABASE, lives);
    LivesReflect(EMPTY_DATABASE, lives, []);
    assert [] + h == h;
    ReflectedPermission(RunLives(EMPTY_DATABASE, lives), h, user, file, required);
  }

  // ----- revocation -----

  lemma TrimTarget(data: string)
    requires |Trim(data)| < MAX_USERNAME && !Blank(data)
    ensures RevokeTarget(data) == Trim(data) <==> !IsSpace(data[0])
  {
    var clipped := Take(data, MAX_USERNAME - 1);
    var front, back := TrimSplits(data);
    assert Trim(data) == "" ==> data == front + back;
    if IsSpace(data[0]) {
      var tail := TrimRightSplits(clipped);
      assert TrimRight(clipped) != "" ==> TrimRight(clipped)[0] == data[0];
    } else {
      assert front == "";
      var rest := clipped[|Trim(data)|..];
      assert clipped == Trim(data) + rest && Blank(rest);
      TrimRightUnique(Trim(data), rest);
    }
  }

  /** A revocation that names an existing grant removes it exactly when the data does not begin with a
      blank; for the name it reads instead there must be another grant. */
  lemma RevokesExactly(s: State, user: string, file: string, data: string)
    requires Inv(s) && IsOwner(s, user, file) && |Trim(data)| < MAX_USERNAME && !Blank(data)
    requires (file, Trim(data)) in s.access
    ensures (file, Trim(data)) !in RevokeStep(s, user, file, data).0.access <==> !IsSpace(data[0])
    ensures RevokeStep(s, user, file, data).1.Granted?
  {
    TrimTarget(data);
  }

  /** Only the owner grants, revokes and deletes. */
  lemma OnlyOwner(s: State, r: Request)
    requires Inv(s) && WellFormed(r)
    requires r.AddAccess? || r.RemAccess? || r.Delete?
    ensures Step(s, r).0 != s ==> IsOwner(s, r.user, r.file)
    ensures Events(s, r) != [] ==> IsOwner(s, r.user, r.file)
  {
  }

  // ----- conservation of counts -----

  /** The rows that name server `id` as their primary. */
  function RowsOf(files: map<string, FileRow>, id: int): set<string> {
    set f | f in files && files[f].ssId == id
  }

  /** How far a server's counter is away from the table. */
  function Drift(s: State, k: nat): int
    requires k < |s.servers|
  {
    s.servers[k].fileCount - |RowsOf(s.files, k + 1)|
  }

  lemma {:induction false} DropCountAt(servers: seq<Server>, id: int, k: nat)
    requires forall i, j :: 0 <= i < j < |servers| ==> servers[i].id != servers[j].id
    requires k < |servers|
    ensures |DropCount(servers, id)| == |servers|
    ensures DropCount(servers, id)[k].fileCount
            == servers[k].fileCount - (if servers[k].id == id then 1 else 0)
  {
    if servers[0].id != id && k > 0 {
      DropCountAt(servers[1..], id, k - 1);
    } else if servers[0].id != id {
      assert DropCount(servers, id)[0] == servers[0];
      DropCountShape(servers, id);
    } else {
      assert k > 0 ==> servers[0].id != servers[k].id;
    }
  }

  lemma RowsOfAdd(files: map<string, FileRow>, file: string, row: FileRow, id: int)
    requires file !in files
    ensures |RowsOf(files[file := row], id)| == |RowsOf(files, id)| + (if row.ssId == id then 1 else 0)
  {
    var rows := RowsOf(files, id);
    assert file !in rows;
    assert RowsOf(files[file := row], id) == if row.ssId == id then rows + {file} else rows;
  }

  lemma CreatedRow(s: State, user: string, file: string, dbOk: bool, folder: bool)
    requires Inv(s) && CreateRow(s, user, file, dbOk, folder).1.Granted?
    ensures file !in s.files && s.servers != []
    ensures var s' := CreateRow(s, user, file, dbOk, folder).0;
            && file in s'.files && s'.files == s.files[file := s'.files[file]]
            && s'.files[file].ssId == Pick(s.servers) + 1
            && s'.servers == AddCount(s.servers, Pick(s.servers), 1)
  {
  }

  lemma CreateKeepsDrift(s: State, user: string, file: string, dbOk: bool, folder: bool, k: nat)
    requires Inv(s) && k < |s.servers|
    ensures |CreateRow(s, user, file, dbOk, folder).0.servers| == |s.servers|
    ensures Drift(CreateRow(s, user, file, dbOk, folder).0, k) == Drift(s, k)
  {
    var s' := CreateRow(s, user, file, dbOk, folder).0;
    if CreateRow(s, user, file, dbOk, folder).1.Granted? {
      CreatedRow(s, user, file, dbOk, folder);
      RowsOfAdd(s.files, file, s'.files[file], k + 1);
    }
  }

  lemma DeleteKeepsDrift(s: State, user: string, file: string, k: nat)
    requires Inv(s) && k < |s.servers|
    ensures |DeleteStep(s, user, file).0.servers| == |s.servers|
    ensures Drift(DeleteStep(s, user, file).0, k) == Drift(s, k)
  {
    if file in s.files && s.files[file].owner == user {
      DropCountAt(s.servers, s.files[file].ssId, k);
      var rows := RowsOf(s.files, k + 1);
      assert RowsOf(s.files - {file}, k + 1) == rows - {file};
    }
  }

  /** No request changes the drift of a registered server; a new server starts with the rows it
      already has as its deficit. */
  lemma StepKeepsDrift(s: State, r: Request, k: nat)
    requires Inv(s) && WellFormed(r) && k < |Step(s, r).0.servers|
    ensures |s.servers| <= |Step(s, r).0.servers|
    ensures k < |s.servers| ==> Drift(Step(s, r).0, k) == Drift(s, k)
    ensures k >= |s.servers| ==> r.RegisterSs? && k == |s.servers|
                                 && Drift(Step(s, r).0, k) == -|RowsOf(s.files, k + 1)|
  {
    match r
    case Create(user, file, dbOk) => StepServers(s, r); CreateKeepsDrift(s, user, file, dbOk, false, k);
    case CreateFolder(user, file, dbOk) => StepServers(s, r); CreateKeepsDrift(s, user, file, dbOk, true, k);
    case Delete(user, file) => StepServers(s, r); DeleteKeepsDrift(s, user, file, k);
    case _ =>
  }

  lemma StepServers(s: State, r: Request)
    requires Inv(s) && WellFormed(r) && (r.Create? || r.CreateFolder? || r.Delete?)
    ensures |Step(s, r).0.servers| == |s.servers|
  {
    if r.Delete? && r.file in s.files {
      DropCountShape(s.servers, s.files[r.file].ssId);
    }
  }

  /** Request `i` of the run registers the server for slot `k`. */
  predicate Registers(s: State, rs: seq<Request>, i: nat, k: nat)
    requires WellFormedRun(rs) && i < |rs|
  {
    rs[i].RegisterSs? && |Run(s, rs[..i]).servers| == k
  }

  /** The new server counts none of the rows it has by then. */
  function DriftAtRegistration(s: State, rs: seq<Request>, i: nat, k: nat): int
    requires WellFormedRun(rs) && i < |rs|
  {
    -|RowsOf(Run(s, rs[..i]).files, k + 1)|
  }

  lemma RegistersFirst(s: State, rs: seq<Request>, k: nat)
    requires WellFormedRun(rs) && rs != []
    ensures Registers(s, rs, 0, k) <==> rs[0].RegisterSs? && |s.servers| == k
    ensures DriftAtRegistration(s, rs, 0, k) == -|RowsOf(s.files, k + 1)|
  {
    assert Run(s, rs[..0]) == s;
  }

  lemma RegistersLater(s: State, rs: seq<Request>, i: nat, k: nat)
    requires WellFormedRun(rs) && i + 1 < |rs|
    ensures Registers(s, rs, i + 1, k) == Registers(Step(s, rs[0]).0, rs[1..], i, k)
    ensures DriftAtRegistration(s, rs, i + 1, k) == DriftAtRegistration(Step(s, rs[0]).0, rs[1..], i, k)
  {
    assert rs[..i + 1][1..] == rs[1..][..i];
    assert Run(s, rs[..i + 1]) == Run(Step(s, rs[0]).0, rs[1..][..i]);
  }

  /** Over any run, a counter differs from the current rows by what it differed at the start, or, for
      a server registered on the way, by the rows it had when it registered. */
  lemma {:induction false} RunKeepsDrift(s: State, rs: seq<Request>, k: nat)
    requires Inv(s) && WellFormedRun(rs) && k < |Run(s, rs).servers|
    ensures k < |s.servers| ==> Drift(Run(s, rs), k) == Drift(s, k)
    ensures k >= |s.servers| ==>
              exists i :: 0 <= i < |rs| && Registers(s, rs, i, k)
                          && Drift(Run(s, rs), k) == DriftAtRegistration(s, rs, i, k)
    decreases |rs|
  {
    if rs != [] {
      var s', rest := Step(s, rs[0]).0, rs[1..];
      StepKeepsInv(s, rs[0]);
      RunKeepsDrift(s', rest, k);
      if k < |s'.servers| {
        StepKeepsDrift(s, rs[0], k);
        RegistersFirst(s, rs, k);
      } else {
        StepGrows(s, rs[0]);
        var i :| 0 <= i < |rest| && Registers(s', rest, i, k)
                 && Drift(Run(s', rest), k) == DriftAtRegistration(s', rest, i, k);
        RegistersLater(s, rs, i, k);
      }
    }
  }

  lemma StepGrows(s: State, r: Request)
    requires Inv(s) && WellFormed(r)
    ensures |s.servers| <= |Step(s, r).0.servers|
  {
    if r.Delete? && r.file in s.files {
      DropCountShape(s.servers, s.files[r.file].ssId);
    }
  }
}
