/** What each request to the name server does, said outright: when it is granted, which error it gets
    otherwise, and the whole state afterwards.
 */
module NameServerEffects {
  import opened Options
  import opened Scan
  import opened Location
  import opened Text
  import opened NameServerSpec
  import opened Permissions
  import opened NameServerRuns
  import opened NameServerBalance
  import opened Answers

  // ----- permissions -----

  /** The owner may do everything, others what the bits of their grant say. */
  ghost predicate May(s: State, user: string, file: string, required: int) {
    IsOwner(s, user, file) || ((file, user) in s.access && Allows(s.access[(file, user)], required))
  }

  lemma CheckExactly(s: State, user: string, file: string, required: int)
    ensures CheckPermission(s, user, file, required) <==> May(s, user, file, required)
  {
    if (file, user) in s.access {
      HasBitsExactly(s.access[(file, user)], required);
    }
  }

  // ----- READ, STREAM and INFO -----

  /** A server that holds the document is known. */
  predicate Reachable(s: State, file: string)
    requires file in s.files
  {
    Registered(s, s.files[file].ssId) || Registered(s, s.files[file].replicaId)
  }

  lemma ReadExactly(s: State, user: string, file: string)
    requires Inv(s)
    ensures var (s', reply) := Step(s, Read(user, file));
            && s' == s
            && (reply.Granted? <==> file in s.files && May(s, user, file, ACCESS_READ) && Reachable(s, file))
            && (file !in s.files ==> reply == Refused(FileNotFound))
            && (file in s.files && !May(s, user, file, ACCESS_READ) ==> reply == Refused(PermissionDenied))
            && (file in s.files && May(s, user, file, ACCESS_READ) && !Reachable(s, file)
                ==> reply == Refused(SsNotFound))
  {
    CheckExactly(s, user, file, ACCESS_READ);
    if file in s.files {
      GetSsExactly(s, s.files[file].ssId);
      GetSsExactly(s, s.files[file].replicaId);
    }
  }

  /** From an empty database, the document is given to those whom history permits to read, and to
      nobody else. */
  lemma ReadFollowsHistory(rs: seq<Request>, user: string, file: string)
    requires WellFormedRun(rs)
    ensures var s := Run(EMPTY_DATABASE, rs);
            Step(s, Read(user, file)).1.Granted?
            <==> && file in s.files && Reachable(s, file)
                 && Permitted(History(EMPTY_DATABASE, rs), user, file, ACCESS_READ)
  {
    RunKeepsInv(EMPTY_DATABASE, rs);
    var s := Run(EMPTY_DATABASE, rs);
    ReadExactly(s, user, file);
    CheckExactly(s, user, file, ACCESS_READ);
    PermissionIsHistory(rs, user, file, ACCESS_READ);
  }

  // ----- lock requests -----

  predicate SentenceLocked(s: State, file: string, sentence: int) {
    exists l :: l in s.locks && l.filename == file && l.sentence == sentence
  }

  predicate LockedByOther(s: State, file: string, sentence: int, socket: int) {
    exists l :: l in s.locks && l.filename == file && l.sentence == sentence && l.socket != socket
  }

  /** The first thing that is wrong decides the error. */
  lemma LockErrors(s: State, user: string, file: string, data: string, socket: int)
    requires Inv(s)
    ensures var reply := Step(s, WriteLock(user, file, data, socket)).1;
            if ScanInt(data).None? then reply == Refused(InvalidParam)
            else
              var n := ScanInt(data).value.0;
              if file !in s.files then reply == Refused(FileNotFound)
              else if !May(s, user, file, ACCESS_WRITE) then reply == Refused(PermissionDenied)
              else if LockedByOther(s, file, n, socket) then reply == Refused(Locked)
              else if !SentenceLocked(s, file, n) && |s.locks| >= MAX_LOCKS then reply == Refused(ServerError)
              else if !Registered(s, s.files[file].ssId) then reply == Refused(SsNotFound)
              else reply.Granted?
  {
    CheckExactly(s, user, file, ACCESS_WRITE);
    if ScanInt(data).Some? && file in s.files {
      var n := ScanInt(data).value.0;
      var i := FindLock(s.locks, file, n);
      GetSsExactly(s, s.files[file].ssId);
      FindLockExactly(s.locks, file, n);
      if i < |s.locks| {
        assert s.locks[i] in s.locks;
      }
    }
  }

  /** A lock request does nothing but take the sentence if it is free. */
  lemma LockEffect(s: State, user: string, file: string, data: string, socket: int)
    requires Inv(s) && Step(s, WriteLock(user, file, data, socket)).1.Granted?
    ensures ScanInt(data).Some?
    ensures var n := ScanInt(data).value.0;
            Step(s, WriteLock(user, file, data, socket)).0
            == if SentenceLocked(s, file, n) then s else s.(locks := s.locks + [Lock(file, n, user, socket)])
  {
    var n := ScanInt(data).value.0;
    var i := FindLock(s.locks, file, n);
    FindLockExactly(s.locks, file, n);
    if i < |s.locks| {
      assert s.locks[i] in s.locks;
    }
  }

  /** Nobody is granted a lock whom history does not permit to write. */
  lemma LockFollowsHistory(rs: seq<Request>, user: string, file: string, data: string, socket: int)
    requires WellFormedRun(rs)
    requires Step(Run(EMPTY_DATABASE, rs), WriteLock(user, file, data, socket)).1.Granted?
    ensures Permitted(History(EMPTY_DATABASE, rs), user, file, ACCESS_WRITE)
  {
    RunKeepsInv(EMPTY_DATABASE, rs);
    LockNeedsPermission(Run(EMPTY_DATABASE, rs), user, file, data, socket);
    PermissionIsHistory(rs, user, file, ACCESS_WRITE);
  }

  lemma LockNeedsPermission(s: State, user: string, file: string, data: string, socket: int)
    requires Inv(s) && Step(s, WriteLock(user, file, data, socket)).1.Granted?
    ensures CheckPermission(s, user, file, ACCESS_WRITE)
  {
    LockGrantedExactly(s, user, file, data, socket);
  }

  // ----- CREATE and CREATEFOLDER -----

  predicate IsCreation(r: Request) {
    r.Create? || r.CreateFolder?
  }

  lemma Placement(s: State)
    requires Inv(s) && s.servers != []
    ensures IsLeast(Counts(s.servers), Pick(s.servers)) && s.servers[Pick(s.servers)].id == Pick(s.servers) + 1
    ensures var replica := PickReplica(s.servers, Pick(s.servers), 0);
            && (|s.servers| > 1 ==> replica.Some? && s.servers[replica.value].id == replica.value + 1)
            && (|s.servers| == 1 ==> replica.None?)
  {
    PickIsLeast(s.servers);
    assert |s.servers| > 1 ==> s.servers[if Pick(s.servers) == 0 then 1 else 0].alive;
  }

  lemma CreateExactly(s: State, r: Request)
    requires Inv(s) && IsCreation(r)
    ensures var (s', reply) := Step(s, r);
            if r.file in s.files then (s', reply) == (s, Refused(FileExists))
            else if s.servers == [] then (s', reply) == (s, Refused(SsNotFound))
            else if !r.dbOk then (s', reply) == (s, Refused(ServerError))
            else reply.Granted? && CreationEffect(s, r, s')
  {
    if r.file !in s.files && s.servers != [] && r.dbOk {
      CreationGranted(s, r);
    }
  }

  lemma CreationGranted(s: State, r: Request)
    requires Inv(s) && IsCreation(r) && r.file !in s.files && s.servers != [] && r.dbOk
    ensures Step(s, r).1.Granted? && CreationEffect(s, r, Step(s, r).0)
  {
    Placement(s);
    assert Step(s, r) == CreateRow(s, r.user, r.file, true, r.CreateFolder?);
  }

  /** One more row, one more name in the index, one more file on a server of least count; a document, but
      not a folder, has its replica on another server whenever there is one. */
  predicate CreationEffect(s: State, r: Request, s': State)
    requires IsCreation(r)
  {
    && r.file in s'.files
    && var row := s'.files[r.file];
       && row.owner == r.user && row.isFolder == r.CreateFolder?
       && Registered(s, row.ssId) && IsLeast(Counts(s.servers), row.ssId - 1)
       && (r.CreateFolder? ==> row.replicaId == 0)
       && (r.Create? && |s.servers| == 1 ==> row.replicaId == -1)
       && (r.Create? && |s.servers| > 1 ==> Registered(s, row.replicaId) && row.replicaId != row.ssId)
       && s' == s.(files := s.files[r.file := row], index := s.index + {r.file},
                   servers := s.servers[row.ssId - 1 := s.servers[row.ssId - 1].(
                                fileCount := s.servers[row.ssId - 1].fileCount + 1)])
  }

  // ----- DELETE -----

  lemma DeleteExactly(s: State, user: string, file: string)
    requires Inv(s)
    ensures var (s', reply) := Step(s, Delete(user, file));
            if file !in s.files then (s', reply) == (s, Refused(FileNotFound))
            else if s.files[file].owner != user then (s', reply) == (s, Refused(NotOwner))
            else
              && reply.Granted? && DeletionEffect(s, file, s')
              && (!Registered(s, s.files[file].ssId) ==> reply.data == "")
  {
    if file in s.files {
      DropCountShape(s.servers, s.files[file].ssId);
      if s.files[file].owner == user {
        var s' := Step(s, Delete(user, file)).0;
        DeleteKeepsInv(s, user, file);
        GetSsExactly(s', s.files[file].ssId);
        DroppedAt(s, s.files[file].ssId);
      }
    }
  }

  /** The row, its grants and its name in the index are gone, its server counts one file less, and
      nothing else has changed. */
  ghost predicate DeletionEffect(s: State, file: string, s': State)
    requires file in s.files
  {
    && s'.files == s.files - {file} && s'.index == s.index - {file}
    && (forall k :: k in s'.access <==> k in s.access && k.0 != file)
    && (forall k :: k in s'.access ==> s'.access[k] == s.access[k])
    && s'.users == s.users && s'.locks == s.locks && s'.nextSsId == s.nextSsId
    && |s'.servers| == |s.servers|
    && (forall i :: 0 <= i < |s.servers| ==>
          s'.servers[i] == s.servers[i].(fileCount := s.servers[i].fileCount
                                                      - (if i + 1 == s.files[file].ssId then 1 else 0)))
  }

  lemma DroppedAt(s: State, id: int)
    requires Inv(s)
    ensures |DropCount(s.servers, id)| == |s.servers|
    ensures forall i :: 0 <= i < |s.servers| ==>
              DropCount(s.servers, id)[i]
              == s.servers[i].(fileCount := s.servers[i].fileCount - (if i + 1 == id then 1 else 0))
  {
    DropCountShape(s.servers, id);
    forall i | 0 <= i < |s.servers|
      ensures DropCount(s.servers, id)[i].fileCount == s.servers[i].fileCount - (if i + 1 == id then 1 else 0)
    {
      DropCountAt(s.servers, id, i);
    }
  }

  /** Whoever deletes a document is told where its file is, and its replica. */
  lemma DeleteAnswer(s: State, user: string, file: string)
    requires Inv(s) && GoodAddresses(s.servers) && IsOwner(s, user, file) && Registered(s, s.files[file].ssId)
    requires |Step(s, Delete(user, file)).1.data| < BUFFER_SIZE
    ensures ParseSsInfo(Step(s, Delete(user, file)).1.data)
            == Wanted(AddressAt(s, s.files[file].ssId).value, AddressAt(s, s.files[file].replicaId))
  {
    DeleteData(s, user, file);
    LocationRoundTrip(s.servers[s.files[file].ssId - 1].address, Plain, AddressAt(s, s.files[file].replicaId));
  }

  lemma AddressAfterDelete(s: State, user: string, file: string, id: int)
    requires Inv(s) && IsOwner(s, user, file)
    ensures AddressOf(GetSs(DeleteStep(s, user, file).0.servers, id)) == AddressAt(s, id)
  {
    var s' := DeleteStep(s, user, file).0;
    DeleteKeepsInv(s, user, file);
    DroppedAt(s, s.files[file].ssId);
    AddressFound(s', id);
  }

  lemma DeleteData(s: State, user: string, file: string)
    requires Inv(s) && IsOwner(s, user, file) && Registered(s, s.files[file].ssId)
    ensures DeleteStep(s, user, file).1
            == Granted(PrintLocation(s.servers[s.files[file].ssId - 1].address, Plain,
                                     AddressAt(s, s.files[file].replicaId)))
  {
    AddressAfterDelete(s, user, file, s.files[file].ssId);
    AddressAfterDelete(s, user, file, s.files[file].replicaId);
  }

  // ----- ADDACCESS and REMACCESS -----

  /** A user name, a bar, and a number. */
  predicate GrantShape(data: string, target: string, bits: int, number: string) {
    && data == target + ("|" + number) && target != "" && Avoids(target, '|')
    && ScanInt(number).Some? && ScanInt(number).value.0 == bits
  }

  lemma GrantDataExactly(data: string, target: string, bits: int)
    ensures ScanGrant(data) == Some((target, bits)) <==> exists number :: GrantShape(data, target, bits, number)
  {
    if number :| GrantShape(data, target, bits, number) {
      SpanNotOf(target, '|', "|" + number);
      assert data[..|target|] == target && data[|target|..] == "|" + number;
      assert ("|" + number)[1..] == number;
    }
    if ScanGrant(data) == Some((target, bits)) {
      var n := SpanNot(data, '|');
      assert data[..n] == target && data[n..][1..] == data[n + 1..];
      assert data == target + ("|" + data[n + 1..]);
      assert GrantShape(data, target, bits, data[n + 1..]);
    }
  }

  lemma GrantExactly(s: State, user: string, file: string, data: string, dbOk: bool)
    requires Inv(s) && WellFormed(AddAccess(user, file, data, dbOk))
    ensures var (s', reply) := Step(s, AddAccess(user, file, data, dbOk));
            if ScanGrant(data).None? then (s', reply) == (s, Refused(InvalidParam))
            else
              var (target, bits) := ScanGrant(data).value;
              if file !in s.files then (s', reply) == (s, Refused(FileNotFound))
              else if s.files[file].owner != user then (s', reply) == (s, Refused(NotOwner))
              else if target !in s.users then (s', reply) == (s, Refused(UserNotFound))
              else if !dbOk then (s', reply) == (s, Refused(ServerError))
              else reply.Granted? && s' == s.(access := s.access[(file, target) := bits])
  {
  }

  lemma RevokeExactly(s: State, user: string, file: string, data: string)
    requires Inv(s)
    ensures var (s', reply) := Step(s, RemAccess(user, file, data));
            if file !in s.files then (s', reply) == (s, Refused(FileNotFound))
            else if s.files[file].owner != user then (s', reply) == (s, Refused(NotOwner))
            else reply.Granted? && s' == s.(access := s.access - {(file, RevokeTarget(data))})
  {
  }

  predicate GoodTarget(target: string) {
    target != "" && |target| < MAX_USERNAME && Avoids(target, '|') && Trimmed(target)
  }

  /** "%s|%d" */
  function PrintGrant(target: string, bits: int): string {
    target + ("|" + PrintInt(bits))
  }

  lemma PrintedGrant(target: string, bits: int)
    requires GoodTarget(target)
    ensures ScanGrant(PrintGrant(target, bits)) == Some((target, bits))
    ensures SpanNot(PrintGrant(target, bits), '|') < MAX_USERNAME
  {
    ScanNumber(bits);
    SpanNotOf(target, '|', "|" + PrintInt(bits));
    assert GrantShape(PrintGrant(target, bits), target, bits, PrintInt(bits));
    GrantDataExactly(PrintGrant(target, bits), target, bits);
  }

  lemma TargetOf(target: string)
    requires GoodTarget(target)
    ensures RevokeTarget(target) == target
  {
    TrimUnique("", target, "");
    assert "" + target + "" == target;
    TrimTarget(target);
  }

  /** What ADDACCESS allowed, REMACCESS with the same name takes away again, and nothing else. */
  lemma GrantThenRevoke(s: State, user: string, file: string, target: string, bits: int)
    requires Inv(s) && IsOwner(s, user, file) && target in s.users && GoodTarget(target)
    requires (file, target) !in s.access
    ensures WellFormed(AddAccess(user, file, PrintGrant(target, bits), true))
    ensures var s1 := Step(s, AddAccess(user, file, PrintGrant(target, bits), true)).0;
            s1 == s.(access := s.access[(file, target) := bits]) && Step(s1, RemAccess(user, file, target)).0 == s
  {
    PrintedGrant(target, bits);
    GrantExactly(s, user, file, PrintGrant(target, bits), true);
    var s1 := Step(s, AddAccess(user, file, PrintGrant(target, bits), true)).0;
    StepKeepsInv(s, AddAccess(user, file, PrintGrant(target, bits), true));
    RevokeExactly(s1, user, file, target);
    TargetOf(target);
    assert s.access[(file, target) := bits] - {(file, target)} == s.access;
  }

  // ----- registrations -----

  /** A user is listed from then on, unless a hundred others are; nobody is listed twice. */
  lemma RegisterClientExactly(s: State, user: string)
    ensures var (s', reply) := Step(s, RegisterClient(user));
            && reply.Granted?
            && (user in s'.users <==> user in s.users || |s.users| < MAX_USERS)
            && s' == s.(users := if user in s.users || |s.users| >= MAX_USERS then s.users else s.users + [user])
  {
  }

  predicate GoodUsers(users: seq<string>) {
    |users| <= MAX_USERS && forall i, j :: 0 <= i < j < |users| ==> users[i] != users[j]
  }

  lemma StepKeepsUsers(s: State, r: Request)
    requires WellFormed(r)
    ensures r.RegisterClient? || Step(s, r).0.users == s.users
    ensures s.users <= Step(s, r).0.users
    ensures GoodUsers(s.users) ==> GoodUsers(Step(s, r).0.users)
  {
  }

  /** Over any run the list has no doubles and at most a hundred names, and it only grows; whoever is
      on it at the end was on it at the start or has registered. */
  lemma {:induction false} RunKeepsUsers(s: State, rs: seq<Request>)
    requires WellFormedRun(rs) && GoodUsers(s.users)
    ensures GoodUsers(Run(s, rs).users) && s.users <= Run(s, rs).users
    ensures forall u :: u in Run(s, rs).users ==> u in s.users || RegisterClient(u) in rs
    decreases |rs|
  {
    if rs != [] {
      StepKeepsUsers(s, rs[0]);
      RegistersOnly(s, rs[0]);
      RunKeepsUsers(Step(s, rs[0]).0, rs[1..]);
    }
  }

  lemma RegistersOnly(s: State, r: Request)
    requires WellFormed(r)
    ensures forall u :: u in Step(s, r).0.users ==> u in s.users || r == RegisterClient(u)
  {
  }

  /** The eleventh storage server is refused. */
  lemma RegisterSsExactly(s: State, data: string)
    requires Inv(s) && WellFormed(RegisterSs(data))
    ensures var (s', reply) := Step(s, RegisterSs(data));
            if |s.servers| >= MAX_STORAGE_SERVERS then (s', reply) == (s, Refused(ServerError))
            else
              && reply.Granted? && s'.nextSsId == s.nextSsId + 1
              && s' == s.(servers := s'.servers, nextSsId := s'.nextSsId)
              && |s'.servers| == |s.servers| + 1 && s.servers <= s'.servers
              && s'.servers[|s.servers|].id == |s.servers| + 1 && s'.servers[|s.servers|].fileCount == 0
              && s'.servers[|s.servers|].alive
  {
  }
}
