/** The name server as it is written: fixed arrays with counters, two tables, and the heap trie,
    updated in place by the handlers.  Each handler is proved to make the step that
    `NameServerSpec.Step` describes.
 */
module NameServers {
  import opened Options
  import opened Scan
  import opened Location
  import opened Tries
  import opened NameServerSpec
  import opened NameServerRuns

  lemma {:induction false} DropCountFirst(ss: seq<Server>, id: int, i: nat)
    requires i <= |ss| && forall j :: 0 <= j < i ==> ss[j].id != id
    ensures i < |ss| && ss[i].id == id
            ==> DropCount(ss, id) == ss[i := ss[i].(fileCount := ss[i].fileCount - 1)]
    ensures i == |ss| ==> DropCount(ss, id) == ss
  {
    if i > 0 {
      DropCountFirst(ss[1..], id, i - 1);
      assert ss == [ss[0]] + ss[1..];
    }
  }

  /** File names are C strings. */
  predicate IsNamed(r: Request) {
    r.RegisterSs? || r.RegisterClient? || IsName(r.file)
  }

  class NameServer {
    const servers: array<Server>
    var ssCount: nat
    const users: array<string>
    var userCount: nat
    const locks: array<Lock>
    var lockCount: nat
    var nextSsId: int
    var files: map<string, FileRow>
    var access: map<(string, string), int>
    const fileTrie: Trie

    ghost predicate Valid()
      reads this, fileTrie, fileTrie.Repr
    {
      && servers.Length == MAX_STORAGE_SERVERS && ssCount <= servers.Length
      && users.Length == MAX_USERS && userCount <= users.Length
      && locks.Length == MAX_LOCKS && lockCount <= locks.Length
      && this !in fileTrie.Repr && servers !in fileTrie.Repr && users !in fileTrie.Repr && locks !in fileTrie.Repr
      && fileTrie in fileTrie.Repr && fileTrie.Valid()
    }

    ghost function View(): State
      requires Valid()
      reads this, servers, users, locks, fileTrie, fileTrie.Repr
    {
      State(files, access, servers[..ssCount], users[..userCount], locks[..lockCount], nextSsId, fileTrie.Words)
    }

    /** Start-up: the tables are what the database file holds, the trie is still empty. */
    constructor (files: map<string, FileRow>, access: map<(string, string), int>)
      ensures Valid() && fresh(fileTrie.Repr) && this.files == files
      ensures View() == Loaded(files, access).(index := {})
    {
      servers := new Server[MAX_STORAGE_SERVERS](_ => Server(0, Address("", 0), false, 0));
      users := new string[MAX_USERS](_ => "");
      locks := new Lock[MAX_LOCKS](_ => Lock("", 0, "", 0));
      ssCount, userCount, lockCount, nextSsId := 0, 0, 0, 1;
      this.files, this.access := files, access;
      fileTrie := new Trie();
    }

    /** The index is rebuilt from the file names, in whatever order the query returns them. */
    method LoadFilesFromDb(rows: seq<string>)
      requires Valid() && forall i :: 0 <= i < |rows| ==> IsName(rows[i])
      modifies fileTrie.Repr
      ensures Valid() && fresh(fileTrie.Repr - old(fileTrie.Repr))
      ensures View() == old(View()).(index := View().index)
      ensures forall n :: n in View().index <==> n in old(View()).index || n in rows
    {
      var i := 0;
      while i < |rows|
        invariant 0 <= i <= |rows|
        invariant Valid() && fresh(fileTrie.Repr - old(fileTrie.Repr))
        invariant forall n :: n in fileTrie.Words <==> n in old(fileTrie.Words) || n in rows[..i]
      {
        fileTrie.Insert(rows[i]);
        assert rows[..i + 1] == rows[..i] + [rows[i]];
        i := i + 1;
      }
      assert rows[..i] == rows;
    }

    // ----- lookups (nm_db.c) -----

    /** The answer is that of any history which the two tables reflect. */
    method HasPermission(user: string, file: string, required: int) returns (granted: bool)
      requires Valid()
      ensures granted <==> CheckPermission(View(), user, file, required)
      ensures forall h :: Reflects(View(), h) ==> (granted <==> Permitted(h, user, file, required))
    {
      forall h | Reflects(View(), h)
        ensures CheckPermission(View(), user, file, required) <==> Permitted(h, user, file, required)
      {
        ReflectedPermission(View(), h, user, file, required);
      }
      if file in files && files[file].owner == user {
        return true;
      }
      if (file, user) in access {
        return HasBits(access[(file, user)], required);
      }
      return false;
    }

    method GetSsById(id: int) returns (r: Option<Server>)
      requires Valid()
      ensures r == GetSs(View().servers, id)
    {
      ghost var ss := servers[..ssCount];
      var i := 0;
      while i < ssCount
        invariant 0 <= i <= ssCount
        invariant GetSs(ss, id) == GetSs(ss[i..], id)
      {
        if servers[i].id == id && servers[i].alive {
          return Some(servers[i]);
        }
        i := i + 1;
      }
      return None;
    }

    method ReleaseLock(file: string, sentence: int, user: string, socket: int)
      requires Valid()
      modifies this`lockCount, locks
      ensures Valid()
      ensures View() == old(View()).(locks := Release(old(View()).locks, Lock(file, sentence, user, socket)))
    {
      ghost var lock := Lock(file, sentence, user, socket);
      ghost var ls := locks[..lockCount];
      var i := 0;
      while i < lockCount
        invariant 0 <= i <= lockCount
        invariant forall j :: 0 <= j < i ==> ls[j] != lock
      {
        if locks[i].filename == file && locks[i].sentence == sentence
           && locks[i].username == user && locks[i].socket == socket {
          ReleaseAt(ls, lock, i);
          RemoveLock(i);
          return;
        }
        i := i + 1;
      }
      ReleaseAt(ls, lock, i);
    }

    /** The shifting loop. */
    method RemoveLock(i: nat)
      requires Valid() && i < lockCount
      modifies this`lockCount, locks
      ensures Valid()
      ensures View() == old(View()).(locks := old(View()).locks[..i] + old(View()).locks[i + 1..])
    {
      var j := i;
      while j < lockCount - 1
        invariant i <= j <= lockCount - 1 && lockCount == old(lockCount)
        invariant forall k :: 0 <= k < lockCount ==>
                    locks[k] == if i <= k < j then old(locks[k + 1]) else old(locks[k])
      {
        locks[j] := locks[j + 1];
        j := j + 1;
      }
      lockCount := lockCount - 1;
    }

    // ----- placement (nm_handlers.c) -----

    method SelectServer() returns (ssIdx: nat)
      requires Valid() && ssCount > 0
      ensures ssIdx == Pick(View().servers)
    {
      ghost var ss := servers[..ssCount];
      ssIdx := 0;
      var i := 1;
      while i < ssCount
        invariant 1 <= i <= ssCount && ssIdx == PickUpTo(ss, i)
      {
        if servers[i].fileCount < servers[ssIdx].fileCount && servers[i].alive {
          ssIdx := i;
        }
        i := i + 1;
      }
    }

    method SelectReplica(ssIdx: nat) returns (r: Option<nat>)
      requires Valid()
      ensures r == PickReplica(View().servers, ssIdx, 0)
    {
      ghost var ss := servers[..ssCount];
      var i := 0;
      while i < ssCount
        invariant 0 <= i <= ssCount
        invariant PickReplica(ss, ssIdx, 0) == PickReplica(ss, ssIdx, i)
      {
        if i != ssIdx && servers[i].alive {
          return Some(i);
        }
        i := i + 1;
      }
      return None;
    }

    // ----- handlers -----

    method HandleRegisterSs(data: string) returns (reply: Reply)
      requires Valid() && WellFormed(RegisterSs(data))
      modifies this, servers
      ensures Valid() && (View(), reply) == Step(old(View()), RegisterSs(data))
    {
      if ssCount >= MAX_STORAGE_SERVERS {
        return Refused(ServerError);
      }
      var address := ScanRegistration(data).value;
      var ssId := nextSsId;
      nextSsId := nextSsId + 1;
      servers[ssCount] := Server(ssId, address, true, 0);
      ssCount := ssCount + 1;
      assert servers[..ssCount] == old(servers[..ssCount]) + [Server(ssId, address, true, 0)];
      return Granted("SS_ID:" + PrintInt(ssId));
    }

    method UserExists(user: string) returns (known: bool)
      requires Valid()
      ensures known <==> user in View().users
    {
      var i := 0;
      while i < userCount
        invariant 0 <= i <= userCount
        invariant user !in users[..i]
      {
        if users[i] == user {
          return true;
        }
        i := i + 1;
      }
      return false;
    }

    method HandleRegisterClient(user: string) returns (reply: Reply)
      requires Valid()
      modifies this, users
      ensures Valid() && (View(), reply) == Step(old(View()), RegisterClient(user))
    {
      var known := UserExists(user);
      if !known && userCount < MAX_USERS {
        users[userCount] := user;
        userCount := userCount + 1;
        assert users[..userCount] == old(users[..userCount]) + [user];
      }
      return Granted("Registered successfully");
    }

    /** The successful end of both create handlers. */
    method AddFile(file: string, row: FileRow, ssIdx: nat)
      requires Valid() && IsName(file) && ssIdx < ssCount
      modifies this, servers, fileTrie.Repr
      ensures Valid() && fresh(fileTrie.Repr - old(fileTrie.Repr))
      ensures View() == old(View()).(files := old(files)[file := row],
                                     servers := AddCount(old(View()).servers, ssIdx, 1),
                                     index := old(View()).index + {file})
    {
      files := files[file := row];
      fileTrie.Insert(file);
      servers[ssIdx] := servers[ssIdx].(fileCount := servers[ssIdx].fileCount + 1);
      assert servers[..ssCount] == AddCount(old(servers[..ssCount]), ssIdx, 1);
    }

    method HandleCreate(user: string, file: string, dbOk: bool) returns (reply: Reply)
      requires Valid() && IsName(file)
      modifies this, servers, fileTrie.Repr
      ensures Valid() && fresh(fileTrie.Repr - old(fileTrie.Repr))
      ensures (View(), reply) == Step(old(View()), Create(user, file, dbOk))
    {
      var found := fileTrie.Search(file);
      if found {
        return Refused(FileExists);
      }
      if ssCount == 0 {
        return Refused(SsNotFound);
      }
      var ssIdx := SelectServer();
      var replicaIdx := SelectReplica(ssIdx);
      var replicaId := if replicaIdx.Some? then servers[replicaIdx.value].id else -1;
      if !dbOk || file in files {
        return Refused(ServerError);
      }
      reply := Granted(PrintLocation(servers[ssIdx].address, Plain,
                                     if replicaIdx.Some? then Some(servers[replicaIdx.value].address) else None));
      AddFile(file, FileRow(user, servers[ssIdx].id, replicaId, false), ssIdx);
    }

    method HandleCreateFolder(user: string, file: string, dbOk: bool) returns (reply: Reply)
      requires Valid() && IsName(file)
      modifies this, servers, fileTrie.Repr
      ensures Valid() && fresh(fileTrie.Repr - old(fileTrie.Repr))
      ensures (View(), reply) == Step(old(View()), CreateFolder(user, file, dbOk))
    {
      var found := fileTrie.Search(file);
      if found {
        return Refused(FileExists);
      }
      if ssCount == 0 {
        return Refused(SsNotFound);
      }
      var ssIdx := SelectServer();
      if !dbOk || file in files {
        return Refused(ServerError);
      }
      AddFile(file, FileRow(user, servers[ssIdx].id, 0, true), ssIdx);
      return Granted("Folder created: " + file);
    }

    method HandleRead(user: string, file: string) returns (reply: Reply)
      requires Valid() && IsName(file)
      ensures (View(), reply) == Step(View(), Read(user, file))
    {
      var found := fileTrie.Search(file);
      if !found {
        return Refused(FileNotFound);
      }
      var allowed := HasPermission(user, file, ACCESS_READ);
      if !allowed {
        return Refused(PermissionDenied);
      }
      if file !in files {
        return Refused(FileNotFound);
      }
      var row := files[file];
      var ss := GetSsById(row.ssId);
      if ss.None? && row.replicaId >= 0 {
        ss := GetSsById(row.replicaId);
      }
      if ss.Some? {
        return Granted(PrintLocation(ss.value.address, Plain, None));
      }
      return Refused(SsNotFound);
    }

    method LocateReplica(row: FileRow) returns (r: Option<Address>)
      requires Valid()
      ensures r == ReplicaAddress(View(), row)
    {
      r := None;
      if row.replicaId >= 0 {
        var replica := GetSsById(row.replicaId);
        r := AddressOf(replica);
      }
    }

    method LocateLocked(file: string, sentence: int) returns (reply: Reply)
      requires Valid()
      ensures reply == LockReply(View(), file, sentence)
    {
      if file !in files {
        return Refused(FileNotFound);
      }
      var ss := GetSsById(files[file].ssId);
      if ss.None? {
        return Refused(SsNotFound);
      }
      var replica := LocateReplica(files[file]);
      return Granted(PrintLocation(ss.value.address, Sentence(sentence), replica));
    }

    method ScanLocks(file: string, sentence: int) returns (i: nat)
      requires Valid()
      ensures i == FindLock(View().locks, file, sentence)
    {
      ghost var ls := locks[..lockCount];
      i := 0;
      while i < lockCount
        invariant 0 <= i <= lockCount
        invariant FindLock(ls, file, sentence) == i + FindLock(ls[i..], file, sentence)
      {
        if locks[i].filename == file && locks[i].sentence == sentence {
          return;
        }
        i := i + 1;
      }
    }

    method HandleWriteLock(user: string, file: string, data: string, socket: int) returns (reply: Reply)
      requires Valid() && IsName(file)
      modifies this`lockCount, locks
      ensures Valid() && (View(), reply) == Step(old(View()), WriteLock(user, file, data, socket))
    {
      var scanned := ScanInt(data);
      if scanned.None? {
        return Refused(InvalidParam);
      }
      var sentence := scanned.value.0;
      var found := fileTrie.Search(file);
      if !found {
        return Refused(FileNotFound);
      }
      var allowed := HasPermission(user, file, ACCESS_WRITE);
      if !allowed {
        return Refused(PermissionDenied);
      }
      reply := AcquireLock(user, file, sentence, socket);
    }

    method AcquireLock(user: string, file: string, sentence: int, socket: int) returns (reply: Reply)
      requires Valid()
      modifies this`lockCount, locks
      ensures Valid() && (View(), reply) == AcquireStep(old(View()), user, file, sentence, socket)
    {
      var i := ScanLocks(file, sentence);
      if i < lockCount {
        if locks[i].socket != socket {
          return Refused(Locked);
        }
      } else if lockCount < MAX_LOCKS {
        AddLock(Lock(file, sentence, user, socket));
      } else {
        return Refused(ServerError);
      }
      reply := LocateLocked(file, sentence);
    }

    method AddLock(lock: Lock)
      requires Valid() && lockCount < MAX_LOCKS
      modifies this`lockCount, locks
      ensures Valid() && View() == old(View()).(locks := old(View()).locks + [lock])
    {
      locks[lockCount] := lock;
      lockCount := lockCount + 1;
      assert locks[..lockCount] == old(locks[..lockCount]) + [lock];
    }

    /** The ETIRW branch of the dispatcher (nm_main.c). */
    method HandleCommit(user: string, file: string, data: string, socket: int) returns (reply: Reply)
      requires Valid() && ScanInt(data).Some?
      modifies this`lockCount, locks
      ensures Valid() && (View(), reply) == Step(old(View()), Commit(user, file, data, socket))
    {
      ReleaseLock(file, ScanInt(data).value.0, user, socket);
      return Granted("");
    }

    method DecrementCount(id: int)
      requires Valid()
      modifies servers
      ensures Valid() && View() == old(View()).(servers := DropCount(old(View()).servers, id))
    {
      ghost var ss := servers[..ssCount];
      var i := 0;
      while i < ssCount
        invariant 0 <= i <= ssCount && servers[..ssCount] == ss
        invariant forall j :: 0 <= j < i ==> ss[j].id != id
      {
        if servers[i].id == id {
          DropCountFirst(ss, id, i);
          servers[i] := servers[i].(fileCount := servers[i].fileCount - 1);
          return;
        }
        i := i + 1;
      }
      DropCountFirst(ss, id, i);
    }

    method RemoveRows(file: string)
      requires Valid() && IsName(file)
      modifies this`files, this`access, fileTrie.Repr
      ensures Valid() && fileTrie.Repr == old(fileTrie.Repr)
      ensures View() == old(View()).(files := old(files) - {file},
                                     access := map k | k in old(access) && k.0 != file :: old(access)[k],
                                     index := old(View()).index - {file})
    {
      files := files - {file};
      access := map k | k in access && k.0 != file :: access[k];
      fileTrie.Delete(file);
    }

    method HandleDelete(user: string, file: string) returns (reply: Reply)
      requires Valid() && IsName(file)
      modifies this, servers, fileTrie.Repr
      ensures Valid() && fileTrie.Repr == old(fileTrie.Repr)
      ensures (View(), reply) == Step(old(View()), Delete(user, file))
    {
      var found := fileTrie.Search(file);
      if !found {
        return Refused(FileNotFound);
      }
      var row := FileRow("", -1, -1, false);
      if file in files {
        if files[file].owner != user {
          return Refused(NotOwner);
        }
        row := files[file];
      }
      RemoveRows(file);
      DecrementCount(row.ssId);
      var ss := GetSsById(row.ssId);
      if ss.None? {
        return Granted("");
      }
      var replica := LocateReplica(row);
      return Granted(PrintLocation(ss.value.address, Plain, replica));
    }

    // ----- access control (nm_handlers2.c) -----

    method HandleAddAccess(user: string, file: string, data: string, dbOk: bool) returns (reply: Reply)
      requires Valid() && IsName(file) && SpanNot(data, '|') < MAX_USERNAME
      modifies this`access
      ensures Valid() && (View(), reply) == Step(old(View()), AddAccess(user, file, data, dbOk))
    {
      var scanned := ScanGrant(data);
      if scanned.None? {
        return Refused(InvalidParam);
      }
      var target, bits := scanned.value.0, scanned.value.1;
      var found := fileTrie.Search(file);
      if !found {
        return Refused(FileNotFound);
      }
      if !(file in files && files[file].owner == user) {
        return Refused(NotOwner);
      }
      var known := UserExists(target);
      if !known {
        return Refused(UserNotFound);
      }
      if !dbOk {
        return Refused(ServerError);
      }
      access := access[(file, target) := bits];
      return Granted("Access granted to " + target);
    }

    method HandleRemAccess(user: string, file: string, data: string) returns (reply: Reply)
      requires Valid() && IsName(file)
      modifies this`access
      ensures Valid() && (View(), reply) == Step(old(View()), RemAccess(user, file, data))
    {
      var target := RevokeTarget(data);
      var found := fileTrie.Search(file);
      if !found {
        return Refused(FileNotFound);
      }
      if !(file in files && files[file].owner == user) {
        return Refused(NotOwner);
      }
      access := access - {(file, target)};
      return Granted("Access revoked from " + target);
    }

    // ----- the dispatcher (nm_main.c) -----

    method HandleRequest(r: Request) returns (reply: Reply)
      requires Valid() && WellFormed(r) && IsNamed(r)
      modifies this, servers, users, locks, fileTrie.Repr
      ensures Valid() && fresh(fileTrie.Repr - old(fileTrie.Repr))
      ensures (View(), reply) == Step(old(View()), r)
    {
      match r {
        case RegisterSs(data) => reply := HandleRegisterSs(data);
        case RegisterClient(user) => reply := HandleRegisterClient(user);
        case Create(user, file, dbOk) => reply := HandleCreate(user, file, dbOk);
        case CreateFolder(user, file, dbOk) => reply := HandleCreateFolder(user, file, dbOk);
        case Read(user, file) => reply := HandleRead(user, file);
        case WriteLock(user, file, data, socket) => reply := HandleWriteLock(user, file, data, socket);
        case Commit(user, file, data, socket) => reply := HandleCommit(user, file, data, socket);
        case Delete(user, file) => reply := HandleDelete(user, file);
        case AddAccess(user, file, data, dbOk) => reply := HandleAddAccess(user, file, data, dbOk);
        case RemAccess(user, file, data) => reply := HandleRemAccess(user, file, data);
      }
    }

    /** The request loop: serving a sequence of requests is a run of the state machine. */
    method Serve(rs: seq<Request>)
      requires Valid() && Inv(View())
      requires WellFormedRun(rs) && forall i :: 0 <= i < |rs| ==> IsNamed(rs[i])
      modifies this, servers, users, locks, fileTrie.Repr
      ensures Valid() && fresh(fileTrie.Repr - old(fileTrie.Repr))
      ensures View() == Run(old(View()), rs)
      ensures fileTrie.Words == files.Keys
      ensures forall h :: Reflects(old(View()), h) ==> Reflects(View(), h + History(old(View()), rs))
    {
      ghost var start := View();
      forall h | Reflects(start, h) ensures Reflects(Run(start, rs), h + History(start, rs)) {
        RunReflects(start, rs, h);
      }
      var i := 0;
      assert rs[0..] == rs;
      RunKeepsInv(start, rs);
      while i < |rs|
        invariant 0 <= i <= |rs|
        invariant Valid() && fresh(fileTrie.Repr - old(fileTrie.Repr))
        invariant Run(View(), rs[i..]) == Run(start, rs)
      {
        assert rs[i..][0] == rs[i] && rs[i..][1..] == rs[i + 1..];
        var _ := HandleRequest(rs[i]);
        i := i + 1;
      }
    }
  }
}
