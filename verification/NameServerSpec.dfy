/** The state of the name server and what each request does to it.

    SQL tables are maps, the trie index is its set of words, timestamps are left out.  One request is
    one atomic step, because every handler holds the server's mutex for its whole body.
 */
module NameServerSpec {
  import opened Options
  import opened Scan
  import opened Location
  import opened Text
  import opened TextLoops

  const MAX_STORAGE_SERVERS: nat := 10
  const MAX_USERS: nat := 100
  const MAX_LOCKS: nat := 100
  const MAX_USERNAME: nat := 64

  const ACCESS_READ: int := 1
  const ACCESS_WRITE: int := 2

  datatype FileRow = FileRow(owner: string, ssId: int, replicaId: int, isFolder: bool)

  datatype Server = Server(id: int, address: Address, alive: bool, fileCount: int)

  datatype Lock = Lock(filename: string, sentence: int, username: string, socket: int)

  /** `access` is keyed by file name and user name. */
  datatype State = State(
    files: map<string, FileRow>,
    access: map<(string, string), int>,
    servers: seq<Server>,
    users: seq<string>,
    locks: seq<Lock>,
    nextSsId: int,
    index: set<string>)

  datatype ErrorCode =
    | FileNotFound | FileExists | PermissionDenied | Locked | InvalidParam
    | ServerError | NotOwner | UserNotFound | SsNotFound

  datatype Reply = Refused(error: ErrorCode) | Granted(data: string)

  /** `dbOk` says whether SQLite accepts an INSERT. */
  datatype Request =
    | RegisterSs(data: string)
    | RegisterClient(user: string)
    | Create(user: string, file: string, dbOk: bool)
    | CreateFolder(user: string, file: string, dbOk: bool)
    | Read(user: string, file: string)
    | WriteLock(user: string, file: string, data: string, socket: int)
    | Commit(user: string, file: string, data: string, socket: int)
    | Delete(user: string, file: string)
    | AddAccess(user: string, file: string, data: string, dbOk: bool)
    | RemAccess(user: string, file: string, data: string)

  /** After start-up with a database: nothing registered, the index loaded from the table. */
  function Loaded(files: map<string, FileRow>, access: map<(string, string), int>): State {
    State(files, access, [], [], [], 1, files.Keys)
  }

  const EMPTY_DATABASE: State := Loaded(map[], map[])

  /** Registration and the commit branch never look at whether their `sscanf` succeeded, and the ip of
      a registration and the target of a grant are scanned into fixed buffers without a width. */
  predicate WellFormed(r: Request) {
    && (r.RegisterSs? ==> ScanRegistration(r.data).Some? && SpanNot(r.data, ':') <= IP_WIDTH)
    && (r.Commit? ==> ScanInt(r.data).Some?)
    && (r.AddAccess? ==> SpanNot(r.data, '|') < MAX_USERNAME)
  }

  // ----- lookups -----

  /** `(perms & required) == required`, bit by bit in two's complement. */
  predicate HasBits(perms: int, required: int)
    decreases if required < 0 then -required else required
  {
    if required == 0 then true
    else if required == -1 then perms == -1
    else (required % 2 == 1 ==> perms % 2 == 1) && HasBits(perms / 2, required / 2)
  }

  predicate CheckPermission(s: State, user: string, file: string, required: int) {
    || (file in s.files && s.files[file].owner == user)
    || ((file, user) in s.access && HasBits(s.access[(file, user)], required))
  }

  predicate IsOwner(s: State, user: string, file: string) {
    file in s.files && s.files[file].owner == user
  }

  function GetSs(servers: seq<Server>, id: int): Option<Server> {
    if servers == [] then None
    else if servers[0].id == id && servers[0].alive then Some(servers[0])
    else GetSs(servers[1..], id)
  }

  /** The position of the first lock on a sentence, or |locks|. */
  function FindLock(locks: seq<Lock>, file: string, sentence: int): (i: nat)
    ensures i <= |locks|
    ensures i < |locks| ==> locks[i].filename == file && locks[i].sentence == sentence
    ensures forall j :: 0 <= j < i ==> !(locks[j].filename == file && locks[j].sentence == sentence)
  {
    if locks == [] || (locks[0].filename == file && locks[0].sentence == sentence) then 0
    else 1 + FindLock(locks[1..], file, sentence)
  }

  /** `release_lock`: the first entry that agrees in all four fields goes, the rest keep their order. */
  function Release(locks: seq<Lock>, lock: Lock): seq<Lock> {
    if locks == [] then []
    else if locks[0] == lock then locks[1..]
    else [locks[0]] + Release(locks[1..], lock)
  }

  /** The placement loop over the first `n` servers. */
  function PickUpTo(servers: seq<Server>, n: nat): (best: nat)
    requires 1 <= n <= |servers|
    ensures best < n
  {
    if n == 1 then 0
    else
      var best := PickUpTo(servers, n - 1);
      if servers[n - 1].fileCount < servers[best].fileCount && servers[n - 1].alive then n - 1 else best
  }

  function Pick(servers: seq<Server>): (best: nat)
    requires servers != []
    ensures best < |servers|
  {
    PickUpTo(servers, |servers|)
  }

  /** The first live server other than `primary`, at or after `i`. */
  function PickReplica(servers: seq<Server>, primary: nat, i: nat): (r: Option<nat>)
    ensures r.Some? ==> i <= r.value < |servers| && r.value != primary && servers[r.value].alive
    ensures forall j :: i <= j < |servers| && (r.None? || j < r.value) ==> j == primary || !servers[j].alive
    decreases |servers| - i
  {
    if i >= |servers| then None
    else if i != primary && servers[i].alive then Some(i)
    else PickReplica(servers, primary, i + 1)
  }

  function AddCount(servers: seq<Server>, i: nat, d: int): seq<Server>
    requires i < |servers|
  {
    servers[i := servers[i].(fileCount := servers[i].fileCount + d)]
  }

  /** One file less on the first server with this id. */
  function DropCount(servers: seq<Server>, id: int): seq<Server> {
    if servers == [] then []
    else if servers[0].id == id then [servers[0].(fileCount := servers[0].fileCount - 1)] + servers[1..]
    else [servers[0]] + DropCount(servers[1..], id)
  }

  function AddressOf(s: Option<Server>): Option<Address> {
    match s
    case None => None
    case Some(server) => Some(server.address)
  }

  // ----- the handlers -----

  /** CREATE and CREATEFOLDER share everything but the row and the answer. */
  function CreateRow(s: State, user: string, file: string, dbOk: bool, folder: bool): (State, Reply) {
    if file in s.index then (s, Refused(FileExists))
    else if s.servers == [] then (s, Refused(SsNotFound))
    else
      var primary := Pick(s.servers);
      var replica := if folder then None else PickReplica(s.servers, primary, 0);
      var replicaId := if folder then 0 else if replica.Some? then s.servers[replica.value].id else -1;
      if !dbOk || file in s.files then (s, Refused(ServerError))
      else
        (s.(files := s.files[file := FileRow(user, s.servers[primary].id, replicaId, folder)],
            servers := AddCount(s.servers, primary, 1),
            index := s.index + {file}),
         Granted(if folder then "Folder created: " + file
                 else PrintLocation(s.servers[primary].address, Plain,
                                    if replica.Some? then Some(s.servers[replica.value].address) else None)))
  }

  function ReadReply(s: State, user: string, file: string): Reply {
    if file !in s.index then Refused(FileNotFound)
    else if !CheckPermission(s, user, file, ACCESS_READ) then Refused(PermissionDenied)
    else if file !in s.files then Refused(FileNotFound)
    else
      var row := s.files[file];
      var primary := GetSs(s.servers, row.ssId);
      var ss := if primary.None? && row.replicaId >= 0 then GetSs(s.servers, row.replicaId) else primary;
      if ss.Some? then Granted(PrintLocation(ss.value.address, Plain, None)) else Refused(SsNotFound)
  }

  function ReplicaAddress(s: State, row: FileRow): Option<Address> {
    if row.replicaId >= 0 then AddressOf(GetSs(s.servers, row.replicaId)) else None
  }

  /** The answer to a lock request once the lock is held. */
  function LockReply(s: State, file: string, sentence: int): Reply {
    if file !in s.files then Refused(FileNotFound)
    else
      var ss := GetSs(s.servers, s.files[file].ssId);
      if ss.None? then Refused(SsNotFound)
      else Granted(PrintLocation(ss.value.address, Sentence(sentence), ReplicaAddress(s, s.files[file])))
  }

  function AcquireStep(s: State, user: string, file: string, sentence: int, socket: int): (State, Reply) {
    var i := FindLock(s.locks, file, sentence);
    if i < |s.locks| then
      if s.locks[i].socket != socket then (s, Refused(Locked)) else (s, LockReply(s, file, sentence))
    else if |s.locks| < MAX_LOCKS then
      (s.(locks := s.locks + [Lock(file, sentence, user, socket)]), LockReply(s, file, sentence))
    else (s, Refused(ServerError))
  }

  function LockStep(s: State, user: string, file: string, data: string, socket: int): (State, Reply) {
    match ScanInt(data)
    case None => (s, Refused(InvalidParam))
    case Some((sentence, _)) =>
      if file !in s.index then (s, Refused(FileNotFound))
      else if !CheckPermission(s, user, file, ACCESS_WRITE) then (s, Refused(PermissionDenied))
      else AcquireStep(s, user, file, sentence, socket)
  }

  function CommitStep(s: State, user: string, file: string, data: string, socket: int): (State, Reply)
    requires ScanInt(data).Some?
  {
    (s.(locks := Release(s.locks, Lock(file, ScanInt(data).value.0, user, socket))), Granted(""))
  }

  /** A row that is missing from the table would be deleted from the index all the same. */
  function DeleteStep(s: State, user: string, file: string): (State, Reply) {
    if file !in s.index then (s, Refused(FileNotFound))
    else if file in s.files && s.files[file].owner != user then (s, Refused(NotOwner))
    else
      var row := if file in s.files then s.files[file] else FileRow("", -1, -1, false);
      var servers := DropCount(s.servers, row.ssId);
      var s' := s.(files := s.files - {file},
                   access := map k | k in s.access && k.0 != file :: s.access[k],
                   servers := servers,
                   index := s.index - {file});
      var ss := GetSs(servers, row.ssId);
      (s', Granted(if ss.None? then ""
                   else PrintLocation(ss.value.address, Plain, ReplicaAddress(s', row))))
  }

  /** "%[^|]|%d" */
  function ScanGrant(data: string): Option<(string, int)> {
    match ScanNot(data, '|', |data|)
    case None => None
    case Some((target, rest)) =>
      match MatchChar(rest, '|')
      case None => None
      case Some(rest') =>
        match ScanInt(rest')
        case None => None
        case Some((bits, _)) => Some((target, bits))
  }

  function GrantStep(s: State, user: string, file: string, data: string, dbOk: bool): (State, Reply) {
    match ScanGrant(data)
    case None => (s, Refused(InvalidParam))
    case Some((target, bits)) =>
      if file !in s.index then (s, Refused(FileNotFound))
      else if !IsOwner(s, user, file) then (s, Refused(NotOwner))
      else if target !in s.users then (s, Refused(UserNotFound))
      else if !dbOk then (s, Refused(ServerError))
      else (s.(access := s.access[(file, target) := bits]), Granted("Access granted to " + target))
  }

  /** The buffer is trimmed in place but read from its start, so leading blanks stay. */
  function RevokeTarget(data: string): string {
    TrimInPlace(Take(data, MAX_USERNAME - 1))
  }

  function RevokeStep(s: State, user: string, file: string, data: string): (State, Reply) {
    if file !in s.index then (s, Refused(FileNotFound))
    else if !IsOwner(s, user, file) then (s, Refused(NotOwner))
    else
      (s.(access := s.access - {(file, RevokeTarget(data))}), Granted("Access revoked from " + RevokeTarget(data)))
  }

  /** "%[^:]:%d" */
  function ScanRegistration(data: string): Option<Address> {
    match ScanNot(data, ':', |data|)
    case None => None
    case Some((ip, rest)) =>
      match MatchChar(rest, ':')
      case None => None
      case Some(rest') =>
        match ScanInt(rest')
        case None => None
        case Some((port, _)) => Some(Address(ip, port))
  }

  function RegisterSsStep(s: State, data: string): (State, Reply)
    requires ScanRegistration(data).Some?
  {
    if |s.servers| >= MAX_STORAGE_SERVERS then (s, Refused(ServerError))
    else
      (s.(servers := s.servers + [Server(s.nextSsId, ScanRegistration(data).value, true, 0)],
          nextSsId := s.nextSsId + 1),
       Granted("SS_ID:" + PrintInt(s.nextSsId)))
  }

  function RegisterClientStep(s: State, user: string): (State, Reply) {
    (if user !in s.users && |s.users| < MAX_USERS then s.(users := s.users + [user]) else s,
     Granted("Registered successfully"))
  }

  function Step(s: State, r: Request): (State, Reply)
    requires WellFormed(r)
  {
    match r
    case RegisterSs(data) => RegisterSsStep(s, data)
    case RegisterClient(user) => RegisterClientStep(s, user)
    case Create(user, file, dbOk) => CreateRow(s, user, file, dbOk, false)
    case CreateFolder(user, file, dbOk) => CreateRow(s, user, file, dbOk, true)
    case Read(user, file) => (s, ReadReply(s, user, file))
    case WriteLock(user, file, data, socket) => LockStep(s, user, file, data, socket)
    case Commit(user, file, data, socket) => CommitStep(s, user, file, data, socket)
    case Delete(user, file) => DeleteStep(s, user, file)
    case AddAccess(user, file, data, dbOk) => GrantStep(s, user, file, data, dbOk)
    case RemAccess(user, file, data) => RevokeStep(s, user, file, data)
  }

  // ----- runs -----

  predicate WellFormedRun(rs: seq<Request>) {
    forall i :: 0 <= i < |rs| ==> WellFormed(rs[i])
  }

  function Run(s: State, rs: seq<Request>): State
    requires WellFormedRun(rs)
    decreases |rs|
  {
    if rs == [] then s else Run(Step(s, rs[0]).0, rs[1..])
  }
}
