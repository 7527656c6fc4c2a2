/** The location strings that the handlers of the name server answer with, as the client reads them. */
module Answers {
  import opened Options
  import opened Scan
  import opened Location
  import opened Text
  import opened NameServerSpec
  import opened NameServerRuns

  // ----- addresses -----

  predicate GoodAddresses(servers: seq<Server>) {
    forall i :: 0 <= i < |servers| ==> ValidAddress(servers[i].address)
  }

  /** What storage servers send to register. */
  predicate RegistersValid(r: Request) {
    r.RegisterSs? && ScanRegistration(r.data).Some? ==> ValidAddress(ScanRegistration(r.data).value)
  }

  lemma StepKeepsAddresses(s: State, r: Request)
    requires Inv(s) && WellFormed(r) && RegistersValid(r) && GoodAddresses(s.servers)
    ensures GoodAddresses(Step(s, r).0.servers)
  {
    if r.Delete? && r.file in s.files {
      DropCountShape(s.servers, s.files[r.file].ssId);
    }
  }

  lemma {:induction false} RunKeepsAddresses(s: State, rs: seq<Request>)
    requires Inv(s) && WellFormedRun(rs) && GoodAddresses(s.servers)
    requires forall i :: 0 <= i < |rs| ==> RegistersValid(rs[i])
    ensures Inv(Run(s, rs)) && GoodAddresses(Run(s, rs).servers)
    decreases |rs|
  {
    if rs != [] {
      StepKeepsInv(s, rs[0]);
      StepKeepsAddresses(s, rs[0]);
      RunKeepsAddresses(Step(s, rs[0]).0, rs[1..]);
    }
  }

  // ----- what the client makes of an answer -----

  predicate Registered(s: State, id: int) {
    1 <= id <= |s.servers|
  }

  /** The address of the server with this id. */
  function AddressAt(s: State, id: int): Option<Address> {
    if Registered(s, id) then Some(s.servers[id - 1].address) else None
  }

  lemma AddressFound(s: State, id: int)
    requires Inv(s)
    ensures AddressOf(GetSs(s.servers, id)) == AddressAt(s, id)
  {
    GetSsExactly(s, id);
  }

  lemma CreateAnswer(s: State, user: string, file: string, dbOk: bool)
    requires Inv(s) && GoodAddresses(s.servers) && CreateRow(s, user, file, dbOk, false).1.Granted?
    requires |CreateRow(s, user, file, dbOk, false).1.data| < BUFFER_SIZE
    ensures var (s', reply) := CreateRow(s, user, file, dbOk, false);
            && file in s'.files && Registered(s', s'.files[file].ssId)
            && ParseSsInfo(reply.data)
               == Wanted(AddressAt(s', s'.files[file].ssId).value, AddressAt(s', s'.files[file].replicaId))
  {
    var primary := Pick(s.servers);
    var replica := PickReplica(s.servers, primary, 0);
    var address := if replica.Some? then Some(s.servers[replica.value].address) else None;
    LocationRoundTrip(s.servers[primary].address, Plain, address);
  }

  lemma ReadAnswer(s: State, user: string, file: string)
    requires Inv(s) && GoodAddresses(s.servers) && ReadReply(s, user, file).Granted?
    requires |ReadReply(s, user, file).data| < BUFFER_SIZE
    ensures file in s.files
    ensures var row := s.files[file];
            var id := if Registered(s, row.ssId) then row.ssId else row.replicaId;
            Registered(s, id) && ParseSsInfo(ReadReply(s, user, file).data) == Wanted(AddressAt(s, id).value, None)
  {
    var row := s.files[file];
    GetSsExactly(s, row.ssId);
    GetSsExactly(s, row.replicaId);
    var id := if Registered(s, row.ssId) then row.ssId else row.replicaId;
    LocationRoundTrip(s.servers[id - 1].address, Plain, None);
  }

  lemma LockAnswer(s: State, file: string, sentence: int)
    requires Inv(s) && GoodAddresses(s.servers) && LockReply(s, file, sentence).Granted?
    requires |LockReply(s, file, sentence).data| < BUFFER_SIZE
    ensures file in s.files && Registered(s, s.files[file].ssId)
    ensures ParseSsInfo(LockReply(s, file, sentence).data)
            == Wanted(AddressAt(s, s.files[file].ssId).value, AddressAt(s, s.files[file].replicaId))
  {
    var row := s.files[file];
    GetSsExactly(s, row.ssId);
    AddressFound(s, row.replicaId);
    LocationRoundTrip(s.servers[row.ssId - 1].address, Sentence(sentence), AddressAt(s, row.replicaId));
  }

  lemma WriteAnswer(s: State, user: string, file: string, data: string, socket: int)
    requires Inv(s) && GoodAddresses(s.servers) && LockStep(s, user, file, data, socket).1.Granted?
    requires |LockStep(s, user, file, data, socket).1.data| < BUFFER_SIZE
    ensures file in s.files && Registered(s, s.files[file].ssId)
    ensures ParseSsInfo(LockStep(s, user, file, data, socket).1.data)
            == Wanted(AddressAt(s, s.files[file].ssId).value, AddressAt(s, s.files[file].replicaId))
  {
    var sentence := ScanInt(data).value.0;
    assert LockStep(s, user, file, data, socket).1 == LockReply(s, file, sentence);
    LockAnswer(s, file, sentence);
  }

  /** Which server an answer must lead to: the one in the document's row, or, for a READ or STREAM only,
      the row's replica if the primary is not registered. */
  function ServerOf(s: State, r: Request, row: FileRow): int {
    if r.Read? && !Registered(s, row.ssId) then row.replicaId else row.ssId
  }

  predicate Locates(r: Request) {
    r.Create? || r.Read? || r.WriteLock?
  }

  /** The answer leads to that server, and with CREATE and WRITE to the replica, if there is one. */
  predicate LeadsToServer(s: State, r: Request, answer: string)
    requires Locates(r)
  {
    && r.file in s.files
    && var row := s.files[r.file];
       Registered(s, ServerOf(s, r, row))
       && ParseSsInfo(answer) == Wanted(AddressAt(s, ServerOf(s, r, row)).value,
                                        if r.Read? then None else AddressAt(s, row.replicaId))
  }

  lemma SameTablesLead(s: State, s': State, r: Request, answer: string)
    requires Locates(r) && s'.files == s.files && s'.servers == s.servers && LeadsToServer(s, r, answer)
    ensures LeadsToServer(s', r, answer)
  {
  }

  lemma WriteLeads(s: State, r: Request)
    requires Inv(s) && GoodAddresses(s.servers) && r.WriteLock?
    requires LockStep(s, r.user, r.file, r.data, r.socket).1.Granted?
    requires |LockStep(s, r.user, r.file, r.data, r.socket).1.data| < BUFFER_SIZE
    ensures var (s', reply) := LockStep(s, r.user, r.file, r.data, r.socket); LeadsToServer(s', r, reply.data)
  {
    WriteAnswer(s, r.user, r.file, r.data, r.socket);
    SameTablesAfterLock(s, r.user, r.file, r.data, r.socket);
    var (s', reply) := LockStep(s, r.user, r.file, r.data, r.socket);
    SameTablesLead(s, s', r, reply.data);
  }

  lemma StepLeads(s: State, r: Request)
    requires Inv(s) && GoodAddresses(s.servers) && WellFormed(r) && Locates(r)
    requires Step(s, r).1.Granted? && |Step(s, r).1.data| < BUFFER_SIZE
    ensures LeadsToServer(Step(s, r).0, r, Step(s, r).1.data)
  {
    match r
    case Create(user, file, dbOk) => CreateAnswer(s, user, file, dbOk);
    case Read(user, file) => ReadAnswer(s, user, file);
    case WriteLock(_, _, _, _) => WriteLeads(s, r);
  }

  /** In every reachable state, whoever is granted a CREATE, READ or WRITE reads the address of the right
      server from the answer. */
  lemma AnswersLeadToServers(rs: seq<Request>, r: Request)
    requires WellFormedRun(rs) && WellFormed(r) && forall i :: 0 <= i < |rs| ==> RegistersValid(rs[i])
    requires Locates(r) && Step(Run(EMPTY_DATABASE, rs), r).1.Granted?
    requires |Step(Run(EMPTY_DATABASE, rs), r).1.data| < BUFFER_SIZE
    ensures var (s, reply) := Step(Run(EMPTY_DATABASE, rs), r); LeadsToServer(s, r, reply.data)
  {
    RunKeepsAddresses(EMPTY_DATABASE, rs);
    StepLeads(Run(EMPTY_DATABASE, rs), r);
  }

  lemma SameTablesAfterLock(s: State, user: string, file: string, data: string, socket: int)
    ensures var s' := LockStep(s, user, file, data, socket).0; s'.files == s.files && s'.servers == s.servers
  {
  }
}
