/** Conservation of the file counters and the load balance that placement achieves. */
module NameServerBalance {
  import opened NameServerSpec
  import opened NameServerRuns

  // ----- from an empty database, the counters sum to the number of rows -----

  function Total(servers: seq<Server>): int {
    if servers == [] then 0 else Total(servers[..|servers| - 1]) + servers[|servers| - 1].fileCount
  }

  /** Every row names a registered server and every counter is exact. */
  ghost predicate Exact(s: State) {
    && (forall f :: f in s.files ==> 1 <= s.files[f].ssId <= |s.servers|)
    && (forall k :: 0 <= k < |s.servers| ==> Drift(s, k) == 0)
  }

  lemma StepKeepsExact(s: State, r: Request)
    requires Inv(s) && WellFormed(r) && Exact(s)
    ensures Exact(Step(s, r).0)
  {
    var s' := Step(s, r).0;
    StepGrows(s, r);
    forall k | 0 <= k < |s'.servers| ensures Drift(s', k) == 0 {
      StepKeepsDrift(s, r, k);
      if k < |s.servers| {
        assert Drift(s, k) == 0;
      } else {
        assert RowsOf(s.files, k + 1) == {};
      }
    }
    forall f | f in s'.files ensures 1 <= s'.files[f].ssId <= |s'.servers| {
      assert f in s.files ==> 1 <= s.files[f].ssId <= |s.servers|;
    }
  }

  lemma {:induction false} RunKeepsExact(s: State, rs: seq<Request>)
    requires Inv(s) && Exact(s) && WellFormedRun(rs)
    ensures Inv(Run(s, rs)) && Exact(Run(s, rs))
    decreases |rs|
  {
    if rs != [] {
      StepKeepsInv(s, rs[0]);
      StepKeepsExact(s, rs[0]);
      RunKeepsExact(Step(s, rs[0]).0, rs[1..]);
    }
  }

  function RowsUpTo(files: map<string, FileRow>, n: nat): set<string> {
    set f | f in files && 1 <= files[f].ssId <= n
  }

  lemma {:induction false} TotalIsRows(s: State, n: nat)
    requires Exact(s) && n <= |s.servers|
    ensures Total(s.servers[..n]) == |RowsUpTo(s.files, n)|
  {
    if n == 0 {
      assert RowsUpTo(s.files, 0) == {};
    } else {
      TotalIsRows(s, n - 1);
      assert s.servers[..n][..n - 1] == s.servers[..n - 1];
      assert Drift(s, n - 1) == 0;
      assert RowsUpTo(s.files, n) == RowsUpTo(s.files, n - 1) + RowsOf(s.files, n);
      assert RowsUpTo(s.files, n - 1) !! RowsOf(s.files, n);
    }
  }

  /** From an empty database each counter is the number of rows on its server, and together they
      count every row once. */
  lemma CountsAreRows(rs: seq<Request>)
    requires WellFormedRun(rs)
    ensures var s := Run(EMPTY_DATABASE, rs);
            && (forall k :: 0 <= k < |s.servers| ==> s.servers[k].fileCount == |RowsOf(s.files, k + 1)|)
            && Total(s.servers) == |s.files|
  {
    var s := Run(EMPTY_DATABASE, rs);
    RunKeepsExact(EMPTY_DATABASE, rs);
    forall k | 0 <= k < |s.servers| ensures s.servers[k].fileCount == |RowsOf(s.files, k + 1)| {
      assert Drift(s, k) == 0;
    }
    TotalIsRows(s, |s.servers|);
    assert s.servers[..|s.servers|] == s.servers;
    assert RowsUpTo(s.files, |s.servers|) == s.files.Keys;
  }

  // ----- placement -----

  function Counts(servers: seq<Server>): (c: seq<int>)
    ensures |c| == |servers|
  {
    seq(|servers|, i requires 0 <= i < |servers| => servers[i].fileCount)
  }

  /** Position `i` is the first one of least value. */
  predicate IsLeast(c: seq<int>, i: nat) {
    && i < |c|
    && (forall j :: 0 <= j < |c| ==> c[i] <= c[j])
    && (forall j :: 0 <= j < i ==> c[i] < c[j])
  }

  lemma {:induction false} PickUpToIsLeast(servers: seq<Server>, n: nat)
    requires 1 <= n <= |servers|
    requires forall i :: 0 <= i < |servers| ==> servers[i].alive
    ensures IsLeast(Counts(servers)[..n], PickUpTo(servers, n))
  {
    if n > 1 {
      PickUpToIsLeast(servers, n - 1);
      var c := Counts(servers);
      assert forall j :: 0 <= j < n - 1 ==> c[..n - 1][j] == c[..n][j];
    }
  }

  /** The placement loop finds the lowest-numbered server of minimum count. */
  lemma PickIsLeast(servers: seq<Server>)
    requires servers != [] && forall i :: 0 <= i < |servers| ==> servers[i].alive
    ensures IsLeast(Counts(servers), Pick(servers))
  {
    PickUpToIsLeast(servers, |servers|);
    assert Counts(servers)[..|servers|] == Counts(servers);
  }

  function MaxOf(c: seq<int>): (m: int)
    requires c != []
    ensures m in c && forall i :: 0 <= i < |c| ==> c[i] <= m
  {
    if |c| == 1 then c[0]
    else
      var m := MaxOf(c[1..]);
      assert forall i :: 1 <= i < |c| ==> c[i] == c[1..][i - 1];
      if c[0] > m then c[0] else m
  }

  function MinOf(c: seq<int>): (m: int)
    requires c != []
    ensures m in c && forall i :: 0 <= i < |c| ==> m <= c[i]
  {
    if |c| == 1 then c[0]
    else
      var m := MinOf(c[1..]);
      assert forall i :: 1 <= i < |c| ==> c[i] == c[1..][i - 1];
      if c[0] < m then c[0] else m
  }

  function Gap(c: seq<int>): nat
    requires c != []
  {
    assert MinOf(c) <= MaxOf(c) by { assert MinOf(c) <= c[0] <= MaxOf(c); }
    MaxOf(c) - MinOf(c)
  }

  /** How much is missing to bring every entry up to `top`. */
  function Missing(c: seq<int>, top: int): int {
    if c == [] then 0 else top - c[0] + Missing(c[1..], top)
  }

  function Deficit(c: seq<int>): int
    requires c != []
  {
    Missing(c, MaxOf(c))
  }

  lemma {:induction false} MissingUpdate(c: seq<int>, top: int, i: nat)
    requires i < |c|
    ensures Missing(c[i := c[i] + 1], top) == Missing(c, top) - 1
  {
    if i > 0 {
      assert c[i := c[i] + 1][1..] == c[1..][i - 1 := c[1..][i - 1] + 1];
      MissingUpdate(c[1..], top, i - 1);
    } else {
      assert c[0 := c[0] + 1][1..] == c[1..];
    }
  }

  lemma {:induction false} MissingBound(c: seq<int>, top: int, i: nat)
    requires i < |c| && forall j :: 0 <= j < |c| ==> c[j] <= top
    ensures Missing(c, top) >= top - c[i] >= 0
  {
    if |c| > 1 {
      if i > 0 {
        MissingBound(c[1..], top, i - 1);
      } else {
        MissingBound(c[1..], top, 0);
      }
    }
  }

  function Place(c: seq<int>, i: nat): seq<int>
    requires i < |c|
  {
    c[i := c[i] + 1]
  }

  /** One placement never widens the gap beyond one, and below the top it fills one unit of deficit. */
  lemma PlaceStep(c: seq<int>, i: nat)
    requires IsLeast(c, i)
    ensures Gap(Place(c, i)) <= (if Gap(c) > 1 then Gap(c) else 1)
    ensures Gap(c) > 1 ==> Deficit(Place(c, i)) == Deficit(c) - 1
  {
    var c' := Place(c, i);
    var k :| 0 <= k < |c| && c[k] == MinOf(c);
    assert c[i] == MinOf(c);
    var k' :| 0 <= k' < |c'| && c'[k'] == MaxOf(c');
    var m :| 0 <= m < |c| && c[m] == MaxOf(c);
    assert c'[m] >= c[m];
    MissingUpdate(c, MaxOf(c), i);
    var n :| 0 <= n < |c'| && c'[n] == MinOf(c');
  }

  // ----- placement over runs -----

  predicate Creates(s: State, r: Request)
    requires WellFormed(r)
  {
    (r.Create? || r.CreateFolder?) && Step(s, r).1.Granted?
  }

  function Creations(s: State, rs: seq<Request>): nat
    requires WellFormedRun(rs)
    decreases |rs|
  {
    if rs == [] then 0
    else (if Creates(s, rs[0]) then 1 else 0) + Creations(Step(s, rs[0]).0, rs[1..])
  }

  predicate KeepsFleet(r: Request) {
    !r.Delete? && !r.RegisterSs?
  }

  lemma OtherCounts(s: State, r: Request)
    requires Inv(s) && WellFormed(r) && KeepsFleet(r) && !Creates(s, r)
    ensures Step(s, r).0.servers == s.servers
  {
  }

  lemma CreationCounts(s: State, r: Request)
    requires Inv(s) && WellFormed(r) && Creates(s, r) && s.servers != []
    ensures Step(s, r).0.servers != []
    ensures IsLeast(Counts(s.servers), Pick(s.servers))
    ensures Counts(Step(s, r).0.servers) == Place(Counts(s.servers), Pick(s.servers))
  {
    PickIsLeast(s.servers);
  }

  lemma StepCounts(s: State, r: Request)
    requires Inv(s) && WellFormed(r) && KeepsFleet(r) && s.servers != []
    ensures Step(s, r).0.servers != []
    ensures !Creates(s, r) ==> Counts(Step(s, r).0.servers) == Counts(s.servers)
    ensures Creates(s, r) ==> IsLeast(Counts(s.servers), Pick(s.servers))
                              && Counts(Step(s, r).0.servers) == Place(Counts(s.servers), Pick(s.servers))
  {
    if Creates(s, r) {
      CreationCounts(s, r);
    } else {
      OtherCounts(s, r);
    }
  }

  /** In every reachable state a successful creation leaves a gap of at most the old one, or one. */
  lemma CreateBalances(s: State, r: Request)
    requires Inv(s) && WellFormed(r) && Creates(s, r)
    ensures s.servers != [] && Step(s, r).0.servers != []
    ensures var before, after := Gap(Counts(s.servers)), Gap(Counts(Step(s, r).0.servers));
            after <= (if before > 1 then before else 1)
  {
    StepCounts(s, r);
    PlaceStep(Counts(s.servers), Pick(s.servers));
  }

  /** A successful CREATE records the requester as owner, places the document on the first server of
      least count, and names another server as replica whenever there is one. */
  lemma CreatePlaces(s: State, user: string, file: string, dbOk: bool)
    requires Inv(s)
    ensures var (s', reply) := Step(s, Create(user, file, dbOk));
            && (reply.Granted? <==> file !in s.files && s.servers != [] && dbOk)
            && (reply.Granted? ==>
                  && s'.files.Keys == s.files.Keys + {file} && s'.index == s.index + {file}
                  && s'.files[file].owner == user && 1 <= s'.files[file].ssId <= |s.servers|
                  && IsLeast(Counts(s.servers), s'.files[file].ssId - 1)
                  && s'.files[file].ssId != s'.files[file].replicaId
                  && (|s.servers| == 1 <==> s'.files[file].replicaId == -1)
                  && (|s.servers| > 1 ==> 1 <= s'.files[file].replicaId <= |s.servers|))
  {
    if s.servers != [] {
      PickIsLeast(s.servers);
      var primary := Pick(s.servers);
      assert |s.servers| > 1 ==> s.servers[if primary == 0 then 1 else 0].alive;
    }
  }

  /** Without deletions and registrations, as many creations as the deficit bring the gap down to at
      most one, and it stays there. */
  lemma {:induction false} RunBalances(s: State, rs: seq<Request>)
    requires Inv(s) && s.servers != [] && WellFormedRun(rs)
    requires forall i :: 0 <= i < |rs| ==> KeepsFleet(rs[i])
    ensures Run(s, rs).servers != []
    ensures Gap(Counts(s.servers)) <= 1 || Creations(s, rs) >= Deficit(Counts(s.servers))
            ==> Gap(Counts(Run(s, rs).servers)) <= 1
    decreases |rs|
  {
    var c := Counts(s.servers);
    if rs == [] {
      var k :| 0 <= k < |c| && c[k] == MinOf(c);
      MissingBound(c, MaxOf(c), k);
    } else {
      StepKeepsInv(s, rs[0]);
      StepCounts(s, rs[0]);
      if Creates(s, rs[0]) {
        PlaceStep(c, Pick(s.servers));
      }
      RunBalances(Step(s, rs[0]).0, rs[1..]);
    }
  }
}
