// lib/core/ogs-pkbuf.c: what allocation, copy and release of packet buffers keep.
module PkbufProof {
  import opened Prelude
  import opened PkbufSpec

  // ---------- Pools ----------

  lemma TakeSplits(free: seq<int>, live: set<int>, n: nat)
    requires Splits(free, live, n) && free != []
    ensures Splits(free[1..], live + {free[0]}, n) && free[0] !in live
  {
    assert forall x :: x in free[1..] ==> x in free && x != free[0];
  }

  lemma ReturnSplits(free: seq<int>, live: set<int>, n: nat, x: int)
    requires Splits(free, live, n) && x in live
    ensures Splits(free + [x], live - {x}, n)
  {
  }

  // ---------- cluster_alloc ----------

  // s with the cluster c of class k, which holds buffer b or none.
  ghost predicate Gains(s: State, u: State, c: int, k: nat, b: int) {
    && k < KINDS == |s.dataPools| && s.clusterPool != [] && c == s.clusterPool[0]
    && u.pkbufPool == s.pkbufPool && u.pkbufs == s.pkbufs && u.clusterPool == s.clusterPool[1..]
    && u.clusters == s.clusters[c := Cluster(k, b, 0)]
    && (if b == NONE then s.dataPools[k] == [] && u.dataPools == s.dataPools
        else s.dataPools[k] != [] && b == s.dataPools[k][0] && u.dataPools == s.dataPools[k := s.dataPools[k][1..]])
  }

  lemma GainsStocked(s: State, u: State, c: int, k: nat, b: int, config: seq<nat>, j: nat)
    requires Gains(s, u, c, k, b) && c !in s.clusters && j < KINDS && |config| == KINDS == |s.dataPools| == |u.dataPools|
    requires Stocked(s, j, config) && Stocked(s, k, config)
    ensures Stocked(u, j, config)
  {
    assert Holders(u, j) == if j == k && b != NONE then Holders(s, j) + {c} else Holders(s, j);
    if j == k && b != NONE {
      assert forall x :: x in s.dataPools[k][1..] ==> x in s.dataPools[k];
    }
  }

  lemma GainsPools(s: State, u: State, c: int, k: nat, b: int, config: seq<nat>)
    requires Sound(s, config) && Gains(s, u, c, k, b)
    ensures Pools(u, config) && c !in s.clusters
  {
    hide Sum, References, Splits, Stocked;
    TakeSplits(s.clusterPool, s.clusters.Keys, Sum(config));
    assert u.clusters.Keys == s.clusters.Keys + {c};
    forall j | 0 <= j < KINDS
      ensures Stocked(u, j, config)
    {
      GainsStocked(s, u, c, k, b, config, j);
    }
  }

  lemma Unused(s: State, c: int, config: seq<nat>)
    requires References(s, config) && c !in s.clusters
    ensures Users(s, c) == {}
  {
    forall p | p in s.pkbufs
      ensures s.pkbufs[p].cluster != c
    {
      assert Pointing(s, p);
    }
  }

  lemma GainsOne(s: State, u: State, c: int, k: nat, b: int, config: seq<nat>, d: int)
    requires Sound(s, config) && Gains(s, u, c, k, b) && c !in s.clusters && d in u.clusters
    ensures Counted(u, d) && Owns(u, d, config)
  {
    assert Users(u, d) == Users(s, d);
    assert Stocked(s, k, config);
    assert b != NONE ==> b in s.dataPools[k] && b !in s.dataPools[k][1..];
    if d == c {
      Unused(s, c, config);
      forall e | e in s.clusters && s.clusters[e].kind == k
        ensures b != NONE ==> s.clusters[e].buffer != b
      {
        assert Owns(s, e, config);
      }
    } else {
      assert Counted(s, d) && Owns(s, d, config);
    }
  }

  lemma GainsReferences(s: State, u: State, c: int, k: nat, b: int, config: seq<nat>)
    requires Sound(s, config) && Gains(s, u, c, k, b) && c !in s.clusters
    ensures References(u, config)
  {
    forall d | d in u.clusters
      ensures Counted(u, d) && Owns(u, d, config)
    {
      GainsOne(s, u, c, k, b, config, d);
    }
    forall p | p in u.pkbufs
      ensures Pointing(u, p)
    {
      assert Pointing(s, p);
    }
  }

  // A failed allocation of a buffer leaves a cluster that nobody refers to.
  lemma AllocClusterKeeps(s: State, size: nat, config: seq<nat>)
    requires Sound(s, config)
    ensures var r, c := AllocCluster(s, size), if s.clusterPool == [] then NONE else s.clusterPool[0];
      && (r.Aborts? <==> s.clusterPool == [] || size > 1024 * 1024)
      && (r.Fails? <==> !r.Aborts? && s.dataPools[Kind(size)] == [])
      && (!r.Aborts? ==> Sound(r.s, config) && r.s.pkbufs == s.pkbufs && c !in s.clusters && Leaked(r.s) == Leaked(s) + {c})
      && (r.Gives? ==> r.node == c && c in r.s.clusters && r.s.clusters[c].kind == Kind(size) && r.s.clusters[c].buffer != NONE)
  {
    var r := AllocCluster(s, size);
    if !r.Aborts? {
      var c, k := s.clusterPool[0], Kind(size);
      assert Stocked(s, k, config);
      var b := if r.Fails? then NONE else s.dataPools[k][0];
      assert r.Gives? ==> b in s.dataPools[k];
      assert Gains(s, r.s, c, k, b);
      GainsPools(s, r.s, c, k, b, config);
      GainsReferences(s, r.s, c, k, b, config);
      assert Leaked(r.s) == Leaked(s) + {c};
    }
  }

  // ---------- A packet buffer more ----------

  ghost predicate Grants(s: State, u: State, n: int, p: Pkbuf) {
    && s.pkbufPool != [] && n == s.pkbufPool[0] && p.cluster in s.clusters
    && u.pkbufPool == s.pkbufPool[1..] && u.pkbufs == s.pkbufs[n := p]
    && u.clusterPool == s.clusterPool && u.dataPools == s.dataPools
    && u.clusters == s.clusters[p.cluster := s.clusters[p.cluster].(refs := s.clusters[p.cluster].refs + 1)]
  }

  lemma SameHolders(s: State, u: State, config: seq<nat>)
    requires Sound(s, config) && u.dataPools == s.dataPools && u.clusters.Keys == s.clusters.Keys
    requires forall c :: c in s.clusters ==> u.clusters[c] == s.clusters[c].(refs := u.clusters[c].refs)
    ensures forall k :: 0 <= k < KINDS ==> Stocked(u, k, config)
    ensures forall c :: c in u.clusters ==> Owns(u, c, config)
  {
    forall k: nat | k < KINDS
      ensures Stocked(u, k, config)
    {
      assert Stocked(s, k, config);
      assert forall c :: c in Holders(u, k) <==> c in Holders(s, k);
      assert Holders(u, k) == Holders(s, k);
    }
    forall c | c in u.clusters
      ensures Owns(u, c, config)
    {
      assert Owns(s, c, config);
    }
  }

  lemma GrantsCounted(s: State, u: State, n: int, p: Pkbuf, config: seq<nat>)
    requires References(s, config) && Grants(s, u, n, p) && s.clusters[p.cluster].buffer != NONE && n !in s.pkbufs
    ensures Users(u, p.cluster) == Users(s, p.cluster) + {n}
    ensures forall c :: c in u.clusters ==> Counted(u, c)
  {
    forall c | c in u.clusters
      ensures Counted(u, c) && (c == p.cluster ==> Users(u, c) == Users(s, c) + {n})
    {
      assert Counted(s, c);
      assert Users(u, c) == if c == p.cluster then Users(s, c) + {n} else Users(s, c);
    }
  }

  lemma GrantsSound(s: State, u: State, n: int, p: Pkbuf, config: seq<nat>)
    requires Sound(s, config) && Grants(s, u, n, p) && s.clusters[p.cluster].buffer != NONE
    requires p.head <= p.end && s.clusters[p.cluster].kind < KINDS && p.end <= SIZES[s.clusters[p.cluster].kind]
    ensures Sound(u, config) && n !in s.pkbufs && Users(u, p.cluster) == Users(s, p.cluster) + {n}
    ensures Leaked(u) == Leaked(s) - {p.cluster}
  {
    hide Users, Counted, Splits, Owns, Stocked, Sum;
    TakeSplits(s.pkbufPool, s.pkbufs.Keys, Sum(config));
    assert u.pkbufs.Keys == s.pkbufs.Keys + {n} && u.clusters.Keys == s.clusters.Keys;
    SameHolders(s, u, config);
    GrantsCounted(s, u, n, p, config);
    forall q | q in u.pkbufs
      ensures Pointing(u, q)
    {
      assert q != n ==> Pointing(s, q);
    }
  }

  // ---------- A packet buffer less ----------

  lemma FreeShared(s: State, p: int, config: seq<nat>)
    requires Sound(s, config) && p in s.pkbufs && s.clusters[s.pkbufs[p].cluster].refs > 1
    ensures var u := Free(s, p); Sound(u, config) && Leaked(u) == Leaked(s)
  {
    hide Sum, Splits, Owns;
    var c, u := s.pkbufs[p].cluster, Free(s, p);
    assert Pointing(s, p);
    ReturnSplits(s.pkbufPool, s.pkbufs.Keys, Sum(config), p);
    assert u.pkbufs.Keys == s.pkbufs.Keys - {p} && u.clusters.Keys == s.clusters.Keys;
    SameHolders(s, u, config);
    forall d | d in u.clusters
      ensures Counted(u, d)
    {
      assert Counted(s, d);
      assert Users(u, d) == if d == c then Users(s, d) - {p} else Users(s, d);
    }
    forall q | q in u.pkbufs
      ensures Pointing(u, q)
    {
      assert Pointing(s, q);
    }
  }

  lemma Only(a: set<int>, x: int)
    requires |a| == 1 && x in a
    ensures a == {x}
  {
    assert |a - {x}| == 0;
  }

  // The last packet buffer gives the cluster and its buffer back, each to its own pool.
  lemma FreeLastPools(s: State, p: int, config: seq<nat>)
    requires Sound(s, config) && p in s.pkbufs && s.pkbufs[p].cluster in s.clusters && s.clusters[s.pkbufs[p].cluster].refs <= 1
    ensures Pools(Free(s, p), config)
  {
    var c, u := s.pkbufs[p].cluster, Free(s, p);
    var k := s.clusters[c].kind;
    assert Pointing(s, p) && Counted(s, c) && p in Users(s, c);
    ReturnSplits(s.pkbufPool, s.pkbufs.Keys, Sum(config), p);
    ReturnSplits(s.clusterPool, s.clusters.Keys, Sum(config), c);
    assert u.pkbufs.Keys == s.pkbufs.Keys - {p} && u.clusters.Keys == s.clusters.Keys - {c};
    forall j | 0 <= j < KINDS
      ensures Stocked(u, j, config)
    {
      assert Stocked(s, j, config) && Owns(s, c, config);
      assert Holders(u, j) == if j == k then Holders(s, j) - {c} else Holders(s, j);
      assert s.clusters[c].refs > 0 ==> c in Holders(s, k);
      HasUser(s, c, p);
    }
  }

  lemma HasUser(s: State, c: int, p: int)
    requires p in Users(s, c)
    ensures |Users(s, c)| > 0
  {
  }

  lemma FreeLastReferences(s: State, p: int, config: seq<nat>)
    requires Sound(s, config) && p in s.pkbufs && s.pkbufs[p].cluster in s.clusters && s.clusters[s.pkbufs[p].cluster].refs <= 1
    ensures References(Free(s, p), config)
    ensures Leaked(Free(s, p)) == Leaked(s)
  {
    var c, u := s.pkbufs[p].cluster, Free(s, p);
    assert Pointing(s, p) && Counted(s, c) && p in Users(s, c);
    HasUser(s, c, p);
    Only(Users(s, c), p);
    forall d | d in u.clusters
      ensures Counted(u, d) && Owns(u, d, config)
    {
      assert Counted(s, d) && Owns(s, d, config) && Owns(s, c, config);
      assert Users(u, d) == Users(s, d);
    }
    forall q | q in u.pkbufs
      ensures Pointing(u, q)
    {
      assert Pointing(s, q) && q !in Users(s, c);
    }
  }

  // ---------- The three operations ----------

  // An allocation aborts when the cluster pool is exhausted or the request is too large, and
  // fails when its class or the pool of packet buffers is exhausted; a failure leaves behind one
  // cluster that nobody refers to.
  lemma AllocKeeps(s: State, size: nat, config: seq<nat>)
    requires Sound(s, config)
    ensures var r := Alloc(s, size);
      && (r.Aborts? <==> s.clusterPool == [] || size > 1024 * 1024)
      && (r.Fails? <==> !r.Aborts? && (s.dataPools[Kind(size)] == [] || s.pkbufPool == []))
      && (r.Fails? ==> Sound(r.s, config) && r.s.pkbufs == s.pkbufs && |Leaked(r.s)| == |Leaked(s)| + 1)
      && (r.Gives? ==> Sound(r.s, config) && Leaked(r.s) == Leaked(s) && r.node !in s.pkbufs && r.node != NONE && r.node in r.s.pkbufs
                       && Users(r.s, r.s.pkbufs[r.node].cluster) == {r.node}
                       && Blank(r.s, r.node, size) && r.s.pkbufs == s.pkbufs[r.node := r.s.pkbufs[r.node]])
  {
    AllocClusterKeeps(s, size, config);
    var a := AllocCluster(s, size);
    if a.Gives? {
      Unused(s, a.node, config);
      assert Users(a.s, a.node) == Users(s, a.node);
      assert a.node !in Leaked(s);
      if Alloc(s, size).Gives? {
        AllocBlank(s, size, config);
      }
      hide AllocCluster, Issue, Blank;
      IssueKeeps(s, a.s, a.node, size, config);
    }
  }

  lemma AllocBlank(s: State, size: nat, config: seq<nat>)
    requires Sound(s, config) && Alloc(s, size).Gives?
    ensures Blank(Alloc(s, size).s, Alloc(s, size).node, size)
    ensures Alloc(s, size).s.pkbufs == s.pkbufs[Alloc(s, size).node := Alloc(s, size).s.pkbufs[Alloc(s, size).node]]
  {
    AllocClusterKeeps(s, size, config);
    var a := AllocCluster(s, size);
    assert a.s.clusters[a.node].refs == 0;
    SmallestKind(size);
    hide Sound, Kind;
  }

  lemma SmallestKind(size: nat)
    ensures forall k: nat :: k < Kind(size) ==> SIZES[k] < size
  {
  }

  lemma IssueKeeps(s: State, t: State, c: int, size: nat, config: seq<nat>)
    requires Sound(t, config) && t.pkbufs == s.pkbufs && c in t.clusters && t.clusters[c].kind < KINDS && t.clusters[c].buffer != NONE
    requires size <= SIZES[t.clusters[c].kind] && Users(t, c) == {} && c !in Leaked(s) && Leaked(t) == Leaked(s) + {c}
    ensures var r := Issue(t, Pkbuf(c, 0, 0, 0, 0, size));
      && (r.Fails? <==> t.pkbufPool == []) && !r.Aborts? && (r.Fails? ==> r.s == t)
      && (r.Gives? ==> Sound(r.s, config) && Leaked(r.s) == Leaked(s) && r.node !in s.pkbufs && r.node != NONE && r.node in r.s.pkbufs
                       && r.s.pkbufs[r.node].cluster == c && Users(r.s, c) == {r.node})
  {
    if t.pkbufPool != [] {
      var p := Pkbuf(c, 0, 0, 0, 0, size);
      var r := Issue(t, p);
      GrantsSound(t, r.s, r.node, p, config);
      assert Leaked(r.s) == Leaked(s);
    }
  }

  // A copy shares the cluster of the original, and fails without a trace.
  lemma CopyKeeps(s: State, p: int, config: seq<nat>)
    requires Sound(s, config) && p in s.pkbufs
    ensures var r := Copy(s, p);
      && (r.Fails? <==> s.pkbufPool == []) && (r.Fails? ==> r.s == s) && !r.Aborts?
      && (r.Gives? ==> Sound(r.s, config) && Leaked(r.s) == Leaked(s) && r.node !in s.pkbufs && r.node != NONE
                       && r.s.pkbufs == s.pkbufs[r.node := s.pkbufs[p]]
                       && Users(r.s, s.pkbufs[p].cluster) == Users(s, s.pkbufs[p].cluster) + {r.node})
  {
    assert Pointing(s, p);
    var c := s.pkbufs[p].cluster;
    assert Counted(s, c) && p in Users(s, c);
    HasUser(s, c, p);
    if s.pkbufPool != [] {
      var r := Issue(s, s.pkbufs[p]);
      GrantsSound(s, r.s, r.node, s.pkbufs[p], config);
    }
  }

  // The release of a packet buffer gives the cluster back, and the buffer to its own class,
  // exactly when no other packet buffer points at it.
  lemma FreeKeeps(s: State, p: int, config: seq<nat>)
    requires Sound(s, config) && p in s.pkbufs
    ensures var u, c := Free(s, p), s.pkbufs[p].cluster;
      && Sound(u, config) && Leaked(u) == Leaked(s) && u.pkbufs == s.pkbufs - {p} && c in s.clusters
      && (c !in u.clusters <==> Users(s, c) == {p})
      && u.dataPools == if Users(s, c) == {p}
                        then s.dataPools[s.clusters[c].kind := s.dataPools[s.clusters[c].kind] + [s.clusters[c].buffer]]
                        else s.dataPools
  {
    var c := s.pkbufs[p].cluster;
    assert Pointing(s, p) && Counted(s, c) && p in Users(s, c);
    HasUser(s, c, p);
    if s.clusters[c].refs > 1 {
      FreeShared(s, p, config);
    } else {
      Only(Users(s, c), p);
      FreeLastPools(s, p, config);
      FreeLastReferences(s, p, config);
    }
  }

  // ---------- Whole runs ----------

  datatype Op = DoAlloc(size: nat) | DoCopy(p: int) | DoFree(p: int)

  function Step(s: State, op: Op): Outcome
    requires Legal(s, op)
  {
    match op
    case DoAlloc(size) => Alloc(s, size)
    case DoCopy(p) => Copy(s, p)
    case DoFree(p) => Gives(Free(s, p), p)
  }

  // Only live packet buffers are copied and freed.
  predicate Legal(s: State, op: Op) { op.DoAlloc? || op.p in s.pkbufs }

  // The states of a run that does not abort.
  ghost predicate Run(run: seq<State>, ops: seq<Op>, config: seq<nat>) {
    && |run| == |ops| + 1 && Full(run[0], config) && Sound(run[0], config)
    && forall i :: 0 <= i < |ops| ==> Steps(run[i], ops[i], run[i + 1])
  }

  ghost predicate Steps(s: State, op: Op, u: State) {
    Legal(s, op) && !Step(s, op).Aborts? && u == Step(s, op).s
  }

  // The failed allocations among the first n operations; failed copies are not counted.
  ghost function Failures(run: seq<State>, ops: seq<Op>, n: nat): nat
    requires n <= |ops| < |run|
  {
    if n == 0 then 0
    else Failures(run, ops, n - 1) + if ops[n - 1].DoAlloc? && Alloc(run[n - 1], ops[n - 1].size).Fails? then 1 else 0
  }

  // Every state of a run is sound, and each failed allocation has left one cluster behind.
  lemma {:induction false} RunKeeps(run: seq<State>, ops: seq<Op>, config: seq<nat>, n: nat)
    requires Run(run, ops, config) && n <= |ops|
    ensures Sound(run[n], config) && |Leaked(run[n])| == Failures(run, ops, n)
  {
    if n == 0 {
      assert Leaked(run[0]) == {};
    } else {
      hide Sound, Alloc, Copy, Free, Full;
      RunKeeps(run, ops, config, n - 1);
      RunStep(run, ops, config, n - 1);
      StepKeeps(run[n - 1], ops[n - 1], config);
    }
  }

  lemma RunStep(run: seq<State>, ops: seq<Op>, config: seq<nat>, i: nat)
    requires Run(run, ops, config) && i < |ops|
    ensures Legal(run[i], ops[i]) && !Step(run[i], ops[i]).Aborts? && run[i + 1] == Step(run[i], ops[i]).s
  {
    hide Sound, Full, Step;
    assert Steps(run[i], ops[i], run[i + 1]);
  }

  lemma StepKeeps(s: State, op: Op, config: seq<nat>)
    requires Sound(s, config) && Legal(s, op) && !Step(s, op).Aborts?
    ensures var u := Step(s, op).s;
      Sound(u, config) && |Leaked(u)| == |Leaked(s)| + if op.DoAlloc? && Alloc(s, op.size).Fails? then 1 else 0
  {
    match op {
      case DoAlloc(size) => AllocKeeps(s, size, config);
      case DoCopy(p) => CopyKeeps(s, p, config);
      case DoFree(p) => FreeKeeps(s, p, config);
    }
  }

  // When every packet buffer has been freed, all pools are full again if and only if no
  // allocation failed; otherwise one cluster is missing for each that did.
  lemma FullAgain(run: seq<State>, ops: seq<Op>, config: seq<nat>, n: nat)
    requires Run(run, ops, config) && n <= |ops| && run[n].pkbufs == map[]
    ensures Full(run[n], config) <==> Failures(run, ops, n) == 0
    ensures |run[n].clusterPool| == Sum(config) - Failures(run, ops, n)
  {
    RunKeeps(run, ops, config, n);
    var s := run[n];
    assert s.pkbufs.Keys == {};
    forall c | c in s.clusters
      ensures c in Leaked(s)
    {
      assert Counted(s, c) && Users(s, c) == {};
    }
    assert Leaked(s) == s.clusters.Keys;
    if Failures(run, ops, n) == 0 {
      assert s.clusters.Keys == {};
      forall k: nat | k < KINDS
        ensures |s.dataPools[k]| == config[k]
      {
        assert Stocked(s, k, config) && Holders(s, k) == {};
      }
    }
  }

  // One cluster, and no buffer of the smallest size class.
  const SCARCE: seq<nat> := [0, 1, 0, 0, 0, 0, 0]

  lemma ScarceSum()
    ensures Sum(SCARCE) == 1
  {
    assert SCARCE[1..] == [1, 0, 0, 0, 0, 0] && SCARCE[1..][1..] == [0, 0, 0, 0, 0];
    assert [0, 0, 0, 0, 0][1..] == [0, 0, 0, 0] && [0, 0, 0, 0][1..] == [0, 0, 0] && [0, 0, 0][1..] == [0, 0] && [0, 0][1..] == [0];
    assert Sum([0]) == 0 && Sum([0, 0]) == 0 && Sum([0, 0, 0]) == 0 && Sum([0, 0, 0, 0]) == 0 && Sum([0, 0, 0, 0, 0]) == 0;
  }

  const STOCK := State([0], [0], [[], [0], [], [], [], [], []], map[], map[])

  lemma StockStocked(k: nat)
    requires k < KINDS
    ensures STOCK.dataPools[k] == if k == 1 then [0] else []
    ensures Stocked(STOCK, k, SCARCE)
  {
    assert Holders(STOCK, k) == {};
  }

  lemma StockSplits(q: seq<int>, live: set<int>)
    requires q == [0] && live == {}
    ensures Splits(q, live, 1)
  {
  }

  lemma StockSound()
    ensures Sound(STOCK, SCARCE) && Full(STOCK, SCARCE)
  {
    var s := STOCK;
    hide Stocked, Splits;
    ScarceSum();
    assert s.pkbufs.Keys == {} && s.clusters.Keys == {};
    StockSplits(s.pkbufPool, s.pkbufs.Keys);
    forall k: nat | k < KINDS
      ensures Stocked(s, k, SCARCE) && |s.dataPools[k]| == SCARCE[k]
    {
      StockStocked(k);
    }
  }

  lemma StockAlloc()
    ensures Kind(100) == 0 && Kind(200) == 1
    ensures Alloc(STOCK, 100) == Fails(STOCK.(clusterPool := [], clusters := map[0 := Cluster(0, NONE, 0)]))
    ensures Alloc(STOCK, 200).Gives?
  {
    assert STOCK.clusterPool[1..] == [] && STOCK.dataPools[0] == [] && STOCK.dataPools[1] == [0];
  }

  // A request for it fails, and the only cluster is lost: there is none for a larger request any more.
  lemma ClusterLost() returns (run: seq<State>, ops: seq<Op>)
    ensures Run(run, ops, SCARCE) && |ops| == 1 && ops[0] == DoAlloc(100)
    ensures run[1].pkbufs == map[] && Failures(run, ops, 1) == 1 && !Full(run[1], SCARCE)
    ensures Alloc(run[0], 200).Gives? && Alloc(run[1], 200).Aborts?
  {
    hide Sound, Full, Issue;
    StockSound();
    StockAlloc();
    var u := Alloc(STOCK, 100).s;
    run, ops := [STOCK, u], [DoAlloc(100)];
    assert Steps(run[0], ops[0], run[1]);
    assert Failures(run, ops, 1) == Failures(run, ops, 0) + 1;
    FullAgain(run, ops, SCARCE, 1);
  }

  // Two packet buffers use the same memory only when they share a cluster.
  lemma Apart(s: State, p: int, q: int, config: seq<nat>)
    requires Sound(s, config) && p in s.pkbufs && q in s.pkbufs && s.pkbufs[p].cluster != s.pkbufs[q].cluster
    ensures s.pkbufs[p].cluster in s.clusters && s.pkbufs[q].cluster in s.clusters
    ensures var a, b := s.clusters[s.pkbufs[p].cluster], s.clusters[s.pkbufs[q].cluster]; a.kind != b.kind || a.buffer != b.buffer
  {
    assert Pointing(s, p) && Pointing(s, q);
    var c := s.pkbufs[p].cluster;
    assert Counted(s, c) && p in Users(s, c) && Owns(s, c, config);
    HasUser(s, c, p);
  }
}
