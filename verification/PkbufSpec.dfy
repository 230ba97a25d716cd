// lib/core/ogs-pkbuf.c without talloc: packet buffers that share clusters by reference count.
// Each of the nine pools is the queue of its free slots, the next one to be issued first.
module PkbufSpec {
  import opened Prelude

  // ogs_cluster_t: the size class of its buffer, the buffer, and the count of references
  datatype Cluster = Cluster(kind: nat, buffer: int, refs: nat)

  // ogs_pkbuf_t: its cluster, and the pointers as offsets in the cluster's buffer
  datatype Pkbuf = Pkbuf(cluster: int, len: nat, head: nat, data: nat, tail: nat, end: nat)

  const KINDS := 7
  const SIZES: seq<nat> := [128, 256, 512, 1024, 2048, 8192, 1024 * 1024]

  // The size class of a request, or KINDS when none is large enough.
  function Kind(size: nat): (k: nat)
    ensures k <= KINDS && (k < KINDS ==> size <= SIZES[k]) && (k > 0 ==> size > SIZES[k - 1])
  {
    if size <= 128 then 0 else if size <= 256 then 1 else if size <= 512 then 2 else if size <= 1024 then 3
    else if size <= 2048 then 4 else if size <= 8192 then 5 else if size <= 1024 * 1024 then 6 else 7
  }

  // ogs_pkbuf_pool_t
  datatype State = State(pkbufPool: seq<int>, clusterPool: seq<int>, dataPools: seq<seq<int>>,
                         pkbufs: map<int, Pkbuf>, clusters: map<int, Cluster>)

  // Of a request that the source aborts, nothing is left to tell.
  datatype Outcome = Aborts | Fails(s: State) | Gives(s: State, node: int)

  // cluster_alloc; it gives a cluster without references
  function AllocCluster(s: State, size: nat): (r: Outcome) {
    var k := Kind(size);
    if s.clusterPool == [] || k >= |s.dataPools| || k == KINDS then Aborts
    else
      var c, t := s.clusterPool[0], s.(clusterPool := s.clusterPool[1..]);
      if s.dataPools[k] == [] then Fails(t.(clusters := t.clusters[c := Cluster(k, NONE, 0)]))
      else
        Gives(t.(dataPools := t.dataPools[k := t.dataPools[k][1..]], clusters := t.clusters[c := Cluster(k, t.dataPools[k][0], 0)]), c)
  }

  function Refer(s: State, c: int, d: int): State {
    if c in s.clusters && s.clusters[c].refs + d >= 0
    then s.(clusters := s.clusters[c := s.clusters[c].(refs := s.clusters[c].refs + d)])
    else s
  }

  // A packet buffer out of its pool, that refers to p's cluster.
  function Issue(s: State, p: Pkbuf): Outcome {
    if s.pkbufPool == [] then Fails(s)
    else
      var n := s.pkbufPool[0];
      Gives(Refer(s.(pkbufPool := s.pkbufPool[1..], pkbufs := s.pkbufs[n := p]), p.cluster, 1), n)
  }

  // ogs_pkbuf_alloc
  function Alloc(s: State, size: nat): Outcome {
    var r := AllocCluster(s, size);
    if r.Gives? then Issue(r.s, Pkbuf(r.node, 0, 0, 0, 0, size)) else r
  }

  // ogs_pkbuf_copy
  function Copy(s: State, p: int): Outcome
    requires p in s.pkbufs
  {
    Issue(s, s.pkbufs[p])
  }

  // cluster_free
  function FreeCluster(s: State, c: int): State {
    if c in s.clusters && s.clusters[c].kind < |s.dataPools|
    then
      var k := s.clusters[c].kind;
      s.(clusterPool := s.clusterPool + [c], dataPools := s.dataPools[k := s.dataPools[k] + [s.clusters[c].buffer]],
         clusters := s.clusters - {c})
    else s
  }

  // ogs_pkbuf_free
  function Free(s: State, p: int): State
    requires p in s.pkbufs
  {
    var c := s.pkbufs[p].cluster;
    var t := if c in s.clusters && s.clusters[c].refs > 1 then Refer(s, c, -1) else FreeCluster(s, c);
    t.(pkbufPool := t.pkbufPool + [p], pkbufs := t.pkbufs - {p})
  }

  // ---------- What every state keeps ----------

  // The packet buffers that point at a cluster.
  ghost function Users(s: State, c: int): set<int> { set p | p in s.pkbufs && s.pkbufs[p].cluster == c }

  // The clusters that hold a buffer of a size class.
  ghost function Holders(s: State, k: nat): set<int> {
    set c | c in s.clusters && s.clusters[c].kind == k && s.clusters[c].buffer != NONE
  }

  // The clusters nobody refers to: those a failed allocation left behind.
  ghost function Leaked(s: State): set<int> { set c | c in s.clusters && s.clusters[c].refs == 0 }

  // The reference count is the number of packet buffers that point at the cluster.
  ghost predicate Counted(s: State, c: int)
    requires c in s.clusters
  {
    && s.clusters[c].refs == |Users(s, c)| && s.clusters[c].kind < KINDS
    && (s.clusters[c].refs > 0 ==> s.clusters[c].buffer != NONE)
  }

  ghost predicate Pointing(s: State, p: int)
    requires p in s.pkbufs
  {
    && s.pkbufs[p].cluster in s.clusters && s.clusters[s.pkbufs[p].cluster].kind < KINDS
    && s.pkbufs[p].head <= s.pkbufs[p].end <= SIZES[s.clusters[s.pkbufs[p].cluster].kind]
  }

  // A packet buffer just allocated for size bytes: empty, with room for exactly those, in a buffer
  // of the smallest class that is large enough, which it has to itself.
  ghost predicate Blank(s: State, p: int, size: nat) {
    p in s.pkbufs && s.pkbufs[p].cluster in s.clusters &&
    var b, c := s.pkbufs[p], s.clusters[s.pkbufs[p].cluster];
    && b.len == 0 && b.head == b.data == b.tail == 0 && b.end == b.tail + size
    && c.refs == 1 && c.buffer != NONE && c.kind < KINDS && size <= SIZES[c.kind] && forall k: nat :: k < c.kind ==> SIZES[k] < size
  }

  // A cluster's buffer is in range, not free, and no other cluster's.
  ghost predicate Owns(s: State, c: int, config: seq<nat>)
    requires c in s.clusters
  {
    var k, b := s.clusters[c].kind, s.clusters[c].buffer;
    k < |s.dataPools| == |config| && b != NONE ==>
      && 0 <= b < config[k] && b !in s.dataPools[k]
      && forall d :: d in s.clusters && d != c && s.clusters[d].kind == k ==> s.clusters[d].buffer != b
  }

  ghost predicate Stocked(s: State, k: nat, config: seq<nat>)
    requires k < |s.dataPools| == |config|
  {
    && Distinct(s.dataPools[k]) && (forall b: int :: b in s.dataPools[k] ==> 0 <= b < config[k])
    && |s.dataPools[k]| + |Holders(s, k)| == config[k]
  }

  // The free slots and the live ones are all the n slots, and no slot is both.
  ghost predicate Splits(free: seq<int>, live: set<int>, n: nat) {
    && Distinct(free) && (forall x: int :: x in free ==> 0 <= x < n && x !in live) && (forall x: int :: x in live ==> 0 <= x < n)
    && |free| + |live| == n
  }

  ghost predicate Pools(s: State, config: seq<nat>) {
    && |config| == |s.dataPools| == KINDS
    && Splits(s.pkbufPool, s.pkbufs.Keys, Sum(config)) && Splits(s.clusterPool, s.clusters.Keys, Sum(config))
    && forall k :: 0 <= k < KINDS ==> Stocked(s, k, config)
  }

  ghost predicate References(s: State, config: seq<nat>) {
    && (forall c :: c in s.clusters ==> Counted(s, c) && Owns(s, c, config))
    && (forall p :: p in s.pkbufs ==> Pointing(s, p))
  }

  ghost predicate Sound(s: State, config: seq<nat>) { Pools(s, config) && References(s, config) }

  function Sum(s: seq<nat>): nat { if s == [] then 0 else s[0] + Sum(s[1..]) }

  // ogs_pkbuf_pool_create
  ghost predicate Full(s: State, config: seq<nat>) {
    && s.pkbufs == map[] && s.clusters == map[] && |s.dataPools| == |config| == KINDS
    && |s.pkbufPool| == |s.clusterPool| == Sum(config) && forall k :: 0 <= k < KINDS ==> |s.dataPools[k]| == config[k]
  }
}
