// lib/core/ogs-pkbuf.c without talloc: the code.
module Pkbuf {
  import opened Prelude
  import opened PkbufSpec
  import opened PkbufProof

  // ogs_pkbuf_pool_t, with the clusters and packet buffers that are live
  class PkbufPool {
    const config: seq<nat>
    var pkbufPool: seq<int>
    var clusterPool: seq<int>
    var dataPools: seq<seq<int>>
    var pkbufs: map<int, PkbufSpec.Pkbuf>
    var clusters: map<int, Cluster>

    ghost function Now(): State
      reads this
    {
      State(pkbufPool, clusterPool, dataPools, pkbufs, clusters)
    }

    ghost predicate Valid()
      reads this
    {
      Sound(Now(), config)
    }

    // ogs_pkbuf_pool_create
    constructor (config: seq<nat>)
      requires |config| == KINDS
      ensures Valid() && Full(Now(), config) && this.config == config
    {
      var total := Sum(config);
      this.config := config;
      pkbufPool, clusterPool := seq(total, i => i), seq(total, i => i);
      dataPools := seq(KINDS, k requires 0 <= k < KINDS => seq(config[k], i => i));
      pkbufs, clusters := map[], map[];
      new;
      forall k: nat | k < KINDS
        ensures Stocked(Now(), k, config)
      {
        assert Holders(Now(), k) == {};
      }
      assert pkbufs.Keys == {} && clusters.Keys == {};
    }

    // cluster_alloc: NONE when the class is exhausted
    method ClusterAlloc(size: nat) returns (cluster: int, aborted: bool)
      requires Valid()
      modifies this`clusterPool, this`dataPools, this`clusters
      ensures aborted <==> AllocCluster(old(Now()), size).Aborts?
      ensures !aborted ==> AllocCluster(old(Now()), size) == if cluster == NONE then Fails(Now()) else Gives(Now(), cluster)
    {
      ghost var s := Now();
      AllocClusterKeeps(s, size, config);
      var k := Kind(size);
      if clusterPool == [] || k == KINDS {
        return NONE, true;
      }
      assert Stocked(s, k, config);
      cluster, aborted := clusterPool[0], false;
      clusterPool := clusterPool[1..];
      if dataPools[k] == [] {
        clusters := clusters[cluster := Cluster(k, NONE, 0)];
        cluster := NONE;
      } else {
        var buffer := dataPools[k][0];
        dataPools := dataPools[k := dataPools[k][1..]];
        clusters := clusters[cluster := Cluster(k, buffer, 0)];
      }
    }

    // A packet buffer out of its pool that refers to one more cluster: NONE when there is none
    method Take(p: PkbufSpec.Pkbuf) returns (pkbuf: int)
      requires p.cluster in clusters && NONE !in pkbufPool
      modifies this`pkbufPool, this`pkbufs, this`clusters
      ensures Issue(old(Now()), p) == if pkbuf == NONE then Fails(Now()) else Gives(Now(), pkbuf)
    {
      if pkbufPool == [] {
        return NONE;
      }
      pkbuf := pkbufPool[0];
      pkbufPool := pkbufPool[1..];
      pkbufs := pkbufs[pkbuf := p];
      clusters := clusters[p.cluster := clusters[p.cluster].(refs := clusters[p.cluster].refs + 1)];
    }

    // ogs_pkbuf_alloc: NONE when it fails
    method PkbufAlloc(size: nat) returns (pkbuf: int, aborted: bool)
      requires Valid()
      modifies this
      ensures aborted <==> old(clusterPool) == [] || size > 1024 * 1024
      ensures !aborted ==> Valid() && Alloc(old(Now()), size) == if pkbuf == NONE then Fails(Now()) else Gives(Now(), pkbuf)
      ensures !aborted && pkbuf != NONE ==>
        pkbuf !in old(pkbufs) && Blank(Now(), pkbuf, size) && pkbufs == old(pkbufs)[pkbuf := pkbufs[pkbuf]]
    {
      ghost var s := Now();
      hide Blank;
      AllocKeeps(s, size, config);
      var cluster;
      cluster, aborted := ClusterAlloc(size);
      if aborted || cluster == NONE {
        return NONE, aborted;
      }
      pkbuf := Take(PkbufSpec.Pkbuf(cluster, 0, 0, 0, 0, size));
    }

    // cluster_free
    method ClusterFree(cluster: int)
      requires cluster in clusters && clusters[cluster].kind < |dataPools|
      modifies this`clusterPool, this`dataPools, this`clusters
      ensures Now() == FreeCluster(old(Now()), cluster)
    {
      var k := clusters[cluster].kind;
      dataPools := dataPools[k := dataPools[k] + [clusters[cluster].buffer]];
      clusterPool := clusterPool + [cluster];
      clusters := clusters - {cluster};
    }

    // ogs_pkbuf_free
    method PkbufFree(pkbuf: int)
      requires Valid() && pkbuf in pkbufs
      modifies this
      ensures Valid() && Now() == Free(old(Now()), pkbuf)
    {
      FreeKeeps(Now(), pkbuf, config);
      assert Pointing(Now(), pkbuf);
      var cluster := pkbufs[pkbuf].cluster;
      if clusters[cluster].refs > 1 {
        clusters := clusters[cluster := clusters[cluster].(refs := clusters[cluster].refs - 1)];
      } else {
        ClusterFree(cluster);
      }
      pkbufPool := pkbufPool + [pkbuf];
      pkbufs := pkbufs - {pkbuf};
    }

    // ogs_pkbuf_copy: NONE when it fails
    method PkbufCopy(pkbuf: int) returns (newbuf: int)
      requires Valid() && pkbuf in pkbufs
      modifies this
      ensures Valid() && Copy(old(Now()), pkbuf) == if newbuf == NONE then Fails(Now()) else Gives(Now(), newbuf)
    {
      CopyKeeps(Now(), pkbuf, config);
      assert Pointing(Now(), pkbuf);
      newbuf := Take(pkbufs[pkbuf]);
    }
  }
}
