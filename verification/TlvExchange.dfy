// lib/core/ogs-tlv.c and lib/core/ogs-tlv-msg.c: a packet built by one side and parsed by the other.
module TlvExchange {
  import opened Prelude
  import opened TlvSpec
  import opened TlvMsgSpec
  import opened TlvMsgProof
  import opened TlvHeap
  import opened TlvBuild
  import opened TlvParse

  // The struct s is built and the packet is parsed into the zeroed struct t, with tail behind it
  // in memory.  Unless the pool of nodes runs out, t has exactly the fields of s that building
  // reached, as they were before the build, and no node is lost.
  method Exchange(store: Store, ds: seq<Desc>, s: Struct, t: Struct, mode: Mode, tail: seq<Byte>) returns (v: Verdict)
    requires WellFormed(ds) && ds != [] && Shallow(ds, 0) && store.Valid() && s != t && t.m == ZEROED
    requires var fs := AllFields(ds, s.m, 0);
      Readable(ds, s.m, fs) && Valued(ds, s.m, fs) && BuildMsg(mode, ds, s.m).Some? && Fits(mode, Build(mode, ds, s.m, fs).value)
    modifies store`nodes, store.pool, store.pool.free, store.pool.index, s, t
    ensures v == Abort ==> store.pool.queue == []
    ensures var packet, fs := BuildMsg(mode, ds, old(s.m)).value, AllFields(ds, old(s.m), 0);
      v == Abort <==> |old(store.pool.queue)| < Spent(mode, ds, old(s.m), fs)
                      || |old(store.pool.queue)| < AskedMsg(mode, packet + tail, |packet|, ds, ZEROED)
    ensures v != Abort ==> v == Ok && t.m == Only(old(s.m), Reach(ds, old(s.m), AllFields(ds, old(s.m), 0)))
    ensures v != Abort ==> store.Valid() && multiset(store.pool.queue) == multiset(old(store.pool.queue))
  {
    ghost var m, q := s.m, store.pool.queue;
    var data, aborted := BuildPacket(store, ds, s, mode);
    if aborted {
      return Abort;
    }
    SameSize(store.pool.queue, q);
    var mem := data[..] + tail;
    HoldsFront(data[..], tail);
    RoundTripMsg(mode, mem, ds, m);
    v := ParsePacket(store, t, ds, mem, data.Length, mode);
  }

  lemma SameSize(a: seq<int>, b: seq<int>)
    requires multiset(a) == multiset(b)
    ensures |a| == |b|
  {
    assert |multiset(a)| == |a| && |multiset(b)| == |b|;
  }

  lemma HoldsFront(bytes: seq<Byte>, tail: seq<Byte>)
    ensures Holds(bytes + tail, 0, bytes)
  {
  }
}
