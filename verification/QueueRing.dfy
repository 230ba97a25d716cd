// lib/core/ogs-queue.c: the ring buffer under the lock.
module QueueRing {
  // data, bounds, nelts, in and out of ogs_queue_t
  datatype Ring<V> = Ring(data: seq<V>, nelts: nat, in_: nat, out: nat) {
    function Bounds(): nat { |data| }

    // An index brought back below the bound, as the source does it.
    function Wrap(x: nat): nat { if x >= Bounds() then x - Bounds() else x }

    ghost predicate Valid() {
      nelts <= Bounds() && (Bounds() == 0 ==> in_ == out == 0) && (Bounds() > 0 ==> in_ < Bounds() && out < Bounds()) && in_ == Wrap(out + nelts)
    }

    // What is queued, oldest first.
    ghost function Contents(): (s: seq<V>)
      requires Valid()
      ensures |s| == nelts
    {
      seq(nelts, i requires 0 <= i < nelts => data[Wrap(out + i)])
    }

    // queue->data[queue->in] = data, and the bookkeeping after it
    function Put(v: V): Ring<V>
      requires Bounds() > 0
    {
      Ring(if in_ < Bounds() then data[in_ := v] else data, nelts + 1, Wrap(in_ + 1), out)
    }

    // The bookkeeping after *data = queue->data[queue->out]
    function Take(): Ring<V>
      requires nelts > 0
    {
      Ring(data, nelts - 1, in_, Wrap(out + 1))
    }
  }

  // The next free place is count places after the next element, around the ring.
  lemma InIs<V>(r: Ring<V>)
    requires r.Valid() && r.Bounds() > 0
    ensures r.in_ == (r.out + r.nelts) % r.Bounds()
  {
    var n, x := r.Bounds(), r.out + r.nelts;
    if x >= n {
      assert x == n * 1 + (x - n);
      Remainder(x, n, 1, x - n);
    } else {
      Remainder(x, n, 0, x);
    }
  }

  lemma Remainder(x: nat, n: nat, q: nat, r: nat)
    requires x == n * q + r && r < n && q <= 1
    ensures x % n == r
  {
  }

  lemma ContentsAt<V>(r: Ring<V>, i: nat)
    requires r.Valid() && i < r.nelts
    ensures r.Wrap(r.out + i) < r.Bounds() && r.Contents()[i] == r.data[r.Wrap(r.out + i)]
  {
  }

  lemma PutAppends<V>(r: Ring<V>, v: V)
    requires r.Valid() && r.nelts < r.Bounds()
    ensures r.Put(v).Valid() && r.Put(v).Contents() == r.Contents() + [v]
  {
    var u := r.Put(v);
    forall i | 0 <= i < u.nelts
      ensures u.Contents()[i] == (r.Contents() + [v])[i]
    {
      ContentsAt(u, i);
      if i < r.nelts {
        ContentsAt(r, i);
        assert r.Wrap(r.out + i) != r.in_;
      } else {
        assert u.Wrap(u.out + i) == r.in_;
      }
    }
  }

  lemma TakeDrops<V>(r: Ring<V>)
    requires r.Valid() && r.nelts > 0
    ensures r.Take().Valid() && r.Contents() == [r.data[r.out]] + r.Take().Contents()
  {
    var u := r.Take();
    forall i | 0 <= i < r.nelts
      ensures r.Contents()[i] == ([r.data[r.out]] + u.Contents())[i]
    {
      ContentsAt(r, i);
      if i == 0 {
        assert r.Wrap(r.out + i) == r.out;
      } else {
        var j := i - 1;
        ContentsAt(u, j);
        assert u.Wrap(u.out + j) == r.Wrap(r.out + i);
        assert ([r.data[r.out]] + u.Contents())[i] == u.Contents()[j];
      }
    }
  }

  class Buffer<V> {
    const data: array<V>
    var nelts: nat
    var in_: nat
    var out: nat

    ghost function Now(): Ring<V>
      reads this, data
    {
      Ring(data[..], nelts, in_, out)
    }

    // ogs_queue_create
    constructor (capacity: nat, zero: V)
      ensures Now().Valid() && Now().Contents() == [] && Now().Bounds() == capacity && fresh(data)
    {
      data := new V[capacity](_ => zero);
      nelts, in_, out := 0, 0, 0;
    }

    method Put(v: V)
      requires Now().Valid() && nelts < data.Length
      modifies this, data
      ensures Now() == old(Now()).Put(v) && Now().Valid()
      ensures Now().Contents() == old(Now()).Contents() + [v]
    {
      PutAppends(Now(), v);
      data[in_] := v;
      in_ := in_ + 1;
      if in_ >= data.Length {
        in_ := in_ - data.Length;
      }
      nelts := nelts + 1;
    }

    method Take() returns (v: V)
      requires Now().Valid() && nelts > 0
      modifies this
      ensures Now() == old(Now()).Take() && Now().Valid()
      ensures v == old(data[out]) && old(Now()).Contents() == [v] + Now().Contents()
    {
      TakeDrops(Now());
      v := data[out];
      nelts := nelts - 1;
      out := out + 1;
      if out >= data.Length {
        out := out - data.Length;
      }
    }
  }
}
