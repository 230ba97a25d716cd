// Which fields of a message building reaches: all that are present exactly when no copy of a
// repeated field is missing before one that is there; and in which order it builds them.
module TlvMsgGaps {
  import opened Prelude
  import opened TlvSpec
  import opened TlvMsgSpec
  import opened TlvMsgProof

  // Every present field, whether or not an earlier copy is missing.
  ghost function HeldOne(d: Desc, m: Msg, a: int): set<int>
    decreases d, 0
  {
    if d.Compound? then {a} + Held(d.kids, 0, Copies(d.kids, 0), m, a + PRESENCE) else {a}
  }

  ghost function Held(ds: seq<Desc>, i: nat, k: nat, m: Msg, a: int): set<int>
    decreases ds, 1, |ds| - i, k
  {
    if i >= |ds| then {}
    else if k == 0 then Held(ds, i + Width(ds, i), Copies(ds, i + Width(ds, i)), m, a)
    else (if m.Present(a) then HeldOne(ds[i], m, a) else {}) + Held(ds, i, k - 1, m, a + ds[i].Vsize())
  }

  ghost predicate Absent(m: Msg, vsize: nat, n: nat, a: int)
    decreases n
  {
    n == 0 || (!m.Present(a) && Absent(m, vsize, n - 1, a + vsize))
  }

  // Behind a missing copy there is no other, in the table and in the compounds present.
  ghost predicate GapFreeOne(d: Desc, m: Msg, a: int)
    decreases d, 0
  {
    d.Compound? ==> GapFree(d.kids, 0, Copies(d.kids, 0), m, a + PRESENCE)
  }

  ghost predicate GapFree(ds: seq<Desc>, i: nat, k: nat, m: Msg, a: int)
    decreases ds, 1, |ds| - i, k
  {
    if i >= |ds| then true
    else if k > 0 && m.Present(a) then GapFreeOne(ds[i], m, a) && GapFree(ds, i, k - 1, m, a + ds[i].Vsize())
    else
      Absent(m, ds[i].Vsize(), k, a)
      && GapFree(ds, i + Width(ds, i), Copies(ds, i + Width(ds, i)), m, a + Room(ds[i].Vsize(), k))
  }

  ghost predicate Formed(ds: seq<Desc>, i: nat) {
    && Regular(ds) && (forall l :: 0 <= l < |ds| ==> WellFormedOne(ds[l]))
    && i <= |ds| && (i < |ds| ==> !ds[i].More?)
  }

  ghost function End(ds: seq<Desc>, i: nat, k: nat, a: int): int {
    if i < |ds| then a + Room(ds[i].Vsize(), k) + Span(ds, i + Width(ds, i)) else a
  }

  lemma {:induction false} HeldOneRoom(d: Desc, m: Msg, a: int)
    requires WellFormedOne(d) && !d.More?
    ensures forall x :: x in HeldOne(d, m, a) ==> a <= x < a + d.Vsize()
    decreases d, 0
  {
    if d.Compound? { HeldRoom(d.kids, 0, Copies(d.kids, 0), m, a + PRESENCE); }
  }

  lemma {:induction false} HeldRoom(ds: seq<Desc>, i: nat, k: nat, m: Msg, a: int)
    requires Formed(ds, i)
    ensures forall x :: x in Held(ds, i, k, m, a) ==> a <= x < End(ds, i, k, a)
    decreases ds, 1, |ds| - i, k
  {
    if i < |ds| {
      OffsetsAgree(ds, i);
      if k == 0 {
        HeldRoom(ds, i + Width(ds, i), Copies(ds, i + Width(ds, i)), m, a);
      } else {
        HeldOneRoom(ds[i], m, a);
        HeldRoom(ds, i, k - 1, m, a + ds[i].Vsize());
      }
    }
  }

  lemma FieldsReachRoom(ds: seq<Desc>, i: nat, k: nat, m: Msg, a: int)
    requires Formed(ds, i)
    ensures forall x :: x in Reach(ds, m, Fields(ds, i, k, m, a)) ==> a <= x < End(ds, i, k, a)
  {
    FieldsRoom(ds, i, k, m, a);
    ReachRoom(ds, m, Fields(ds, i, k, m, a), a, End(ds, i, k, a));
  }

  // Copies that are all missing hold nothing.
  lemma {:induction false} AbsentHeld(ds: seq<Desc>, i: nat, k: nat, m: Msg, a: int)
    requires i < |ds| && Absent(m, ds[i].Vsize(), k, a)
    ensures Held(ds, i, k, m, a)
         == Held(ds, i + Width(ds, i), Copies(ds, i + Width(ds, i)), m, a + Room(ds[i].Vsize(), k))
    decreases k
  {
    if k == 0 {
    } else {
      AbsentHeld(ds, i, k - 1, m, a + ds[i].Vsize());
    }
  }

  // Copies of which one is there hold something before the next field.
  lemma {:induction false} SomeHeld(ds: seq<Desc>, i: nat, k: nat, m: Msg, a: int)
    requires Formed(ds, i) && i < |ds| && !Absent(m, ds[i].Vsize(), k, a)
    ensures exists x :: x in Held(ds, i, k, m, a) && x < a + Room(ds[i].Vsize(), k)
    decreases k
  {
    if m.Present(a) {
      assert a in HeldOne(ds[i], m, a) && a in Held(ds, i, k, m, a);
      assert WellFormedOne(ds[i]);
    } else {
      SomeHeld(ds, i, k - 1, m, a + ds[i].Vsize());
      var x :| x in Held(ds, i, k - 1, m, a + ds[i].Vsize()) && x < a + ds[i].Vsize() + Room(ds[i].Vsize(), k - 1);
      assert x in Held(ds, i, k, m, a);
    }
  }

  lemma Split(r1: set<int>, r2: set<int>, h1: set<int>, h2: set<int>, mid: int)
    requires (forall x :: x in r1 || x in h1 ==> x < mid) && (forall x :: x in r2 || x in h2 ==> mid <= x)
    ensures r1 + r2 == h1 + h2 <==> r1 == h1 && r2 == h2
  {
    if r1 + r2 == h1 + h2 {
      forall x
        ensures (x in r1 <==> x in h1) && (x in r2 <==> x in h2)
      {
        assert x in r1 + r2 <==> x in h1 + h2;
      }
    }
  }

  lemma {:induction false} OneGapFree(d: Desc, m: Msg, a: int)
    requires WellFormedOne(d) && !d.More?
    ensures ReachOne(d, m, a) == HeldOne(d, m, a) <==> GapFreeOne(d, m, a)
    decreases d, 0
  {
    if d.Compound? {
      var i, k, b := 0, Copies(d.kids, 0), a + PRESENCE;
      GapFreeReach(d.kids, i, k, m, b);
      FieldsReachRoom(d.kids, i, k, m, b);
      HeldRoom(d.kids, i, k, m, b);
      Split({a}, Reach(d.kids, m, Members(d, m, a)), {a}, Held(d.kids, i, k, m, b), b);
    }
  }

  // Building reaches every present field if and only if there is no gap.
  lemma {:induction false} GapFreeReach(ds: seq<Desc>, i: nat, k: nat, m: Msg, a: int)
    requires Formed(ds, i)
    ensures Reach(ds, m, Fields(ds, i, k, m, a)) == Held(ds, i, k, m, a) <==> GapFree(ds, i, k, m, a)
    decreases ds, 1, |ds| - i, k, 1
  {
    if i < |ds| {
      OffsetsAgree(ds, i);
      if k > 0 && m.Present(a) {
        CopyGapFree(ds, i, k, m, a);
      } else {
        var next, b := i + Width(ds, i), a + Room(ds[i].Vsize(), k);
        GapFreeReach(ds, next, Copies(ds, next), m, b);
        if Absent(m, ds[i].Vsize(), k, a) {
          AbsentHeld(ds, i, k, m, a);
        } else {
          SomeHeld(ds, i, k, m, a);
          FieldsReachRoom(ds, next, Copies(ds, next), m, b);
        }
      }
    }
  }

  lemma {:induction false} CopyGapFree(ds: seq<Desc>, i: nat, k: nat, m: Msg, a: int)
    requires Formed(ds, i) && i < |ds| && k > 0 && m.Present(a)
    ensures Reach(ds, m, Fields(ds, i, k, m, a)) == Held(ds, i, k, m, a) <==> GapFree(ds, i, k, m, a)
    decreases ds, 1, |ds| - i, k, 0
  {
    var v := ds[i].Vsize();
    OneGapFree(ds[i], m, a);
    GapFreeReach(ds, i, k - 1, m, a + v);
    ReachOneRoom(ds[i], m, a);
    HeldOneRoom(ds[i], m, a);
    FieldsReachRoom(ds, i, k - 1, m, a + v);
    HeldRoom(ds, i, k - 1, m, a + v);
    ReachCons(ds, i, k, m, a);
    Split(ReachOne(ds[i], m, a), Reach(ds, m, Fields(ds, i, k - 1, m, a + v)),
          HeldOne(ds[i], m, a), Held(ds, i, k - 1, m, a + v), a + v);
  }

  lemma ReachCons(ds: seq<Desc>, i: nat, k: nat, m: Msg, a: int)
    requires i < |ds| && k > 0 && m.Present(a)
    ensures Reach(ds, m, Fields(ds, i, k, m, a))
         == ReachOne(ds[i], m, a) + Reach(ds, m, Fields(ds, i, k - 1, m, a + ds[i].Vsize()))
  {
    var rest := Fields(ds, i, k - 1, m, a + ds[i].Vsize());
    assert ([Field(i, a)] + rest)[1..] == rest;
  }

  // ---------- The order in the packet ----------

  // From place i and address a on, fields follow the order of their descriptors, and copies of
  // one descriptor the order of their addresses.
  ghost predicate InOrder(ds: seq<Desc>, fs: seq<Field>, i: nat, a: int)
    decreases fs
  {
    fs == []
    || (i <= fs[0].i < |ds| && (fs[0].i == i ==> a <= fs[0].a) && InOrder(ds, fs[1..], fs[0].i, fs[0].a + ds[fs[0].i].Vsize()))
  }

  lemma InOrderFrom(ds: seq<Desc>, fs: seq<Field>, i: nat, j: nat, a: int, b: int)
    requires InOrder(ds, fs, j, b) && i < j
    ensures InOrder(ds, fs, i, a)
  {
  }

  lemma {:induction false} FieldsInOrder(ds: seq<Desc>, i: nat, k: nat, m: Msg, a: int)
    ensures InOrder(ds, Fields(ds, i, k, m, a), i, a)
    decreases |ds| - i, k
  {
    if i >= |ds| {
    } else if k > 0 && m.Present(a) {
      FieldsInOrder(ds, i, k - 1, m, a + ds[i].Vsize());
      var fs := Fields(ds, i, k - 1, m, a + ds[i].Vsize());
      assert ([Field(i, a)] + fs)[1..] == fs;
    } else {
      var j, b := i + Width(ds, i), a + Room(ds[i].Vsize(), k);
      FieldsInOrder(ds, j, Copies(ds, j), m, b);
      InOrderFrom(ds, Fields(ds, j, Copies(ds, j), m, b), i, j, a, b);
    }
  }

  // Node q of a table built is the one of field q, with the type and instance of its descriptor.
  lemma {:induction false} BuiltInOrder(mode: Mode, ds: seq<Desc>, m: Msg, fs: seq<Field>, q: nat)
    requires InTable(ds, fs) && q < |fs| && Build(mode, ds, m, fs).Some?
    ensures var ts := Build(mode, ds, m, fs).value;
      |ts| == |fs| && BuildOne(mode, ds[fs[q].i], m, fs[q].a) == Some(ts[q])
      && ts[q].type_ == ds[fs[q].i].Type() && ts[q].instance == ds[fs[q].i].Instance()
    decreases fs
  {
    hide BuildOne;
    BuiltOneNamed(mode, ds[fs[q].i], m, fs[q].a);
    BuiltSize(mode, ds, m, fs);
    if q > 0 {
      BuiltInOrder(mode, ds, m, fs[1..], q - 1);
    }
  }

  lemma BuiltOneNamed(mode: Mode, d: Desc, m: Msg, a: int)
    ensures var r := BuildOne(mode, d, m, a); r.Some? ==> r.value.type_ == d.Type() && r.value.instance == d.Instance()
  {
    hide Build, LeafBytes;
  }

  lemma {:induction false} BuiltSize(mode: Mode, ds: seq<Desc>, m: Msg, fs: seq<Field>)
    requires InTable(ds, fs) && Build(mode, ds, m, fs).Some?
    ensures |Build(mode, ds, m, fs).value| == |fs|
    decreases fs
  {
    hide BuildOne;
    if fs == [] {
    } else {
      BuiltSize(mode, ds, m, fs[1..]);
    }
  }
}
