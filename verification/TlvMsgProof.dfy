// A message struct that is built and then parsed under the same descriptors comes back.
module TlvMsgProof {
  import opened Prelude
  import opened TlvSpec
  import opened TlvMsgSpec

  // ---------- Descriptor tables ----------

  // A More stands behind the field it repeats.
  ghost predicate Regular(ds: seq<Desc>) {
    (ds != [] ==> !ds[0].More?) && forall i :: 0 < i < |ds| ==> RegularAt(ds, i)
  }

  ghost predicate RegularAt(ds: seq<Desc>, i: nat)
    requires 0 < i < |ds|
  {
    ds[i].More? ==> !ds[i - 1].More?
  }

  // Siblings differ in type or instance, and no type is 0.  An instance is a byte.
  ghost predicate DistinctDescs(ds: seq<Desc>) {
    && (forall i :: 0 <= i < |ds| && !ds[i].More? ==> KeyAt(ds, i) >= 256 && ds[i].Instance() < 256)
    && forall i, j :: 0 <= i < j < |ds| && !ds[i].More? && !ds[j].More? ==> KeyAt(ds, i) != KeyAt(ds, j)
  }

  ghost function KeyAt(ds: seq<Desc>, i: nat): nat
    requires i < |ds|
  {
    Key(ds[i].Type(), ds[i].Instance())
  }

  // The room the fields of ds take in a struct, from place i on.
  function Span(ds: seq<Desc>, i: nat): nat
    decreases |ds| - i
  {
    if i >= |ds| then 0 else Room(ds[i].Vsize(), Copies(ds, i)) + Span(ds, i + Width(ds, i))
  }

  // A field has room for its presence word, and a compound for its members behind it.
  ghost predicate WellFormedOne(d: Desc)
    decreases d, 0
  {
    d.More? || (d.vsize >= PRESENCE && (d.Compound? ==> d.vsize >= PRESENCE + Span(d.kids, 0) && WellFormed(d.kids)))
  }

  ghost predicate WellFormed(ds: seq<Desc>)
    decreases ds, 1
  {
    Table(ds) && forall i :: 0 <= i < |ds| ==> WellFormedOne(ds[i])
  }

  ghost predicate Table(ds: seq<Desc>) {
    Regular(ds) && DistinctDescs(ds) && |ds| < MAX_CHILDREN
  }

  // ---------- What a message holds ----------

  // The addresses that building reaches: those of the fields present, each copy of a repeated
  // field up to the first one missing, and the members of compounds.
  ghost function ReachOne(d: Desc, m: Msg, a: int): set<int>
    decreases d, 0
  {
    if d.Compound? then {a} + Reach(d.kids, m, Members(d, m, a)) else {a}
  }

  ghost function Reach(ds: seq<Desc>, m: Msg, fs: seq<Field>): set<int>
    requires InTable(ds, fs)
    decreases ds, 1, fs
  {
    if fs == [] then {}
    else ReachOne(ds[fs[0].i], m, fs[0].a) + Reach(ds, m, fs[1..])
  }

  // The struct, with the fields of fs as they are in m.
  ghost function KeepOne(d: Desc, m: Msg, a: int, into: Msg): Msg
    decreases d, 0
  {
    match d
    case Compound(_, _, _, kids) => Keep(kids, m, Members(d, m, a), into).Mark(a)
    case _ => (if a in m.values then into.Store(a, m.values[a]) else into).Mark(a)
  }

  ghost function Keep(ds: seq<Desc>, m: Msg, fs: seq<Field>, into: Msg): Msg
    requires InTable(ds, fs)
    decreases ds, 1, fs
  {
    if fs == [] then into
    else Keep(ds, m, fs[1..], KeepOne(ds[fs[0].i], m, fs[0].a, into))
  }

  // Each field reached has a value of its descriptor's kind: a number in range, a fixed string
  // as long as the descriptor says.
  ghost predicate ValuedOne(d: Desc, m: Msg, a: int)
    decreases d, 0
  {
    match d
    case Leaf(Num(k), _, _, _, _) => k > 0 && a in m.values && m.values[a].Int? && m.values[a].n < Limit(k)
    case Leaf(FixedStr, _, length, _, _) => a in m.values && m.values[a].Octets? && |m.values[a].data| == length
    case Leaf(VarStr, _, _, _, _) => a in m.values && m.values[a].Octets?
    case Compound(_, _, _, kids) => a !in m.values && Valued(kids, m, Members(d, m, a))
    case _ => a !in m.values
  }

  ghost predicate Valued(ds: seq<Desc>, m: Msg, fs: seq<Field>)
    requires InTable(ds, fs)
    decreases ds, 1
  {
    forall q :: 0 <= q < |fs| ==> ValuedOne(ds[fs[q].i], m, fs[q].a)
  }

  ghost function Override<V>(f: map<int, V>, g: map<int, V>, s: set<int>): map<int, V> {
    map a | a in f.Keys + (s * g.Keys) :: if a in s && a in g then g[a] else f[a]
  }

  lemma OverrideTwice<V>(f: map<int, V>, g: map<int, V>, s: set<int>, t: set<int>)
    ensures Override(Override(f, g, s), g, t) == Override(f, g, s + t)
  {
  }

  ghost function Marked(f: map<int, nat>, s: set<int>): map<int, nat> {
    map a | a in f.Keys + s :: if a in s then 1 else f[a]
  }

  lemma MarkedTwice(f: map<int, nat>, s: set<int>, t: set<int>)
    ensures Marked(Marked(f, s), t) == Marked(f, s + t)
  {
  }

  // into, with the fields of s as they are in m.
  ghost function Add(into: Msg, m: Msg, s: set<int>): Msg {
    Msg(Marked(into.presence, s), Override(into.values, m.values, s))
  }

  lemma AddTwice(into: Msg, m: Msg, s: set<int>, t: set<int>)
    ensures Add(Add(into, m, s), m, t) == Add(into, m, s + t)
  {
    MarkedTwice(into.presence, s, t);
    OverrideTwice(into.values, m.values, s, t);
  }

  // ---------- Where fields are ----------

  // The offset at which the parser looks for the field at place i.
  ghost function Offset(ds: seq<Desc>, i: nat): int
    requires i <= |ds|
  {
    if i == 0 then 0 else Offset(ds, i - 1) + Advance(ds, i - 1)
  }

  // It is the offset at which the builder comes to it.
  lemma OffsetsAgree(ds: seq<Desc>, i: nat)
    requires Regular(ds) && i < |ds| && !ds[i].More?
    ensures i + Width(ds, i) <= |ds| && (i + Width(ds, i) < |ds| ==> !ds[i + Width(ds, i)].More?)
    ensures Offset(ds, i + Width(ds, i)) == Offset(ds, i) + Room(ds[i].Vsize(), Copies(ds, i))
  {
    assert i + Width(ds, i) < |ds| ==> RegularAt(ds, i + Width(ds, i));
    if Repeated(ds, i) {
      assert Offset(ds, i + 2) == Offset(ds, i) + ds[i].Vsize() + Advance(ds, i + 1);
    }
  }

  lemma {:induction false} FindAt(ds: seq<Desc>, i: nat, k: nat)
    requires DistinctDescs(ds) && k <= i < |ds| && !ds[i].More?
    ensures Find(ds, ds[i].Type(), ds[i].Instance(), 0, k, Offset(ds, k)) == Some((i, Offset(ds, i)))
    decreases i - k
  {
    assert KeyAt(ds, i) == Key(ds[i].Type(), ds[i].Instance()) && KeyAt(ds, k) == Key(ds[k].Type(), ds[k].Instance());
    if k == i {
    } else {
      FindAt(ds, i, k + 1);
    }
  }

  // The addresses reached lie inside the room of their descriptors.
  lemma {:induction false} ReachOneRoom(d: Desc, m: Msg, a: int)
    requires WellFormedOne(d) && !d.More?
    ensures forall x :: x in ReachOne(d, m, a) ==> a <= x < a + d.Vsize()
    decreases d, 0
  {
    if d.Compound? {
      FieldsRoom(d.kids, 0, Copies(d.kids, 0), m, a + PRESENCE);
      ReachRoom(d.kids, m, Members(d, m, a), a + PRESENCE, a + PRESENCE + Span(d.kids, 0));
    }
  }

  ghost predicate Between(ds: seq<Desc>, fs: seq<Field>, lo: int, hi: int)
    requires InTable(ds, fs)
  {
    forall q :: 0 <= q < |fs| ==> !ds[fs[q].i].More? && lo <= fs[q].a && fs[q].a + ds[fs[q].i].Vsize() <= hi
  }

  lemma {:induction false} ReachRoom(ds: seq<Desc>, m: Msg, fs: seq<Field>, lo: int, hi: int)
    requires forall i :: 0 <= i < |ds| ==> WellFormedOne(ds[i])
    requires InTable(ds, fs) && Between(ds, fs, lo, hi)
    ensures forall x :: x in Reach(ds, m, fs) ==> lo <= x < hi
    decreases ds, 1, fs
  {
    if fs == [] {
    } else {
      ReachOneRoom(ds[fs[0].i], m, fs[0].a);
      ReachRoom(ds, m, fs[1..], lo, hi);
    }
  }

  lemma {:induction false} FieldsRoom(ds: seq<Desc>, i: nat, k: nat, m: Msg, a: int)
    requires Regular(ds) && i <= |ds| && (i < |ds| ==> !ds[i].More?)
    ensures Between(ds, Fields(ds, i, k, m, a), a, a + if i < |ds| then Room(ds[i].Vsize(), k) + Span(ds, i + Width(ds, i)) else 0)
    decreases |ds| - i, k
  {
    if i < |ds| {
      OffsetsAgree(ds, i);
      if k > 0 && m.Present(a) {
        FieldsRoom(ds, i, k - 1, m, a + ds[i].Vsize());
        BetweenCons(ds, Field(i, a), Fields(ds, i, k - 1, m, a + ds[i].Vsize()), a, a + ds[i].Vsize(),
                    a + Room(ds[i].Vsize(), k) + Span(ds, i + Width(ds, i)));
      } else {
        FieldsRoom(ds, i + Width(ds, i), Copies(ds, i + Width(ds, i)), m, a + Room(ds[i].Vsize(), k));
      }
    }
  }

  lemma BetweenCons(ds: seq<Desc>, f: Field, rest: seq<Field>, lo: int, mid: int, hi: int)
    requires f.i < |ds| && !ds[f.i].More? && lo <= f.a && f.a + ds[f.i].Vsize() <= mid <= hi && lo <= mid
    requires InTable(ds, rest) && Between(ds, rest, mid, hi)
    ensures InTable(ds, [f] + rest) && Between(ds, [f] + rest, lo, hi)
  {
  }

  // ---------- Steps of the parser ----------

  // Every field written so far lies before a.
  ghost predicate Clear(msg: Msg, a: int) {
    forall x :: x in msg.presence ==> x < a
  }

  // One element whose field is found.
  lemma Step(mode: Mode, mem: seq<Byte>, ds: seq<Desc>, es: seq<Elem>, msg: Msg, p: int, counts: map<nat, nat>,
             i: nat, at: int, m: Msg)
    requires i < |ds| && es != []
    requires var key := Key(es[0].type_, es[0].instance);
      (key in counts ==> counts[key] == 0) && (key !in counts ==> |counts| < MAX_CHILDREN)
    requires Find(ds, es[0].type_, es[0].instance, 0, 0, 0) == Some((i, Offset(ds, i)))
    requires Spot(ds, i, msg, p + Offset(ds, i)) == Some(at) && ParseOne(mode, mem, ds[i], es[0], msg, at) == Done(m)
    ensures ParseAll(mode, mem, ds, es, msg, p, counts) == ParseAll(mode, mem, ds, es[1..], m, p,
              counts[Key(es[0].type_, es[0].instance) := if Repeated(ds, i) then 0 else 1])
  {
    hide Find, Spot, ParseOne, Key, Repeated, Offset;
    StepLocates(ds, es[0], msg, p, counts, i, at);
  }

  // The element is located at its field, and counted.
  lemma StepLocates(ds: seq<Desc>, e: Elem, msg: Msg, p: int, counts: map<nat, nat>, i: nat, at: int)
    requires i < |ds|
    requires var key := Key(e.type_, e.instance);
      (key in counts ==> counts[key] == 0) && (key !in counts ==> |counts| < MAX_CHILDREN)
    requires Find(ds, e.type_, e.instance, 0, 0, 0) == Some((i, Offset(ds, i))) && Spot(ds, i, msg, p + Offset(ds, i)) == Some(at)
    ensures Locate(ds, e, msg, p, counts) == There(i, at, counts[Key(e.type_, e.instance) := if Repeated(ds, i) then 0 else 1])
  {
    hide Find, Key, Offset, FirstFree;
  }

  ghost function CopyAt(first: int, vsize: nat, l: nat): int {
    first + Room(vsize, l)
  }

  // The first j copies of the field at place i have been put into the struct, the next is at a.
  ghost predicate Filled(into: Msg, vsize: nat, j: nat, first: int, a: int) {
    a == CopyAt(first, vsize, j) && forall l: nat :: l < j ==> into.Present(CopyAt(first, vsize, l))
  }

  // The next copy is put where the builder took it from.
  lemma {:induction false} FreeAt(msg: Msg, vsize: nat, l: nat, j: nat, n: nat, first: int, a: int)
    requires Filled(msg, vsize, j, first, a) && l <= j < n && !msg.Present(a)
    ensures FirstFree(msg, CopyAt(first, vsize, l), vsize, n - l) == Some(a)
    decreases j - l
  {
    if l == j {
    } else {
      assert msg.Present(CopyAt(first, vsize, l)) && CopyAt(first, vsize, l + 1) == CopyAt(first, vsize, l) + vsize;
      FreeAt(msg, vsize, l + 1, j, n, first, a);
    }
  }

  // A field of the given room has been put into the struct at a.
  ghost predicate Grown(into: Msg, to: Msg, a: int, vsize: nat) {
    to.Present(a) && (forall x :: into.Present(x) ==> to.Present(x)) && Clear(to, a + vsize)
  }

  lemma FilledNext(into: Msg, to: Msg, vsize: nat, j: nat, first: int, a: int)
    requires Filled(into, vsize, j, first, a) && Grown(into, to, a, vsize)
    ensures Filled(to, vsize, j + 1, first, a + vsize)
  {
    assert Room(vsize, j + 1) == vsize + Room(vsize, j);
  }

  // The keys of the fields from place i on have not been counted.
  ghost predicate Uncounted(counts: map<nat, nat>, ds: seq<Desc>, i: nat) {
    |counts| <= i && forall k :: i <= k < |ds| && !ds[k].More? ==> KeyAt(ds, k) !in counts
  }

  // j copies of the field at place i have been counted, and k may come.
  ghost predicate CopiesCounted(counts: map<nat, nat>, ds: seq<Desc>, i: nat, j: nat, k: nat)
    requires i < |ds|
  {
    var key := KeyAt(ds, i);
    && Uncounted(counts, ds, i + 1) && (key !in counts ==> |counts| <= i)
    && (j == 0 ==> key !in counts) && (key in counts && k > 0 ==> counts[key] == 0)
  }

  ghost function Counted(counts: map<nat, nat>, ds: seq<Desc>, i: nat): map<nat, nat>
    requires i < |ds|
  {
    counts[KeyAt(ds, i) := if Repeated(ds, i) then 0 else 1]
  }

  lemma CountsNext(ds: seq<Desc>, i: nat, j: nat, k: nat, counts: map<nat, nat>)
    requires DistinctDescs(ds) && i < |ds| && !ds[i].More? && CopiesCounted(counts, ds, i, j, k) && k > 0
    requires j + k == Copies(ds, i)
    ensures CopiesCounted(Counted(counts, ds, i), ds, i, j + 1, k - 1)
  {
  }

  // ---------- Round trip ----------

  // Whatever was parsed before it, the element puts into the struct at a what m has there.
  ghost predicate Lands(mode: Mode, mem: seq<Byte>, d: Desc, e: Elem, m: Msg, a: int) {
    && e.type_ == d.Type() && e.instance == d.Instance()
    && forall into: Msg :: Clear(into, a) ==>
         && ParseOne(mode, mem, d, e, into, a) == Done(KeepOne(d, m, a, into))
         && Grown(into, KeepOne(d, m, a, into), a, d.Vsize())
  }

  ghost predicate LandsAll(mode: Mode, mem: seq<Byte>, ds: seq<Desc>, es: seq<Elem>, m: Msg, fs: seq<Field>) {
    |es| == |fs| && forall q :: 0 <= q < |fs| ==> fs[q].i < |ds| && Lands(mode, mem, ds[fs[q].i], es[q], m, fs[q].a)
  }

  // The parser's state before the j-th copy of the field at place i, which is at a, when k copies
  // may still come.
  ghost predicate Ready(ds: seq<Desc>, i: nat, j: nat, k: nat, p: int, a: int, into: Msg, counts: map<nat, nat>) {
    && i < |ds| && !ds[i].More? && j + k == Copies(ds, i)
    && Filled(into, ds[i].Vsize(), j, p + Offset(ds, i), a) && Clear(into, a) && CopiesCounted(counts, ds, i, j, k)
  }

  lemma ReadyNext(ds: seq<Desc>, i: nat, j: nat, k: nat, p: int, a: int, into: Msg, counts: map<nat, nat>, to: Msg)
    requires Table(ds) && Ready(ds, i, j, k, p, a, into, counts) && k > 0 && Grown(into, to, a, ds[i].Vsize())
    ensures Ready(ds, i, j + 1, k - 1, p, a + ds[i].Vsize(), to, Counted(counts, ds, i))
  {
    FilledNext(into, to, ds[i].Vsize(), j, p + Offset(ds, i), a);
    CountsNext(ds, i, j, k, counts);
  }

  lemma SpotAt(ds: seq<Desc>, i: nat, j: nat, k: nat, p: int, a: int, into: Msg, counts: map<nat, nat>)
    requires Ready(ds, i, j, k, p, a, into, counts) && k > 0
    ensures Spot(ds, i, into, p + Offset(ds, i)) == Some(a)
  {
    if Repeated(ds, i) {
      FreeAt(into, ds[i].Vsize(), 0, j, ds[i + 1].length, p + Offset(ds, i), a);
    }
  }

  lemma {:induction false} RoomAdds(vsize: nat, j: nat, k: nat)
    ensures Room(vsize, j) + Room(vsize, k) == Room(vsize, j + k)
    decreases j
  {
    if j == 0 {
    } else {
      RoomAdds(vsize, j - 1, k);
    }
  }

  // After the last copy the parser stands before the next field.
  lemma FieldDone(ds: seq<Desc>, i: nat, j: nat, k: nat, p: int, a: int, into: Msg, counts: map<nat, nat>, next: nat, b: int)
    requires Table(ds) && Ready(ds, i, j, k, p, a, into, counts)
    requires next == i + Width(ds, i) < |ds| && b == a + Room(ds[i].Vsize(), k)
    ensures Ready(ds, next, 0, Copies(ds, next), p, b, into, counts)
  {
    OffsetsAgree(ds, i);
    RoomAdds(ds[i].Vsize(), j, k);
  }

  // When an element for the field comes, the parser puts it at the address it was built from.
  ghost predicate Found(ds: seq<Desc>, f: Field, into: Msg, counts: map<nat, nat>, p: int) {
    && f.i < |ds| && !ds[f.i].More? && Clear(into, f.a) && Spot(ds, f.i, into, p + Offset(ds, f.i)) == Some(f.a)
    && (KeyAt(ds, f.i) in counts ==> counts[KeyAt(ds, f.i)] == 0)
    && (KeyAt(ds, f.i) !in counts ==> |counts| < MAX_CHILDREN)
  }

  // So it does for all the fields of fs, one after the other.
  ghost predicate FoundAll(ds: seq<Desc>, m: Msg, fs: seq<Field>, into: Msg, counts: map<nat, nat>, p: int)
    decreases fs
  {
    fs != [] ==>
      && Found(ds, fs[0], into, counts, p)
      && Grown(into, KeepOne(ds[fs[0].i], m, fs[0].a, into), fs[0].a, ds[fs[0].i].Vsize())
      && FoundAll(ds, m, fs[1..], KeepOne(ds[fs[0].i], m, fs[0].a, into), Counted(counts, ds, fs[0].i), p)
  }

  lemma {:induction false} FoundBack(mode: Mode, mem: seq<Byte>, ds: seq<Desc>, m: Msg, p: int, es: seq<Elem>, fs: seq<Field>,
                                     into: Msg, counts: map<nat, nat>)
    requires DistinctDescs(ds) && InTable(ds, fs) && LandsAll(mode, mem, ds, es, m, fs) && FoundAll(ds, m, fs, into, counts, p)
    ensures ParseAll(mode, mem, ds, es, into, p, counts) == Done(Keep(ds, m, fs, into))
    decreases fs
  {
    if fs == [] {
    } else {
      var to := KeepOne(ds[fs[0].i], m, fs[0].a, into);
      assert Lands(mode, mem, ds[fs[0].i], es[0], m, fs[0].a);
      FindAt(ds, fs[0].i, 0);
      Step(mode, mem, ds, es, into, p, counts, fs[0].i, fs[0].a, to);
      LandsTail(mode, mem, ds, es, m, fs);
      FoundBack(mode, mem, ds, m, p, es[1..], fs[1..], to, Counted(counts, ds, fs[0].i));
    }
  }

  lemma LandsTail(mode: Mode, mem: seq<Byte>, ds: seq<Desc>, es: seq<Elem>, m: Msg, fs: seq<Field>)
    requires fs != [] && LandsAll(mode, mem, ds, es, m, fs)
    ensures LandsAll(mode, mem, ds, es[1..], m, fs[1..])
  {
    forall q | 0 <= q < |fs| - 1
      ensures fs[1..][q].i < |ds| && Lands(mode, mem, ds[fs[1..][q].i], es[1..][q], m, fs[1..][q].a)
    {
      assert fs[q + 1].i < |ds| && Lands(mode, mem, ds[fs[q + 1].i], es[q + 1], m, fs[q + 1].a);
    }
  }

  lemma Turn(ds: seq<Desc>, i: nat, j: nat, k: nat, m: Msg, p: int, a: int, into: Msg, counts: map<nat, nat>)
    returns (to: Msg)
    requires WellFormed(ds) && Ready(ds, i, j, k, p, a, into, counts) && k > 0
    ensures to == KeepOne(ds[i], m, a, into) && Grown(into, to, a, ds[i].Vsize()) && Found(ds, Field(i, a), into, counts, p)
    ensures Ready(ds, i, j + 1, k - 1, p, a + ds[i].Vsize(), to, Counted(counts, ds, i))
  {
    to := KeepOne(ds[i], m, a, into);
    KeepOneRoom(ds[i], m, a, into);
    SpotAt(ds, i, j, k, p, a, into, counts);
    ReadyNext(ds, i, j, k, p, a, into, counts, to);
  }

  lemma FoundCons(ds: seq<Desc>, m: Msg, f: Field, rest: seq<Field>, into: Msg, counts: map<nat, nat>, p: int, to: Msg)
    requires Found(ds, f, into, counts, p) && to == KeepOne(ds[f.i], m, f.a, into) && Grown(into, to, f.a, ds[f.i].Vsize())
    requires FoundAll(ds, m, rest, to, Counted(counts, ds, f.i), p)
    ensures FoundAll(ds, m, [f] + rest, into, counts, p)
  {
    assert ([f] + rest)[1..] == rest;
  }

  lemma {:induction false} ReadyFound(ds: seq<Desc>, i: nat, j: nat, k: nat, m: Msg, p: int, a: int, into: Msg, counts: map<nat, nat>)
    requires WellFormed(ds) && Ready(ds, i, j, k, p, a, into, counts)
    ensures FoundAll(ds, m, Fields(ds, i, k, m, a), into, counts, p)
    decreases |ds| - i, k, 1
  {
    if k > 0 && m.Present(a) {
      CopiesFound(ds, i, j, k, m, p, a, into, counts);
    } else {
      NextFound(ds, i, j, k, m, p, a, into, counts);
    }
  }

  lemma {:induction false} NextFound(ds: seq<Desc>, i: nat, j: nat, k: nat, m: Msg, p: int, a: int, into: Msg, counts: map<nat, nat>)
    requires WellFormed(ds) && Ready(ds, i, j, k, p, a, into, counts) && (k == 0 || !m.Present(a))
    ensures FoundAll(ds, m, Fields(ds, i, k, m, a), into, counts, p)
    decreases |ds| - i, k, 0
  {
    hide Msg.Present, Desc.Vsize, WellFormedOne, CopiesCounted, CopyAt, KeyAt, Spot;
    var next, b := i + Width(ds, i), a + Room(ds[i].Vsize(), k);
    if next < |ds| {
      FieldDone(ds, i, j, k, p, a, into, counts, next, b);
      ReadyFound(ds, next, 0, Copies(ds, next), m, p, b, into, counts);
    }
  }

  lemma {:induction false} CopiesFound(ds: seq<Desc>, i: nat, j: nat, k: nat, m: Msg, p: int, a: int, into: Msg, counts: map<nat, nat>)
    requires WellFormed(ds) && Ready(ds, i, j, k, p, a, into, counts) && k > 0 && m.Present(a)
    ensures FoundAll(ds, m, Fields(ds, i, k, m, a), into, counts, p)
    decreases |ds| - i, k, 0
  {
    var to := Turn(ds, i, j, k, m, p, a, into, counts);
    ReadyFound(ds, i, j + 1, k - 1, m, p, a + ds[i].Vsize(), to, Counted(counts, ds, i));
    FoundCons(ds, m, Field(i, a), Fields(ds, i, k - 1, m, a + ds[i].Vsize()), into, counts, p, to);
  }

  lemma AddNothing(into: Msg, m: Msg)
    ensures Add(into, m, {}) == into
  {
    assert Marked(into.presence, {}) == into.presence && Override(into.values, m.values, {}) == into.values;
  }

  lemma SliceHeld(mem: seq<Byte>, at: nat, bs: seq<Byte>)
    requires Holds(mem, at, bs)
    ensures Slice(mem, at, |bs|) == bs
  {
    var sl := Slice(mem, at, |bs|);
    forall i | 0 <= i < |bs|
      ensures sl[i] == bs[i]
    {
      assert sl[i] == ByteAt(mem, at + i);
    }
  }

  lemma LeafBack(mode: Mode, mem: seq<Byte>, d: Desc, m: Msg, a: int, e: Elem, into: Msg)
    requires d.Leaf? && ValuedOne(d, m, a) && LeafBytes(d, m, a).Some?
    requires e.length == |LeafBytes(d, m, a).value| && Holds(mem, e.value, LeafBytes(d, m, a).value)
    ensures ParseLeaf(mem, d, e, into, a) == Some(if d.kind.Null? then into else into.Store(a, m.values[a]))
  {
    var bs := LeafBytes(d, m, a).value;
    if d.kind.Num? {
      NumberBack(mem, e.value, m.values[a].n, d.kind.size);
    } else {
      SliceHeld(mem, e.value, bs);
      assert !d.kind.Null? ==> m.Data(a)[..|bs|] == m.Data(a);
    }
  }

  lemma MarkAdded(into: Msg, m: Msg, s: set<int>, a: int)
    requires a !in m.values
    ensures Add(into, m, s).Mark(a) == Add(into, m, {a} + s)
  {
    MarkedTwice(into.presence, s, {a});
    assert {a} + s == s + {a};
  }

  // to has what into has, and besides only fields between lo and hi.
  ghost predicate Inside(into: Msg, to: Msg, lo: int, hi: int) {
    && (forall x :: x in to.presence ==> x in into.presence || lo <= x < hi)
    && (forall x :: into.Present(x) ==> to.Present(x))
  }

  lemma {:induction false} KeepOneRoom(d: Desc, m: Msg, a: int, into: Msg)
    requires WellFormedOne(d) && !d.More?
    ensures Inside(into, KeepOne(d, m, a, into), a, a + d.Vsize()) && KeepOne(d, m, a, into).Present(a)
    decreases d, 0
  {
    if d.Compound? {
      FieldsRoom(d.kids, 0, Copies(d.kids, 0), m, a + PRESENCE);
      KeepRoom(d.kids, m, Members(d, m, a), into, a + PRESENCE, a + PRESENCE + Span(d.kids, 0));
    }
  }

  lemma {:induction false} KeepRoom(ds: seq<Desc>, m: Msg, fs: seq<Field>, into: Msg, lo: int, hi: int)
    requires forall i :: 0 <= i < |ds| ==> WellFormedOne(ds[i])
    requires InTable(ds, fs) && Between(ds, fs, lo, hi)
    ensures Inside(into, Keep(ds, m, fs, into), lo, hi)
    decreases ds, 1, fs
  {
    if fs == [] {
    } else {
      KeepOneRoom(ds[fs[0].i], m, fs[0].a, into);
      KeepRoom(ds, m, fs[1..], KeepOne(ds[fs[0].i], m, fs[0].a, into), lo, hi);
    }
  }

  lemma LeafLands(mode: Mode, mem: seq<Byte>, d: Desc, m: Msg, a: int, e: Elem, t: Tree)
    requires WellFormedOne(d) && d.Leaf? && ValuedOne(d, m, a)
    requires BuildOne(mode, d, m, a) == Some(t) && Shows(mem, e, t)
    ensures Lands(mode, mem, d, e, m, a)
  {
    forall into: Msg | Clear(into, a)
      ensures ParseOne(mode, mem, d, e, into, a) == Done(KeepOne(d, m, a, into))
      ensures Grown(into, KeepOne(d, m, a, into), a, d.Vsize())
    {
      LeafBack(mode, mem, d, m, a, e, into);
      KeepOneRoom(d, m, a, into);
    }
  }

  // A table is parsed from its first field on.
  lemma TableBack(mode: Mode, mem: seq<Byte>, ds: seq<Desc>, m: Msg, p: int, es: seq<Elem>, into: Msg)
    requires WellFormed(ds) && ds != [] && Clear(into, p) && LandsAll(mode, mem, ds, es, m, AllFields(ds, m, p))
    ensures ParseAll(mode, mem, ds, es, into, p, map[]) == Done(Keep(ds, m, AllFields(ds, m, p), into))
  {
    ReadyFound(ds, 0, 0, Copies(ds, 0), m, p, p, into, map[]);
    FoundBack(mode, mem, ds, m, p, es, AllFields(ds, m, p), into, map[]);
  }

  lemma {:induction false} OneLands(mode: Mode, mem: seq<Byte>, d: Desc, m: Msg, a: int, e: Elem, t: Tree)
    requires WellFormedOne(d) && ValuedOne(d, m, a)
    requires BuildOne(mode, d, m, a) == Some(t) && FitsOne(mode, t) && Shows(mem, e, t)
    ensures Lands(mode, mem, d, e, m, a)
    decreases d, 0
  {
    if d.Leaf? {
      LeafLands(mode, mem, d, m, a, e, t);
    } else {
      ScanEncode(mem, e.value, mode, t.kids);
      var es := Scan(mem, e.value, e.value + e.length, mode);
      AllLand(mode, mem, d.kids, m, Members(d, m, a), es, t.kids);
      CompoundLands(mode, mem, d, m, a, e, es);
    }
  }

  lemma CompoundLands(mode: Mode, mem: seq<Byte>, d: Desc, m: Msg, a: int, e: Elem, es: seq<Elem>)
    requires WellFormedOne(d) && d.Compound? && d.kids != []
    requires e.type_ == d.Type() && e.instance == d.Instance()
    requires ParseBlock(mem, e.value, e.length, mode) == Some(es)
    requires LandsAll(mode, mem, d.kids, es, m, Members(d, m, a))
    ensures Lands(mode, mem, d, e, m, a)
  {
    forall into: Msg | Clear(into, a)
      ensures ParseOne(mode, mem, d, e, into, a) == Done(KeepOne(d, m, a, into))
      ensures Grown(into, KeepOne(d, m, a, into), a, d.Vsize())
    {
      TableBack(mode, mem, d.kids, m, a + PRESENCE, es, into);
      KeepOneRoom(d, m, a, into);
    }
  }

  lemma {:induction false} AllLand(mode: Mode, mem: seq<Byte>, ds: seq<Desc>, m: Msg, fs: seq<Field>, es: seq<Elem>, ts: seq<Tree>)
    requires (forall i :: 0 <= i < |ds| ==> WellFormedOne(ds[i])) && InTable(ds, fs) && Valued(ds, m, fs)
    requires Build(mode, ds, m, fs) == Some(ts) && Fits(mode, ts) && ShowsAll(mem, es, ts)
    ensures LandsAll(mode, mem, ds, es, m, fs)
    decreases ds, 1, fs
  {
    if fs == [] {
    } else {
      Tails(mode, mem, ds, m, fs, es, ts);
      OneLands(mode, mem, ds[fs[0].i], m, fs[0].a, es[0], ts[0]);
      AllLand(mode, mem, ds, m, fs[1..], es[1..], ts[1..]);
      LandsCons(mode, mem, ds, es, m, fs);
    }
  }

  lemma Tails(mode: Mode, mem: seq<Byte>, ds: seq<Desc>, m: Msg, fs: seq<Field>, es: seq<Elem>, ts: seq<Tree>)
    requires fs != [] && InTable(ds, fs) && Valued(ds, m, fs)
    requires Build(mode, ds, m, fs) == Some(ts) && Fits(mode, ts) && ShowsAll(mem, es, ts)
    ensures ts != [] && BuildOne(mode, ds[fs[0].i], m, fs[0].a) == Some(ts[0])
    ensures Build(mode, ds, m, fs[1..]) == Some(ts[1..])
    ensures Valued(ds, m, fs[1..]) && Fits(mode, ts[1..]) && ShowsAll(mem, es[1..], ts[1..])
    ensures ValuedOne(ds[fs[0].i], m, fs[0].a) && FitsOne(mode, ts[0]) && Shows(mem, es[0], ts[0])
  {
  }

  lemma LandsCons(mode: Mode, mem: seq<Byte>, ds: seq<Desc>, es: seq<Elem>, m: Msg, fs: seq<Field>)
    requires es != [] && fs != [] && fs[0].i < |ds| && Lands(mode, mem, ds[fs[0].i], es[0], m, fs[0].a)
    requires LandsAll(mode, mem, ds, es[1..], m, fs[1..])
    ensures LandsAll(mode, mem, ds, es, m, fs)
  {
    forall q | 0 < q < |fs|
      ensures fs[q].i < |ds| && Lands(mode, mem, ds[fs[q].i], es[q], m, fs[q].a)
    {
      assert fs[1..][q - 1] == fs[q] && es[1..][q - 1] == es[q];
    }
  }

  // What was kept is what m has at the addresses reached.
  lemma {:induction false} KeepOneIs(d: Desc, m: Msg, a: int, into: Msg)
    requires ValuedOne(d, m, a)
    ensures KeepOne(d, m, a, into) == Add(into, m, ReachOne(d, m, a))
    decreases d, 0
  {
    if d.Compound? {
      KeepIs(d.kids, m, Members(d, m, a), into);
      MarkAdded(into, m, Reach(d.kids, m, Members(d, m, a)), a);
    } else {
      OneAdded(m, a, into);
    }
  }

  lemma OneAdded(m: Msg, a: int, into: Msg)
    ensures Add(into, m, {a}) == (if a in m.values then into.Store(a, m.values[a]) else into).Mark(a)
  {
  }

  lemma {:induction false} KeepIs(ds: seq<Desc>, m: Msg, fs: seq<Field>, into: Msg)
    requires InTable(ds, fs) && Valued(ds, m, fs)
    ensures Keep(ds, m, fs, into) == Add(into, m, Reach(ds, m, fs))
    decreases ds, 1, fs
  {
    if fs == [] {
      AddNothing(into, m);
    } else {
      var to := KeepOne(ds[fs[0].i], m, fs[0].a, into);
      KeepOneIs(ds[fs[0].i], m, fs[0].a, into);
      assert forall q :: 0 <= q < |fs| - 1 ==> fs[1..][q] == fs[q + 1];
      KeepIs(ds, m, fs[1..], to);
      AddTwice(into, m, ReachOne(ds[fs[0].i], m, fs[0].a), Reach(ds, m, fs[1..]));
    }
  }

  // The struct that has exactly the fields of s, as they are in m.
  ghost function Only(m: Msg, s: set<int>): Msg {
    Msg(map a | a in s :: 1, map a | a in s && a in m.values :: m.values[a])
  }

  // A message that is built, and parsed into a zeroed struct, comes back: every field reached is
  // present with its value, and nothing else is, whatever lies behind the packet.
  lemma RoundTripMsg(mode: Mode, mem: seq<Byte>, ds: seq<Desc>, m: Msg)
    requires WellFormed(ds) && ds != [] && Valued(ds, m, AllFields(ds, m, 0))
    requires BuildMsg(mode, ds, m).Some? && Fits(mode, Build(mode, ds, m, AllFields(ds, m, 0)).value)
    requires Holds(mem, 0, BuildMsg(mode, ds, m).value)
    ensures ParseMsg(mode, mem, |BuildMsg(mode, ds, m).value|, ds, ZEROED) == Done(Only(m, Reach(ds, m, AllFields(ds, m, 0))))
  {
    var fs := AllFields(ds, m, 0);
    var ts := Build(mode, ds, m, fs).value;
    ScanEncode(mem, 0, mode, ts);
    var es := Scan(mem, 0, |Encode(ts)|, mode);
    AllLand(mode, mem, ds, m, fs, es, ts);
    TableBack(mode, mem, ds, m, 0, es, ZEROED);
    KeepIs(ds, m, fs, ZEROED);
    OnlyIs(m, Reach(ds, m, fs));
  }

  lemma OnlyIs(m: Msg, s: set<int>)
    ensures Add(ZEROED, m, s) == Only(m, s)
  {
    assert Marked(map[], s) == map a | a in s :: 1;
    assert Override(map[], m.values, s) == map a | a in s && a in m.values :: m.values[a];
  }
}
