// lib/core/ogs-tlv-msg.c: what a second build of the same struct sends, after the first one has
// swapped its numbers in place.
module TlvRebuild {
  import opened Prelude
  import opened TlvSpec
  import opened TlvMsgSpec
  import opened TlvMsgProof
  import opened TlvBuild

  function Reversed(bs: seq<Byte>): (r: seq<Byte>)
    ensures |r| == |bs|
  {
    if bs == [] then [] else Reversed(bs[1..]) + [bs[0]]
  }

  predicate Palindrome(bs: seq<Byte>) { bs == Reversed(bs) }

  lemma {:induction false} EndiansReverse(n: nat, k: nat)
    ensures BigEndian(n, k) == Reversed(LittleEndian(n, k))
    decreases k
  {
    if k == 0 {
    } else {
      EndiansReverse(n / 256, k - 1);
      assert LittleEndian(n, k)[1..] == LittleEndian(n / 256, k - 1);
    }
  }

  // A number that has been swapped is sent with its bytes reversed.
  lemma SentReversed(k: nat, n: nat)
    requires 1 <= k <= 4
    ensures BigEndian(Stored(k, n), k) == Reversed(BigEndian(n, k))
  {
    StoredShows(k, n);
    EndiansReverse(Stored(k, n), k);
  }

  // ---------- The struct after a build ----------

  // The fields stand one behind the other, from lo on.
  ghost predicate Ordered(ds: seq<Desc>, fs: seq<Field>, lo: int)
    requires InTable(ds, fs)
    decreases fs
  {
    fs == [] || (!ds[fs[0].i].More? && lo <= fs[0].a && Ordered(ds, fs[1..], fs[0].a + ds[fs[0].i].Vsize()))
  }

  lemma OrderedLower(ds: seq<Desc>, fs: seq<Field>, lo: int, low: int)
    requires InTable(ds, fs) && Ordered(ds, fs, lo) && low <= lo
    ensures Ordered(ds, fs, low)
  {
  }

  lemma {:induction false} FieldsOrdered(ds: seq<Desc>, i: nat, k: nat, m: Msg, a: int)
    requires Regular(ds) && i <= |ds| && (i < |ds| ==> !ds[i].More?)
    ensures Ordered(ds, Fields(ds, i, k, m, a), a)
    decreases |ds| - i, k
  {
    if i == |ds| {
    } else {
      OffsetsAgree(ds, i);
      if k > 0 && m.Present(a) {
        var rest := Fields(ds, i, k - 1, m, a + ds[i].Vsize());
        FieldsOrdered(ds, i, k - 1, m, a + ds[i].Vsize());
        assert ([Field(i, a)] + rest)[1..] == rest;
      } else {
        var next, b := i + Width(ds, i), a + Room(ds[i].Vsize(), k);
        FieldsOrdered(ds, next, Copies(ds, next), m, b);
        OrderedLower(ds, Fields(ds, next, Copies(ds, next), m, b), b, a);
      }
    }
  }

  // x and y are the same below hi.
  ghost predicate SameBelow(x: Msg, y: Msg, hi: int) {
    x.presence == y.presence && forall b :: b < hi ==> (b in x.values <==> b in y.values) && (b in x.values ==> x.values[b] == y.values[b])
  }

  lemma {:induction false} ClobberOneBelow(d: Desc, m: Msg, a: int, into: Msg)
    requires WellFormedOne(d) && !d.More?
    ensures SameBelow(ClobberOne(d, m, a, into), into, a)
    decreases d, 0
  {
    if d.Compound? {
      FieldsOrdered(d.kids, 0, Copies(d.kids, 0), m, a + PRESENCE);
      ClobberBelow(d.kids, m, Members(d, m, a), into, a + PRESENCE);
    }
  }

  lemma {:induction false} ClobberBelow(ds: seq<Desc>, m: Msg, fs: seq<Field>, into: Msg, lo: int)
    requires forall i :: 0 <= i < |ds| ==> WellFormedOne(ds[i])
    requires InTable(ds, fs) && Ordered(ds, fs, lo)
    ensures SameBelow(Clobber(ds, m, fs, into), into, lo)
    decreases ds, 1, fs
  {
    if fs == [] {
    } else {
      var to, hi := ClobberOne(ds[fs[0].i], m, fs[0].a, into), fs[0].a + ds[fs[0].i].Vsize();
      ClobberOneBelow(ds[fs[0].i], m, fs[0].a, into);
      ClobberBelow(ds, m, fs[1..], to, hi);
    }
  }

  // The field at a has been built, and y is the struct since.
  ghost predicate BuiltOne(d: Desc, m: Msg, y: Msg, a: int)
    decreases d, 0
  {
    match d
    case Leaf(Num(k), _, _, _, _) => y.Int(a) == if k == 1 then m.Int(a) else Stored(k, m.Int(a))
    case Leaf(_, _, _, _, _) => y.Data(a) == m.Data(a)
    case More(_) => true
    case Compound(_, _, _, kids) => Members(d, y, a) == Members(d, m, a) && BuiltAll(kids, m, y, Members(d, m, a))
  }

  ghost predicate BuiltAll(ds: seq<Desc>, m: Msg, y: Msg, fs: seq<Field>)
    requires InTable(ds, fs)
    decreases ds, 1, fs
  {
    fs == [] || (BuiltOne(ds[fs[0].i], m, y, fs[0].a) && BuiltAll(ds, m, y, fs[1..]))
  }

  // What comes behind a field does not matter to it.
  lemma {:induction false} BuiltOneFrame(d: Desc, m: Msg, x: Msg, y: Msg, a: int, hi: int)
    requires WellFormedOne(d) && !d.More? && BuiltOne(d, m, x, a) && a + d.Vsize() <= hi && SameBelow(y, x, hi)
    ensures BuiltOne(d, m, y, a)
    decreases d, 0
  {
    if d.Compound? {
      FieldsRoom(d.kids, 0, Copies(d.kids, 0), m, a + PRESENCE);
      FieldsSame(d.kids, 0, Copies(d.kids, 0), x, y, a + PRESENCE);
      BuiltFrame(d.kids, m, x, y, Members(d, m, a), a, hi);
    }
  }

  lemma {:induction false} BuiltFrame(ds: seq<Desc>, m: Msg, x: Msg, y: Msg, fs: seq<Field>, lo: int, hi: int)
    requires forall i :: 0 <= i < |ds| ==> WellFormedOne(ds[i])
    requires InTable(ds, fs) && Between(ds, fs, lo, hi) && BuiltAll(ds, m, x, fs) && SameBelow(y, x, hi)
    ensures BuiltAll(ds, m, y, fs)
    decreases ds, 1, fs
  {
    if fs == [] {
    } else {
      BuiltOneFrame(ds[fs[0].i], m, x, y, fs[0].a, hi);
      BuiltFrame(ds, m, x, y, fs[1..], lo, hi);
    }
  }

  // Which fields are built depends on the presence words only.
  lemma {:induction false} FieldsSame(ds: seq<Desc>, i: nat, k: nat, x: Msg, y: Msg, a: int)
    requires x.presence == y.presence
    ensures Fields(ds, i, k, x, a) == Fields(ds, i, k, y, a)
    decreases |ds| - i, k
  {
    if i >= |ds| {
    } else if k > 0 && x.Present(a) {
      FieldsSame(ds, i, k - 1, x, y, a + ds[i].Vsize());
    } else {
      FieldsSame(ds, i + Width(ds, i), Copies(ds, i + Width(ds, i)), x, y, a + Room(ds[i].Vsize(), k));
    }
  }

  lemma {:induction false} ClobberedOne(d: Desc, m: Msg, a: int, into: Msg)
    requires WellFormedOne(d) && !d.More? && Untouched(into, m, a)
    ensures BuiltOne(d, m, ClobberOne(d, m, a, into), a)
    decreases d, 0
  {
    if d.Compound? {
      var y := ClobberOne(d, m, a, into);
      ClobberOneBelow(d, m, a, into);
      FieldsSame(d.kids, 0, Copies(d.kids, 0), m, y, a + PRESENCE);
      FieldsOrdered(d.kids, 0, Copies(d.kids, 0), m, a + PRESENCE);
      Clobbered(d.kids, m, Members(d, m, a), into, a + PRESENCE);
    }
  }

  lemma {:induction false} Clobbered(ds: seq<Desc>, m: Msg, fs: seq<Field>, into: Msg, lo: int)
    requires forall i :: 0 <= i < |ds| ==> WellFormedOne(ds[i])
    requires InTable(ds, fs) && Ordered(ds, fs, lo) && Untouched(into, m, lo)
    ensures BuiltAll(ds, m, Clobber(ds, m, fs, into), fs)
    decreases ds, 1, fs
  {
    if fs == [] {
    } else {
      var d, a := ds[fs[0].i], fs[0].a;
      var to, hi := ClobberOne(d, m, a, into), a + d.Vsize();
      ClobberedOne(d, m, a, into);
      ClobberOneAbove(d, m, a, into, hi);
      Clobbered(ds, m, fs[1..], to, hi);
      ClobberBelow(ds, m, fs[1..], to, hi);
      BuiltOneFrame(d, m, to, Clobber(ds, m, fs[1..], to), a, hi);
    }
  }

  // ---------- The second build ----------

  // Every number reached has bytes that read the same backwards.
  ghost predicate MirroredOne(d: Desc, m: Msg, a: int)
    decreases d, 0
  {
    match d
    case Leaf(Num(k), _, _, _, _) => Palindrome(BigEndian(m.Int(a), k))
    case Compound(_, _, _, kids) => Mirrored(kids, m, Members(d, m, a))
    case _ => true
  }

  ghost predicate Mirrored(ds: seq<Desc>, m: Msg, fs: seq<Field>)
    requires InTable(ds, fs)
    decreases ds, 1
  {
    forall q :: 0 <= q < |fs| ==> MirroredOne(ds[fs[q].i], m, fs[q].a)
  }

  // a and b are as long as each other, and the same if and only if same.
  predicate Alike(a: seq<Byte>, b: seq<Byte>, same: bool) { |a| == |b| && (a == b <==> same) }

  lemma AlikeConcat(a: seq<Byte>, b: seq<Byte>, same: bool, c: seq<Byte>, d: seq<Byte>, same2: bool)
    requires Alike(a, b, same) && Alike(c, d, same2)
    ensures Alike(a + c, b + d, same && same2)
  {
    if a + c == b + d {
      assert (a + c)[..|a|] == a && (b + d)[..|b|] == b && (a + c)[|a|..] == c && (b + d)[|b|..] == d;
    }
  }

  lemma LeafRebuilt(d: Desc, m: Msg, y: Msg, a: int)
    requires d.Leaf? && ReadableOne(d, m, a) && BuiltOne(d, m, y, a) && LeafBytes(d, m, a).Some?
    ensures LeafBytes(d, y, a).Some? && Alike(LeafBytes(d, y, a).value, LeafBytes(d, m, a).value, MirroredOne(d, m, a))
  {
    match d.kind
    case Num(k) =>
      SentReversed(k, m.Int(a));
      if k == 1 {
        assert BigEndian(m.Int(a), 1) == BigEndian(m.Int(a) / 256, 0) + [m.Int(a) % 256];
      }
    case FixedStr =>
    case VarStr =>
    case Null =>
  }

  lemma {:induction false} RebuiltOne(mode: Mode, d: Desc, m: Msg, y: Msg, a: int)
    requires ReadableOne(d, m, a) && BuiltOne(d, m, y, a) && BuildOne(mode, d, m, a).Some?
    ensures BuildOne(mode, d, y, a).Some?
    ensures Alike(EncodeOne(BuildOne(mode, d, y, a).value), EncodeOne(BuildOne(mode, d, m, a).value), MirroredOne(d, m, a))
    decreases d, 0
  {
    var t := BuildOne(mode, d, m, a).value;
    if d.Leaf? {
      LeafRebuilt(d, m, y, a);
    } else {
      Rebuilt(mode, d.kids, m, y, Members(d, m, a));
    }
    var u := BuildOne(mode, d, y, a).value;
    assert Alike(Body(u), Body(t), MirroredOne(d, m, a));
    AlikeConcat(Header(mode, t.type_, |Body(t)|, t.instance), Header(mode, t.type_, |Body(t)|, t.instance), true,
                Body(u), Body(t), MirroredOne(d, m, a));
  }

  lemma {:induction false} Rebuilt(mode: Mode, ds: seq<Desc>, m: Msg, y: Msg, fs: seq<Field>)
    requires InTable(ds, fs) && Readable(ds, m, fs) && BuiltAll(ds, m, y, fs) && Build(mode, ds, m, fs).Some?
    ensures Build(mode, ds, y, fs).Some? && |Build(mode, ds, y, fs).value| == |Build(mode, ds, m, fs).value|
    ensures Alike(Encode(Build(mode, ds, y, fs).value), Encode(Build(mode, ds, m, fs).value), Mirrored(ds, m, fs))
    decreases ds, 1, fs
  {
    if fs == [] {
    } else {
      var d, a := ds[fs[0].i], fs[0].a;
      RebuiltOne(mode, d, m, y, a);
      Rebuilt(mode, ds, m, y, fs[1..]);
      BuildCons(mode, ds, m, fs);
      BuildCons(mode, ds, y, fs);
      MirroredCons(ds, m, fs);
      hide Encode, EncodeOne, Mirrored, MirroredOne, BuildOne, Build, Alike;
      AlikeConcat(EncodeOne(BuildOne(mode, d, y, a).value), EncodeOne(BuildOne(mode, d, m, a).value), MirroredOne(d, m, a),
                  Encode(Build(mode, ds, y, fs[1..]).value), Encode(Build(mode, ds, m, fs[1..]).value), Mirrored(ds, m, fs[1..]));
    }
  }

  // The bytes of a field and then those of the others.
  lemma BuildCons(mode: Mode, ds: seq<Desc>, m: Msg, fs: seq<Field>)
    requires InTable(ds, fs) && fs != []
    requires BuildOne(mode, ds[fs[0].i], m, fs[0].a).Some? && Build(mode, ds, m, fs[1..]).Some?
    ensures var t, ts := BuildOne(mode, ds[fs[0].i], m, fs[0].a).value, Build(mode, ds, m, fs[1..]).value;
      Build(mode, ds, m, fs) == Some([t] + ts) && Encode([t] + ts) == EncodeOne(t) + Encode(ts)
  {
    EncodeCons(BuildOne(mode, ds[fs[0].i], m, fs[0].a).value, Build(mode, ds, m, fs[1..]).value);
  }

  lemma MirroredCons(ds: seq<Desc>, m: Msg, fs: seq<Field>)
    requires InTable(ds, fs) && fs != []
    ensures Mirrored(ds, m, fs) <==> MirroredOne(ds[fs[0].i], m, fs[0].a) && Mirrored(ds, m, fs[1..])
  {
    assert forall q :: 0 < q < |fs| ==> fs[q] == fs[1..][q - 1];
  }

  // A struct that is built twice sends the same packet again if and only if every number sent has
  // bytes that read the same backwards.
  lemma RebuildsSame(mode: Mode, ds: seq<Desc>, m: Msg)
    requires WellFormed(ds) && BuildMsg(mode, ds, m).Some? && Readable(ds, m, AllFields(ds, m, 0))
    ensures var again := BuildMsg(mode, ds, Clobber(ds, m, AllFields(ds, m, 0), m));
      again.Some? && |again.value| == |BuildMsg(mode, ds, m).value|
      && (again == BuildMsg(mode, ds, m) <==> Mirrored(ds, m, AllFields(ds, m, 0)))
  {
    if ds != [] {
      var fs := AllFields(ds, m, 0);
      var y := Clobber(ds, m, fs, m);
      FieldsOrdered(ds, 0, Copies(ds, 0), m, 0);
      Clobbered(ds, m, fs, m, 0);
      ClobberBelow(ds, m, fs, m, 0);
      FieldsSame(ds, 0, Copies(ds, 0), m, y, 0);
      Rebuilt(mode, ds, m, y, fs);
    }
  }

  // A 16-bit number.
  const SHORT := [Leaf(Num(2), 1, 0, 0, 16)]

  lemma OneInShort()
    ensures BigEndian(1, 2) == [0, 1] && !Palindrome([0, 1])
  {
    assert BigEndian(1, 2) == BigEndian(0, 1) + [1] && BigEndian(0, 1) == BigEndian(0, 0) + [0];
    assert Reversed([0, 1]) == Reversed([1]) + [0] && Reversed([1]) == Reversed([]) + [1];
  }

  lemma ShortFields(m: Msg)
    requires m.Present(0)
    ensures WellFormed(SHORT) && AllFields(SHORT, m, 0) == [Field(0, 0)]
  {
    assert WellFormedOne(SHORT[0]);
    assert Fields(SHORT, 0, 0, m, 16) == [];
  }

  // Of a struct that holds the number 1 there, the second packet is another.
  lemma SecondDiffers(mode: Mode, m: Msg)
    requires m.Present(0) && m.Int(0) == 1
    ensures WellFormed(SHORT) && BuildMsg(mode, SHORT, m).Some?
    ensures BuildMsg(mode, SHORT, Clobber(SHORT, m, AllFields(SHORT, m, 0), m)) != BuildMsg(mode, SHORT, m)
  {
    hide WellFormed, Clobber, Encode, Palindrome, BigEndian, Fields;
    ShortFields(m);
    OneInShort();
    var fs := AllFields(SHORT, m, 0);
    assert !MirroredOne(SHORT[0], m, 0) && ReadableOne(SHORT[0], m, 0);
    assert fs[1..] == [] && BuildOne(mode, SHORT[0], m, 0).Some?;
    BuildCons(mode, SHORT, m, fs);
    RebuildsSame(mode, SHORT, m);
    assert !Mirrored(SHORT, m, fs) by { assert fs[0] == Field(0, 0); }
  }
}
