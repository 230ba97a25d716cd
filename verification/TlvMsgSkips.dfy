// lib/core/ogs-tlv-msg.c: elements of a packet that the parser skips: those that
// no descriptor knows, and those that come again.
module TlvMsgSkips {
  import opened Prelude
  import opened TlvSpec
  import opened TlvMsgSpec
  import opened TlvMsgProof

  // No descriptor of the table has this type and instance.
  ghost predicate Foreign(ds: seq<Desc>, type_: nat, instance: nat) {
    forall i :: 0 <= i < |ds| ==> KeyAt(ds, i) != Key(type_, instance)
  }

  // The elements of a block that some descriptor knows.
  ghost function Known(ds: seq<Desc>, es: seq<Elem>): seq<Elem> {
    if es == [] then []
    else if Foreign(ds, es[0].type_, es[0].instance) then Known(ds, es[1..])
    else [es[0]] + Known(ds, es[1..])
  }

  function ElemKey(e: Elem): nat { Key(e.type_, e.instance) }

  ghost function Keys(es: seq<Elem>): set<nat> {
    if es == [] then {} else {ElemKey(es[0])} + Keys(es[1..])
  }

  // The counts of what the table knows are the same.
  ghost predicate Agree(ds: seq<Desc>, a: map<nat, nat>, b: map<nat, nat>) {
    && b.Keys <= a.Keys
    && forall i :: 0 <= i < |ds| ==> (KeyAt(ds, i) in a <==> KeyAt(ds, i) in b) && (KeyAt(ds, i) in a ==> a[KeyAt(ds, i)] == b[KeyAt(ds, i)])
  }

  ghost function CountIn(counts: map<nat, nat>, key: nat): nat { if key in counts then counts[key] else 0 }

  ghost predicate Countable(counts: map<nat, nat>, key: nat) { key in counts || |counts| < MAX_CHILDREN }

  lemma {:induction false} FindsNone(ds: seq<Desc>, type_: nat, instance: nat, nth: nat, i: nat, offset: int)
    requires Foreign(ds, type_, instance) && i <= |ds|
    ensures Find(ds, type_, instance, nth, i, offset).None?
    decreases |ds| - i
  {
    if i == |ds| {
    } else {
      assert KeyAt(ds, i) != Key(type_, instance);
      FindsNone(ds, type_, instance, nth, i + 1, offset + Advance(ds, i));
    }
  }

  // There is room to count the first of them.
  lemma RoomToCount(a: map<nat, nat>, es: seq<Elem>)
    requires es != [] && |a.Keys + Keys(es)| <= MAX_CHILDREN
    ensures Countable(a, ElemKey(es[0])) && |(a.Keys + {ElemKey(es[0])}) + Keys(es[1..])| <= MAX_CHILDREN
  {
    RoomIn(a.Keys, ElemKey(es[0]), Keys(es[1..]));
    assert |a| == |a.Keys|;
  }

  lemma RoomIn(a: set<nat>, key: nat, rest: set<nat>)
    ensures (a + {key}) + rest == a + ({key} + rest)
    ensures key !in a ==> |a| < |a + ({key} + rest)|
  {
    if key !in a {
      SubsetSize(a, a + ({key} + rest) - {key});
    }
  }

  // The first element of a block, and then the rest.
  lemma ParseNext(mode: Mode, mem: seq<Byte>, ds: seq<Desc>, es: seq<Elem>, msg: Msg, p: int, counts: map<nat, nat>)
    requires es != []
    ensures var r := ParseAll(mode, mem, ds, es, msg, p, counts);
      match Locate(ds, es[0], msg, p, counts)
      case Full => r == Failed(msg)
      case NoRoom => r == Aborted
      case Unknown(c) => r == ParseAll(mode, mem, ds, es[1..], msg, p, c)
      case There(i, at, c) =>
        var one := ParseOne(mode, mem, ds[i], es[0], msg, at);
        r == if one.Done? then ParseAll(mode, mem, ds, es[1..], one.msg, p, c) else one
  {
    hide Locate, ParseOne;
  }

  // An element the table does not know is skipped.
  lemma SkipOne(mode: Mode, mem: seq<Byte>, ds: seq<Desc>, es: seq<Elem>, msg: Msg, p: int, a: map<nat, nat>) returns (c: map<nat, nat>)
    requires es != [] && Foreign(ds, es[0].type_, es[0].instance) && Countable(a, ElemKey(es[0]))
    ensures ParseAll(mode, mem, ds, es, msg, p, a) == ParseAll(mode, mem, ds, es[1..], msg, p, c)
    ensures c.Keys == a.Keys + {ElemKey(es[0])} && forall k :: k in a ==> c[k] == a[k]
  {
    hide ParseAll, Locate, ParseOne, Foreign, Key;
    c := LocatesNone(ds, es[0], msg, p, a);
    ParseNext(mode, mem, ds, es, msg, p, a);
  }

  lemma LocatesNone(ds: seq<Desc>, e: Elem, msg: Msg, p: int, a: map<nat, nat>) returns (c: map<nat, nat>)
    requires Foreign(ds, e.type_, e.instance) && Countable(a, ElemKey(e))
    ensures Locate(ds, e, msg, p, a) == Unknown(c) && c == a[ElemKey(e) := CountIn(a, ElemKey(e))]
  {
    FindsNone(ds, e.type_, e.instance, CountIn(a, ElemKey(e)), 0, 0);
    hide Find, Foreign, Spot, Key;
    c := a[ElemKey(e) := CountIn(a, ElemKey(e))];
  }

  // What Locate finds out, with the count n of the element's key, and the count after that.
  ghost predicate Goes(x: Place, y: Place, a: map<nat, nat>, b: map<nat, nat>, key: nat, v: nat) {
    match x
    case Full => false
    case Unknown(c) => y == Unknown(b[key := v]) && c == a[key := v]
    case NoRoom => y == NoRoom
    case There(i, at, c) => y == There(i, at, b[key := v]) && c == a[key := v]
  }

  lemma CountsSame(ds: seq<Desc>, e: Elem, a: map<nat, nat>, b: map<nat, nat>)
    requires !Foreign(ds, e.type_, e.instance) && Agree(ds, a, b) && Countable(a, ElemKey(e))
    ensures CountIn(a, ElemKey(e)) == CountIn(b, ElemKey(e)) && Countable(b, ElemKey(e))
  {
    var i :| 0 <= i < |ds| && KeyAt(ds, i) == ElemKey(e);
    SubsetSize(b.Keys, a.Keys);
    assert |a| == |a.Keys| && |b| == |b.Keys|;
  }

  // With the same count an element goes to the same place.
  lemma LocatesSame(ds: seq<Desc>, e: Elem, msg: Msg, p: int, a: map<nat, nat>, b: map<nat, nat>) returns (v: nat)
    requires CountIn(a, ElemKey(e)) == CountIn(b, ElemKey(e)) && Countable(a, ElemKey(e)) && Countable(b, ElemKey(e))
    ensures Goes(Locate(ds, e, msg, p, a), Locate(ds, e, msg, p, b), a, b, ElemKey(e), v)
  {
    hide Find, Spot, Key, Repeated;
    var n, x := CountIn(a, ElemKey(e)), Locate(ds, e, msg, p, a);
    v := if x.There? && !Repeated(ds, x.i) then n + 1 else n;
  }

  lemma AgreePut(ds: seq<Desc>, a: map<nat, nat>, b: map<nat, nat>, key: nat, v: nat)
    requires Agree(ds, a, b)
    ensures Agree(ds, a[key := v], b[key := v])
  {
  }

  // Elements the table does not know, as many as the parser can count, change nothing.
  lemma {:induction false} SkipsUnknown(mode: Mode, mem: seq<Byte>, ds: seq<Desc>, es: seq<Elem>, msg: Msg, p: int,
                                        a: map<nat, nat>, b: map<nat, nat>)
    requires Agree(ds, a, b) && |a.Keys + Keys(es)| <= MAX_CHILDREN
    ensures ParseAll(mode, mem, ds, es, msg, p, a) == ParseAll(mode, mem, ds, Known(ds, es), msg, p, b)
    decreases es
  {
    if es == [] {
    } else {
      var e := es[0];
      RoomToCount(a, es);
      if Foreign(ds, e.type_, e.instance) {
        var c := SkipOne(mode, mem, ds, es, msg, p, a);
        AgreeForeign(ds, a, b, c, e);
        SkipsUnknown(mode, mem, ds, es[1..], msg, p, c, b);
      } else {
        SkipsAhead(mode, mem, ds, es, msg, p, a, b);
      }
    }
  }

  lemma AgreeForeign(ds: seq<Desc>, a: map<nat, nat>, b: map<nat, nat>, c: map<nat, nat>, e: Elem)
    requires Agree(ds, a, b) && Foreign(ds, e.type_, e.instance)
    requires c.Keys == a.Keys + {ElemKey(e)} && forall k :: k in a ==> c[k] == a[k]
    ensures Agree(ds, c, b)
  {
  }

  lemma {:induction false} SkipsAhead(mode: Mode, mem: seq<Byte>, ds: seq<Desc>, es: seq<Elem>, msg: Msg, p: int,
                                      a: map<nat, nat>, b: map<nat, nat>)
    requires Agree(ds, a, b) && |a.Keys + Keys(es)| <= MAX_CHILDREN && es != [] && !Foreign(ds, es[0].type_, es[0].instance)
    ensures ParseAll(mode, mem, ds, es, msg, p, a) == ParseAll(mode, mem, ds, Known(ds, es), msg, p, b)
    decreases es, 0
  {
    hide ParseAll, Locate, ParseOne, Agree, Foreign, Known, Keys, Countable, CountIn, Key, Find, Repeated;
    var e, key, known := es[0], ElemKey(es[0]), Known(ds, es);
    KnownCons(ds, es);
    RoomToCount(a, es);
    CountsSame(ds, e, a, b);
    var v := LocatesSame(ds, e, msg, p, a, b);
    AgreePut(ds, a, b, key, v);
    assert a[key := v].Keys == a.Keys + {key};
    ParseNext(mode, mem, ds, es, msg, p, a);
    ParseNext(mode, mem, ds, known, msg, p, b);
    match Locate(ds, e, msg, p, a)
    case Full =>
    case NoRoom =>
    case Unknown(c) =>
      SkipsUnknown(mode, mem, ds, es[1..], msg, p, a[key := v], b[key := v]);
    case There(i, at, c) =>
      var r := ParseOne(mode, mem, ds[i], e, msg, at);
      if r.Done? {
        SkipsUnknown(mode, mem, ds, es[1..], r.msg, p, a[key := v], b[key := v]);
      }
  }

  lemma KnownCons(ds: seq<Desc>, es: seq<Elem>)
    requires es != [] && !Foreign(ds, es[0].type_, es[0].instance)
    ensures Known(ds, es) != [] && Known(ds, es)[0] == es[0] && Known(ds, es)[1..] == Known(ds, es[1..])
  {
  }

  // More types and instances than it can count, and the parse does not succeed.
  lemma {:induction false} TooManyFail(mode: Mode, mem: seq<Byte>, ds: seq<Desc>, es: seq<Elem>, msg: Msg, p: int, counts: map<nat, nat>)
    requires |counts| <= MAX_CHILDREN < |counts.Keys + Keys(es)|
    ensures !ParseAll(mode, mem, ds, es, msg, p, counts).Done?
    decreases es
  {
    hide ParseAll, Locate, ParseOne, Key, Find;
    assert counts.Keys + {} == counts.Keys && |counts| == |counts.Keys|;
    if es == [] {
    } else {
      var key, place := ElemKey(es[0]), Locate(ds, es[0], msg, p, counts);
      ParseNext(mode, mem, ds, es, msg, p, counts);
      if place.Unknown? || place.There? {
        PlaceCounts(ds, es[0], msg, p, counts);
        assert (counts.Keys + {key}) + Keys(es[1..]) == counts.Keys + Keys(es);
        if place.Unknown? {
          TooManyFail(mode, mem, ds, es[1..], msg, p, place.counts);
        } else {
          var r := ParseOne(mode, mem, ds[place.i], es[0], msg, place.at);
          if r.Done? {
            TooManyFail(mode, mem, ds, es[1..], r.msg, p, place.counts);
          }
        }
      }
    }
  }

  lemma PlaceCounts(ds: seq<Desc>, e: Elem, msg: Msg, p: int, counts: map<nat, nat>)
    requires |counts| <= MAX_CHILDREN
    ensures var place := Locate(ds, e, msg, p, counts);
      place.Unknown? || place.There? ==> place.counts.Keys == counts.Keys + {ElemKey(e)} && |place.counts| <= MAX_CHILDREN
  {
    var place, key := Locate(ds, e, msg, p, counts), ElemKey(e);
    hide Find, Spot, Key;
    if place.Unknown? || place.There? {
      assert key in counts || |counts| < MAX_CHILDREN;
      assert place.counts.Keys == counts.Keys + {key};
      hide Locate;
      assert |place.counts| == |place.counts.Keys| && |counts| == |counts.Keys|;
      if key in counts {
        assert place.counts.Keys == counts.Keys;
      }
    }
  }

  // ---------- Elements that come again ----------

  ghost predicate Hit(d: Desc, e: Elem) { d.Type() == e.type_ && d.Instance() == e.instance }

  ghost predicate Alike(a: Elem, b: Elem) { a.type_ == b.type_ && a.instance == b.instance }

  // The table has one field of the element's type and instance, and it is not repeated.
  ghost predicate Single(ds: seq<Desc>, e: Elem) {
    && (exists i :: 0 <= i < |ds| && Hit(ds[i], e))
    && (forall i :: 0 <= i < |ds| && Hit(ds[i], e) ==> !Repeated(ds, i))
    && forall i, j :: 0 <= i < j < |ds| && Hit(ds[i], e) ==> !Hit(ds[j], e)
  }

  // In a well-formed table a type and instance are those of one field at most.
  lemma OneHit(ds: seq<Desc>, i: nat, j: nat, e: Elem)
    requires DistinctDescs(ds) && i < |ds| && j < |ds| && !ds[i].More? && Hit(ds[i], e) && Hit(ds[j], e)
    ensures i == j
  {
    assert KeyAt(ds, i) == ElemKey(e) == KeyAt(ds, j);
  }

  lemma SingleField(ds: seq<Desc>, i: nat, e: Elem)
    requires DistinctDescs(ds) && i < |ds| && !ds[i].More? && !Repeated(ds, i) && Hit(ds[i], e)
    ensures Single(ds, e)
  {
    hide DistinctDescs, Hit;
    forall j | 0 <= j < |ds| && Hit(ds[j], e)
      ensures j == i
    {
      OneHit(ds, i, j, e);
    }
  }

  lemma {:induction false} FindsNoOther(ds: seq<Desc>, e: Elem, nth: nat, i: nat, offset: int)
    requires i <= |ds| && forall l :: i <= l < |ds| ==> !Hit(ds[l], e)
    ensures Find(ds, e.type_, e.instance, nth, i, offset).None?
    decreases |ds| - i
  {
    if i == |ds| {
    } else {
      assert !Hit(ds[i], e);
      FindsNoOther(ds, e, nth, i + 1, offset + Advance(ds, i));
    }
  }

  lemma {:induction false} FindsNoSecond(ds: seq<Desc>, e: Elem, nth: nat, i: nat, offset: int)
    requires Single(ds, e) && nth >= 1 && i <= |ds|
    ensures Find(ds, e.type_, e.instance, nth, i, offset).None?
    decreases |ds| - i
  {
    if i == |ds| {
    } else if Hit(ds[i], e) {
      FindsNoOther(ds, e, nth - 1, i + 1, offset + Advance(ds, i));
    } else {
      FindsNoSecond(ds, e, nth, i + 1, offset + Advance(ds, i));
    }
  }

  lemma {:induction false} FindsTheOne(ds: seq<Desc>, e: Elem, i: nat, offset: int, l: nat)
    requires i <= l < |ds| && Hit(ds[l], e)
    ensures var r := Find(ds, e.type_, e.instance, 0, i, offset); r.Some? && Hit(ds[r.value.0], e)
    decreases |ds| - i
  {
    if Hit(ds[i], e) {
    } else {
      FindsTheOne(ds, e, i + 1, offset + Advance(ds, i), l);
    }
  }

  // Counts never go down, and an element for a field that is not repeated has been counted.
  lemma CountedAfter(ds: seq<Desc>, e: Elem, x: Elem, msg: Msg, p: int, counts: map<nat, nat>)
    requires Single(ds, e)
    ensures var place := Locate(ds, x, msg, p, counts);
      place.Unknown? || place.There? ==>
        && CountIn(place.counts, ElemKey(e)) >= CountIn(counts, ElemKey(e))
        && (Alike(x, e) ==> CountIn(place.counts, ElemKey(e)) >= 1)
  {
    hide Key, Single;
    if Alike(x, e) && CountIn(counts, ElemKey(e)) == 0 {
      FindsFirstOf(ds, e);
    }
    hide Find, Spot, Repeated, Hit;
  }

  lemma FindsFirstOf(ds: seq<Desc>, e: Elem)
    requires Single(ds, e)
    ensures var r := Find(ds, e.type_, e.instance, 0, 0, 0); r.Some? && !Repeated(ds, r.value.0)
  {
    var l :| 0 <= l < |ds| && Hit(ds[l], e);
    FindsTheOne(ds, e, 0, 0, l);
  }

  lemma SkipAgain(mode: Mode, mem: seq<Byte>, ds: seq<Desc>, es: seq<Elem>, msg: Msg, p: int, counts: map<nat, nat>)
    requires es != [] && Single(ds, es[0]) && CountIn(counts, ElemKey(es[0])) >= 1
    ensures ParseAll(mode, mem, ds, es, msg, p, counts) == ParseAll(mode, mem, ds, es[1..], msg, p, counts)
  {
    hide ParseAll, ParseOne, Find, Single, Key;
    var e, c := es[0], CountIn(counts, ElemKey(es[0]));
    FindsNoSecond(ds, e, c, 0, 0);
    assert counts[ElemKey(e) := c] == counts;
    assert Locate(ds, e, msg, p, counts) == Unknown(counts);
    ParseNext(mode, mem, ds, es, msg, p, counts);
  }

  // Of the elements for a field that is not repeated the first one is taken: a later one changes
  // nothing.
  lemma {:induction false} FirstWins(mode: Mode, mem: seq<Byte>, ds: seq<Desc>, es: seq<Elem>, k: nat, msg: Msg, p: int, counts: map<nat, nat>)
    requires k < |es| && Single(ds, es[k])
    requires CountIn(counts, ElemKey(es[k])) >= 1 || exists j :: 0 <= j < k && Alike(es[j], es[k])
    ensures ParseAll(mode, mem, ds, es, msg, p, counts) == ParseAll(mode, mem, ds, es[..k] + es[k + 1..], msg, p, counts)
    decreases k
  {
    hide ParseAll, ParseOne, Locate, Find, Single, CountIn, Key;
    var less := es[..k] + es[k + 1..];
    if k == 0 {
      assert less == es[1..];
      SkipAgain(mode, mem, ds, es, msg, p, counts);
    } else {
      assert less[0] == es[0] && less[1..] == es[1..][..k - 1] + es[1..][k..];
      ParseNext(mode, mem, ds, es, msg, p, counts);
      ParseNext(mode, mem, ds, less, msg, p, counts);
      CountedAfter(ds, es[k], es[0], msg, p, counts);
      match Locate(ds, es[0], msg, p, counts)
      case Full =>
      case NoRoom =>
      case Unknown(c) =>
        StillBefore(es, k, counts, c);
        FirstWins(mode, mem, ds, es[1..], k - 1, msg, p, c);
      case There(i, at, c) =>
        StillBefore(es, k, counts, c);
        var r := ParseOne(mode, mem, ds[i], es[0], msg, at);
        if r.Done? {
          FirstWins(mode, mem, ds, es[1..], k - 1, r.msg, p, c);
        }
    }
  }

  lemma StillBefore(es: seq<Elem>, k: nat, counts: map<nat, nat>, c: map<nat, nat>)
    requires 0 < k < |es|
    requires CountIn(counts, ElemKey(es[k])) >= 1 || exists j :: 0 <= j < k && Alike(es[j], es[k])
    requires CountIn(c, ElemKey(es[k])) >= CountIn(counts, ElemKey(es[k]))
    requires Alike(es[0], es[k]) ==> CountIn(c, ElemKey(es[k])) >= 1
    ensures CountIn(c, ElemKey(es[1..][k - 1])) >= 1 || exists j :: 0 <= j < k - 1 && Alike(es[1..][j], es[1..][k - 1])
  {
    hide CountIn, Key;
    if CountIn(c, ElemKey(es[k])) < 1 {
      var j :| 0 <= j < k && Alike(es[j], es[k]);
      assert Alike(es[1..][j - 1], es[1..][k - 1]);
    }
  }

  // ---------- Messages of a newer peer ----------

  // A forest without the nodes its tables do not know, at any depth.
  ghost function Stripped(ds: seq<Desc>, us: seq<Tree>): seq<Tree>
    decreases us
  {
    if us == [] then []
    else if Foreign(ds, us[0].type_, us[0].instance) then Stripped(ds, us[1..])
    else [StrippedOne(ds, us[0])] + Stripped(ds, us[1..])
  }

  ghost function StrippedOne(ds: seq<Desc>, u: Tree): Tree
    decreases u
  {
    match Find(ds, u.type_, u.instance, 0, 0, 0)
    case None => u
    case Some((i, _)) => Inner(ds[i], u)
  }

  ghost function Inner(d: Desc, u: Tree): Tree
    decreases u, 0
  {
    if d.Compound? then u.(kids := Stripped(d.kids, u.kids)) else u
  }

  ghost function TreeKeys(us: seq<Tree>): set<nat> {
    if us == [] then {} else {Key(us[0].type_, us[0].instance)} + TreeKeys(us[1..])
  }

  // No block has more types and instances than the parser can count.
  ghost predicate Countables(us: seq<Tree>)
    decreases us
  {
    |TreeKeys(us)| <= MAX_CHILDREN && forall i :: 0 <= i < |us| ==> Countables(us[i].kids)
  }

  lemma {:induction false} ShownKeys(mem: seq<Byte>, es: seq<Elem>, us: seq<Tree>)
    requires ShowsAll(mem, es, us)
    ensures Keys(es) == TreeKeys(us)
    decreases us
  {
    if us == [] {
    } else {
      assert Shows(mem, es[0], us[0]);
      ShownTail(mem, es, us);
      ShownKeys(mem, es[1..], us[1..]);
    }
  }

  lemma ShownTail(mem: seq<Byte>, es: seq<Elem>, us: seq<Tree>)
    requires us != [] && ShowsAll(mem, es, us)
    ensures ShowsAll(mem, es[1..], us[1..])
  {
    forall i | 0 <= i < |us| - 1
      ensures Shows(mem, es[1..][i], us[1..][i])
    {
      assert Shows(mem, es[i + 1], us[i + 1]);
    }
  }

  // A field with unknown elements below it lands where it was built from.
  lemma {:induction false} OneLandsAmong(mode: Mode, mem: seq<Byte>, d: Desc, m: Msg, a: int, e: Elem, u: Tree)
    requires WellFormedOne(d) && ValuedOne(d, m, a) && BuildOne(mode, d, m, a) == Some(Inner(d, u))
    requires FitsOne(mode, u) && Shows(mem, e, u) && Countables(u.kids)
    ensures Lands(mode, mem, d, e, m, a)
    decreases d, 0
  {
    hide Encode, Scan, ParseBlock, Lands, LandsAll, Known, Keys, TreeKeys, Holds, Limit, ShowsAll, Get;
    if d.Leaf? {
      LeafLands(mode, mem, d, m, a, e, u);
    } else {
      ScanEncode(mem, e.value, mode, u.kids);
      var es := Scan(mem, e.value, e.value + e.length, mode);
      AllLandAmong(mode, mem, d.kids, m, Members(d, m, a), es, u.kids);
      ShownKeys(mem, es, u.kids);
      CompoundLandsAmong(mode, mem, d, m, a, e, es);
    }
  }

  lemma CompoundLandsAmong(mode: Mode, mem: seq<Byte>, d: Desc, m: Msg, a: int, e: Elem, es: seq<Elem>)
    requires WellFormedOne(d) && d.Compound? && d.kids != []
    requires e.type_ == d.Type() && e.instance == d.Instance()
    requires ParseBlock(mem, e.value, e.length, mode) == Some(es) && |Keys(es)| <= MAX_CHILDREN
    requires LandsAll(mode, mem, d.kids, Known(d.kids, es), m, Members(d, m, a))
    ensures Lands(mode, mem, d, e, m, a)
  {
    forall into: Msg | Clear(into, a)
      ensures ParseOne(mode, mem, d, e, into, a) == Done(KeepOne(d, m, a, into))
      ensures Grown(into, KeepOne(d, m, a, into), a, d.Vsize())
    {
      TableBack(mode, mem, d.kids, m, a + PRESENCE, Known(d.kids, es), into);
      TableSkips(mode, mem, d.kids, es, into, a + PRESENCE);
      KeepOneRoom(d, m, a, into);
    }
  }

  lemma TableSkips(mode: Mode, mem: seq<Byte>, ds: seq<Desc>, es: seq<Elem>, msg: Msg, p: int)
    requires |Keys(es)| <= MAX_CHILDREN
    ensures ParseAll(mode, mem, ds, es, msg, p, map[]) == ParseAll(mode, mem, ds, Known(ds, es), msg, p, map[])
  {
    var none: map<nat, nat> := map[];
    assert none.Keys + Keys(es) == Keys(es);
    SkipsUnknown(mode, mem, ds, es, msg, p, none, none);
  }

  // So do all the fields of a table.
  lemma {:induction false} AllLandAmong(mode: Mode, mem: seq<Byte>, ds: seq<Desc>, m: Msg, fs: seq<Field>, es: seq<Elem>, us: seq<Tree>)
    requires DistinctDescs(ds) && (forall i :: 0 <= i < |ds| ==> WellFormedOne(ds[i])) && InTable(ds, fs) && Valued(ds, m, fs)
    requires Build(mode, ds, m, fs) == Some(Stripped(ds, us)) && Fits(mode, us) && ShowsAll(mem, es, us)
    requires forall i :: 0 <= i < |us| ==> Countables(us[i].kids)
    ensures LandsAll(mode, mem, ds, Known(ds, es), m, fs)
    decreases ds, 1, us
  {
    if us == [] {
    } else {
      assert Shows(mem, es[0], us[0]) && FitsOne(mode, us[0]) && Countables(us[0].kids);
      ShownTail(mem, es, us);
      RestFits(mode, us);
      if Foreign(ds, us[0].type_, us[0].instance) {
        AllLandAmong(mode, mem, ds, m, fs, es[1..], us[1..]);
      } else {
        FirstBuilt(mode, ds, m, fs, us);
        OneLandsAmong(mode, mem, ds[fs[0].i], m, fs[0].a, es[0], us[0]);
        AllLandAmong(mode, mem, ds, m, fs[1..], es[1..], us[1..]);
        KnownCons(ds, es);
        LandsCons(mode, mem, ds, Known(ds, es), m, fs);
      }
    }
  }

  lemma RestFits(mode: Mode, us: seq<Tree>)
    requires us != [] && Fits(mode, us) && forall i :: 0 <= i < |us| ==> Countables(us[i].kids)
    ensures Fits(mode, us[1..]) && forall i :: 0 <= i < |us[1..]| ==> Countables(us[1..][i].kids)
  {
    forall i | 0 <= i < |us[1..]|
      ensures FitsOne(mode, us[1..][i]) && Countables(us[1..][i].kids)
    {
      assert us[1..][i] == us[i + 1];
    }
  }

  // The first node the table knows was built from the first field.
  lemma {:induction false} FirstBuilt(mode: Mode, ds: seq<Desc>, m: Msg, fs: seq<Field>, us: seq<Tree>)
    requires DistinctDescs(ds) && InTable(ds, fs) && Valued(ds, m, fs) && us != []
    requires Build(mode, ds, m, fs) == Some(Stripped(ds, us)) && !Foreign(ds, us[0].type_, us[0].instance)
    ensures fs != [] && BuildOne(mode, ds[fs[0].i], m, fs[0].a) == Some(Inner(ds[fs[0].i], us[0]))
    ensures Build(mode, ds, m, fs[1..]) == Some(Stripped(ds, us[1..]))
    ensures Valued(ds, m, fs[1..]) && ValuedOne(ds[fs[0].i], m, fs[0].a)
  {
    var t, ts := StrippedOne(ds, us[0]), Stripped(ds, us[1..]);
    assert ([t] + ts)[0] == t && ([t] + ts)[1..] == ts;
    assert fs != [];
    assert BuildOne(mode, ds[fs[0].i], m, fs[0].a) == Some(t);
    SameHead(ds, us[0]);
    FindAt(ds, fs[0].i, 0);
  }

  lemma {:induction false} SameHead(ds: seq<Desc>, u: Tree)
    ensures StrippedOne(ds, u).type_ == u.type_ && StrippedOne(ds, u).instance == u.instance
  {
  }

  // The block that holds the forest, with the fields both know where they were built from.
  lemma ReadsNewer(mode: Mode, mem: seq<Byte>, ds: seq<Desc>, m: Msg, fs: seq<Field>, us: seq<Tree>) returns (es: seq<Elem>)
    requires WellFormed(ds) && InTable(ds, fs) && Valued(ds, m, fs) && us != [] && Fits(mode, us) && Countables(us)
    requires Build(mode, ds, m, fs) == Some(Stripped(ds, us)) && Holds(mem, 0, Encode(us))
    ensures ParseBlock(mem, 0, |Encode(us)|, mode) == Some(es) && |Keys(es)| <= MAX_CHILDREN
    ensures LandsAll(mode, mem, ds, Known(ds, es), m, fs)
  {
    hide Stripped, Build, Encode, Fits, LandsAll, Known, ParseBlock, Scan, Holds, Valued, Keys, TreeKeys, InTable, ShowsAll, Regular;
    ScanEncode(mem, 0, mode, us);
    es := Scan(mem, 0, |Encode(us)|, mode);
    AllLandAmong(mode, mem, ds, m, fs, es, us);
    ShownKeys(mem, es, us);
  }

  // A message of a peer whose descriptors know more: it comes back like the message built from the
  // fields both know, whatever else stands among them at any depth.
  lemma NewerPeer(mode: Mode, mem: seq<Byte>, ds: seq<Desc>, m: Msg, us: seq<Tree>)
    requires WellFormed(ds) && ds != [] && Valued(ds, m, AllFields(ds, m, 0)) && us != [] && Fits(mode, us) && Countables(us)
    requires Build(mode, ds, m, AllFields(ds, m, 0)) == Some(Stripped(ds, us)) && Holds(mem, 0, Encode(us))
    ensures ParseMsg(mode, mem, |Encode(us)|, ds, ZEROED) == Done(Only(m, Reach(ds, m, AllFields(ds, m, 0))))
  {
    hide Stripped, Build, Encode, Fits, LandsAll, Known, ParseBlock, Holds, Valued, Keys, Countables, WellFormed, AllFields, Reach, ParseAll, Only;
    var fs := AllFields(ds, m, 0);
    var es := ReadsNewer(mode, mem, ds, m, fs, us);
    TableBack(mode, mem, ds, m, 0, Known(ds, es), ZEROED);
    TableSkips(mode, mem, ds, es, ZEROED, 0);
    KeepIs(ds, m, fs, ZEROED);
    OnlyIs(m, Reach(ds, m, fs));
  }

  // A compound of type 1 with one number of type 2; its member stands behind its presence word.
  const INNER := [Leaf(Num(1), 2, 1, 0, 16)]
  const OUTER := [Compound(1, 0, 24, INNER)]

  // An element of type 9, and one of type 1 that holds another of type 9 and one of type 2.
  const PACKET: seq<Byte> := [9, 0, 1, 6, 9, 1, 5, 2, 1, 7]

  lemma ReadsPacket()
    ensures ParseBlock(PACKET, 0, 10, T1L1) == Some([Elem(9, 0, 0, 2), Elem(1, 6, 0, 4)])
    ensures ParseBlock(PACKET, 4, 6, T1L1) == Some([Elem(9, 1, 0, 6), Elem(2, 1, 0, 9)])
  {
    OneByte(0);
    OneByte(2);
    OneByte(4);
    OneByte(7);
    hide Get, Scan;
    ReadsTwo(0, 10, Elem(9, 0, 0, 2), Elem(1, 6, 0, 4));
    ReadsTwo(4, 6, Elem(9, 1, 0, 6), Elem(2, 1, 0, 9));
  }

  lemma ReadsTwo(pos: nat, length: nat, a: Elem, b: Elem)
    requires Get(PACKET, pos, T1L1) == a && Get(PACKET, a.End(), T1L1) == b && a.End() < b.End() == pos + length
    ensures ParseBlock(PACKET, pos, length, T1L1) == Some([a, b])
  {
    hide Get, Scan;
    ScanStep(PACKET, a.End(), pos + length, T1L1, b, []);
    ScanStep(PACKET, pos, pos + length, T1L1, a, [b]);
    assert [a] + [b] == [a, b] && [b] + [] == [b];
  }

  lemma OneByte(pos: nat)
    requires pos + 1 < |PACKET|
    ensures Get(PACKET, pos, T1L1) == Elem(PACKET[pos], PACKET[pos + 1], 0, pos + 2)
  {
    assert Number(PACKET, pos, 1) == 256 * Number(PACKET, pos, 0) + ByteAt(PACKET, pos);
    assert Number(PACKET, pos + 1, 1) == 256 * Number(PACKET, pos + 1, 0) + ByteAt(PACKET, pos + 1);
    assert Number(PACKET, pos + 2, 0) == 0;
  }

  // The first element of [a, b] is one the table does not know, the second one it does.
  lemma KnownHere(ds: seq<Desc>, a: Elem, b: Elem)
    requires |ds| == 1 && KeyAt(ds, 0) == ElemKey(b) != ElemKey(a)
    ensures Known(ds, [a, b]) == [b] && |Keys([a, b])| <= MAX_CHILDREN
  {
    assert [a, b][1..] == [b] && [b][1..] == [];
    assert Foreign(ds, a.type_, a.instance) && !Foreign(ds, b.type_, b.instance);
    assert Known(ds, [b]) == [b] + Known(ds, []);
    assert Keys([b]) == {ElemKey(b)} + Keys([]);
    assert Keys([a, b]) == {ElemKey(a)} + Keys([b]);
  }

  lemma OnlyThere(mode: Mode, ds: seq<Desc>, e: Elem, msg: Msg, p: int)
    requires |ds| == 1 && !ds[0].More? && ds[0].Type() == e.type_ && ds[0].Instance() == e.instance
    ensures ParseAll(mode, PACKET, ds, [e], msg, p, map[]) == ParseOne(mode, PACKET, ds[0], e, msg, p)
  {
    hide ParseAll, ParseOne, Key, Find;
    FindsFirst(ds, e);
    assert [e][1..] == [];
    assert Find(ds, e.type_, e.instance, 0, 0, 0) == Some((0, 0));
    ParseNext(mode, PACKET, ds, [e], msg, p, map[]);
    var c := map[Key(e.type_, e.instance) := 1];
    assert Locate(ds, e, msg, p, map[]) == There(0, p, c);
    var r := ParseOne(mode, PACKET, ds[0], e, msg, p);
    if r.Done? {
      ParseNone(mode, ds, r.msg, p, c);
    }
  }

  lemma FindsFirst(ds: seq<Desc>, e: Elem)
    requires ds != [] && ds[0].Type() == e.type_ && ds[0].Instance() == e.instance
    ensures Find(ds, e.type_, e.instance, 0, 0, 0) == Some((0, 0))
  {
  }

  lemma ParseNone(mode: Mode, ds: seq<Desc>, msg: Msg, p: int, counts: map<nat, nat>)
    ensures ParseAll(mode, PACKET, ds, [], msg, p, counts) == Done(msg)
  {
  }

  // The number 7 ends up 8 bytes into the struct, and both fields are present.
  lemma StrangersSkipped()
    ensures ParseMsg(T1L1, PACKET, 10, OUTER, ZEROED) == Done(Msg(map[8 := 1, 0 := 1], map[8 := Int(7)]))
  {
    hide ParseAll, Known, Keys, ParseBlock, Number, Key;
    ReadsPacket();
    var a, b, c, d := Elem(9, 0, 0, 2), Elem(1, 6, 0, 4), Elem(9, 1, 0, 6), Elem(2, 1, 0, 9);
    AtNine();
    KnownHere(INNER, c, d);
    TableSkips(T1L1, PACKET, INNER, [c, d], ZEROED, 8);
    OnlyThere(T1L1, INNER, d, ZEROED, 8);
    KnownHere(OUTER, a, b);
    TableSkips(T1L1, PACKET, OUTER, [a, b], ZEROED, 0);
    OnlyThere(T1L1, OUTER, b, ZEROED, 0);
  }

  lemma AtNine()
    ensures Number(PACKET, 9, 1) == 7 && KeyAt(INNER, 0) == Key(2, 0) != Key(9, 0) && KeyAt(OUTER, 0) == Key(1, 0) != Key(9, 0)
  {
    assert Number(PACKET, 9, 1) == 256 * Number(PACKET, 9, 0) + ByteAt(PACKET, 9);
  }
}
