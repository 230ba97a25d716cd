// lib/core/ogs-tlv-msg.c: which packets the parser accepts.
module TlvMsgAccepts {
  import opened Prelude
  import opened TlvSpec
  import opened TlvMsgSpec
  import opened TlvMsgProof
  import opened TlvMsgLeaf
  import opened TlvMsgSkips

  // Element q is parsed as field i: as another copy of a repeated field, or as the first one.
  ghost predicate For(ds: seq<Desc>, i: nat, es: seq<Elem>, q: nat)
    requires i < |ds| && q < |es|
  {
    && !ds[i].More? && Hit(ds[i], es[q])
    && (Repeated(ds, i) || forall j :: 0 <= j < q ==> !Alike(es[j], es[q]))
  }

  // The length fits the field, or the embedded block ends where it should and is itself accepted.
  ghost predicate AcceptedOne(mode: Mode, mem: seq<Byte>, d: Desc, e: Elem)
    decreases d, 0
  {
    match d
    case Leaf(_, _, _, _, _) => Takes(d, e.length)
    case More(_) => true
    case Compound(_, _, _, kids) =>
      match ParseBlock(mem, e.value, e.length, mode)
      case None => false
      case Some(es) => Accepted(mode, mem, kids, es)
  }

  // A block has at most 128 types and instances, and what is parsed of it is accepted.
  ghost predicate Accepted(mode: Mode, mem: seq<Byte>, ds: seq<Desc>, es: seq<Elem>)
    decreases ds, 1
  {
    && |Keys(es)| <= MAX_CHILDREN
    && forall q: nat, i: nat :: q < |es| && i < |ds| && For(ds, i, es, q) ==> AcceptedOne(mode, mem, ds[i], es[q])
  }

  ghost predicate AcceptedFrom(mode: Mode, mem: seq<Byte>, ds: seq<Desc>, es: seq<Elem>, k: nat) {
    forall q: nat, i: nat :: k <= q < |es| && i < |ds| && For(ds, i, es, q) ==> AcceptedOne(mode, mem, ds[i], es[q])
  }

  // ---------- What has been counted ----------

  // Instances are bytes.
  ghost predicate Named(es: seq<Elem>) { forall q :: 0 <= q < |es| ==> es[q].instance < 256 }

  ghost predicate Seen(d: Desc, es: seq<Elem>, q: nat)
    requires q <= |es|
  {
    exists j :: 0 <= j < q && Hit(d, es[j])
  }

  ghost predicate CountedOne(ds: seq<Desc>, i: nat, es: seq<Elem>, q: nat, counts: map<nat, nat>)
    requires i < |ds| && q <= |es|
  {
    CountIn(counts, KeyAt(ds, i)) == if !Repeated(ds, i) && Seen(ds[i], es, q) then 1 else 0
  }

  ghost predicate Counted(ds: seq<Desc>, es: seq<Elem>, q: nat, counts: map<nat, nat>)
    requires q <= |es|
  {
    && counts.Keys == Keys(es[..q]) && |counts| <= MAX_CHILDREN
    && forall i :: 0 <= i < |ds| && !ds[i].More? ==> CountedOne(ds, i, es, q, counts)
  }

  lemma {:induction false} ScanNamed(mem: seq<Byte>, pos: nat, end: nat, mode: Mode)
    ensures Named(Scan(mem, pos, end, mode))
    decreases end - pos
  {
    hide Number;
    var e := Get(mem, pos, mode);
    if e.End() < end {
      ScanNamed(mem, e.End(), end, mode);
    }
  }

  lemma KeyIsHit(d: Desc, e: Elem)
    requires d.Instance() < 256 && e.instance < 256
    ensures Key(d.Type(), d.Instance()) == ElemKey(e) <==> Hit(d, e)
  {
  }

  lemma {:induction false} KeysSnoc(es: seq<Elem>, q: nat)
    requires q < |es|
    ensures Keys(es[..q + 1]) == Keys(es[..q]) + {ElemKey(es[q])}
    decreases q
  {
    hide Key;
    if q == 0 {
      assert es[..1] == [es[0]] && es[..1][1..] == [] && es[..0] == [];
    } else {
      KeysSnoc(es[1..], q - 1);
      assert es[..q + 1][1..] == es[1..][..q] && es[..q][1..] == es[1..][..q - 1];
    }
  }

  lemma {:induction false} KeysPart(es: seq<Elem>, q: nat)
    requires q <= |es|
    ensures Keys(es[..q]) <= Keys(es)
    decreases |es| - q
  {
    if q == |es| {
      assert es[..q] == es;
    } else {
      KeysSnoc(es, q);
      KeysPart(es, q + 1);
    }
  }

  // Element q is counted: a field that is not repeated has now been seen.
  lemma CountsOn(ds: seq<Desc>, es: seq<Elem>, q: nat, counts: map<nat, nat>, v: nat)
    requires DistinctDescs(ds) && Named(es) && q < |es| && Counted(ds, es, q, counts)
    requires ElemKey(es[q]) in counts || |counts| < MAX_CHILDREN
    requires forall i :: 0 <= i < |ds| && !ds[i].More? && Hit(ds[i], es[q]) ==> v == if Repeated(ds, i) then 0 else 1
    ensures Counted(ds, es, q + 1, counts[ElemKey(es[q]) := v])
  {
    var key := ElemKey(es[q]);
    var c := counts[key := v];
    KeysSnoc(es, q);
    assert c.Keys == counts.Keys + {key};
    forall i | 0 <= i < |ds| && !ds[i].More?
      ensures CountedOne(ds, i, es, q + 1, c)
    {
      assert CountedOne(ds, i, es, q, counts);
      CountsOne(ds, i, es, q, counts, v);
    }
  }

  lemma CountsOne(ds: seq<Desc>, i: nat, es: seq<Elem>, q: nat, counts: map<nat, nat>, v: nat)
    requires q < |es| && i < |ds| && ds[i].Instance() < 256 && es[q].instance < 256 && CountedOne(ds, i, es, q, counts)
    requires Hit(ds[i], es[q]) ==> v == if Repeated(ds, i) then 0 else 1
    ensures CountedOne(ds, i, es, q + 1, counts[ElemKey(es[q]) := v])
  {
    KeyIsHit(ds[i], es[q]);
    hide Key, Hit;
    assert Seen(ds[i], es, q + 1) <==> Seen(ds[i], es, q) || Hit(ds[i], es[q]);
  }

  // Where an element goes that belongs to field i.
  lemma PlacedField(ds: seq<Desc>, i: nat, es: seq<Elem>, q: nat, msg: Msg, p: int, counts: map<nat, nat>)
    requires DistinctDescs(ds) && Named(es) && q < |es| && Counted(ds, es, q, counts)
    requires i < |ds| && !ds[i].More? && Hit(ds[i], es[q])
    ensures match Locate(ds, es[q], msg, p, counts)
      case Full => true
      case NoRoom => true
      case Unknown(c) => !For(ds, i, es, q) && c == counts[ElemKey(es[q]) := 1] && !Repeated(ds, i)
      case There(l, at, c) => l == i && For(ds, i, es, q) && c == counts[ElemKey(es[q]) := if Repeated(ds, i) then 0 else 1]
  {
    var e := es[q];
    assert CountedOne(ds, i, es, q, counts) && KeyAt(ds, i) == ElemKey(e);
    SeenAlike(ds, i, es, q);
    if !Repeated(ds, i) && Seen(ds[i], es, q) {
      SingleField(ds, i, e);
      FindsNoSecond(ds, e, 1, 0, 0);
    } else {
      FindsTheOne(ds, e, 0, 0, i);
      OneHit(ds, i, Find(ds, e.type_, e.instance, 0, 0, 0).value.0, e);
    }
    hide Find, Key, Spot, Seen, DistinctDescs, Counted, Hit, For, Named;
  }

  lemma SeenAlike(ds: seq<Desc>, i: nat, es: seq<Elem>, q: nat)
    requires q < |es| && i < |ds| && !ds[i].More? && Hit(ds[i], es[q])
    ensures For(ds, i, es, q) <==> Repeated(ds, i) || !Seen(ds[i], es, q)
  {
    forall j | 0 <= j < q
      ensures Alike(es[j], es[q]) <==> Hit(ds[i], es[j])
    {
    }
  }

  lemma {:induction false} FindsHit(ds: seq<Desc>, e: Elem, nth: nat, i: nat, offset: int)
    requires i <= |ds|
    ensures var r := Find(ds, e.type_, e.instance, nth, i, offset); r.Some? ==> Hit(ds[r.value.0], e)
    decreases |ds| - i
  {
    if i == |ds| {
    } else {
      FindsHit(ds, e, if Hit(ds[i], e) && nth > 0 then nth - 1 else nth, i + 1, offset + Advance(ds, i));
    }
  }

  ghost predicate Stray(ds: seq<Desc>, e: Elem) {
    forall i :: 0 <= i < |ds| && !ds[i].More? ==> !Hit(ds[i], e)
  }

  // An element that belongs to no field is skipped, or taken for a More.
  lemma PlacedStray(ds: seq<Desc>, e: Elem, msg: Msg, p: int, counts: map<nat, nat>)
    requires Stray(ds, e)
    ensures match Locate(ds, e, msg, p, counts)
      case Full => true
      case NoRoom => true
      case Unknown(c) => c == counts[ElemKey(e) := CountIn(counts, ElemKey(e))]
      case There(l, at, c) => ds[l].More?
  {
    FindsHit(ds, e, CountIn(counts, ElemKey(e)), 0, 0);
    hide Find, Key, Spot, Hit;
  }

  lemma FullStays(ds: seq<Desc>, es: seq<Elem>, q: nat, msg: Msg, p: int, counts: map<nat, nat>)
    requires q < |es| && Counted(ds, es, q, counts)
    ensures var place := Locate(ds, es[q], msg, p, counts);
      if place.Full? then |Keys(es)| > MAX_CHILDREN else ElemKey(es[q]) in counts || |counts| < MAX_CHILDREN
  {
    hide Find, Key, Spot;
    var key := ElemKey(es[q]);
    if key !in counts && |counts| == MAX_CHILDREN {
      KeysSnoc(es, q);
      KeysPart(es, q + 1);
      assert |counts.Keys + {key}| == |counts.Keys| + 1;
      SubsetSize(counts.Keys + {key}, Keys(es));
    }
  }

  // The next element: it is parsed as the one field it is for, or as none.
  lemma Placed(ds: seq<Desc>, es: seq<Elem>, q: nat, msg: Msg, p: int, counts: map<nat, nat>)
    requires DistinctDescs(ds) && Named(es) && q < |es| && Counted(ds, es, q, counts)
    ensures var place := Locate(ds, es[q], msg, p, counts);
      && (place.Full? ==> |Keys(es)| > MAX_CHILDREN)
      && (place.Unknown? ==> Counted(ds, es, q + 1, place.counts) && forall i :: 0 <= i < |ds| ==> !For(ds, i, es, q))
      && (place.There? && !ds[place.i].More? ==>
            && Counted(ds, es, q + 1, place.counts) && For(ds, place.i, es, q)
            && forall i :: 0 <= i < |ds| && For(ds, i, es, q) ==> i == place.i)
  {
    hide Locate, Key, DistinctDescs, Counted, Named, Hit, Repeated, KeyAt, CountIn;
    FullStays(ds, es, q, msg, p, counts);
    var e, place := es[q], Locate(ds, es[q], msg, p, counts);
    if Stray(ds, e) {
      PlacedStray(ds, e, msg, p, counts);
      if place.Unknown? {
        CountsOn(ds, es, q, counts, CountIn(counts, ElemKey(e)));
      }
    } else {
      var i :| 0 <= i < |ds| && !ds[i].More? && Hit(ds[i], e);
      PlacedField(ds, i, es, q, msg, p, counts);
      forall l | 0 <= l < |ds| && Hit(ds[l], e)
        ensures l == i
      {
        OneHit(ds, i, l, e);
      }
      if place.Unknown? || place.There? {
        CountsOn(ds, es, q, counts, if Repeated(ds, i) then 0 else 1);
      }
    }
  }

  // ---------- The exact condition ----------

  lemma {:induction false} OneAccepted(mode: Mode, mem: seq<Byte>, d: Desc, e: Elem, msg: Msg, a: int)
    requires WellFormedOne(d)
    ensures var r := ParseOne(mode, mem, d, e, msg, a); !r.Aborted? ==> (r.Done? <==> AcceptedOne(mode, mem, d, e))
    decreases d, 0
  {
    if d.Leaf? {
      LeafExactly(mode, mem, d, e, msg, a);
    } else if d.Compound? {
      var block := ParseBlock(mem, e.value, e.length, mode);
      if block.Some? {
        ScanNamed(mem, e.value, e.value + e.length, mode);
        AllAccepted(mode, mem, d.kids, block.value, msg, a + PRESENCE);
      }
    }
  }

  lemma {:induction false} AllAccepted(mode: Mode, mem: seq<Byte>, ds: seq<Desc>, es: seq<Elem>, msg: Msg, p: int)
    requires WellFormed(ds) && Named(es)
    ensures var r := ParseAll(mode, mem, ds, es, msg, p, map[]); !r.Aborted? ==> (r.Done? <==> Accepted(mode, mem, ds, es))
    decreases ds, 2
  {
    hide ParseAll, WellFormed, Named;
    NoneCounted(ds, es);
    assert es[0..] == es;
    RestAccepted(mode, mem, ds, es, 0, msg, p, map[]);
    assert Accepted(mode, mem, ds, es) <==> |Keys(es)| <= MAX_CHILDREN && AcceptedFrom(mode, mem, ds, es, 0);
  }

  lemma NoneCounted(ds: seq<Desc>, es: seq<Elem>)
    ensures Counted(ds, es, 0, map[])
  {
    assert Keys(es[..0]) == {};
  }

  lemma {:induction false} RestAccepted(mode: Mode, mem: seq<Byte>, ds: seq<Desc>, es: seq<Elem>, q: nat, msg: Msg, p: int, counts: map<nat, nat>)
    requires WellFormed(ds) && Named(es) && q <= |es| && Counted(ds, es, q, counts)
    ensures var r := ParseAll(mode, mem, ds, es[q..], msg, p, counts);
      !r.Aborted? ==> (r.Done? <==> |Keys(es)| <= MAX_CHILDREN && AcceptedFrom(mode, mem, ds, es, q))
    decreases ds, 1, |es| - q
  {
    hide ParseAll, ParseOne, Locate, Counted, Named, For, AcceptedOne, WellFormedOne;
    if q == |es| {
      LastCounted(mode, mem, ds, es, msg, p, counts);
    } else {
      assert es[q..][1..] == es[q + 1..] && es[q..][0] == es[q];
      ParseNext(mode, mem, ds, es[q..], msg, p, counts);
      Placed(ds, es, q, msg, p, counts);
      match Locate(ds, es[q], msg, p, counts)
      case Full =>
      case NoRoom =>
      case Unknown(c) =>
        RestAccepted(mode, mem, ds, es, q + 1, msg, p, c);
      case There(i, at, c) =>
        var r := ParseOne(mode, mem, ds[i], es[q], msg, at);
        if ds[i].More? {
          MoreAborts(mode, mem, ds[i], es[q], msg, at);
        } else {
          OneAccepted(mode, mem, ds[i], es[q], msg, at);
          if r.Done? {
            RestAccepted(mode, mem, ds, es, q + 1, r.msg, p, c);
          }
        }
    }
  }

  lemma MoreAborts(mode: Mode, mem: seq<Byte>, d: Desc, e: Elem, msg: Msg, a: int)
    requires d.More?
    ensures ParseOne(mode, mem, d, e, msg, a).Aborted?
  {
  }

  lemma LastCounted(mode: Mode, mem: seq<Byte>, ds: seq<Desc>, es: seq<Elem>, msg: Msg, p: int, counts: map<nat, nat>)
    requires Counted(ds, es, |es|, counts)
    ensures ParseAll(mode, mem, ds, es[|es|..], msg, p, counts) == Done(msg) && |Keys(es)| <= MAX_CHILDREN
  {
    hide Locate, ParseOne, CountedOne, Keys;
    assert es[..|es|] == es;
    assert |counts| == |counts.Keys|;
  }

  // A packet that does not stop the program is accepted if and only if it is a block whose
  // elements are accepted.
  lemma ParsesExactly(mode: Mode, mem: seq<Byte>, length: nat, ds: seq<Desc>, msg: Msg)
    requires WellFormed(ds)
    ensures var r := ParseMsg(mode, mem, length, ds, msg);
      !r.Aborted? ==>
        (r.Done? <==> ParseBlock(mem, 0, length, mode).Some? && Accepted(mode, mem, ds, ParseBlock(mem, 0, length, mode).value))
  {
    hide ParseAll, WellFormed, Accepted, Scan, Named;
    var block := ParseBlock(mem, 0, length, mode);
    if block.Some? {
      ScanNamed(mem, 0, length, mode);
      AllAccepted(mode, mem, ds, block.value, msg, 0);
    }
  }
}
