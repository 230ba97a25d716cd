// lib/core/ogs-tlv-msg.c: which packets stop the program that parses them.
module TlvMsgAborts {
  import opened Prelude
  import opened TlvSpec
  import opened TlvMsgSpec
  import opened TlvMsgProof
  import opened TlvBuild

  // ---------- Which tables are in danger ----------

  // No field is a repeated one, at any depth.
  ghost predicate NoMore(ds: seq<Desc>) {
    forall i :: 0 <= i < |ds| ==> !ds[i].More? && (ds[i].Compound? ==> NoMore(ds[i].kids))
  }

  // A header can carry the type and the instance, and a length.
  predicate Carried(mode: Mode, type_: nat, instance: nat) {
    mode != T1 && type_ < Limit(TypeBytes(mode)) && instance < (if mode == T1L2I1 then 16 else 1)
  }

  // A packet can get to a descriptor that marks a repetition: it is in the table, or in that of a
  // compound a packet can get to.
  ghost predicate Reachable(mode: Mode, ds: seq<Desc>) {
    exists i :: 0 <= i < |ds| && ReachableAt(mode, ds[i])
  }

  ghost predicate ReachableAt(mode: Mode, d: Desc) {
    d.More? || (d.Compound? && Carried(mode, d.type_, d.instance) && Reachable(mode, d.kids))
  }

  ghost predicate AllCarried(mode: Mode, ds: seq<Desc>) {
    forall i :: 0 <= i < |ds| ==> ds[i].More? || (Carried(mode, ds[i].Type(), ds[i].Instance()) && (ds[i].Compound? ==> AllCarried(mode, ds[i].kids)))
  }

  // When headers can carry all of a table, those are the tables with a repeated field.
  lemma {:induction false} ReachableIff(mode: Mode, ds: seq<Desc>)
    requires AllCarried(mode, ds)
    ensures Reachable(mode, ds) <==> !NoMore(ds)
    decreases ds
  {
    forall i | 0 <= i < |ds| && ds[i].Compound?
      ensures Reachable(mode, ds[i].kids) <==> !NoMore(ds[i].kids)
    {
      ReachableIff(mode, ds[i].kids);
    }
    if Reachable(mode, ds) {
      var i :| 0 <= i < |ds| && ReachableAt(mode, ds[i]);
    } else {
      assert forall i :: 0 <= i < |ds| ==> !ReachableAt(mode, ds[i]);
    }
  }

  lemma {:induction false} NoMoreUnreachable(mode: Mode, ds: seq<Desc>)
    requires NoMore(ds)
    ensures !Reachable(mode, ds)
    decreases ds
  {
    forall i | 0 <= i < |ds|
      ensures !ReachableAt(mode, ds[i])
    {
      if ds[i].Compound? {
        NoMoreUnreachable(mode, ds[i].kids);
      }
    }
  }

  // ---------- Tables that are not ----------

  // What a header of the mode can say.
  predicate Sayable(mode: Mode, e: Elem) {
    && e.type_ < Limit(TypeBytes(mode)) && e.instance < (if mode == T1L2I1 then 16 else 1)
    && (mode == T1 ==> e.length == 0)
  }

  lemma {:induction false} NumberBelow(mem: seq<Byte>, i: nat, k: nat)
    ensures Number(mem, i, k) < Limit(k)
    decreases k
  {
    if k == 0 {
    } else {
      NumberBelow(mem, i, k - 1);
    }
  }

  lemma {:induction false} ScanSayable(mem: seq<Byte>, pos: nat, end: nat, mode: Mode)
    ensures forall i :: 0 <= i < |Scan(mem, pos, end, mode)| ==> Sayable(mode, Scan(mem, pos, end, mode)[i])
    decreases end - pos
  {
    var e := Get(mem, pos, mode);
    NumberBelow(mem, pos, TypeBytes(mode));
    assert Sayable(mode, e);
    if e.End() < end {
      ScanSayable(mem, e.End(), end, mode);
    }
  }

  // The descriptor found has the type and the instance looked for.
  lemma {:induction false} FindHits(ds: seq<Desc>, type_: nat, instance: nat, nth: nat, i: nat, offset: int)
    requires i <= |ds|
    ensures var r := Find(ds, type_, instance, nth, i, offset);
      r.Some? ==> ds[r.value.0].Type() == type_ && ds[r.value.0].Instance() == instance
    decreases |ds| - i
  {
    if i == |ds| {
    } else {
      var hit := ds[i].Type() == type_ && ds[i].Instance() == instance;
      FindHits(ds, type_, instance, if hit && nth > 0 then nth - 1 else nth, i + 1, offset + Advance(ds, i));
    }
  }

  lemma {:induction false} NeverStops(mode: Mode, mem: seq<Byte>, ds: seq<Desc>, es: seq<Elem>, msg: Msg, p: int, counts: map<nat, nat>)
    requires !Reachable(mode, ds) && forall i :: 0 <= i < |es| ==> Sayable(mode, es[i])
    ensures !ParseAll(mode, mem, ds, es, msg, p, counts).Aborted?
    decreases ds, 1, es
  {
    if es == [] {
    } else {
      assert forall i :: 0 <= i < |ds| ==> !ReachableAt(mode, ds[i]);
      match Locate(ds, es[0], msg, p, counts)
      case Full =>
      case Unknown(c) => NeverStops(mode, mem, ds, es[1..], msg, p, c);
      case NoRoom =>
      case There(i, at, c) =>
        var key := Key(es[0].type_, es[0].instance);
        FindHits(ds, es[0].type_, es[0].instance, if key in counts then counts[key] else 0, 0, 0);
        OneNeverStops(mode, mem, ds[i], es[0], msg, at);
        var r := ParseOne(mode, mem, ds[i], es[0], msg, at);
        if r.Done? {
          NeverStops(mode, mem, ds, es[1..], r.msg, p, c);
        }
    }
  }

  lemma {:induction false} OneNeverStops(mode: Mode, mem: seq<Byte>, d: Desc, e: Elem, msg: Msg, a: int)
    requires !ReachableAt(mode, d) && Sayable(mode, e) && e.type_ == d.Type() && e.instance == d.Instance()
    ensures !ParseOne(mode, mem, d, e, msg, a).Aborted?
    decreases d, 0
  {
    if d.Compound? && ParseBlock(mem, e.value, e.length, mode).Some? {
      ScanSayable(mem, e.value, e.End(), mode);
      NeverStops(mode, mem, d.kids, ParseBlock(mem, e.value, e.length, mode).value, msg, a + PRESENCE, map[]);
    }
  }

  // Without repeated fields no packet stops the program.
  lemma NeverAborts(mode: Mode, mem: seq<Byte>, length: nat, ds: seq<Desc>, msg: Msg)
    requires NoMore(ds)
    ensures !ParseMsg(mode, mem, length, ds, msg).Aborted?
  {
    NoMoreUnreachable(mode, ds);
    PacketNeverStops(mode, mem, length, ds, msg);
  }

  lemma PacketNeverStops(mode: Mode, mem: seq<Byte>, length: nat, ds: seq<Desc>, msg: Msg)
    requires !Reachable(mode, ds)
    ensures !ParseMsg(mode, mem, length, ds, msg).Aborted?
  {
    ScanSayable(mem, 0, length, mode);
    if ParseBlock(mem, 0, length, mode).Some? {
      NeverStops(mode, mem, ds, ParseBlock(mem, 0, length, mode).value, msg, 0, map[]);
    }
  }

  // ---------- Packets that stop the program ----------

  // With a repeated field every packet whose first element has type 0 and instance 0 does: the
  // element is taken for the descriptor that makes the field repeated.
  lemma ZeroAborts(mode: Mode, mem: seq<Byte>, ds: seq<Desc>, es: seq<Elem>, msg: Msg, p: int)
    requires WellFormed(ds) && (exists i :: 0 <= i < |ds| && ds[i].More?)
    requires es != [] && es[0].type_ == 0 && es[0].instance == 0
    ensures ParseAll(mode, mem, ds, es, msg, p, map[]).Aborted?
  {
    FindsMore(ds, 0, 0);
    var (i, offset) := Find(ds, 0, 0, 0, 0, 0).value;
    assert RegularNext(ds, i);
    assert !Repeated(ds, i);
  }

  ghost predicate RegularNext(ds: seq<Desc>, i: nat)
    requires i < |ds|
  {
    i + 1 < |ds| ==> RegularAt(ds, i + 1)
  }

  lemma {:induction false} FindsMore(ds: seq<Desc>, i: nat, offset: int)
    requires DistinctDescs(ds) && i <= |ds| && exists j :: i <= j < |ds| && ds[j].More?
    ensures var r := Find(ds, 0, 0, 0, i, offset); r.Some? && ds[r.value.0].More?
    decreases |ds| - i
  {
    if ds[i].More? {
    } else {
      assert KeyAt(ds, i) >= 256;
      FindsMore(ds, i + 1, offset + Advance(ds, i));
    }
  }

  // The place of a compound behind which a repeated field can be reached.
  ghost function Danger(mode: Mode, ds: seq<Desc>): (i: nat)
    requires Reachable(mode, ds) && !exists i :: 0 <= i < |ds| && ds[i].More?
    ensures i < |ds| && ds[i].Compound? && ReachableAt(mode, ds[i])
  {
    var i :| 0 <= i < |ds| && ReachableAt(mode, ds[i]);
    i
  }

  // One element inside the other, down to the table that has a repeated field.
  ghost function Stopper(mode: Mode, ds: seq<Desc>): Tree
    requires Reachable(mode, ds)
    decreases ds
  {
    if exists i :: 0 <= i < |ds| && ds[i].More? then Wrapped(mode, 0, 0, [])
    else
      var i := Danger(mode, ds);
      Wrapped(mode, ds[i].type_, ds[i].instance, [Stopper(mode, ds[i].kids)])
  }

  ghost function Wrapped(mode: Mode, type_: nat, instance: nat, kids: seq<Tree>): Tree {
    Tree(NONE, mode, type_, instance, Bytes([]), kids)
  }

  lemma WrappedFits(mode: Mode, type_: nat, instance: nat, kid: Tree)
    requires Carried(mode, type_, instance) && FitsOne(mode, kid) && 0 < |Encode([kid])| <= 32
    ensures FitsOne(mode, Wrapped(mode, type_, instance, [kid]))
    ensures 0 < |Encode([Wrapped(mode, type_, instance, [kid])])| <= 4 + |Encode([kid])|
  {
    var t := Wrapped(mode, type_, instance, [kid]);
    assert Limit(1) == 256 * Limit(0) && Limit(2) == 256 * Limit(1);
    assert Encode([t]) == EncodeOne(t) + Encode([]) && Body(t) == Encode([kid]);
  }

  lemma ZeroFits(mode: Mode)
    ensures FitsOne(mode, Wrapped(mode, 0, 0, [])) && 0 < |Encode([Wrapped(mode, 0, 0, [])])| <= 4
  {
    var t := Wrapped(mode, 0, 0, []);
    assert Encode([t]) == EncodeOne(t) + Encode([]) && Body(t) == [];
  }

  // It fits: each of the nine levels takes four bytes at most.
  lemma {:induction false} StopperFits(mode: Mode, ds: seq<Desc>, depth: nat)
    requires Reachable(mode, ds) && Shallow(ds, depth)
    ensures FitsOne(mode, Stopper(mode, ds)) && 0 < |Encode([Stopper(mode, ds)])| <= 4 * (9 - depth)
    decreases ds
  {
    hide FitsOne, Encode;
    if exists i :: 0 <= i < |ds| && ds[i].More? {
      ZeroFits(mode);
    } else {
      var i := Danger(mode, ds);
      StopperFits(mode, ds[i].kids, depth + 1);
      WrappedFits(mode, ds[i].type_, ds[i].instance, Stopper(mode, ds[i].kids));
    }
  }

  lemma OffsetZero(ds: seq<Desc>)
    ensures Offset(ds, 0) == 0
  {
  }

  // A compound that stops the program when it is parsed does so in its table.
  lemma NestedAborts(mode: Mode, mem: seq<Byte>, ds: seq<Desc>, i: nat, es: seq<Elem>, msg: Msg, p: int)
    requires DistinctDescs(ds) && i < |ds| && ds[i].Compound? && (forall j :: 0 <= j < |ds| ==> !ds[j].More?)
    requires es != [] && es[0].type_ == ds[i].Type() && es[0].instance == ds[i].Instance()
    requires var r := ParseBlock(mem, es[0].value, es[0].length, mode);
      r.Some? && ParseAll(mode, mem, ds[i].kids, r.value, msg, p + Offset(ds, i) + PRESENCE, map[]).Aborted?
    ensures ParseAll(mode, mem, ds, es, msg, p, map[]).Aborted?
  {
    hide Find, ParseBlock, Locate, Offset, DistinctDescs, Key, FirstFree;
    FindAt(ds, i, 0);
    OffsetZero(ds);
    assert Spot(ds, i, msg, p + Offset(ds, i)) == Some(p + Offset(ds, i));
    StepLocates(ds, es[0], msg, p, map[], i, p + Offset(ds, i));
  }

  // What the parser reads first of a block that holds one node.
  lemma ReadsOne(mode: Mode, mem: seq<Byte>, pos: nat, t: Tree) returns (es: seq<Elem>)
    requires FitsOne(mode, t) && Holds(mem, pos, Encode([t]))
    ensures ParseBlock(mem, pos, |Encode([t])|, mode) == Some(es)
    ensures es != [] && es[0].type_ == t.type_ && es[0].instance == t.instance
    ensures es[0].length == |Body(t)| && Holds(mem, es[0].value, Body(t))
  {
    ScanEncode(mem, pos, mode, [t]);
    es := Scan(mem, pos, pos + |Encode([t])|, mode);
    assert Shows(mem, es[0], [t][0]);
  }

  lemma {:induction false} StopperStops(mode: Mode, mem: seq<Byte>, pos: nat, ds: seq<Desc>, depth: nat, msg: Msg, p: int)
    requires WellFormed(ds) && Reachable(mode, ds) && Shallow(ds, depth) && Holds(mem, pos, Encode([Stopper(mode, ds)]))
    ensures var r := ParseBlock(mem, pos, |Encode([Stopper(mode, ds)])|, mode);
      r.Some? && ParseAll(mode, mem, ds, r.value, msg, p, map[]).Aborted?
    decreases ds
  {
    hide FitsOne, Encode, Holds, ParseBlock, ParseAll, DistinctDescs, Carried;
    StopperFits(mode, ds, depth);
    var es := ReadsOne(mode, mem, pos, Stopper(mode, ds));
    if exists i :: 0 <= i < |ds| && ds[i].More? {
      ZeroAborts(mode, mem, ds, es, msg, p);
    } else {
      var i := Danger(mode, ds);
      assert WellFormedOne(ds[i]);
      StopperStops(mode, mem, es[0].value, ds[i].kids, depth + 1, msg, p + Offset(ds, i) + PRESENCE);
      NestedAborts(mode, mem, ds, i, es, msg, p);
    }
  }

  // Some packet stops the program if and only if a packet can get to a repeated field.
  lemma AbortsExactly(mode: Mode, ds: seq<Desc>, msg: Msg)
    requires WellFormed(ds) && Shallow(ds, 0)
    ensures (exists mem: seq<Byte>, length: nat :: ParseMsg(mode, mem, length, ds, msg).Aborted?) <==> Reachable(mode, ds)
    ensures AllCarried(mode, ds) ==>
      ((exists mem: seq<Byte>, length: nat :: ParseMsg(mode, mem, length, ds, msg).Aborted?) <==> !NoMore(ds))
  {
    if AllCarried(mode, ds) {
      ReachableIff(mode, ds);
    }
    if Reachable(mode, ds) {
      var mem := Encode([Stopper(mode, ds)]);
      StopperStops(mode, mem, 0, ds, 0, msg, 0);
      assert ParseMsg(mode, mem, |mem|, ds, msg).Aborted?;
    } else {
      forall mem: seq<Byte>, length: nat
        ensures !ParseMsg(mode, mem, length, ds, msg).Aborted?
      {
        PacketNeverStops(mode, mem, length, ds, msg);
      }
    }
  }

  // ---------- One copy too many ----------

  ghost predicate Occupied(msg: Msg, first: int, vsize: nat, n: nat) {
    forall l: nat :: l < n ==> msg.Present(CopyAt(first, vsize, l))
  }

  // Every copy of the repeated field at place i is present.
  ghost predicate Taken(ds: seq<Desc>, i: nat, msg: Msg, p: int)
    requires Repeated(ds, i)
  {
    Occupied(msg, p + Offset(ds, i), ds[i].Vsize(), ds[i + 1].length)
  }

  lemma {:induction false} NoneFree(msg: Msg, a: int, vsize: nat, n: nat)
    ensures FirstFree(msg, a, vsize, n).None? <==> Occupied(msg, a, vsize, n)
    decreases n
  {
    if n == 0 {
    } else {
      NoneFree(msg, a + vsize, vsize, n - 1);
      var b := a + vsize;
      if Occupied(msg, a, vsize, n) {
        assert msg.Present(CopyAt(a, vsize, 0));
        forall l: nat | l < n - 1
          ensures msg.Present(CopyAt(b, vsize, l))
        {
          assert CopyAt(b, vsize, l) == CopyAt(a, vsize, l + 1);
          assert msg.Present(CopyAt(a, vsize, l + 1));
        }
      } else if Occupied(msg, a + vsize, vsize, n - 1) {
        forall l: nat | l < n && msg.Present(a)
          ensures msg.Present(CopyAt(a, vsize, l))
        {
          assert l > 0 ==> CopyAt(a, vsize, l) == CopyAt(b, vsize, l - 1);
        }
      }
    }
  }

  // An element of a repeated field, all of whose copies before it have been taken in.
  ghost predicate Another(ds: seq<Desc>, i: nat, e: Elem, counts: map<nat, nat>) {
    && Repeated(ds, i) && !ds[i].More? && e.type_ == ds[i].Type() && e.instance == ds[i].Instance()
    && (KeyAt(ds, i) in counts ==> counts[KeyAt(ds, i)] == 0) && (KeyAt(ds, i) !in counts ==> |counts| < MAX_CHILDREN)
  }

  // It stops the program if and only if all copies are present and is otherwise parsed.
  lemma OneTooMany(mode: Mode, mem: seq<Byte>, ds: seq<Desc>, i: nat, es: seq<Elem>, msg: Msg, p: int, counts: map<nat, nat>)
    requires WellFormed(ds) && es != [] && Another(ds, i, es[0], counts)
    ensures Locate(ds, es[0], msg, p, counts).NoRoom? <==> Taken(ds, i, msg, p)
    ensures Taken(ds, i, msg, p) ==> ParseAll(mode, mem, ds, es, msg, p, counts).Aborted?
  {
    hide Find, Offset, FirstFree, WellFormedOne, Occupied, ParseOne, DistinctDescs, Regular;
    FindAt(ds, i, 0);
    OffsetZero(ds);
    NoneFree(msg, p + Offset(ds, i), ds[i].Vsize(), ds[i + 1].length);
  }

  // tlv_parse_leaf takes the element's length.
  ghost predicate Accepts(d: Desc, e: Elem)
    requires d.Leaf?
  {
    match d.kind
    case Num(k) => 1 <= e.length <= k
    case FixedStr => e.length == d.length
    case VarStr => true
    case Null => e.length == 0
  }

  ghost predicate IsCopy(ds: seq<Desc>, i: nat, e: Elem)
    requires i < |ds|
  {
    ds[i].Leaf? && e.type_ == ds[i].type_ && e.instance == ds[i].instance && Accepts(ds[i], e)
  }

  ghost predicate Vacant(msg: Msg, first: int, vsize: nat, j: nat, n: nat) {
    forall l: nat :: j <= l < n ==> !msg.Present(CopyAt(first, vsize, l))
  }

  lemma {:induction false} RoomGrows(vsize: nat, j: nat, l: nat)
    requires j < l && vsize > 0
    ensures Room(vsize, j) < Room(vsize, l)
    decreases l
  {
    if l == j + 1 {
    } else {
      RoomGrows(vsize, j, l - 1);
    }
  }

  // Storing the next copy occupies it, and no other.
  lemma CopyTaken(msg: Msg, to: Msg, first: int, vsize: nat, j: nat, n: nat)
    requires Occupied(msg, first, vsize, j) && Vacant(msg, first, vsize, j, n) && vsize > 0
    requires to.presence == msg.presence[CopyAt(first, vsize, j) := 1]
    ensures Occupied(to, first, vsize, j + 1) && Vacant(to, first, vsize, j + 1, n)
  {
    forall l: nat | j < l < n
      ensures !to.Present(CopyAt(first, vsize, l))
    {
      RoomGrows(vsize, j, l);
      assert !msg.Present(CopyAt(first, vsize, l));
    }
  }

  // With j of its n copies present, elements of a repeated leaf stop the program if and only if
  // there are more than n - j of them.
  lemma {:induction false} CopiesAbort(mode: Mode, mem: seq<Byte>, ds: seq<Desc>, i: nat, j: nat, es: seq<Elem>, msg: Msg, p: int,
                                       counts: map<nat, nat>)
    requires WellFormed(ds) && Repeated(ds, i) && j <= ds[i + 1].length
    requires forall q :: 0 <= q < |es| ==> IsCopy(ds, i, es[q])
    requires var key := KeyAt(ds, i);
      (key in counts ==> counts[key] == 0) && (key !in counts ==> |counts| < MAX_CHILDREN)
    requires Occupied(msg, p + Offset(ds, i), ds[i].Vsize(), j)
    requires Vacant(msg, p + Offset(ds, i), ds[i].Vsize(), j, ds[i + 1].length)
    ensures ParseAll(mode, mem, ds, es, msg, p, counts).Aborted? <==> |es| > ds[i + 1].length - j
    decreases es
  {
    if es == [] {
    } else {
      var first, vsize, n := p + Offset(ds, i), ds[i].Vsize(), ds[i + 1].length;
      assert IsCopy(ds, i, es[0]) && WellFormedOne(ds[i]);
      if j == n {
        OneTooMany(mode, mem, ds, i, es, msg, p, counts);
      } else {
        var at := CopyAt(first, vsize, j);
        var to := NextCopy(mode, mem, ds, i, j, es, msg, p, counts);
        CopyTaken(msg, to, first, vsize, j, n);
        CopiesAbort(mode, mem, ds, i, j + 1, es[1..], to, p, counts[KeyAt(ds, i) := 0]);
      }
    }
  }

  lemma NextCopy(mode: Mode, mem: seq<Byte>, ds: seq<Desc>, i: nat, j: nat, es: seq<Elem>, msg: Msg, p: int,
                 counts: map<nat, nat>) returns (to: Msg)
    requires WellFormed(ds) && Repeated(ds, i) && j < ds[i + 1].length && es != [] && IsCopy(ds, i, es[0])
    requires var key := KeyAt(ds, i);
      (key in counts ==> counts[key] == 0) && (key !in counts ==> |counts| < MAX_CHILDREN)
    requires Occupied(msg, p + Offset(ds, i), ds[i].Vsize(), j)
    requires Vacant(msg, p + Offset(ds, i), ds[i].Vsize(), j, ds[i + 1].length)
    ensures to.presence == msg.presence[CopyAt(p + Offset(ds, i), ds[i].Vsize(), j) := 1]
    ensures ParseAll(mode, mem, ds, es, msg, p, counts) == ParseAll(mode, mem, ds, es[1..], to, p, counts[KeyAt(ds, i) := 0])
  {
    hide Find, Offset, FirstFree, WellFormedOne, DistinctDescs, Regular;
    var first, vsize, n := p + Offset(ds, i), ds[i].Vsize(), ds[i + 1].length;
    var at := CopyAt(first, vsize, j);
    FreeAt(msg, vsize, 0, j, n, first, at);
    assert CopyAt(first, vsize, 0) == first;
    FindAt(ds, i, 0);
    OffsetZero(ds);
    to := ParseOne(mode, mem, ds[i], es[0], msg, at).msg;
    Step(mode, mem, ds, es, msg, p, counts, i, at, to);
  }

  // A packet that holds nothing but copies of one repeated leaf stops the program if and only if
  // it holds more of them than the message has room for.
  lemma CopiesPacket(mode: Mode, mem: seq<Byte>, length: nat, ds: seq<Desc>, i: nat, es: seq<Elem>)
    requires WellFormed(ds) && Repeated(ds, i) && ParseBlock(mem, 0, length, mode) == Some(es)
    requires forall q :: 0 <= q < |es| ==> IsCopy(ds, i, es[q])
    ensures ParseMsg(mode, mem, length, ds, ZEROED).Aborted? <==> |es| > ds[i + 1].length
  {
    CopiesAbort(mode, mem, ds, i, 0, es, ZEROED, 0, map[]);
  }

  // A string of which there is room for one copy.
  const ONE_ROOM := [Leaf(VarStr, 1, 0, 0, 16), More(1)]

  lemma OneRoomFormed()
    ensures WellFormed(ONE_ROOM) && |ONE_ROOM| == 2 && ONE_ROOM[0] == Leaf(VarStr, 1, 0, 0, 16) && ONE_ROOM[1] == More(1)
  {
    assert RegularAt(ONE_ROOM, 1);
    assert WellFormedOne(ONE_ROOM[0]) && WellFormedOne(ONE_ROOM[1]);
  }

  lemma Reads(mode: Mode, mem: seq<Byte>, pos: nat)
    requires mode == T1L1
    ensures Get(mem, pos, mode) == Elem(ByteAt(mem, pos), ByteAt(mem, pos + 1), 0, pos + 2)
  {
    assert Number(mem, pos, 1) == 256 * Number(mem, pos, 0) + ByteAt(mem, pos);
    assert Number(mem, pos + 1, 1) == 256 * Number(mem, pos + 1, 0) + ByteAt(mem, pos + 1);
  }

  // The packet of n empty strings.
  lemma ReadsStrings(mem: seq<Byte>, n: nat)
    requires 1 <= n <= 2 && |mem| == 2 * n && forall k :: 0 <= k < |mem| ==> mem[k] == 1 - k % 2
    ensures ParseBlock(mem, 0, 2 * n, T1L1) == Some(if n == 1 then [Elem(1, 0, 0, 2)] else [Elem(1, 0, 0, 2), Elem(1, 0, 0, 4)])
  {
    Reads(T1L1, mem, 0);
    Reads(T1L1, mem, 2);
    hide Get, Scan;
    if n == 1 {
      ScanStep(mem, 0, 2, T1L1, Elem(1, 0, 0, 2), []);
    } else {
      ScanStep(mem, 2, 4, T1L1, Elem(1, 0, 0, 4), []);
      assert Scan(mem, 2, 4, T1L1) == [Elem(1, 0, 0, 4)];
      ScanStep(mem, 0, 4, T1L1, Elem(1, 0, 0, 2), [Elem(1, 0, 0, 4)]);
      assert Scan(mem, 0, 4, T1L1) == [Elem(1, 0, 0, 2), Elem(1, 0, 0, 4)];
    }
  }

  // Two empty strings stop the program, and one does not.
  lemma ExtraCopy()
    ensures WellFormed(ONE_ROOM) && Repeated(ONE_ROOM, 0)
    ensures ParseMsg(T1L1, [1, 0, 1, 0], 4, ONE_ROOM, ZEROED).Aborted? && !ParseMsg(T1L1, [1, 0], 2, ONE_ROOM, ZEROED).Aborted?
  {
    hide WellFormed, ParseMsg, ParseBlock;
    OneRoomFormed();
    ReadsStrings([1, 0], 1);
    ReadsStrings([1, 0, 1, 0], 2);
    var a, b := Elem(1, 0, 0, 2), Elem(1, 0, 0, 4);
    assert IsCopy(ONE_ROOM, 0, a) && IsCopy(ONE_ROOM, 0, b);
    CopiesPacket(T1L1, [1, 0, 1, 0], 4, ONE_ROOM, 0, [a, b]);
    CopiesPacket(T1L1, [1, 0], 2, ONE_ROOM, 0, [a]);
  }
}
