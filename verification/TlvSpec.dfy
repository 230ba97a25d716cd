// The wire format of lib/core/ogs-tlv.c, without pointers: what a forest of TLV nodes is
// rendered to, and what the parser reads out of a packet.
module TlvSpec {
  import opened Prelude

  datatype Mode = T1L1 | T1L2 | T1L2I1 | T2L2 | T1

  // ogs_tlv_t's value pointer: bytes the builder was given, or part of the parsed packet.
  datatype Value = Bytes(bytes: seq<Byte>) | Part(at: nat, length: nat)

  function Length(v: Value): nat { if v.Bytes? then |v.bytes| else v.length }

  // A node of the forest, by its place in the node pool.
  datatype Tree = Tree(slot: int, mode: Mode, type_: nat, instance: nat, value: Value, kids: seq<Tree>)

  // The widths of a header's fields, in bytes.
  function TypeBytes(mode: Mode): nat { if mode == T2L2 then 2 else 1 }

  function LengthBytes(mode: Mode): nat { if mode == T1 then 0 else if mode == T1L1 then 1 else 2 }

  function InstanceBytes(mode: Mode): nat { if mode == T1L2I1 then 1 else 0 }

  function HeaderSize(mode: Mode): nat {
    TypeBytes(mode) + LengthBytes(mode) + InstanceBytes(mode)
  }

  function Limit(k: nat): (r: nat)
    ensures r >= 1
  {
    if k == 0 then 1 else 256 * Limit(k - 1)
  }

  // tlv_put_type, tlv_put_length and tlv_put_instance
  function Header(mode: Mode, type_: nat, length: nat, instance: nat): (h: seq<Byte>)
    ensures |h| == HeaderSize(mode)
  {
    BigEndian(type_, TypeBytes(mode)) + BigEndian(length, LengthBytes(mode)) + BigEndian(instance, InstanceBytes(mode))
  }

  // The bytes of a header in each mode: big-endian, the type, the length and the instance.
  lemma HeaderBytes(type_: nat, length: nat, instance: nat)
    ensures Header(T1L1, type_, length, instance) == [type_ % 256, length % 256]
    ensures Header(T1L2, type_, length, instance) == [type_ % 256, length / 256 % 256, length % 256]
    ensures Header(T1L2I1, type_, length, instance) == [type_ % 256, length / 256 % 256, length % 256, instance % 256]
    ensures Header(T2L2, type_, length, instance) == [type_ / 256 % 256, type_ % 256, length / 256 % 256, length % 256]
    ensures Header(T1, type_, length, instance) == [type_ % 256]
  {
    hide Header;
    TwoBytes(type_);
    TwoBytes(length);
    TwoBytes(instance);
    HeaderParts(type_, length, instance);
  }

  lemma TwoBytes(n: nat)
    ensures BigEndian(n, 0) == []
    ensures BigEndian(n, 1) == [n % 256]
    ensures BigEndian(n, 2) == [n / 256 % 256, n % 256]
  {
    assert BigEndian(n, 1) == BigEndian(n / 256, 0) + [n % 256];
    assert BigEndian(n / 256, 1) == BigEndian(n / 256 / 256, 0) + [n / 256 % 256];
    assert BigEndian(n, 2) == BigEndian(n / 256, 1) + [n % 256];
  }

  lemma HeaderParts(t: nat, l: nat, i: nat)
    ensures Header(T1L1, t, l, i) == BigEndian(t, 1) + BigEndian(l, 1) + BigEndian(i, 0)
    ensures Header(T1L2, t, l, i) == BigEndian(t, 1) + BigEndian(l, 2) + BigEndian(i, 0)
    ensures Header(T1L2I1, t, l, i) == BigEndian(t, 1) + BigEndian(l, 2) + BigEndian(i, 1)
    ensures Header(T2L2, t, l, i) == BigEndian(t, 2) + BigEndian(l, 2) + BigEndian(i, 0)
    ensures Header(T1, t, l, i) == BigEndian(t, 1) + BigEndian(l, 0) + BigEndian(i, 0)
  {
    hide BigEndian;
  }

  ghost function Body(t: Tree): seq<Byte>
    decreases t, 0
  {
    if t.kids != [] then Encode(t.kids) else if t.value.Bytes? then t.value.bytes else []
  }

  ghost function EncodeOne(t: Tree): seq<Byte>
    decreases t, 1
  {
    Header(t.mode, t.type_, |Body(t)|, t.instance) + Body(t)
  }

  ghost function Encode(ts: seq<Tree>): seq<Byte> {
    if ts == [] then [] else EncodeOne(ts[0]) + Encode(ts[1..])
  }

  lemma {:induction false} EncodeSnoc(ts: seq<Tree>, k: nat)
    requires k < |ts|
    ensures Encode(ts[..k + 1]) == Encode(ts[..k]) + EncodeOne(ts[k])
    decreases k
  {
    if k == 0 {
      assert ts[..1] == [ts[0]] && ts[..0] == [] && Encode([ts[0]]) == EncodeOne(ts[0]) + Encode([]);
    } else {
      EncodeSnoc(ts[1..], k - 1);
      assert ts[..k + 1][1..] == ts[1..][..k] && ts[..k][1..] == ts[1..][..k - 1];
    }
  }

  // What ogs_tlv_calc_length adds up.
  ghost function Size(ts: seq<Tree>): nat {
    if ts == [] then 0 else SizeOne(ts[0]) + Size(ts[1..])
  }

  ghost function SizeOne(t: Tree): nat {
    HeaderSize(t.mode) + if t.kids != [] then Size(t.kids) else Length(t.value)
  }

  // Every value is bytes, as in a forest that was built.
  ghost predicate Given(ts: seq<Tree>) {
    forall i :: 0 <= i < |ts| ==> GivenOne(ts[i])
  }

  ghost predicate GivenOne(t: Tree) {
    if t.kids == [] then t.value.Bytes? else Given(t.kids)
  }

  // Rendering writes exactly as many bytes as were counted.
  lemma {:induction false} EncodeSize(ts: seq<Tree>)
    requires Given(ts)
    ensures |Encode(ts)| == Size(ts)
    decreases ts
  {
    if ts == [] {
    } else {
      EncodeSizeOne(ts[0]);
      EncodeSize(ts[1..]);
    }
  }

  lemma {:induction false} EncodeSizeOne(t: Tree)
    requires GivenOne(t)
    ensures |EncodeOne(t)| == SizeOne(t) == HeaderSize(t.mode) + |Body(t)|
    decreases t
  {
    if t.kids == [] {
    } else {
      EncodeSize(t.kids);
    }
  }

  // ---------- Parsing ----------

  // What the parser knows of an element; value is its place in the packet.
  datatype Elem = Elem(type_: nat, length: nat, instance: nat, value: nat) {
    function End(): nat { value + length }
  }

  // The memory that holds the packet: what lies behind its end is anything.
  function ByteAt(mem: seq<Byte>, i: nat): Byte {
    if i < |mem| then mem[i] else 0
  }

  // k bytes from i on, the most significant first.
  function Number(mem: seq<Byte>, i: nat, k: nat): nat {
    if k == 0 then 0 else 256 * Number(mem, i, k - 1) + ByteAt(mem, i + k - 1)
  }

  // n & 0b00001111
  function LowHalf(n: nat): (r: nat)
    ensures r < 16 && (n < 16 ==> r == n)
  {
    if n < 16 then n else LowHalf(n - 16)
  }

  lemma {:induction false} LowHalfIs(n: nat)
    ensures LowHalf(n) == n % 16
    decreases n
  {
    if n < 16 {
    } else {
      LowHalfIs(n - 16);
    }
  }

  // tlv_get_element.  A mode without an instance byte leaves the instance of a fresh node, 0,
  // and of an instance byte only the low half is kept.
  function Get(mem: seq<Byte>, pos: nat, mode: Mode): (e: Elem)
    ensures e.value == pos + HeaderSize(mode)
  {
    var lengthAt := pos + TypeBytes(mode);
    var instanceAt := lengthAt + LengthBytes(mode);
    Elem(Number(mem, pos, TypeBytes(mode)),
         Number(mem, lengthAt, LengthBytes(mode)),
         LowHalf(Number(mem, instanceAt, InstanceBytes(mode))),
         instanceAt + InstanceBytes(mode))
  }

  // The elements ogs_tlv_parse_block reads: one at once, then more until the end is reached.
  function Scan(mem: seq<Byte>, pos: nat, end: nat, mode: Mode): (es: seq<Elem>)
    ensures es != []
    decreases end - pos
  {
    var e := Get(mem, pos, mode);
    if e.End() < end then [e] + Scan(mem, e.End(), end, mode) else [e]
  }

  // ogs_tlv_parse_block succeeds when the last element ends where the block does.
  function ParseBlock(mem: seq<Byte>, lo: nat, length: nat, mode: Mode): Option<seq<Elem>> {
    var es := Scan(mem, lo, lo + length, mode);
    if es[|es| - 1].End() == lo + length then Some(es) else None
  }

  // The bytes that elements take, with their headers.
  function Total(mode: Mode, es: seq<Elem>): nat {
    if es == [] then 0 else HeaderSize(mode) + es[0].length + Total(mode, es[1..])
  }

  // Elements stand one behind the other, without a gap.
  lemma {:induction false} ScanAdds(mem: seq<Byte>, pos: nat, end: nat, mode: Mode)
    ensures var es := Scan(mem, pos, end, mode); es[|es| - 1].End() == pos + Total(mode, es)
    decreases end - pos
  {
    hide Number;
    var e := Get(mem, pos, mode);
    if e.End() < end {
      ScanAdds(mem, e.End(), end, mode);
      var rest := Scan(mem, e.End(), end, mode);
      assert ([e] + rest)[1..] == rest;
    } else {
      assert Total(mode, [e]) == HeaderSize(mode) + e.length + Total(mode, [e][1..]) && [e][1..] == [];
    }
  }

  // A block is parsed if and only if what its elements take adds up to its length.
  lemma BlockAdds(mem: seq<Byte>, lo: nat, length: nat, mode: Mode)
    ensures ParseBlock(mem, lo, length, mode).Some? <==> Total(mode, Scan(mem, lo, lo + length, mode)) == length
  {
    hide Scan, Total;
    ScanAdds(mem, lo, lo + length, mode);
  }

  // ---------- Round trip ----------

  // Every node's type, length and instance fit the header; without a length byte no value has bytes.
  ghost predicate Fits(mode: Mode, ts: seq<Tree>) {
    forall i :: 0 <= i < |ts| ==> FitsOne(mode, ts[i])
  }

  ghost predicate FitsOne(mode: Mode, t: Tree) {
    && t.mode == mode && GivenOne(t)
    && t.type_ < Limit(TypeBytes(mode)) && |Body(t)| < Limit(LengthBytes(mode))
    && t.instance < (if mode == T1L2I1 then 16 else 1)
    && Fits(mode, t.kids)
  }

  // mem holds bs at pos.
  ghost predicate Holds(mem: seq<Byte>, pos: nat, bs: seq<Byte>) {
    pos + |bs| <= |mem| && forall i :: 0 <= i < |bs| ==> bs[i] == mem[pos + i]
  }

  lemma HoldsParts(mem: seq<Byte>, pos: nat, a: seq<Byte>, b: seq<Byte>)
    ensures Holds(mem, pos, a + b) <==> Holds(mem, pos, a) && Holds(mem, pos + |a|, b)
  {
    var both := a + b;
    if Holds(mem, pos, both) {
      assert forall i :: 0 <= i < |a| ==> a[i] == both[i];
      assert forall i :: 0 <= i < |b| ==> b[i] == both[|a| + i];
    }
  }

  // The element stands for the node: type, instance and the bytes of its body.
  ghost predicate Shows(mem: seq<Byte>, e: Elem, t: Tree) {
    && e.type_ == t.type_ && e.instance == t.instance
    && e.length == |Body(t)| && Holds(mem, e.value, Body(t))
  }

  ghost predicate ShowsAll(mem: seq<Byte>, es: seq<Elem>, ts: seq<Tree>) {
    |es| == |ts| && forall i :: 0 <= i < |ts| ==> Shows(mem, es[i], ts[i])
  }

  lemma {:induction false} NumberBack(mem: seq<Byte>, pos: nat, n: nat, k: nat)
    requires Holds(mem, pos, BigEndian(n, k)) && n < Limit(k)
    ensures Number(mem, pos, k) == n
    decreases k
  {
    if k == 0 {
    } else {
      HoldsParts(mem, pos, BigEndian(n / 256, k - 1), [n % 256]);
      NumberBack(mem, pos, n / 256, k - 1);
      assert [n % 256][0] == mem[pos + k - 1];
    }
  }

  lemma {:induction false} NumberExact(mem: seq<Byte>, pos: nat, k: nat)
    requires pos + k <= |mem|
    ensures Holds(mem, pos, BigEndian(Number(mem, pos, k), k))
    decreases k
  {
    if k == 0 {
    } else {
      NumberExact(mem, pos, k - 1);
      var n := Number(mem, pos, k);
      assert n / 256 == Number(mem, pos, k - 1) && n % 256 == mem[pos + k - 1];
      assert BigEndian(n, k) == BigEndian(n / 256, k - 1) + [n % 256];
      assert Holds(mem, pos + k - 1, [n % 256]);
      hide Holds, Number, BigEndian;
      HoldsParts(mem, pos, BigEndian(n / 256, k - 1), [n % 256]);
    }
  }

  lemma GetHeader(mem: seq<Byte>, pos: nat, mode: Mode, t: Tree)
    requires FitsOne(mode, t) && Holds(mem, pos, EncodeOne(t))
    ensures Shows(mem, Get(mem, pos, mode), t) && Get(mem, pos, mode).End() == pos + |EncodeOne(t)|
  {
    var n := |Body(t)|;
    var a, b, c := BigEndian(t.type_, TypeBytes(mode)), BigEndian(n, LengthBytes(mode)), BigEndian(t.instance, InstanceBytes(mode));
    HoldsParts(mem, pos, a + b + c, Body(t));
    HoldsParts(mem, pos, a + b, c);
    HoldsParts(mem, pos, a, b);
    NumberBack(mem, pos, t.type_, TypeBytes(mode));
    NumberBack(mem, pos + |a|, n, LengthBytes(mode));
    assert t.instance < Limit(InstanceBytes(mode));
    NumberBack(mem, pos + |a + b|, t.instance, InstanceBytes(mode));
  }

  // The headers from pos on lead from node to node, up to end.
  ghost predicate Laid(mem: seq<Byte>, pos: nat, end: nat, mode: Mode, ts: seq<Tree>)
    decreases ts
  {
    && ts != [] && Shows(mem, Get(mem, pos, mode), ts[0])
    && if |ts| == 1 then Get(mem, pos, mode).End() == end
       else Get(mem, pos, mode).End() < end && Laid(mem, Get(mem, pos, mode).End(), end, mode, ts[1..])
  }

  // The nodes of ts, rendered one behind the other from pos to end.
  ghost predicate Written(mem: seq<Byte>, pos: nat, end: nat, ts: seq<Tree>)
    decreases ts
  {
    if ts == [] then pos == end
    else Holds(mem, pos, EncodeOne(ts[0])) && Written(mem, pos + |EncodeOne(ts[0])|, end, ts[1..])
  }

  lemma {:induction false} EncodeWritten(mem: seq<Byte>, pos: nat, ts: seq<Tree>)
    requires Holds(mem, pos, Encode(ts))
    ensures Written(mem, pos, pos + |Encode(ts)|, ts)
    decreases ts
  {
    if ts == [] {
    } else {
      HoldsParts(mem, pos, EncodeOne(ts[0]), Encode(ts[1..]));
      EncodeWritten(mem, pos + |EncodeOne(ts[0])|, ts[1..]);
    }
  }

  lemma {:induction false} WrittenAhead(mem: seq<Byte>, pos: nat, end: nat, ts: seq<Tree>)
    requires Written(mem, pos, end, ts)
    ensures if ts == [] then pos == end else pos < end
    decreases ts
  {
    if ts == [] {
    } else {
      assert |EncodeOne(ts[0])| > 0;
      WrittenAhead(mem, pos + |EncodeOne(ts[0])|, end, ts[1..]);
    }
  }

  lemma {:induction false} WrittenLaid(mem: seq<Byte>, pos: nat, end: nat, mode: Mode, ts: seq<Tree>)
    requires ts != [] && Fits(mode, ts) && Written(mem, pos, end, ts)
    ensures Laid(mem, pos, end, mode, ts)
    decreases ts
  {
    GetHeader(mem, pos, mode, ts[0]);
    var next, rest := pos + |EncodeOne(ts[0])|, ts[1..];
    WrittenAhead(mem, next, end, rest);
    if rest == [] {
    } else {
      WrittenLaid(mem, next, end, mode, rest);
    }
  }

  lemma {:induction false} LaidScan(mem: seq<Byte>, pos: nat, end: nat, mode: Mode, ts: seq<Tree>)
    requires Laid(mem, pos, end, mode, ts)
    ensures var es := Scan(mem, pos, end, mode); ShowsAll(mem, es, ts) && es[|es| - 1].End() == end
    decreases ts
  {
    var e := Get(mem, pos, mode);
    if |ts| > 1 {
      LaidScan(mem, e.End(), end, mode, ts[1..]);
      ScanStep(mem, pos, end, mode, e, Scan(mem, e.End(), end, mode));
    } else {
      ScanStep(mem, pos, end, mode, e, []);
    }
  }

  // What was rendered is parsed to elements that stand for the nodes, in their order.
  lemma ScanEncode(mem: seq<Byte>, pos: nat, mode: Mode, ts: seq<Tree>)
    requires ts != [] && Fits(mode, ts) && Holds(mem, pos, Encode(ts))
    ensures ParseBlock(mem, pos, |Encode(ts)|, mode) == Some(Scan(mem, pos, pos + |Encode(ts)|, mode))
    ensures ShowsAll(mem, Scan(mem, pos, pos + |Encode(ts)|, mode), ts)
  {
    EncodeWritten(mem, pos, ts);
    WrittenLaid(mem, pos, pos + |Encode(ts)|, mode, ts);
    LaidScan(mem, pos, pos + |Encode(ts)|, mode, ts);
  }

  // One element, and then the rest of the block.
  lemma ScanStep(mem: seq<Byte>, pos: nat, end: nat, mode: Mode, e: Elem, rest: seq<Elem>)
    requires e == Get(mem, pos, mode)
    requires rest == if e.End() < end then Scan(mem, e.End(), end, mode) else []
    ensures Scan(mem, pos, end, mode) == [e] + rest
  {
  }

  // The block at pos is parsed to ts: the same types and instances in the same order, leaves with
  // the same bytes, and embedded blocks that are themselves parsed to the embedded nodes.
  ghost predicate Recovers(mem: seq<Byte>, pos: nat, length: nat, mode: Mode, ts: seq<Tree>)
    decreases ts
  {
    match ParseBlock(mem, pos, length, mode)
    case None => false
    case Some(es) =>
      && |es| == |ts|
      && forall i :: 0 <= i < |ts| ==>
           && es[i].type_ == ts[i].type_ && es[i].instance == ts[i].instance
           && (ts[i].kids == [] ==> es[i].length == |Body(ts[i])| && Holds(mem, es[i].value, Body(ts[i])))
           && (ts[i].kids != [] ==> Recovers(mem, es[i].value, es[i].length, mode, ts[i].kids))
  }

  // Parsing what was rendered gives the forest back.
  lemma {:induction false} RoundTrip(mem: seq<Byte>, pos: nat, mode: Mode, ts: seq<Tree>)
    requires ts != [] && Fits(mode, ts) && Holds(mem, pos, Encode(ts))
    ensures Recovers(mem, pos, |Encode(ts)|, mode, ts)
    decreases ts
  {
    ScanEncode(mem, pos, mode, ts);
    var es := Scan(mem, pos, pos + |Encode(ts)|, mode);
    forall i | 0 <= i < |ts| && ts[i].kids != []
      ensures Recovers(mem, es[i].value, es[i].length, mode, ts[i].kids)
    {
      assert Shows(mem, es[i], ts[i]);
      RoundTrip(mem, es[i].value, mode, ts[i].kids);
    }
  }

  // ---------- The other way round ----------

  // An element as a leaf, and a block of them as a flat forest.
  ghost function LeafOf(mem: seq<Byte>, e: Elem, mode: Mode): Tree
    requires e.value + e.length <= |mem|
  {
    Tree(NONE, mode, e.type_, e.instance, Bytes(mem[e.value..e.value + e.length]), [])
  }

  ghost function Leaves(mem: seq<Byte>, es: seq<Elem>, mode: Mode): seq<Tree>
    requires Within(es, |mem|)
  {
    if es == [] then [] else [LeafOf(mem, es[0], mode)] + Leaves(mem, es[1..], mode)
  }

  ghost predicate Within(es: seq<Elem>, end: nat) {
    forall i :: 0 <= i < |es| ==> es[i].value + es[i].length <= end
  }

  // Every instance byte uses its low half only.
  ghost predicate Clean(mem: seq<Byte>, es: seq<Elem>, mode: Mode) {
    forall i :: 0 <= i < |es| ==> CleanOne(mem, es[i], mode)
  }

  ghost predicate CleanOne(mem: seq<Byte>, e: Elem, mode: Mode) {
    mode == T1L2I1 && e.value > 0 ==> ByteAt(mem, e.value - 1) < 16
  }

  lemma HeaderExact(mem: seq<Byte>, pos: nat, mode: Mode)
    requires pos + HeaderSize(mode) <= |mem| && CleanOne(mem, Get(mem, pos, mode), mode)
    ensures var e := Get(mem, pos, mode); Holds(mem, pos, Header(mode, e.type_, e.length, e.instance))
  {
    var e := Get(mem, pos, mode);
    var a, b, c := BigEndian(e.type_, TypeBytes(mode)), BigEndian(e.length, LengthBytes(mode)), BigEndian(e.instance, InstanceBytes(mode));
    NumberExact(mem, pos, TypeBytes(mode));
    NumberExact(mem, pos + |a|, LengthBytes(mode));
    NumberExact(mem, pos + |a| + |b|, InstanceBytes(mode));
    assert Number(mem, pos + |a| + |b|, 0) == 0 == Number(mem, pos + |a| + |b|, InstanceBytes(mode)) || mode == T1L2I1;
    HoldsParts(mem, pos, a, b);
    HoldsParts(mem, pos, a + b, c);
  }

  lemma GetExact(mem: seq<Byte>, pos: nat, mode: Mode, e: Elem)
    requires e == Get(mem, pos, mode) && e.value + e.length <= |mem| && CleanOne(mem, e, mode)
    ensures Holds(mem, pos, EncodeOne(LeafOf(mem, e, mode))) && pos + |EncodeOne(LeafOf(mem, e, mode))| == e.End()
  {
    HeaderExact(mem, pos, mode);
    assert Body(LeafOf(mem, e, mode)) == mem[e.value..e.value + e.length];
    hide Header, Number, LowHalf, Get;
    HoldsParts(mem, pos, Header(mode, e.type_, e.length, e.instance), mem[e.value..e.value + e.length]);
  }

  // A block that parses is the rendering of what was parsed: the parser accepts no other bytes,
  // except that it ignores the high half of an instance byte.
  lemma {:induction false} ScanExact(mem: seq<Byte>, pos: nat, end: nat, mode: Mode, es: seq<Elem>)
    requires end <= |mem| && es == Scan(mem, pos, end, mode)
    requires es[|es| - 1].End() == end && Clean(mem, es, mode)
    ensures Within(es, end)
    ensures Holds(mem, pos, Encode(Leaves(mem, es, mode))) && pos + |Encode(Leaves(mem, es, mode))| == end
    decreases end - pos
  {
    var e := Get(mem, pos, mode);
    var rest := if e.End() < end then Scan(mem, e.End(), end, mode) else [];
    ScanStep(mem, pos, end, mode, e, rest);
    Parts(mem, e, rest, end, mode);
    if rest != [] {
      ScanExact(mem, e.End(), end, mode, rest);
    } else {
      assert Leaves(mem, rest, mode) == [] && Encode([]) == [];
    }
    GetExact(mem, pos, mode, e);
    LeavesCons(mem, pos, e, rest, mode);
  }

  lemma Parts(mem: seq<Byte>, e: Elem, rest: seq<Elem>, end: nat, mode: Mode)
    ensures Within([e] + rest, end) <==> e.value + e.length <= end && Within(rest, end)
    ensures Clean(mem, [e] + rest, mode) <==> CleanOne(mem, e, mode) && Clean(mem, rest, mode)
    ensures ([e] + rest)[|rest|] == if rest == [] then e else rest[|rest| - 1]
  {
    var es := [e] + rest;
    assert es[0] == e && forall i :: 0 <= i < |rest| ==> rest[i] == es[i + 1];
    assert forall i :: 0 < i < |es| ==> es[i] == rest[i - 1];
  }

  lemma LeavesCons(mem: seq<Byte>, pos: nat, e: Elem, rest: seq<Elem>, mode: Mode)
    requires Within([e] + rest, |mem|) && e.value + e.length <= |mem| && Within(rest, |mem|)
    requires Holds(mem, pos, EncodeOne(LeafOf(mem, e, mode))) && pos + |EncodeOne(LeafOf(mem, e, mode))| == e.End()
    requires Holds(mem, e.End(), Encode(Leaves(mem, rest, mode)))
    ensures Holds(mem, pos, Encode(Leaves(mem, [e] + rest, mode)))
    ensures pos + |Encode(Leaves(mem, [e] + rest, mode))| == e.End() + |Encode(Leaves(mem, rest, mode))|
  {
    var t, ts := LeafOf(mem, e, mode), Leaves(mem, rest, mode);
    assert ([e] + rest)[1..] == rest;
    EncodeCons(t, ts);
    HoldsParts(mem, pos, EncodeOne(t), Encode(ts));
  }

  lemma EncodeCons(t: Tree, ts: seq<Tree>)
    ensures Encode([t] + ts) == EncodeOne(t) + Encode(ts)
  {
    assert ([t] + ts)[1..] == ts;
  }

  lemma {:induction false} NumberSame(m1: seq<Byte>, m2: seq<Byte>, i: nat, k: nat)
    requires i + k <= |m1| && i + k <= |m2| && m1[..i + k] == m2[..i + k]
    ensures Number(m1, i, k) == Number(m2, i, k)
    decreases k
  {
    if k == 0 {
    } else {
      assert m1[..i + k][..i + k - 1] == m1[..i + k - 1] && m2[..i + k][..i + k - 1] == m2[..i + k - 1];
      assert m1[..i + k][i + k - 1] == m2[..i + k][i + k - 1];
      NumberSame(m1, m2, i, k - 1);
    }
  }

  lemma GetSame(m1: seq<Byte>, m2: seq<Byte>, pos: nat, mode: Mode, end: nat)
    requires pos + HeaderSize(mode) <= end <= |m1| && end <= |m2| && m1[..end] == m2[..end]
    ensures Get(m1, pos, mode) == Get(m2, pos, mode)
  {
    var a := pos + TypeBytes(mode);
    var b := a + LengthBytes(mode);
    var c := b + InstanceBytes(mode);
    forall k | 0 <= k <= end
      ensures m1[..k] == m2[..k]
    {
      assert m1[..end][..k] == m1[..k] && m2[..end][..k] == m2[..k];
    }
    assert m1[..a] == m2[..a] && m1[..b] == m2[..b] && m1[..c] == m2[..c];
    NumberSame(m1, m2, pos, TypeBytes(mode));
    NumberSame(m1, m2, a, LengthBytes(mode));
    NumberSame(m1, m2, b, InstanceBytes(mode));
  }

  // What lies behind the block never decides whether it parses, nor what it parses to.
  lemma {:induction false} BehindIgnored(m1: seq<Byte>, m2: seq<Byte>, pos: nat, end: nat, mode: Mode)
    requires pos <= end <= |m1| && end <= |m2| && m1[..end] == m2[..end]
    ensures var a, b := Scan(m1, pos, end, mode), Scan(m2, pos, end, mode);
      (a[|a| - 1].End() == end || b[|b| - 1].End() == end) && pos < end ==> a == b
    decreases end - pos
  {
    hide Scan, Get, Number;
    if pos + HeaderSize(mode) > end {
      ScanStep(m1, pos, end, mode, Get(m1, pos, mode), []);
      ScanStep(m2, pos, end, mode, Get(m2, pos, mode), []);
    } else {
      GetSame(m1, m2, pos, mode, end);
      var e := Get(m1, pos, mode);
      if e.End() < end {
        BehindIgnored(m1, m2, e.End(), end, mode);
        ScanStep(m1, pos, end, mode, e, Scan(m1, e.End(), end, mode));
        ScanStep(m2, pos, end, mode, e, Scan(m2, e.End(), end, mode));
      } else {
        ScanStep(m1, pos, end, mode, e, []);
        ScanStep(m2, pos, end, mode, e, []);
      }
    }
  }
}
