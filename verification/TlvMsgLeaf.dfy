// lib/core/ogs-tlv-msg.c: which elements are taken for a field without members, and what is stored.
module TlvMsgLeaf {
  import opened Prelude
  import opened TlvSpec
  import opened TlvMsgSpec

  // The lengths that a field takes.
  predicate Takes(d: Desc, length: nat)
    requires d.Leaf?
  {
    match d.kind
    case Num(k) => 1 <= length <= k
    case FixedStr => length == d.length
    case VarStr => true
    case Null => length == 0
  }

  // bs are the bytes of the memory from pos on.
  ghost predicate Copied(mem: seq<Byte>, pos: nat, bs: seq<Byte>) {
    forall j :: 0 <= j < |bs| ==> bs[j] == ByteAt(mem, pos + j)
  }

  // The digits of the number read from k bytes are those bytes.
  lemma {:induction false} NumberDigits(mem: seq<Byte>, pos: nat, k: nat)
    ensures Copied(mem, pos, BigEndian(Number(mem, pos, k), k)) && Number(mem, pos, k) < Limit(k)
    decreases k
  {
    if k == 0 {
    } else {
      NumberDigits(mem, pos, k - 1);
      var n := Number(mem, pos, k);
      assert n / 256 == Number(mem, pos, k - 1) && n % 256 == ByteAt(mem, pos + k - 1);
      assert BigEndian(n, k) == BigEndian(n / 256, k - 1) + [n % 256];
    }
  }

  // A field is stored and marked exactly when its element has a length it takes, and no other
  // field changes; a number is made of as many bytes as the field has.
  lemma LeafExactly(mode: Mode, mem: seq<Byte>, d: Desc, e: Elem, msg: Msg, a: int)
    requires d.Leaf?
    ensures var r := ParseOne(mode, mem, d, e, msg, a);
      if !Takes(d, e.length) then r == Failed(msg)
      else
        && r.Done? && r.msg.presence == msg.presence[a := 1]
        && (forall b :: b != a ==> (b in r.msg.values <==> b in msg.values) && (b in msg.values ==> r.msg.values[b] == msg.values[b]))
        && (d.kind.Num? ==> Copied(mem, e.value, BigEndian(r.msg.Int(a), d.kind.size)) && r.msg.Int(a) < Limit(d.kind.size))
        && (d.kind.FixedStr? || d.kind.VarStr? ==> |r.msg.Data(a)| == e.length && Copied(mem, e.value, r.msg.Data(a)))
        && (d.kind.Null? ==> r.msg.values == msg.values)
  {
    hide Number, BigEndian, Limit;
    if d.kind.Num? {
      NumberDigits(mem, e.value, d.kind.size);
    }
  }

  // A field takes what is sent for its own value: for a string the beginning of it, of which a
  // fixed string has at least as many bytes as its descriptor says.
  lemma SentTaken(d: Desc, m: Msg, a: int)
    requires d.Leaf? && LeafBytes(d, m, a).Some? && (d.kind.Num? ==> d.kind.size >= 1)
    requires d.kind.FixedStr? ==> d.length <= |m.Data(a)|
    ensures var bs := LeafBytes(d, m, a).value; Takes(d, |bs|) && (d.kind.FixedStr? || d.kind.VarStr? ==> bs <= m.Data(a))
  {
  }

  ghost predicate SameUpTo(mem: seq<Byte>, other: seq<Byte>, end: nat) {
    forall i: nat :: i < end ==> ByteAt(mem, i) == ByteAt(other, i)
  }

  // What is stored does not depend on the bytes behind the element.
  ghost predicate Settled(mem: seq<Byte>, d: Desc, e: Elem, msg: Msg, a: int)
    requires d.Leaf?
  {
    forall other: seq<Byte> :: SameUpTo(mem, other, e.End()) ==> ParseLeaf(other, d, e, msg, a) == ParseLeaf(mem, d, e, msg, a)
  }

  // That is so of every element a field takes but a number shorter than its field.
  lemma SettledExactly(mem: seq<Byte>, d: Desc, e: Elem, msg: Msg, a: int)
    requires d.Leaf? && Takes(d, e.length)
    ensures Settled(mem, d, e, msg, a) <==> (d.kind.Num? ==> e.length == d.kind.size)
  {
    hide Number, SameUpTo;
    if d.kind.Num? && e.length < d.kind.size {
      var other := Behind(mem, e.value + d.kind.size);
      BehindDiffers(mem, e, d.kind.size);
      assert SameUpTo(mem, other, e.End());
      assert ParseLeaf(mem, d, e, msg, a).value.Int(a) != ParseLeaf(other, d, e, msg, a).value.Int(a);
    } else {
      forall other: seq<Byte> | SameUpTo(mem, other, e.End())
        ensures ParseLeaf(other, d, e, msg, a) == ParseLeaf(mem, d, e, msg, a)
      {
        if d.kind.Num? {
          NumberSame(mem, other, e.value, e.length, e.End());
        } else {
          SliceSame(mem, other, e.value, e.length);
        }
      }
    }
  }

  // The first n bytes of the memory, the last one of them changed.
  function Behind(mem: seq<Byte>, n: nat): seq<Byte> {
    seq<Byte>(n, i requires 0 <= i < n => if i == n - 1 then (ByteAt(mem, i) + 1) % 256 else ByteAt(mem, i))
  }

  lemma BehindDiffers(mem: seq<Byte>, e: Elem, k: nat)
    requires e.length < k
    ensures SameUpTo(mem, Behind(mem, e.value + k), e.End())
    ensures Number(mem, e.value, k) != Number(Behind(mem, e.value + k), e.value, k)
  {
    var other := Behind(mem, e.value + k);
    assert ByteAt(other, e.value + k - 1) == (ByteAt(mem, e.value + k - 1) + 1) % 256;
    assert Number(mem, e.value, k) % 256 == ByteAt(mem, e.value + k - 1);
    assert Number(other, e.value, k) % 256 == ByteAt(other, e.value + k - 1);
  }

  lemma {:induction false} NumberSame(mem: seq<Byte>, other: seq<Byte>, pos: nat, k: nat, end: nat)
    requires SameUpTo(mem, other, end) && pos + k <= end
    ensures Number(mem, pos, k) == Number(other, pos, k)
    decreases k
  {
    if k == 0 {
    } else {
      NumberSame(mem, other, pos, k - 1, end);
    }
  }

  lemma SliceSame(mem: seq<Byte>, other: seq<Byte>, pos: nat, n: nat)
    requires SameUpTo(mem, other, pos + n)
    ensures Slice(mem, pos, n) == Slice(other, pos, n)
  {
  }
}
