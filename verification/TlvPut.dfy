// lib/core/ogs-tlv.c: writing the pieces of a rendered node into a buffer.
module TlvPut {
  import opened Prelude
  import opened TlvSpec

  // Nothing changed outside lo..hi.
  ghost predicate Kept(a: seq<Byte>, b: seq<Byte>, lo: nat, hi: nat) {
    |a| == |b| && forall i :: 0 <= i < |a| && !(lo <= i < hi) ==> b[i] == a[i]
  }

  // A second piece written behind the first leaves both in place.
  lemma PutTwice(a: seq<Byte>, b: seq<Byte>, pos: nat, first: seq<Byte>, second: seq<Byte>)
    requires Holds(a, pos, first) && Holds(b, pos + |first|, second)
    requires Kept(a, b, pos + |first|, pos + |first| + |second|)
    ensures Holds(b, pos, first + second)
  {
    assert Holds(b, pos, first);
    HoldsParts(b, pos, first, second);
  }

  lemma OneByte(n: nat)
    ensures BigEndian(n, 1) == [n % 256] && BigEndian(n, 2) == [n / 256 % 256, n % 256]
  {
    assert BigEndian(n, 0) == [];
    assert BigEndian(n / 256, 1) == [n / 256 % 256];
  }

  // tlv_put_type
  method PutType(type_: nat, data: array<Byte>, pos: nat, mode: Mode) returns (next: nat)
    requires pos + TypeBytes(mode) <= data.Length
    modifies data
    ensures next == pos + TypeBytes(mode) && Kept(old(data[..]), data[..], pos, next)
    ensures Holds(data[..], pos, BigEndian(type_, TypeBytes(mode)))
  {
    OneByte(type_);
    next := pos;
    match mode {
      case T1L1 | T1L2 | T1L2I1 | T1 =>
        data[next], next := type_ % 256, next + 1;
      case T2L2 =>
        data[next], next := type_ / 256 % 256, next + 1;
        data[next], next := type_ % 256, next + 1;
    }
  }

  // tlv_put_length
  method PutLength(length: nat, data: array<Byte>, pos: nat, mode: Mode) returns (next: nat)
    requires pos + LengthBytes(mode) <= data.Length
    modifies data
    ensures next == pos + LengthBytes(mode) && Kept(old(data[..]), data[..], pos, next)
    ensures Holds(data[..], pos, BigEndian(length, LengthBytes(mode)))
  {
    OneByte(length);
    next := pos;
    match mode {
      case T1L1 =>
        data[next], next := length % 256, next + 1;
      case T1L2 | T1L2I1 | T2L2 =>
        data[next], next := length / 256 % 256, next + 1;
        data[next], next := length % 256, next + 1;
      case T1 =>
    }
  }

  // tlv_put_instance
  method PutInstance(instance: nat, data: array<Byte>, pos: nat, mode: Mode) returns (next: nat)
    requires pos + InstanceBytes(mode) <= data.Length
    modifies data
    ensures next == pos + InstanceBytes(mode) && Kept(old(data[..]), data[..], pos, next)
    ensures Holds(data[..], pos, BigEndian(instance, InstanceBytes(mode)))
  {
    OneByte(instance);
    next := pos;
    if mode == T1L2I1 {
      data[next], next := instance % 256, next + 1;
    }
  }

  // The three of them.
  method PutHeader(mode: Mode, type_: nat, length: nat, instance: nat, data: array<Byte>, pos: nat) returns (next: nat)
    requires pos + HeaderSize(mode) <= data.Length
    modifies data
    ensures next == pos + HeaderSize(mode) && Kept(old(data[..]), data[..], pos, next)
    ensures Holds(data[..], pos, Header(mode, type_, length, instance))
  {
    var a := PutType(type_, data, pos, mode);
    ghost var d := data[..];
    var b := PutLength(length, data, a, mode);
    PutTwice(d, data[..], pos, BigEndian(type_, TypeBytes(mode)), BigEndian(length, LengthBytes(mode)));
    d := data[..];
    next := PutInstance(instance, data, b, mode);
    PutTwice(d, data[..], pos, BigEndian(type_, TypeBytes(mode)) + BigEndian(length, LengthBytes(mode)),
             BigEndian(instance, InstanceBytes(mode)));
  }

  // memcpy of a value
  method PutBytes(bytes: seq<Byte>, data: array<Byte>, pos: nat) returns (next: nat)
    requires pos + |bytes| <= data.Length
    modifies data
    ensures next == pos + |bytes| && Kept(old(data[..]), data[..], pos, next) && Holds(data[..], pos, bytes)
  {
    var i := 0;
    while i < |bytes|
      invariant i <= |bytes|
      invariant forall j :: 0 <= j < i ==> bytes[j] == data[pos + j]
      invariant forall j :: 0 <= j < data.Length && !(pos <= j < pos + i) ==> data[j] == old(data[j])
    {
      data[pos + i] := bytes[i];
      i := i + 1;
    }
    next := pos + |bytes|;
  }
}
