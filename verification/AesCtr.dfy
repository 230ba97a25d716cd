// lib/crypt/ogs-aes.c: counter mode over a 128-bit block cipher, which is a parameter.
module AesCtr {
  import opened Prelude
  import opened AesCounter

  // ---------- Encryption ----------

  // A block cipher, under some key, gives sixteen bytes of key stream for a counter.
  ghost predicate Blocks(cipher: seq<Byte> -> seq<bv8>) {
    forall b :: |b| == 16 ==> |cipher(b)| == 16
  }

  // The k-th counter after v.
  function Counter(v: nat, k: nat): nat { (v + k) % RANGE }

  // Section 6.5 of NIST SP 800-38A: the key stream for that counter, and byte l of all of it.
  function Block(cipher: seq<Byte> -> seq<bv8>, v: nat, k: nat): (e: seq<bv8>)
    requires Blocks(cipher)
    ensures |e| == 16
  {
    cipher(BigEndian(Counter(v, k), 16))
  }

  function Stream(cipher: seq<Byte> -> seq<bv8>, v: nat, l: nat): bv8
    requires Blocks(cipher)
  {
    Block(cipher, v, l / 16)[l % 16]
  }

  function Ctr(cipher: seq<Byte> -> seq<bv8>, v: nat, text: seq<bv8>): (r: seq<bv8>)
    requires Blocks(cipher)
    ensures |r| == |text|
  {
    seq(|text|, l requires 0 <= l < |text| => text[l] ^ Stream(cipher, v, l))
  }

  // Every byte of out is the byte of text at its place plus that byte of what the cipher makes of
  // the counter of its block: iv itself for the first, and one more for each that follows.
  ghost predicate CounterMode(cipher: seq<Byte> -> seq<bv8>, iv: seq<Byte>, text: seq<bv8>, out: seq<bv8>)
    requires Blocks(cipher)
  {
    && |text| <= |out|
    && forall l: nat, c: seq<Byte> :: l < |text| && |c| == 16 && Value(c) == (Value(iv) + l / 16) % RANGE ==>
         out[l] == text[l] ^ cipher(c)[l % 16]
  }

  lemma CtrIs(cipher: seq<Byte> -> seq<bv8>, iv: seq<Byte>, text: seq<bv8>, rest: seq<bv8>)
    requires Blocks(cipher) && |iv| == 16
    ensures CounterMode(cipher, iv, text, Ctr(cipher, Value(iv), text) + rest)
    ensures forall l: nat :: l < 16 && l < |text| ==> (Ctr(cipher, Value(iv), text) + rest)[l] == text[l] ^ cipher(iv)[l]
  {
    hide Ctr, Value;
    var out := Ctr(cipher, Value(iv), text) + rest;
    forall l: nat, c: seq<Byte> | l < |text| && |c| == 16 && Value(c) == (Value(iv) + l / 16) % RANGE
      ensures out[l] == text[l] ^ cipher(c)[l % 16]
    {
      CtrByte(cipher, Value(iv), text, l, c);
    }
    First(iv);
    forall l: nat | l < 16 && l < |text|
      ensures out[l] == text[l] ^ cipher(iv)[l]
    {
      CtrByte(cipher, Value(iv), text, l, iv);
    }
  }

  lemma CtrByte(cipher: seq<Byte> -> seq<bv8>, v: nat, text: seq<bv8>, l: nat, c: seq<Byte>)
    requires Blocks(cipher) && l < |text| && |c| == 16 && Value(c) == Counter(v, l / 16)
    ensures Ctr(cipher, v, text)[l] == text[l] ^ cipher(c)[l % 16]
  {
    hide Counter, Value;
    Spelled(c);
  }

  lemma Xored(a: bv8, b: bv8)
    ensures (a ^ b) ^ b == a
  {
  }

  // Encrypting twice from the same counter restores the text.
  lemma Restores(cipher: seq<Byte> -> seq<bv8>, v: nat, text: seq<bv8>)
    requires Blocks(cipher)
    ensures Ctr(cipher, v, Ctr(cipher, v, text)) == text
  {
    hide Stream;
    forall l | 0 <= l < |text|
      ensures Ctr(cipher, v, Ctr(cipher, v, text))[l] == text[l]
    {
      Xored(text[l], Stream(cipher, v, l));
    }
  }

  // A text may be cut after whole blocks and continued with the counter that the first part left.
  lemma Continues(cipher: seq<Byte> -> seq<bv8>, v: nat, a: seq<bv8>, b: seq<bv8>)
    requires Blocks(cipher) && |a| % 16 == 0
    ensures Ctr(cipher, v, a + b) == Ctr(cipher, v, a) + Ctr(cipher, Counter(v, |a| / 16), b)
  {
    var c, d := Ctr(cipher, v, a + b), Ctr(cipher, v, a) + Ctr(cipher, Counter(v, |a| / 16), b);
    forall l | 0 <= l < |c|
      ensures c[l] == d[l]
    {
      if l >= |a| {
        SameBlock(v, |a|, l - |a|);
        hide Counter;
      }
    }
  }

  lemma SameBlock(v: nat, a: nat, l: nat)
    requires a % 16 == 0
    ensures (a + l) / 16 == a / 16 + l / 16 && (a + l) % 16 == l % 16
    ensures Counter(v, (a + l) / 16) == Counter(Counter(v, a / 16), l / 16)
  {
    Sums(v, a / 16, l / 16);
  }

  lemma Sums(v: nat, j: nat, k: nat)
    ensures Counter(v, j + k) == Counter(Counter(v, j), k)
  {
  }

  // ecount_buf for the counter, which is then incremented
  method NextBlock(cipher: seq<Byte> -> seq<bv8>, ivec: array<Byte>, host: Host, aligned: bool, ghost v: nat, ghost k: nat)
    returns (e: seq<bv8>)
    requires Blocks(cipher) && host.Valid() && ivec.Length == 16 && Value(ivec[..]) == Counter(v, k)
    modifies ivec
    ensures Value(ivec[..]) == Counter(v, k + 1) && e == Block(cipher, v, k)
  {
    e := cipher(ivec[..]);
    Spelled(ivec[..]);
    Sums(v, k, 1);
    hide Value;
    IncAligned(ivec, host, aligned);
  }

  // ogs_aes_ctr128_encrypt.  in_ and out may be the same buffer.
  method Encrypt(cipher: seq<Byte> -> seq<bv8>, ivec: array<Byte>, in_: array<bv8>, out: array<bv8>, host: Host, aligned: bool)
    requires Blocks(cipher) && host.Valid() && ivec.Length == 16 && 0 < in_.Length <= out.Length
    requires (ivec as object) != in_ && (ivec as object) != out
    modifies ivec, out
    ensures out[..] == Ctr(cipher, Value(old(ivec[..])), old(in_[..])) + old(out[in_.Length..])
    ensures CounterMode(cipher, old(ivec[..]), old(in_[..]), out[..])
    ensures forall l: nat :: l < 16 && l < in_.Length ==> out[l] == old(in_[l]) ^ cipher(old(ivec[..]))[l]
    ensures Value(ivec[..]) == Counter(Value(old(ivec[..])), (in_.Length + 15) / 16)
  {
    ghost var v, iv, text, was, k := Value(ivec[..]), ivec[..], in_[..], out[..], 0;
    First(ivec[..]);
    hide Counter, Block, Value, Stream, CounterMode, Ctr;
    var pos, len := 0, in_.Length;
    while len >= 16
      invariant pos == 16 * k && pos + len == in_.Length && len >= 0 && Value(ivec[..]) == Counter(v, k)
      invariant Encrypted(cipher, v, text, out[..], pos) && Rest(in_[..], text, pos) && Rest(out[..], was, in_.Length)
    {
      var e := NextBlock(cipher, ivec, host, aligned, v, k);
      ghost var a, b := in_[..], out[..];
      XorBlock(in_, out, pos, e, host.word);
      Extends(cipher, v, text, a, b, out[..], k, pos, 16);
      pos, len, k := pos + 16, len - 16, k + 1;
    }
    if len != 0 {
      var e := NextBlock(cipher, ivec, host, aligned, v, k);
      ghost var a, b := in_[..], out[..];
      XorRest(in_, out, pos, len, e);
      Extends(cipher, v, text, a, b, out[..], k, pos, len);
      k := k + 1;
    }
    assert k == (in_.Length + 15) / 16;
    Ends(cipher, iv, text, was, out[..]);
  }

  // From place n on, the two agree.
  ghost predicate Rest(a: seq<bv8>, b: seq<bv8>, n: nat) {
    |a| == |b| && forall l :: n <= l < |a| ==> a[l] == b[l]
  }

  lemma All(cipher: seq<Byte> -> seq<bv8>, v: nat, text: seq<bv8>, was: seq<bv8>, out: seq<bv8>)
    requires Blocks(cipher) && Encrypted(cipher, v, text, out, |text|) && Rest(out, was, |text|)
    ensures out == Ctr(cipher, v, text) + was[|text|..]
  {
    hide Stream;
    assert out[..|text|] == Ctr(cipher, v, text);
  }

  // All of the text is encrypted.
  lemma Ends(cipher: seq<Byte> -> seq<bv8>, iv: seq<Byte>, text: seq<bv8>, was: seq<bv8>, out: seq<bv8>)
    requires Blocks(cipher) && |iv| == 16 && Encrypted(cipher, Value(iv), text, out, |text|) && Rest(out, was, |text|)
    ensures out == Ctr(cipher, Value(iv), text) + was[|text|..] && CounterMode(cipher, iv, text, out)
    ensures forall l: nat :: l < 16 && l < |text| ==> out[l] == text[l] ^ cipher(iv)[l]
  {
    hide Ctr, Value, Encrypted, CounterMode;
    All(cipher, Value(iv), text, was, out);
    CtrIs(cipher, iv, text, was[|text|..]);
  }

  lemma First(bytes: seq<Byte>)
    requires |bytes| == 16
    ensures Value(bytes) == Counter(Value(bytes), 0)
  {
    Bytes(bytes);
    Powers();
  }

  // The first n bytes of out are encrypted.
  ghost predicate Encrypted(cipher: seq<Byte> -> seq<bv8>, v: nat, text: seq<bv8>, out: seq<bv8>, n: nat)
    requires Blocks(cipher)
  {
    n <= |text| <= |out| && forall l :: 0 <= l < n ==> out[l] == text[l] ^ Stream(cipher, v, l)
  }

  // now is was with n bytes of text at pos, under e.
  ghost predicate Written(text: seq<bv8>, was: seq<bv8>, now: seq<bv8>, pos: nat, n: nat, e: seq<bv8>) {
    && n <= |e| && pos + n <= |text| <= |was| == |now|
    && forall l :: 0 <= l < |now| ==> now[l] == if pos <= l < pos + n then text[l] ^ e[l - pos] else was[l]
  }

  // n bytes more, out of block k.
  lemma Extends(cipher: seq<Byte> -> seq<bv8>, v: nat, text: seq<bv8>, a: seq<bv8>, b: seq<bv8>, now: seq<bv8>,
                k: nat, pos: nat, n: nat)
    requires Blocks(cipher) && pos == 16 * k && Encrypted(cipher, v, text, b, pos) && n <= 16
    requires Rest(a, text, pos) && Written(a, b, now, pos, n, Block(cipher, v, k))
    ensures Encrypted(cipher, v, text, now, pos + n) && Rest(now, b, pos + n)
  {
    hide Block;
    forall l | 0 <= l < pos + n
      ensures now[l] == text[l] ^ Stream(cipher, v, l)
    {
      if l >= pos {
        assert l / 16 == k && l % 16 == l - pos;
      }
    }
  }

  // Sixteen bytes, a word at a time.
  method XorBlock(in_: array<bv8>, out: array<bv8>, pos: nat, e: seq<bv8>, w: nat)
    requires Size(w) && |e| == 16 && pos + 16 <= in_.Length <= out.Length
    modifies out
    ensures Written(old(in_[..]), old(out[..]), out[..], pos, 16, e)
  {
    var n := 0;
    while n < 16
      invariant n <= 16 && (w == 4 ==> n % 4 == 0) && (w == 8 ==> n % 8 == 0)
      invariant forall l :: 0 <= l < out.Length ==> out[l] == if pos <= l < pos + n then old(in_[l]) ^ e[l - pos] else old(out[l])
    {
      assert n + w <= 16 && forall l :: pos + n <= l < in_.Length ==> in_[l] == old(in_[l]);
      XorWord(in_, out, pos, n, w, e);
      n := n + w;
    }
  }

  method XorWord(in_: array<bv8>, out: array<bv8>, pos: nat, n: nat, w: nat, e: seq<bv8>)
    requires n + w <= |e| && pos + n + w <= in_.Length <= out.Length
    modifies out
    ensures forall l :: 0 <= l < out.Length ==> out[l] == if pos + n <= l < pos + n + w then old(in_[l]) ^ e[l - pos] else old(out[l])
  {
    forall l | pos + n <= l < pos + n + w {
      out[l] := in_[l] ^ e[l - pos];
    }
  }

  method XorRest(in_: array<bv8>, out: array<bv8>, pos: nat, len: nat, e: seq<bv8>)
    requires |e| == 16 && len < 16 && pos + len == in_.Length <= out.Length
    modifies out
    ensures Written(old(in_[..]), old(out[..]), out[..], pos, len, e)
  {
    var n := 0;
    while n < len
      invariant n <= len
      invariant forall l :: 0 <= l < out.Length ==> out[l] == if pos <= l < pos + n then old(in_[l]) ^ e[l - pos] else old(out[l])
    {
      out[pos + n] := in_[pos + n] ^ e[n];
      n := n + 1;
    }
  }

  lemma ExtendsByOne(cipher: seq<Byte> -> seq<bv8>, v: nat, text: seq<bv8>, a: seq<bv8>, b: seq<bv8>, now: seq<bv8>, l: nat)
    requires Blocks(cipher) && l < |text| <= |b| && Encrypted(cipher, v, text, b, l) && Rest(a, text, l)
    requires now == b[l := a[l] ^ Block(cipher, v, l / 16)[l % 16]]
    ensures Encrypted(cipher, v, text, now, l + 1) && Rest(now, b, l + 1)
  {
    hide Block;
  }

  lemma NextByte(l: nat)
    ensures l % 16 == 0 ==> (l + 1 + 15) / 16 == (l + 15) / 16 + 1 && (l + 15) / 16 == l / 16
    ensures l % 16 != 0 ==> (l + 1 + 15) / 16 == (l + 15) / 16
    ensures (l + 1) % 16 == (l % 16 + 1) % 16 && ((l + 1) % 16 != 0 ==> (l + 1) / 16 == l / 16)
  {
  }

  // The loop byte by byte that the source keeps for understanding: the same bytes and the same
  // final counter, for every length.
  method Reference(cipher: seq<Byte> -> seq<bv8>, ivec: array<Byte>, in_: array<bv8>, out: array<bv8>)
    requires Blocks(cipher) && ivec.Length == 16 && in_.Length <= out.Length
    requires (ivec as object) != in_ && (ivec as object) != out
    modifies ivec, out
    ensures out[..] == Ctr(cipher, Value(old(ivec[..])), old(in_[..])) + old(out[in_.Length..])
    ensures CounterMode(cipher, old(ivec[..]), old(in_[..]), out[..])
    ensures forall l: nat :: l < 16 && l < in_.Length ==> out[l] == old(in_[l]) ^ cipher(old(ivec[..]))[l]
    ensures Value(ivec[..]) == Counter(Value(old(ivec[..])), (in_.Length + 15) / 16)
  {
    ghost var v, iv, text, was := Value(ivec[..]), ivec[..], in_[..], out[..];
    First(ivec[..]);
    hide Counter, Block, Value, Stream, CounterMode, Ctr;
    var l, n, e := 0, 0, [];
    while l < in_.Length
      invariant l <= in_.Length && n == l % 16 && Value(ivec[..]) == Counter(v, (l + 15) / 16)
      invariant n != 0 ==> e == Block(cipher, v, l / 16)
      invariant Encrypted(cipher, v, text, out[..], l) && Rest(in_[..], text, l) && Rest(out[..], was, in_.Length)
    {
      NextByte(l);
      if n == 0 {
        e := NextBlock(cipher, ivec, Host(true, 8), false, v, (l + 15) / 16);
      }
      ghost var a, b := in_[..], out[..];
      out[l] := in_[l] ^ e[n];
      ExtendsByOne(cipher, v, text, a, b, out[..], l);
      l, n := l + 1, (n + 1) % 16;
    }
    Ends(cipher, iv, text, was, out[..]);
  }
}
