// lib/crypt/ogs-sha2.c: SHA-256 in any number of updates.
module Sha256 {
  import opened Prelude
  import opened Sha256Spec

  function Word32(n: nat): nat { n % WORD }

  // ogs_sha256_ctx
  class Context<H> {
    const compress: (H, seq<Byte>) -> H
    const h0: H
    var h: H
    var totLen: nat
    var len: nat
    const block: array<Byte>
    ghost var seen: seq<Byte>  // what was hashed since the start

    // The state after hashing seen: the whole blocks are folded in, and the rest waits in block.
    ghost predicate Valid()
      reads this, block
    {
      && block.Length == 2 * BLOCK && len < BLOCK && len == |seen| % BLOCK && totLen == Word32(|seen| - len)
      && h == Fold(compress, h0, seen[..|seen| - len]) && block[..len] == seen[|seen| - len..]
    }

    // ogs_sha256_init
    constructor (compress: (H, seq<Byte>) -> H, h0: H)
      ensures Valid() && seen == [] && this.compress == compress && this.h0 == h0 && fresh(block)
    {
      this.compress, this.h0, this.h := compress, h0, h0;
      totLen, len, seen := 0, 0, [];
      block := new Byte[2 * BLOCK](_ => 0);
    }

    // sha256_transf
    method Transform(message: seq<Byte>, n: nat)
      requires |message| >= BLOCK * n
      modifies this`h
      ensures h == Fold(compress, old(h), message[..BLOCK * n])
    {
      var i := 0;
      assert message[..BLOCK * 0] == [];
      while i < n
        invariant i <= n && h == Fold(compress, old(h), message[..BLOCK * i])
      {
        ghost var done, next := message[..BLOCK * i], message[BLOCK * i..BLOCK * i + BLOCK];
        h := compress(h, message[BLOCK * i..BLOCK * i + BLOCK]);
        FoldAppend(compress, old(h), done, next);
        FoldOne(compress, Fold(compress, old(h), done), next);
        assert message[..BLOCK * (i + 1)] == done + next;
        i := i + 1;
      }
    }

    // memcpy into block
    method Copy(at: nat, bytes: seq<Byte>)
      requires at + |bytes| <= block.Length
      modifies block
      ensures block[..] == old(block[..at]) + bytes + old(block[at + |bytes|..])
    {
      for k := 0 to |bytes|
        invariant forall l :: 0 <= l < block.Length ==> block[l] == if at <= l < at + k then bytes[l - at] else old(block[l])
      {
        block[at + k] := bytes[k];
      }
    }

    // ogs_sha256_update.  The length is a 32-bit number, and its sum with what waits in block is
    // taken modulo 2^32.
    method Update(message: seq<Byte>)
      requires Valid() && |message| < WORD
      modifies this, block
      ensures old(len) + |message| < WORD ==> Valid() && seen == old(seen) + message
      ensures old(len) + |message| >= WORD ==> h == old(h) && totLen == old(totLen) && len == old(len) + |message| - WORD
    {
      hide Fold;
      var tmpLen := BLOCK - len;
      var remLen := if |message| < tmpLen then |message| else tmpLen;
      ghost var s, waiting := seen, block[..len];
      Copy(len, message[..remLen]);
      assert block[..len + remLen] == waiting + message[..remLen];
      if Word32(len + |message|) < BLOCK {
        len := Word32(len + |message|);
        seen := seen + message;
        if old(len) + |message| < WORD {
          assert message[..remLen] == message;
          Waits(s, message, waiting, block[..len]);
        }
      } else {
        Flush(message, remLen, s, waiting);
      }
    }

    // The rest of ogs_sha256_update, with the first block full.
    method Flush(message: seq<Byte>, filled: nat, ghost s: seq<Byte>, ghost waiting: seq<Byte>)
      requires block.Length == 2 * BLOCK && len == |s| % BLOCK == |waiting| && waiting == s[|s| - len..] && len + filled == BLOCK
      requires filled <= |message| < WORD && len + |message| < WORD && block[..BLOCK] == waiting + message[..filled]
      requires totLen == Word32(|s| - len) && h == Fold(compress, h0, s[..|s| - len])
      modifies this, block
      ensures Valid() && seen == s + message
    {
      hide Fold, Word32;
      var newLen := |message| - filled;
      var n := newLen / BLOCK;
      var shifted := message[filled..];
      var full := block[..BLOCK];
      assert full[..BLOCK * 1] == full && full == s[|s| - len..] + message[..BLOCK - len];
      FoldOne(compress, h, full);
      Transform(full, 1);
      Transform(shifted, n);
      Flushed(compress, h0, s, message, len, full, shifted, n);
      var remLen := newLen % BLOCK;
      assert |shifted| == BLOCK * n + remLen && shifted[BLOCK * n..BLOCK * n + remLen] == shifted[BLOCK * n..];
      Copy(0, shifted[BLOCK * n..BLOCK * n + remLen]);
      assert block[..remLen] == shifted[BLOCK * n..];
      Wraps(|s| - len, (n + 1) * BLOCK);
      len := remLen;
      totLen := Word32(totLen + (n + 1) * BLOCK);
      seen := s + message;
    }

    // ogs_sha256_final, up to the bytes of the digest: they are the words of h.
    method Final() returns (digest: H)
      requires Valid()
      modifies this, block
      ensures digest == Fold(compress, h0, old(seen) + Tail(|old(seen)|))
    {
      ghost var m, waiting, done := seen, block[..len], seen[..|seen| - len];
      assert m == done + waiting;
      Whole(|m|);
      var n := Close();
      hide Fold, Tail;
      var last := block[..BLOCK * n];
      Transform(last, n);
      assert last[..BLOCK * n] == last;
      Closed(compress, h0, m, done, waiting, Tail(|m|));
      digest := h;
    }

    // The padding behind what waits in block, which takes one block or two.
    method Close() returns (n: nat)
      requires Valid()
      modifies block
      ensures n <= 2 && block[..BLOCK * n] == old(block[..len]) + Tail(|seen|)
    {
      n := if BLOCK - 9 < len % BLOCK then 2 else 1;
      var bits := Word32(8 * Word32(totLen + len));
      Ended(seen, block[..len], len, BLOCK * n, totLen, bits);
      hide Fold, Word32, Tail, Zeros, BigEndian;
      Pad(BLOCK * n, bits);
    }

    method Pad(pmLen: nat, bits: nat)
      requires block.Length == 2 * BLOCK && len + 5 <= pmLen <= 2 * BLOCK
      modifies block
      ensures block[..pmLen] == old(block[..len]) + [0x80] + Zeros(pmLen - len - 5) + BigEndian(bits, 4)
    {
      hide BigEndian;
      ghost var w, b0 := block[..len], block[..];
      Copy(len, Zeros(pmLen - len));
      ghost var b1 := block[..];
      Overlaid(b0, len, Zeros(pmLen - len), b1, pmLen);
      Copy(len, [0x80]);
      ghost var b2 := block[..];
      Overlaid(b1, len, [0x80], b2, pmLen);
      Copy(pmLen - 4, BigEndian(bits, 4));
      Overlaid(b2, pmLen - 4, BigEndian(bits, 4), block[..], pmLen);
      Padded(w, pmLen - len - 5, b1[..pmLen], b2[..pmLen]);
      assert b2[..pmLen - 4] == b2[..pmLen][..pmLen - 4];
      assert block[..pmLen] == block[..][..pmLen];
    }
  }

  // The first n bytes, when bytes have been written over a from place at on.
  lemma Overlaid(a: seq<Byte>, at: nat, bytes: seq<Byte>, b: seq<Byte>, n: nat)
    requires at + |bytes| <= n <= |a| && b == a[..at] + bytes + a[at + |bytes|..]
    ensures |b| == |a| && b[..n] == a[..n][..at] + bytes + a[..n][at + |bytes|..] && a[..n][..at] == a[..at]
  {
  }

  lemma Padded(w: seq<Byte>, z: nat, b1: seq<Byte>, b2: seq<Byte>)
    requires |b1| == |w| + (z + 5) && b1 == b1[..|w|] + Zeros(z + 5) + b1[|w| + (z + 5)..] && b1[..|w|] == w
    requires b2 == b1[..|w|] + [0x80] + b1[|w| + 1..]
    ensures |b2| == |b1| && b2[..|w| + 1 + z] == w + [0x80] + Zeros(z)
  {
    assert b1 == w + Zeros(z + 5);
    assert b1[|w| + 1..] == Zeros(z + 4);
  }

  lemma Whole(a: nat)
    ensures (a - a % BLOCK) % BLOCK == 0
  {
  }

  lemma Wraps(a: nat, b: nat)
    ensures Word32(Word32(a) + b) == Word32(a + b)
  {
  }

  lemma Closed<H>(compress: (H, seq<Byte>) -> H, h0: H, m: seq<Byte>, a: seq<Byte>, waiting: seq<Byte>, tail: seq<Byte>)
    requires m == a + waiting && |a| % BLOCK == 0
    ensures Fold(compress, Fold(compress, h0, a), waiting + tail) == Fold(compress, h0, m + tail)
  {
    hide Fold;
    Regroup(a, waiting, tail);
    FoldAppend(compress, h0, a, waiting + tail);
  }

  lemma Regroup(a: seq<Byte>, b: seq<Byte>, c: seq<Byte>)
    ensures a + b + c == a + (b + c)
  {
  }

  // What ogs_sha256_final puts behind a message: the standard's padding with only the four low
  // bytes of the length.
  function Tail(length: nat): seq<Byte> {
    [0x80] + Zeros(ZeroBytes(length)) + Zeros(4) + BigEndian(8 * length % WORD, 4)
  }

  // It is the padding of the standard exactly for messages under 2^29 bytes.
  lemma TailIsPadding(length: nat)
    requires length < 0x2000_0000_0000_0000
    ensures Tail(length) == Padding(length) <==> length < 0x2000_0000
  {
    ShortLength(length);
    var z, a, b := [0x80] + Zeros(ZeroBytes(length)), Zeros(4) + BigEndian(8 * length % WORD, 4), BigEndian(8 * length, 8);
    assert Tail(length) == z + a && Padding(length) == z + b;
    assert (z + a)[|z|..] == a && (z + b)[|z|..] == b;
  }

  // A message that does not fill the block waits behind what was waiting.
  lemma Waits(s: seq<Byte>, message: seq<Byte>, waiting: seq<Byte>, now: seq<Byte>)
    requires |waiting| == |s| % BLOCK && waiting == s[|s| - |waiting|..] && |waiting| + |message| < BLOCK
    requires now == waiting + message
    ensures var t := s + message;
      |t| % BLOCK == |now| && t[..|t| - |now|] == s[..|s| - |waiting|] && t[|t| - |now|..] == now
  {
  }

  // The blocks that a longer message fills.
  lemma Flushed<H>(compress: (H, seq<Byte>) -> H, h0: H, s: seq<Byte>, message: seq<Byte>, len: nat, full: seq<Byte>,
                   shifted: seq<Byte>, n: nat)
    requires len == |s| % BLOCK && |message| >= BLOCK - len && shifted == message[BLOCK - len..] && n == |shifted| / BLOCK
    requires full == s[|s| - len..] + message[..BLOCK - len]
    ensures var t, rest := s + message, |shifted| % BLOCK;
      && |t| % BLOCK == rest && |t| - rest == |s| - len + (n + 1) * BLOCK && t[|t| - rest..] == shifted[BLOCK * n..]
      && Fold(compress, h0, t[..|t| - rest]) ==
         Fold(compress, Fold(compress, Fold(compress, h0, s[..|s| - len]), full), shifted[..BLOCK * n])
  {
    var t, rest := s + message, |shifted| % BLOCK;
    assert |t| == (|s| - len) + BLOCK * (n + 1) + rest;
    var a, b, d := s[..|s| - len], full, shifted[..BLOCK * n];
    assert t[..|t| - rest] == a + (b + d);
    FoldAppend(compress, h0, a, b + d);
    FoldAppend(compress, Fold(compress, h0, a), b, d);
  }

  // The last blocks.
  lemma Ended(m: seq<Byte>, waiting: seq<Byte>, len: nat, pmLen: nat, totLen: nat, bits: nat)
    requires len == |m| % BLOCK == |waiting| && totLen == Word32(|m| - len) && bits == Word32(8 * Word32(totLen + len))
    requires pmLen == if BLOCK - 9 < len then 2 * BLOCK else BLOCK
    ensures pmLen >= len + 9
    ensures waiting + [0x80] + Zeros(pmLen - len - 5) + BigEndian(bits, 4) == waiting + Tail(|m|)
  {
    hide Word32, BigEndian;
    Wraps(|m| - len, len);
    Times8(|m|);
    assert ZeroBytes(|m|) == pmLen - len - 9;
    assert Zeros(ZeroBytes(|m|)) + Zeros(4) == Zeros(pmLen - len - 5);
    hide BigEndian;
  }

  lemma Times8(a: nat)
    ensures Word32(8 * Word32(a)) == 8 * a % WORD
  {
  }

  // ogs_sha256, over any number of updates: however the message is cut, the digest is that of the
  // whole, and it is the standard's exactly while the length fits.
  method Digest<H>(compress: (H, seq<Byte>) -> H, h0: H, chunks: seq<seq<Byte>>) returns (digest: H)
    requires |Concat(chunks)| < 0x2000_0000
    ensures digest == Fold(compress, h0, Concat(chunks) + Padding(|Concat(chunks)|))
  {
    var ctx := new Context(compress, h0);
    var i := 0;
    assert chunks[..0] == [];
    while i < |chunks|
      invariant i <= |chunks| && ctx.Valid() && fresh(ctx) && fresh(ctx.block) && ctx.compress == compress && ctx.h0 == h0
      invariant ctx.seen == Concat(chunks[..i])
    {
      ConcatNext(chunks, i);
      ctx.Update(chunks[i]);
      i := i + 1;
    }
    assert chunks[..i] == chunks;
    TailIsPadding(|Concat(chunks)|);
    digest := ctx.Final();
  }

  ghost function Concat(chunks: seq<seq<Byte>>): seq<Byte> {
    if chunks == [] then [] else Concat(chunks[..|chunks| - 1]) + chunks[|chunks| - 1]
  }

  lemma {:induction false} ConcatNext(chunks: seq<seq<Byte>>, i: nat)
    requires i < |chunks|
    ensures Concat(chunks[..i + 1]) == Concat(chunks[..i]) + chunks[i]
    ensures |Concat(chunks[..i])| + |chunks[i]| <= |Concat(chunks)|
    decreases |chunks|
  {
    assert chunks[..i + 1][..i] == chunks[..i];
    if i + 1 < |chunks| {
      var front := chunks[..|chunks| - 1];
      ConcatNext(front, i);
      assert front[..i] == chunks[..i];
    } else {
      assert chunks[..i + 1] == chunks;
    }
  }
}
