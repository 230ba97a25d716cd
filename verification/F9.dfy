// lib/crypt/snow-3g.c: snow_3g_f9, the UIA2 message authentication code, after its key stream.
module F9 {
  import opened Gf2
  import opened Mul64
  import Prelude

  // c = 0x1b
  const C: Poly := {0, 1, 3, 4}

  // ---------- Bytes and numbers as sets of bits ----------

  ghost predicate Octets(data: seq<Poly>) { forall k :: 0 <= k < |data| ==> Below(data[k], 8) }

  // The binary digits of n.
  function Bits(n: nat): Poly {
    if n == 0 then {} else (if n % 2 == 1 then {0} else {}) + Shift(Bits(n / 2), 1)
  }

  lemma Scales(p: int, d: int)
    requires p >= 1
    ensures d >= 1 ==> p * d >= p
    ensures d <= -1 ==> p * d <= -p
  {
  }

  lemma QuotientIs(n: int, p: int, q: int, r: int)
    requires n == p * q + r && 0 <= r < p
    ensures n / p == q
  {
    var d := n / p - q;
    assert p * d == r - n % p by {
      assert n == p * (n / p) + n % p;
      assert p * d == p * (n / p) - p * q;
    }
    Scales(p, d);
  }

  lemma HalfThen(n: nat, p: nat)
    requires p >= 1
    ensures n / 2 / p == n / (2 * p)
  {
    var q, r := n / 2 / p, n / 2 % p;
    assert n == 2 * (p * q) + 2 * r + n % 2;
    assert 2 * (p * q) == (2 * p) * q;
    QuotientIs(n, 2 * p, q, 2 * r + n % 2);
  }

  // The exponents of a word are the places of its one bits.
  lemma {:induction false} BitsAre(n: nat, e: nat)
    ensures e in Bits(n) <==> n / Prelude.Pow2(e) % 2 == 1
    decreases n
  {
    hide Shift;
    if n == 0 {
    } else if e == 0 {
      assert Prelude.Pow2(0) == 1;
    } else {
      BitsAre(n / 2, e - 1);
      HalfThen(n, Prelude.Pow2(e - 1));
    }
  }

  // c is the word 0x1b.
  lemma CIsBits()
    ensures C == Bits(0x1b)
  {
    assert Bits(1) == {0};
    assert Bits(3) == {0, 1};
    assert Bits(6) == {1, 2};
    assert Bits(13) == {0, 2, 3};
  }

  // (1 << n) - 1
  function Ones(n: nat): (m: Poly)
    ensures forall e: nat :: e in m <==> e < n
  {
    if n == 0 then {} else Ones(n - 1) + {n - 1}
  }

  // mask8bit: the n high bits of a byte
  function Mask8Bit(n: nat): (m: Poly)
    requires 1 <= n <= 7
    ensures forall e :: e in m <==> 8 - n <= e < 8
  {
    Add(Ones(8), Ones(8 - n))
  }

  // ---------- Blocks ----------

  // Bit t of a message, counted from the high bit of its first byte.
  predicate MessageBit(data: seq<Poly>, t: nat) { t / 8 < |data| && 7 - t % 8 in data[t / 8] }

  // The polynomial of the first n bits of block i, high coefficients first.
  function Head(data: seq<Poly>, i: nat, n: nat): (r: Poly)
    ensures Word(r)
    ensures forall e: nat :: e in r <==> e < 64 && 63 - e < n && MessageBit(data, 64 * i + (63 - e))
  {
    set e | e in Ones(64) && 63 - e < n && MessageBit(data, 64 * i + (63 - e))
  }

  // Block i of a message of length bits, with zeros behind its end.
  function Block(data: seq<Poly>, length: nat, i: nat): (r: Poly)
    ensures Word(r)
  {
    Head(data, i, if length < 64 * i then 0 else length - 64 * i)
  }

  // Where coefficient e of block i is in the message.
  lemma Position(data: seq<Poly>, i: nat, k: nat, j: nat)
    requires k < 8 && j < 8 && 8 * i + k < |data|
    ensures MessageBit(data, 64 * i + 8 * k + (7 - j)) <==> j in data[8 * i + k]
  {
    var t := 64 * i + 8 * k + (7 - j);
    assert t / 8 == 8 * i + k && t % 8 == 7 - j;
  }

  // The coefficients that byte k of block i stands for.
  lemma HeadBit(data: seq<Poly>, i: nat, k: nat, n: nat, e: nat)
    requires Octets(data) && k < 8 && 8 * i + k < |data| && n <= 8
    ensures e in Head(data, i, 8 * k + n) <==>
            e in Head(data, i, 8 * k) || (e >= 8 * (7 - k) && e - 8 * (7 - k) in data[8 * i + k] && e - 8 * (7 - k) >= 8 - n)
  {
    var j := e - 8 * (7 - k);
    if 0 <= j < 8 {
      Position(data, i, k, j);
      assert 64 * i + (63 - e) == 64 * i + 8 * k + (7 - j);
    }
  }

  lemma HeadByte(data: seq<Poly>, i: nat, k: nat, n: nat, m: nat)
    requires Octets(data) && k < 8 && 8 * i + k < |data| && n == 8 * k && m == n + 8
    ensures Head(data, i, m) == Head(data, i, n) + Shift(data[8 * i + k], 8 * (7 - k))
  {
    var a, b := Head(data, i, m), Head(data, i, n) + Shift(data[8 * i + k], 8 * (7 - k));
    forall e: nat
      ensures e in a <==> e in b
    {
      HeadBit(data, i, k, 8, e);
    }
  }

  lemma HeadPart(data: seq<Poly>, i: nat, k: nat, n: nat, r: nat)
    requires Octets(data) && k < 8 && 8 * i + k < |data| && 1 <= r <= 7 && n == 8 * k
    ensures Head(data, i, n + r) == Head(data, i, n) + Shift(data[8 * i + k] * Mask8Bit(r), 8 * (7 - k))
  {
    var a, b := Head(data, i, n + r), Head(data, i, n) + Shift(data[8 * i + k] * Mask8Bit(r), 8 * (7 - k));
    forall e: nat
      ensures e in a <==> e in b
    {
      HeadBit(data, i, k, r, e);
    }
  }

  // The first k bytes of block i, each shifted to its place in the word.
  function Bytes(data: seq<Poly>, i: nat, k: nat): Poly
    requires k <= 8 && 8 * i + k <= |data|
  {
    if k == 0 then {} else Bytes(data, i, k - 1) + Shift(data[8 * i + (k - 1)], 8 * (7 - (k - 1)))
  }

  lemma {:induction false} BytesAre(data: seq<Poly>, i: nat, k: nat, n: nat)
    requires Octets(data) && k <= 8 && 8 * i + k <= |data| && n == 8 * k
    ensures Bytes(data, i, k) == Head(data, i, n)
  {
    hide Head, Octets;
    if k == 0 {
      HeadNone(data, i);
    } else {
      BytesAre(data, i, k - 1, n - 8);
      BytesNext(data, i, k, n);
    }
  }

  lemma BytesNext(data: seq<Poly>, i: nat, k: nat, n: nat)
    requires Octets(data) && 1 <= k <= 8 && 8 * i + k <= |data| && n == 8 * k
    requires Bytes(data, i, k - 1) == Head(data, i, n - 8)
    ensures Bytes(data, i, k) == Head(data, i, n)
  {
    hide Octets, Head, Shift;
    HeadByte(data, i, k - 1, n - 8, n);
  }

  lemma HeadNone(data: seq<Poly>, i: nat)
    ensures Head(data, i, 0) == {}
  {
  }

  lemma WordIsBlock(data: seq<Poly>, length: nat, i: nat)
    requires Octets(data) && 8 * i + 8 <= |data| && 64 * i + 64 <= length
    ensures Bytes(data, i, 8) == Block(data, length, i)
  {
    BytesAre(data, i, 8, 64);
    HeadFull(data, i, length - 64 * i);
  }

  lemma HeadFull(data: seq<Poly>, i: nat, n: nat)
    requires n >= 64
    ensures Head(data, i, n) == Head(data, i, 64)
  {
  }

  // ---------- Evaluation ----------

  // p^k
  function Power(p: Poly, k: nat): (r: Poly)
    ensures Word(p) ==> Word(r)
  {
    if k == 0 then {0} else Mul(Power(p, k - 1), p, C)
  }

  // The polynomial of the first k blocks at p, as the standard has it: the sum of the blocks
  // times the powers of p, the first block with the highest.
  function Evaluated(data: seq<Poly>, length: nat, p: Poly, n: nat, k: nat): (r: Poly)
    requires k <= n
    ensures Word(p) ==> Word(r)
  {
    if k == 0 then {} else Add(Evaluated(data, length, p, n, k - 1), Mul(Block(data, length, k - 1), Power(p, n - (k - 1)), C))
  }

  // One block more raises every power by one.
  lemma {:induction false} Raised(data: seq<Poly>, length: nat, p: Poly, n: nat, k: nat)
    requires Word(p) && k <= n
    ensures Evaluated(data, length, p, n + 1, k) == Mul(Evaluated(data, length, p, n, k), p, C)
  {
    if k == 0 {
      SumZero(p, 64, C);
    } else {
      Raised(data, length, p, n, k - 1);
      var m, w := Block(data, length, k - 1), Power(p, n - (k - 1));
      Associates(m, w, p, C);
      assert Power(p, n + 1 - (k - 1)) == Mul(w, p, C);
      Distributes(Evaluated(data, length, p, n, k - 1), Mul(m, w, C), p, C);
    }
  }

  // One turn of the loop.
  lemma Horner(data: seq<Poly>, length: nat, p: Poly, k: nat)
    requires Word(p)
    ensures Evaluated(data, length, p, k + 1, k + 1) == Mul(Add(Evaluated(data, length, p, k, k), Block(data, length, k)), p, C)
  {
    Raised(data, length, p, k, k);
    var m := Block(data, length, k);
    Distributes(Evaluated(data, length, p, k, k), m, p, C);
    Commutes({0}, p, C);
    One(p, C);
    assert Power(p, 1) == Mul(Power(p, 0), p, C) == p;
  }

  // The blocks depend on the message alone: not on what follows its last bit.
  lemma {:induction false} OnlyMessage(data: seq<Poly>, other: seq<Poly>, length: nat, p: Poly, n: nat, k: nat)
    requires k <= n && forall t :: 0 <= t < length ==> (MessageBit(data, t) <==> MessageBit(other, t))
    ensures Evaluated(data, length, p, n, k) == Evaluated(other, length, p, n, k)
  {
    if k == 0 {
    } else {
      OnlyMessage(data, other, length, p, n, k - 1);
      assert Block(data, length, k - 1) == Block(other, length, k - 1);
    }
  }

  // ---------- The code ----------

  // (w >> s) & 0xff
  function ByteOf(w: Poly, s: nat): (b: Poly)
    ensures forall e: nat :: e in b <==> e < 8 && e + s in w
  {
    set e | e in Ones(8) && e + s in w
  }

  const WORD32 := 0x1_0000_0000

  // D, the number of blocks with the one that holds the length
  function Blocks(length: nat): nat {
    (if length % 64 == 0 then length / 64 + 1 else length / 64 + 2) % WORD32
  }

  // D - 2 in unsigned arithmetic: how many turns the loop over the blocks takes
  function Turns(length: nat): nat { (Blocks(length) + WORD32 - 2) % WORD32 }

  // It takes one for each block but the last, except for an empty message, for which D - 2 wraps.
  lemma TurnsExact(length: nat)
    requires length / 64 + 2 < WORD32
    ensures Turns(length) == (length + 63) / 64 - 1 <==> length > 0
    ensures length == 0 ==> Turns(length) == WORD32 - 1
  {
    if length % 64 == 0 {
      assert (length + 63) / 64 == length / 64;
    } else {
      assert (length + 63) / 64 == length / 64 + 1;
    }
  }

  // The last block, whose bits behind the end of the message are cleared.
  method LastBlock(data: seq<Poly>, length: nat, i: nat) returns (m: Poly)
    requires Octets(data) && length <= 8 * |data| && 64 * i < length <= 64 * i + 64
    ensures m == Block(data, length, i)
  {
    var rem := length % 64;
    if rem == 0 {
      rem := 64;
    }
    assert rem == length - 64 * i;
    m := {};
    var k := 0;
    ghost var n := 0;
    HeadNone(data, i);
    while rem > 7
      invariant k <= 8 && rem >= 0 && n == 8 * k && rem + n == length - 64 * i && m == Head(data, i, n)
    {
      HeadByte(data, i, k, n, n + 8);
      m := m + Shift(data[8 * i + k], 8 * (7 - k));
      rem, k, n := rem - 8, k + 1, n + 8;
    }
    if rem > 0 {
      HeadPart(data, i, k, n, rem);
      m := m + Shift(data[8 * i + k] * Mask8Bit(rem), 8 * (7 - k));
      n := n + rem;
    }
  }

  // The loop over the blocks, and the last one.
  method Evaluate(p: Poly, data: seq<Poly>, length: nat) returns (eval: Poly)
    requires Word(p) && Octets(data) && 0 < length <= 8 * |data| && length <= 8 * WORD32
    ensures var n := (length + 63) / 64; eval == Evaluated(data, length, p, n, n)
  {
    hide Word, Octets, Evaluated, Block, Add, Mul;
    var turns := Turns(length);
    TurnsExact(length);
    eval := {};
    var i := 0;
    EvaluatedNone(data, length, p);
    while i < turns
      invariant i <= turns && eval == Evaluated(data, length, p, i, i)
    {
      WordIsBlock(data, length, i);
      Horner(data, length, p, i);
      var v := Add(eval, Bytes(data, i, 8));
      eval := MUL64(v, p, C);
      i := i + 1;
    }
    var m := LastBlock(data, length, i);
    Horner(data, length, p, i);
    eval := MUL64(Add(eval, m), p, C);
  }

  lemma EvaluatedNone(data: seq<Poly>, length: nat, p: Poly)
    ensures Evaluated(data, length, p, 0, 0) == {}
  {
  }

  // Four bytes out of two words.
  function Output(eval: Poly, z5: Poly): (out: seq<Poly>)
    ensures |out| == 4
  {
    seq(4, k requires 0 <= k < 4 => Add(ByteOf(eval, 56 - 8 * k), ByteOf(z5, 24 - 8 * k)))
  }

  lemma OutputBit(eval: Poly, z5: Poly, t: nat)
    requires t < 32
    ensures MessageBit(Output(eval, z5), t) <==> (63 - t in eval) != (31 - t in z5)
  {
    var k, e := t / 8, 7 - t % 8;
    var out := Output(eval, z5);
    assert out[k] == Add(ByteOf(eval, 56 - 8 * k), ByteOf(z5, 24 - 8 * k));
    assert e + (56 - 8 * k) == 63 - t && e + (24 - 8 * k) == 31 - t;
  }

  // snow_3g_f9 from P, Q and z_5: the first 32 coefficients of (M(p) + length) q, plus z_5, where
  // M has the blocks of the message as coefficients.
  method Mac(p: Poly, q: Poly, z5: Poly, data: seq<Poly>, length: nat) returns (out: seq<Poly>)
    requires Word(p) && Word(q) && Octets(data) && 0 < length <= 8 * |data| && length <= 8 * WORD32
    ensures |out| == 4
    ensures var n := (length + 63) / 64;
      var eval := Mul(Add(Evaluated(data, length, p, n, n), Bits(length)), q, C);
      forall t :: 0 <= t < 32 ==> (MessageBit(out, t) <==> (63 - t in eval) != (31 - t in z5))
  {
    hide Word, Octets, Evaluated, Add, Mul, Bits;
    var eval := Evaluate(p, data, length);
    eval := Add(eval, Bits(length));
    eval := MUL64(eval, q, C);
    out := Output(eval, z5);
    forall t | 0 <= t < 32
      ensures MessageBit(out, t) <==> (63 - t in eval) != (31 - t in z5)
    {
      OutputBit(eval, z5, t);
    }
  }
}
