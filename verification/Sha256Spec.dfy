// Sections 5.1.1 and 6.2.2 of FIPS 180-2: padding, and the fold of a compression function over
// the blocks of a message.  The compression function and its chaining value are parameters.
module Sha256Spec {
  import opened Prelude

  const BLOCK := 64

  ghost function Fold<H>(compress: (H, seq<Byte>) -> H, h: H, bytes: seq<Byte>): H
    decreases |bytes|
  {
    if |bytes| < BLOCK then h else Fold(compress, compress(h, bytes[..BLOCK]), bytes[BLOCK..])
  }

  function Zeros(n: nat): seq<Byte> { seq(n, _ => 0) }

  // The number of zero bytes behind the byte 0x80.
  function ZeroBytes(length: nat): nat { (119 - length % BLOCK) % BLOCK }

  // What follows a message of this length: the bit 1, zeros, and the length in bits in 64 bits.
  function Padding(length: nat): seq<Byte> { [0x80] + Zeros(ZeroBytes(length)) + BigEndian(8 * length, 8) }

  lemma {:induction false} FoldAppend<H>(compress: (H, seq<Byte>) -> H, h: H, a: seq<Byte>, b: seq<Byte>)
    requires |a| % BLOCK == 0
    ensures Fold(compress, h, a + b) == Fold(compress, Fold(compress, h, a), b)
    decreases |a|
  {
    if a == [] {
      assert a + b == b;
    } else {
      assert (a + b)[..BLOCK] == a[..BLOCK] && (a + b)[BLOCK..] == a[BLOCK..] + b;
      FoldAppend(compress, compress(h, a[..BLOCK]), a[BLOCK..], b);
    }
  }

  lemma FoldOne<H>(compress: (H, seq<Byte>) -> H, h: H, a: seq<Byte>)
    requires |a| == BLOCK
    ensures Fold(compress, h, a) == compress(h, a)
  {
    assert a[..BLOCK] == a && Fold(compress, compress(h, a), a[BLOCK..]) == compress(h, a);
  }

  // ---------- The four low bytes of the length ----------

  const WORD := 0x1_0000_0000

  lemma Pow8(k: nat)
    ensures Pow2(k + 8) == 256 * Pow2(k)
  {
    assert Pow2(k + 2) == 4 * Pow2(k);
    assert Pow2(k + 4) == 4 * Pow2(k + 2);
    assert Pow2(k + 6) == 4 * Pow2(k + 4);
    assert Pow2(k + 8) == 4 * Pow2(k + 6);
  }

  // The digits of a number are those of its high part and then those of its low part.
  lemma {:induction false} Digits(n: nat, high: nat, low: nat, i: nat, j: nat, p: nat)
    requires p == Pow2(8 * j) && n == p * high + low && low < p
    ensures BigEndian(n, i + j) == BigEndian(high, i) + BigEndian(low, j)
    decreases j
  {
    if j == 0 {
    } else {
      Pow8(8 * (j - 1));
      var q := Pow2(8 * (j - 1));
      LastByte(n, p, q, high, low);
      Digits(n / 256, high, low / 256, i, j - 1, q);
      LastDigit(n, high, low, i, j);
    }
  }

  lemma LastByte(n: nat, p: nat, q: nat, high: nat, low: nat)
    requires p == 256 * q && n == p * high + low && low < p
    ensures n / 256 == q * high + low / 256 && n % 256 == low % 256 && low / 256 < q
  {
    var a := q * high;
    assert n == 256 * a + low;
  }

  lemma LastDigit(n: nat, high: nat, low: nat, i: nat, j: nat)
    requires j > 0 && n % 256 == low % 256
    requires BigEndian(n / 256, i + (j - 1)) == BigEndian(high, i) + BigEndian(low / 256, j - 1)
    ensures BigEndian(n, i + j) == BigEndian(high, i) + BigEndian(low, j)
  {
    assert BigEndian(n, i + j) == BigEndian(n / 256, i + (j - 1)) + [n % 256];
  }

  lemma Halves(n: nat)
    ensures BigEndian(n, 8) == BigEndian(n / WORD, 4) + BigEndian(n % WORD, 4)
  {
    Pow32();
    assert n == WORD * (n / WORD) + n % WORD;
    Digits(n, n / WORD, n % WORD, 4, 4, WORD);
  }

  lemma {:induction false} NoBytes(k: nat)
    ensures BigEndian(0, k) == Zeros(k)
  {
    if k == 0 {
    } else {
      NoBytes(k - 1);
    }
  }

  // A number that is not zero has a byte that is not, if it has room.
  lemma {:induction false} SomeByte(n: nat, k: nat)
    requires 0 < n < Pow2(8 * k)
    ensures BigEndian(n, k) != Zeros(k)
    decreases k
  {
    if k == 0 {
    } else {
      if n % 256 == 0 {
        Pow8(8 * (k - 1));
        SomeByte(n / 256, k - 1);
        assert BigEndian(n, k)[..k - 1] == BigEndian(n / 256, k - 1) && Zeros(k)[..k - 1] == Zeros(k - 1);
      } else {
        assert BigEndian(n, k)[k - 1] != Zeros(k)[k - 1];
      }
    }
  }

  // Four bytes of length, with four zero bytes before them, are the length of eight bytes that
  // the standard asks for exactly for messages under 2^29 bytes.
  lemma ShortLength(length: nat)
    requires length < 0x2000_0000_0000_0000
    ensures Zeros(4) + BigEndian(8 * length % WORD, 4) == BigEndian(8 * length, 8) <==> length < 0x2000_0000
  {
    var n := 8 * length;
    Halves(n);
    if length < 0x2000_0000 {
      NoBytes(4);
      assert n / WORD == 0;
    } else {
      assert 0 < n / WORD < WORD;
      Pow32();
      SomeByte(n / WORD, 4);
      assert (Zeros(4) + BigEndian(n % WORD, 4))[..4] == Zeros(4) && BigEndian(n, 8)[..4] == BigEndian(n / WORD, 4);
    }
  }

  lemma Pow32()
    ensures Pow2(32) == WORD
  {
    Pow8(0);
    Pow8(8);
    Pow8(16);
    Pow8(24);
  }
}
