// lib/crypt/ogs-aes.c: the 128-bit counter of counter mode, incremented byte by byte or by words.
module AesCounter {
  import opened Prelude

  const RANGE: nat := 0x1_0000_0000_0000_0000_0000_0000_0000_0000

  // ---------- Digits ----------

  // The number that digits to a base spell, the highest first.
  function Spell(ds: seq<nat>, base: nat): nat {
    if ds == [] then 0 else base * Spell(ds[..|ds| - 1], base) + ds[|ds| - 1]
  }

  function Power(base: nat, k: nat): (r: nat)
    ensures base >= 1 ==> r >= 1
  {
    if k == 0 then 1 else base * Power(base, k - 1)
  }

  ghost predicate Digits(ds: seq<nat>, base: nat) { forall k :: 0 <= k < |ds| ==> ds[k] < base }

  lemma {:induction false} SpellBelow(ds: seq<nat>, base: nat)
    requires Digits(ds, base)
    ensures Spell(ds, base) < Power(base, |ds|)
    decreases ds
  {
    if ds == [] {
    } else {
      SpellBelow(ds[..|ds| - 1], base);
      Tops(base, Spell(ds[..|ds| - 1], base), Power(base, |ds| - 1), ds[|ds| - 1]);
    }
  }

  lemma Tops(base: nat, s: nat, p: nat, d: nat)
    requires s < p && d < base
    ensures base * s + d < base * p
  {
    assert base * s + base == base * (s + 1) <= base * p;
  }

  lemma {:induction false} SpellParts(a: seq<nat>, b: seq<nat>, base: nat)
    ensures Spell(a + b, base) == Spell(a, base) * Power(base, |b|) + Spell(b, base)
    decreases |b|
  {
    if b == [] {
      assert a + b == a;
    } else {
      var front, last := b[..|b| - 1], b[|b| - 1];
      SpellParts(a, front, base);
      assert (a + b)[..|a + b| - 1] == a + front && (a + b)[|a + b| - 1] == last;
      Shuffle(base, Spell(a, base), Power(base, |front|), Spell(front, base), last);
    }
  }

  lemma Shuffle(base: nat, a: nat, p: nat, f: nat, x: nat)
    ensures base * (a * p + f) + x == a * (base * p) + (base * f + x)
  {
    assert base * (a * p) == a * (base * p);
  }

  lemma Front(x: nat, rest: seq<nat>, base: nat)
    ensures Spell([x] + rest, base) == x * Power(base, |rest|) + Spell(rest, base)
  {
    assert Spell([x], base) == x by {
      assert [x][..0] == [];
    }
    SpellParts([x], rest, base);
  }

  lemma NoDigits(base: nat)
    ensures Spell([], base) == 0 && Power(base, 0) == 1
  {
  }

  // One digit of an addition with carry.
  lemma Carried(base: nat, old_: nat, new_: nat, c: nat, x: nat, d: nat, p: nat, rest: nat)
    requires base > 0 && new_ + c * p == rest + 1 && x == c + old_ && d == x / base
    ensures x % base * p + new_ + d * (base * p) == old_ * p + rest + 1
  {
    assert x == base * d + x % base;
    assert x * p == (base * d + x % base) * p == d * (base * p) + x % base * p;
    assert x * p == c * p + old_ * p;
  }

  lemma CarryBelow(base: nat, b: nat, c: nat)
    requires base > 1 && b < base && c <= 1
    ensures (c + b) / base == (if c + b == base then 1 else 0) && (c + b) % base == if c + b == base then 0 else c + b
  {
    if c + b < base {
      assert (c + b) / base == 0;
    } else {
      assert c + b == base * 1 + 0;
    }
  }

  // A turn of either loop: the digit b and the carry c become x % base and x / base.
  lemma IncStep(rest: seq<nat>, was: seq<nat>, base: nat, b: nat, c: nat, x: nat)
    requires |rest| == |was| && base > 1 && b < base && c <= 1 && x == c + b
    requires Spell(rest, base) + c * Power(base, |rest|) == Spell(was, base) + 1
    ensures x / base <= 1
    ensures Spell([x % base] + rest, base) + x / base * Power(base, |rest| + 1) == Spell([b] + was, base) + 1
  {
    CarryBelow(base, b, c);
    Front(x % base, rest, base);
    Front(b, was, base);
    Carried(base, b, Spell(rest, base), c, x, x / base, Power(base, |rest|), Spell(was, base));
  }

  // The carry out of the last digit is lost.
  lemma Wraps(ds: seq<nat>, base: nat, b: nat, c: nat)
    requires Digits(ds, base) && Power(base, |ds|) == RANGE && c <= 1 && Spell(ds, base) + c * RANGE == b + 1 && b < RANGE
    ensures Spell(ds, base) == (b + 1) % RANGE
  {
    SpellBelow(ds, base);
  }

  // ---------- Bytes ----------

  function Value(bytes: seq<Byte>): nat { Spell(bytes, 256) }

  lemma Bytes(bytes: seq<Byte>)
    ensures Digits(bytes, 256) && Value(bytes) < Power(256, |bytes|)
  {
    SpellBelow(bytes, 256);
  }

  // A string of bytes is the spelling of its value.
  lemma {:induction false} Spelled(bytes: seq<Byte>)
    ensures BigEndian(Value(bytes), |bytes|) == bytes
    decreases bytes
  {
    if bytes == [] {
    } else {
      var front := bytes[..|bytes| - 1];
      Spelled(front);
      assert Value(bytes) / 256 == Value(front) && Value(bytes) % 256 == bytes[|bytes| - 1];
      assert bytes == front + [bytes[|bytes| - 1]];
    }
  }

  lemma {:induction false} Renders(n: nat, k: nat)
    requires n < Power(256, k)
    ensures Value(BigEndian(n, k)) == n
    decreases k
  {
    if k == 0 {
    } else {
      Renders(n / 256, k - 1);
      var s := BigEndian(n / 256, k - 1) + [n % 256];
      assert s[..|s| - 1] == BigEndian(n / 256, k - 1);
    }
  }

  lemma Powers()
    ensures Power(256, 4) == 0x1_0000_0000 && Power(256, 8) == 0x1_0000_0000_0000_0000 && Power(256, 16) == RANGE
  {
    assert Power(256, 2) == 0x1_0000;
    assert Power(256, 4) == 0x1_0000 * Power(256, 2);
    assert Power(256, 6) == 0x1_0000 * Power(256, 4);
    assert Power(256, 8) == 0x1_0000 * Power(256, 6);
    assert Power(256, 10) == 0x1_0000 * Power(256, 8);
    assert Power(256, 12) == 0x1_0000 * Power(256, 10);
    assert Power(256, 14) == 0x1_0000 * Power(256, 12);
    assert Power(256, 16) == 0x1_0000 * Power(256, 14);
  }

  // The low bytes with the carry out of them are one more than they were.
  ghost predicate Summed(rest: seq<Byte>, was: seq<Byte>, c: nat) {
    |rest| == |was| && Value(rest) + c * Power(256, |rest|) == Value(was) + 1
  }

  lemma ByteStep(rest: seq<Byte>, was: seq<Byte>, b: Byte, c: nat, x: nat)
    requires Summed(rest, was, c) && c <= 1 && x == c + b
    ensures x / 256 <= 1 && Summed([x % 256] + rest, [b] + was, x / 256)
  {
    hide Spell, Power;
    IncStep(rest, was, 256, b, c, x);
  }

  lemma Closed(bytes: seq<Byte>, was: seq<Byte>, c: nat)
    requires |bytes| == 16 && c <= 1 && Summed(bytes, was, c)
    ensures Value(bytes) == (Value(was) + 1) % RANGE
  {
    Bytes(bytes);
    Bytes(was);
    Powers();
    hide Spell, Power;
    Wraps(bytes, 256, Value(was), c);
  }

  // ctr128_inc
  method Inc(counter: array<Byte>)
    requires counter.Length == 16
    modifies counter
    ensures Value(counter[..]) == (Value(old(counter[..])) + 1) % RANGE
  {
    ghost var before: seq<Byte>, rest: seq<Byte>, was: seq<Byte> := counter[..], [], [];
    var n, c: nat := 16, 1;
    NoDigits(256);
    assert Summed([], [], 1);
    hide Summed;
    while n != 0
      invariant 0 <= n <= 16 && c <= 1 && counter[..n] == before[..n]
      invariant counter[n..] == rest && before[n..] == was && |rest| == |was| == 16 - n
      invariant Summed(rest, was, c)
    {
      n := n - 1;
      var x := c + counter[n];
      ByteStep(rest, was, before[n], c, x);
      counter[n] := x % 256;
      c := x / 256;
      rest, was := [x % 256] + rest, [before[n]] + was;
    }
    assert counter[..] == rest && before == was;
    Closed(rest, was, c);
  }

  // ---------- Words ----------

  // A host stores the low or the high byte first, and sizeof(size_t) is 4 or 8.
  datatype Host = Host(little: bool, word: nat) {
    predicate Valid() { Size(word) }
  }

  predicate Size(w: nat) { w == 4 || w == 8 }

  // 16 / sizeof(size_t)
  function Count(w: nat): nat
    requires Size(w)
  {
    if w == 4 then 4 else 2
  }

  // ((d - c) & ~d) shifted down to its top bit, where d is the sum of old_ and c in a word
  function Carry(old_: nat, d: nat, base: nat): nat {
    if old_ >= base / 2 && d < base / 2 then 1 else 0
  }

  // That bit is the carry.
  lemma CarryIs(old_: nat, c: nat, base: nat)
    requires base >= 4 && base % 2 == 0 && old_ < base && c <= 1
    ensures Carry(old_, (c + old_) % base, base) == (c + old_) / base
  {
    CarryBelow(base, old_, c);
  }

  lemma WordStep(rest: seq<nat>, was: seq<nat>, base: nat, b: nat, c: nat, d: nat)
    requires |rest| == |was| && base >= 4 && base % 2 == 0 && b < base && c <= 1 && d == (b + c) % base
    requires Spell(rest, base) + c * Power(base, |rest|) == Spell(was, base) + 1
    ensures d < base && Carry(b, d, base) <= 1
    ensures Spell([d] + rest, base) + Carry(b, d, base) * Power(base, |rest| + 1) == Spell([b] + was, base) + 1
  {
    hide Spell, Power, Carry;
    assert b + c == c + b;
    CarryIs(b, c, base);
    IncStep(rest, was, base, b, c, c + b);
  }

  // The word loop of ctr128_inc_aligned, on a host that stores the high byte first.
  method IncWords(data: array<nat>, base: nat)
    requires base >= 4 && base % 2 == 0 && Digits(data[..], base) && Power(base, data.Length) == RANGE
    modifies data
    ensures Digits(data[..], base) && Spell(data[..], base) == (Spell(old(data[..]), base) + 1) % RANGE
  {
    ghost var before: seq<nat>, rest: seq<nat>, was: seq<nat> := data[..], [], [];
    var n, c: nat := data.Length, 1;
    NoDigits(base);
    SpellBelow(before, base);
    hide Spell, Power, Carry;
    while n != 0
      invariant 0 <= n <= data.Length && c <= 1 && data[..n] == before[..n]
      invariant data[n..] == rest && before[n..] == was && |rest| == |was| == data.Length - n && Digits(rest, base)
      invariant Spell(rest, base) + c * Power(base, |rest|) == Spell(was, base) + 1
    {
      n := n - 1;
      var d := (data[n] + c) % base;
      WordStep(rest, was, base, before[n], c, d);
      c := Carry(data[n], d, base);
      data[n] := d;
      rest, was := [d] + rest, [before[n]] + was;
    }
    assert data[..] == rest && before == was;
    Wraps(rest, base, Spell(before, base), c);
  }

  // The words of w bytes that a string of bytes is seen as.
  function WordsOf(bytes: seq<Byte>, w: nat): seq<nat>
    requires w > 0
    decreases |bytes|
  {
    if |bytes| < w then [] else WordsOf(bytes[..|bytes| - w], w) + [Value(bytes[|bytes| - w..])]
  }

  function BytesOf(words: seq<nat>, w: nat): seq<Byte> {
    if words == [] then [] else BytesOf(words[..|words| - 1], w) + BigEndian(words[|words| - 1], w)
  }

  // They spell the same number.
  lemma {:induction false} WordsSpell(bytes: seq<Byte>, w: nat)
    requires Size(w) && |bytes| % w == 0
    ensures Digits(WordsOf(bytes, w), Power(256, w)) && Spell(WordsOf(bytes, w), Power(256, w)) == Value(bytes)
    decreases |bytes|
  {
    hide Power, Spell;
    Shorter(|bytes|, w);
    if |bytes| < w {
      NoDigits(256);
      NoDigits(Power(256, w));
    } else {
      var front, last := bytes[..|bytes| - w], bytes[|bytes| - w..];
      WordsSpell(front, w);
      Bytes(last);
      assert bytes == front + last;
      SpellParts(front, last, 256);
      SpellSnoc(WordsOf(front, w), Value(last), Power(256, w));
    }
  }

  lemma Shorter(n: nat, w: nat)
    requires Size(w) && n % w == 0
    ensures if n < w then n == 0 else (n - w) % w == 0
  {
    if w == 4 {
      assert n % 4 == 0;
    } else {
      assert n % 8 == 0;
    }
  }

  lemma SpellSnoc(ds: seq<nat>, d: nat, base: nat)
    ensures Spell(ds + [d], base) == base * Spell(ds, base) + d
    ensures Digits(ds, base) && d < base ==> Digits(ds + [d], base)
  {
    assert (ds + [d])[..|ds|] == ds;
  }

  lemma {:induction false} BytesSpell(words: seq<nat>, w: nat)
    requires Digits(words, Power(256, w))
    ensures Value(BytesOf(words, w)) == Spell(words, Power(256, w))
    decreases words
  {
    if words == [] {
    } else {
      hide Spell, Power, BigEndian;
      var front, last := words[..|words| - 1], words[|words| - 1];
      BytesSpell(front, w);
      Renders(last, w);
      assert words == front + [last];
      Appended(BytesOf(front, w), BigEndian(last, w), front, last, w);
    }
  }

  lemma Appended(a: seq<Byte>, b: seq<Byte>, ds: seq<nat>, d: nat, w: nat)
    requires |b| == w && Value(b) == d && Value(a) == Spell(ds, Power(256, w))
    ensures Value(a + b) == Spell(ds + [d], Power(256, w))
  {
    hide Spell, Power;
    SpellParts(a, b, 256);
    SpellSnoc(ds, d, Power(256, w));
  }

  lemma WordsFour(bytes: seq<Byte>)
    requires |bytes| == 16
    ensures |WordsOf(bytes, 4)| == 4
  {
    hide Value;
    assert WordsOf(bytes[..12][..8][..4][..0], 4) == [];
    assert |WordsOf(bytes[..12][..8][..4], 4)| == 1;
    assert |WordsOf(bytes[..12][..8], 4)| == 2;
    assert |WordsOf(bytes[..12], 4)| == 3;
  }

  lemma WordsTwo(bytes: seq<Byte>)
    requires |bytes| == 16
    ensures |WordsOf(bytes, 8)| == 2
  {
    hide Value;
    assert WordsOf(bytes[..8][..0], 8) == [];
    assert |WordsOf(bytes[..8], 8)| == 1;
  }

  lemma {:induction false} BytesLength(words: seq<nat>, w: nat)
    ensures w == 4 ==> |BytesOf(words, w)| == 4 * |words|
    ensures w == 8 ==> |BytesOf(words, w)| == 8 * |words|
    decreases words
  {
    if words == [] {
    } else {
      BytesLength(words[..|words| - 1], w);
    }
  }

  lemma WordPower(w: nat)
    requires Size(w)
    ensures Power(Power(256, w), Count(w)) == RANGE && Power(256, w) >= 4 && Power(256, w) % 2 == 0
  {
    Powers();
    var b := Power(256, w);
    assert Power(b, 2) == b * b;
    assert Power(b, 4) == b * (b * Power(b, 2));
  }

  // What the word loop sees of sixteen bytes.
  lemma Loaded(bytes: seq<Byte>, w: nat)
    requires |bytes| == 16 && Size(w)
    ensures var words, base := WordsOf(bytes, w), Power(256, w);
      && |words| == Count(w) && Digits(words, base) && Spell(words, base) == Value(bytes)
      && Power(base, |words|) == RANGE && base >= 4 && base % 2 == 0
  {
    hide Spell, Power, Digits, Value;
    WordPower(w);
    if w == 4 {
      WordsFour(bytes);
    } else {
      WordsTwo(bytes);
    }
    WordsSpell(bytes, w);
  }

  lemma Stored(words: seq<nat>, w: nat)
    requires Size(w) && |words| == Count(w) && Digits(words, Power(256, w))
    ensures |BytesOf(words, w)| == 16 && Value(BytesOf(words, w)) == Spell(words, Power(256, w))
  {
    BytesLength(words, w);
    BytesSpell(words, w);
  }

  // ctr128_inc_aligned: byte by byte on a host that stores the low byte first, or when the
  // counter is not aligned, and otherwise by words.
  method IncAligned(counter: array<Byte>, host: Host, aligned: bool)
    requires counter.Length == 16 && host.Valid()
    modifies counter
    ensures Value(counter[..]) == (Value(old(counter[..])) + 1) % RANGE
  {
    hide Spell, Power, WordsOf, BytesOf, Digits, Value;
    if host.little || !aligned {
      Inc(counter);
      return;
    }
    var words, base := WordsOf(counter[..], host.word), Power(256, host.word);
    Loaded(counter[..], host.word);
    words := AddOne(words, base);
    Stored(words, host.word);
    var bytes := BytesOf(words, host.word);
    forall k | 0 <= k < 16 {
      counter[k] := bytes[k];
    }
    assert counter[..] == bytes;
  }

  method AddOne(words: seq<nat>, base: nat) returns (r: seq<nat>)
    requires base >= 4 && base % 2 == 0 && Digits(words, base) && Power(base, |words|) == RANGE
    ensures |r| == |words| && Digits(r, base) && Spell(r, base) == (Spell(words, base) + 1) % RANGE
  {
    hide Spell, Power, Digits;
    var data := new nat[|words|](i requires 0 <= i < |words| => words[i]);
    assert data[..] == words;
    IncWords(data, base);
    r := data[..];
  }
}
