// lib/core/ogs-hash.c: keys, their hash, and the bucket a hash selects.
module HashKey {
  import opened Prelude

  // OGS_HASH_KEY_STRING
  const KEY_STRING := -1

  // The key that a pointer to mem and a length stand for: the bytes up to the first NUL when the
  // length is KEY_STRING.
  function KeyOf(mem: seq<Byte>, klen: int): (key: seq<Byte>)
    requires Readable(mem, klen)
  {
    if klen == KEY_STRING then UpToNul(mem) else mem[..klen]
  }

  // What the source demands of a key's memory.
  predicate Readable(mem: seq<Byte>, klen: int) {
    if klen == KEY_STRING then 0 in mem else 0 < klen <= |mem|
  }

  function UpToNul(mem: seq<Byte>): seq<Byte>
    requires 0 in mem
  {
    if mem[0] == 0 then [] else [mem[0]] + UpToNul(mem[1..])
  }

  // The key of an explicit length is that many bytes, whatever they are, so that two such keys are
  // the same exactly when their bytes are.
  lemma ExplicitKeys(a: seq<Byte>, b: seq<Byte>, n: nat)
    requires Readable(a, n) && Readable(b, n)
    ensures |KeyOf(a, n)| == n && forall i :: 0 <= i < n ==> KeyOf(a, n)[i] == a[i]
    ensures KeyOf(a, n) == KeyOf(b, n) <==> forall i :: 0 <= i < n ==> a[i] == b[i]
  {
    if forall i :: 0 <= i < n ==> a[i] == b[i] {
      assert a[..n] == b[..n];
    } else {
      assert exists i :: 0 <= i < n && a[..n][i] != b[..n][i];
    }
  }

  // The times-33 hash of a key, in 32-bit arithmetic.
  function Times33(key: seq<Byte>, seed: nat): nat {
    if key == [] then seed else (Times33(key[..|key| - 1], seed) * 33 + key[|key| - 1]) % 0x1_0000_0000
  }

  function Power33(k: nat): nat { if k == 0 then 1 else 33 * Power33(k - 1) }

  // The bytes of a key times powers of 33, the last byte times 1.
  function Weighted(key: seq<Byte>): nat {
    if key == [] then 0 else key[0] * Power33(|key| - 1) + Weighted(key[1..])
  }

  lemma {:induction false} WeightedSnoc(key: seq<Byte>, b: Byte)
    ensures Weighted(key + [b]) == 33 * Weighted(key) + b
    decreases key
  {
    if key == [] {
      assert Weighted([b]) == b * Power33(0) + Weighted([]);
    } else {
      assert (key + [b])[1..] == key[1..] + [b];
      WeightedSnoc(key[1..], b);
      Times(key[0], Power33(|key| - 1));
    }
  }

  lemma Times(a: nat, p: nat)
    ensures a * (33 * p) == 33 * (a * p)
  {
  }

  // The hash is the seed and the bytes, each times its power of 33, modulo 2^32.
  lemma {:induction false} Times33Is(key: seq<Byte>, seed: nat)
    requires seed < 0x1_0000_0000
    ensures Times33(key, seed) == (seed * Power33(|key|) + Weighted(key)) % 0x1_0000_0000
    decreases key
  {
    if key == [] {
    } else {
      var front, b := key[..|key| - 1], key[|key| - 1];
      Times33Is(front, seed);
      WeightedSnoc(front, b);
      assert key == front + [b];
      Times(seed, Power33(|front|));
      StepMod(seed * Power33(|front|) + Weighted(front), b);
    }
  }

  lemma StepMod(x: nat, b: nat)
    ensures (x % 0x1_0000_0000 * 33 + b) % 0x1_0000_0000 == (33 * x + b) % 0x1_0000_0000
  {
  }

  lemma TimesNext(mem: seq<Byte>, p: nat, seed: nat)
    requires p < |mem|
    ensures Times33(mem[..p + 1], seed) == (Times33(mem[..p], seed) * 33 + mem[p]) % 0x1_0000_0000
  {
    assert mem[..p + 1][..p] == mem[..p];
  }

  // hashfunc_default, which also tells the length of the key.
  method HashDefault(mem: seq<Byte>, klen: int, seed: nat) returns (hash: nat, length: nat)
    requires Readable(mem, klen)
    ensures length == |KeyOf(mem, klen)| <= |mem| && mem[..length] == KeyOf(mem, klen)
    ensures klen == KEY_STRING ==> length < |mem| && mem[length] == 0 && 0 !in mem[..length]
    ensures klen != KEY_STRING ==> length == klen
    ensures hash == Times33(KeyOf(mem, klen), seed)
  {
    hash := seed;
    assert mem[..0] == [] && Times33([], seed) == seed;
    hide Times33;
    if klen == KEY_STRING {
      var p := 0;
      while mem[p] != 0
        invariant p < |mem| && 0 in mem[p..] && hash == Times33(mem[..p], seed) && 0 !in mem[..p]
        invariant mem[..p] + UpToNul(mem[p..]) == UpToNul(mem)
        decreases |mem| - p
      {
        UpToNext(mem, p);
        TimesNext(mem, p, seed);
        hash := (hash * 33 + mem[p]) % 0x1_0000_0000;
        p := p + 1;
      }
      length := p;
      assert UpToNul(mem[p..]) == [] && mem[..p] + [] == mem[..p];
    } else {
      var i := 0;
      while i < klen
        invariant i <= klen && hash == Times33(mem[..i], seed)
      {
        TimesNext(mem, i, seed);
        hash := (hash * 33 + mem[i]) % 0x1_0000_0000;
        i := i + 1;
      }
      length := klen;
    }
  }

  lemma UpToNext(mem: seq<Byte>, p: nat)
    requires p < |mem| && 0 in mem[p..] && mem[p] != 0
    ensures p + 1 < |mem| && 0 in mem[p + 1..]
    ensures mem[..p] + UpToNul(mem[p..]) == mem[..p + 1] + UpToNul(mem[p + 1..])
  {
    var rest := mem[p..];
    assert rest == [mem[p]] + mem[p + 1..] && rest[1..] == mem[p + 1..];
    assert mem[..p] + ([mem[p]] + UpToNul(mem[p + 1..])) == mem[..p + 1] + UpToNul(mem[p + 1..]);
  }

  // A string key and the same bytes with their length are the same key.
  lemma {:induction false} StringIsBytes(mem: seq<Byte>, bytes: seq<Byte>)
    requires bytes != [] && 0 !in bytes && bytes <= mem && |bytes| < |mem| && mem[|bytes|] == 0
    ensures Readable(mem, KEY_STRING) && Readable(mem, |bytes|)
    ensures KeyOf(mem, KEY_STRING) == KeyOf(mem, |bytes|) == bytes
  {
    assert mem[|bytes|] in mem;
    UpToIs(mem, bytes);
  }

  lemma {:induction false} UpToIs(mem: seq<Byte>, bytes: seq<Byte>)
    requires 0 !in bytes && bytes <= mem && |bytes| < |mem| && mem[|bytes|] == 0
    ensures 0 in mem && UpToNul(mem) == bytes
    decreases bytes
  {
    assert mem[|bytes|] in mem;
    if bytes == [] {
    } else {
      assert mem[0] == bytes[0] && bytes[0] in bytes;
      assert forall i :: 0 <= i < |bytes| - 1 ==> mem[1..][i] == bytes[1..][i];
      UpToIs(mem[1..], bytes[1..]);
    }
  }

  // ---------- Buckets ----------

  // a & b
  function And(a: nat, b: nat): nat {
    if a == 0 || b == 0 then 0 else 2 * And(a / 2, b / 2) + (a % 2) * (b % 2)
  }

  // Masking with 2^k - 1 is the remainder by 2^k.
  lemma {:induction false} AndMask(h: nat, k: nat)
    ensures And(h, Pow2(k) - 1) == h % Pow2(k)
    decreases k
  {
    if k == 0 {
    } else {
      var m := Pow2(k - 1);
      AndMask(h / 2, k - 1);
      HalfMod(h, m);
      Odd(m);
      assert And(h, 2 * m - 1) == if h == 0 then 0 else 2 * And(h / 2, m - 1) + h % 2;
    }
  }

  lemma Odd(m: nat)
    requires m >= 1
    ensures (2 * m - 1) / 2 == m - 1 && (2 * m - 1) % 2 == 1
  {
  }

  lemma HalfMod(h: nat, m: nat)
    requires m >= 1
    ensures h % (2 * m) == 2 * (h / 2 % m) + h % 2
  {
    var q, r := h / 2 / m, h / 2 % m;
    assert h / 2 == m * q + r;
    assert h == (2 * m) * q + (2 * r + h % 2);
    ModIs(h, 2 * m, q, 2 * r + h % 2);
  }

  lemma ModIs(a: nat, n: nat, q: nat, r: nat)
    requires n >= 1 && a == n * q + r && r < n
    ensures a % n == r
  {
    assert a == n * (a / n) + a % n;
    Order(n, a / n, q);
    Order(n, q, a / n);
  }

  lemma Order(n: nat, p: nat, q: nat)
    ensures p < q ==> n * p + n <= n * q
  {
    if p < q {
      assert n * q == n * p + n * (q - p) && n * (q - p) == n + n * (q - p - 1) && n * (q - p - 1) >= 0;
    }
  }

  // A mask keeps the bucket inside the array.
  lemma {:induction false} AndBelow(h: nat, m: nat)
    ensures And(h, m) <= m
    decreases m
  {
    if h == 0 || m == 0 {
    } else {
      AndBelow(h / 2, m / 2);
      assert (h % 2) * (m % 2) <= m % 2;
    }
  }
}
