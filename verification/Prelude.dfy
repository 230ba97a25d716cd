// What several modules share.
module Prelude {
  type Byte = b: int | 0 <= b < 256

  datatype Option<T> = None | Some(value: T)

  // A null pointer among positions.
  const NONE := -1

  function Pow2(k: nat): (r: nat)
    ensures r >= 1
  {
    if k == 0 then 1 else 2 * Pow2(k - 1)
  }

  // The low k bytes of n, the most significant first.
  function BigEndian(n: nat, k: nat): (bs: seq<Byte>)
    ensures |bs| == k
  {
    if k == 0 then [] else BigEndian(n / 256, k - 1) + [n % 256]
  }

  ghost predicate Distinct(s: seq<int>) {
    forall i, j :: 0 <= i < j < |s| ==> s[i] != s[j]
  }

  ghost function Below(n: nat): set<int> {
    if n == 0 then {} else Below(n - 1) + {n - 1}
  }

  lemma {:induction false} BelowIs(n: nat)
    ensures |Below(n)| == n
    ensures forall x :: x in Below(n) <==> 0 <= x < n
    decreases n
  {
    if n == 0 {
    } else {
      BelowIs(n - 1);
    }
  }

  lemma {:induction false} SetSize(s: seq<int>)
    requires Distinct(s)
    ensures |set y | y in s| == |s|
    decreases s
  {
    if s == [] {
    } else {
      var t := s[..|s| - 1];
      SetSize(t);
      assert s == t + [s[|s| - 1]];
      assert (set y | y in s) == (set y | y in t) + {s[|s| - 1]};
    }
  }

  lemma {:induction false} SubsetSize<T>(a: set<T>, b: set<T>)
    requires a <= b
    ensures |a| <= |b|
    decreases a
  {
    if a == {} {
    } else {
      var x :| x in a;
      SubsetSize(a - {x}, b - {x});
    }
  }

  // Distinct slots below n that leave one out are fewer than n.
  lemma Pigeonhole(s: seq<int>, n: nat, x: int)
    requires Distinct(s) && x !in s && 0 <= x < n && forall y :: y in s ==> 0 <= y < n
    ensures |s| < n
  {
    BelowIs(n);
    SetSize(s);
    SubsetSize((set y | y in s), Below(n) - {x});
  }
}
