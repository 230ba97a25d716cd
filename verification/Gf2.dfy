// Polynomials over GF(2), each the set of the exponents with coefficient 1.
module Gf2 {
  type Poly = set<nat>

  function Add(a: Poly, b: Poly): Poly { (a - b) + (b - a) }

  // a times x^k
  function Shift(a: Poly, k: nat): (r: Poly)
    ensures forall e :: e in r <==> e >= k && e - k in a
  {
    set i | i in a :: i + k
  }

  // a times the terms of b below x^n
  function Times(a: Poly, b: Poly, n: nat): Poly {
    if n == 0 then {} else Add(Times(a, b, n - 1), if n - 1 in b then Shift(a, n - 1) else {})
  }

  ghost predicate Below(a: Poly, n: nat) { forall e :: e in a ==> e < n }

  // a and b differ by a multiple of f.
  ghost predicate Congruent(a: Poly, b: Poly, f: Poly) {
    exists q, n :: Multiple(a, b, f, q, n)
  }

  ghost predicate Multiple(a: Poly, b: Poly, f: Poly, q: Poly, n: nat) { Below(q, n) && Add(a, b) == Times(f, q, n) }

  lemma AddZero(a: Poly)
    ensures Add(a, {}) == a && Add({}, a) == a && Add(a, a) == {}
  {
  }

  lemma AddSwaps(a: Poly, b: Poly)
    ensures Add(a, b) == Add(b, a)
  {
  }

  lemma AddSwap(a: Poly, b: Poly, c: Poly, d: Poly)
    ensures Add(Add(a, b), Add(c, d)) == Add(Add(a, c), Add(b, d))
  {
  }

  lemma ShiftAdd(a: Poly, b: Poly, k: nat)
    ensures Shift(Add(a, b), k) == Add(Shift(a, k), Shift(b, k))
  {
  }

  lemma ShiftShift(a: Poly, j: nat, k: nat)
    ensures Shift(Shift(a, j), k) == Shift(a, j + k)
  {
    forall e
      ensures e in Shift(Shift(a, j), k) <==> e in Shift(a, j + k)
    {
    }
  }

  lemma ShiftNone(k: nat)
    ensures Shift({}, k) == {}
  {
  }

  // ---------- Products ----------

  lemma {:induction false} TimesAdd(a: Poly, b: Poly, c: Poly, n: nat)
    ensures Times(a, Add(b, c), n) == Add(Times(a, b, n), Times(a, c, n))
  {
    if n == 0 {
      AddZero({});
    } else {
      TimesAdd(a, b, c, n - 1);
      var s, t := if n - 1 in b then Shift(a, n - 1) else {}, if n - 1 in c then Shift(a, n - 1) else {};
      AddSwap(Times(a, b, n - 1), Times(a, c, n - 1), s, t);
      AddZero(Shift(a, n - 1));
    }
  }

  lemma {:induction false} TimesMore(a: Poly, b: Poly, n: nat, m: nat)
    requires Below(b, n) && n <= m
    ensures Times(a, b, m) == Times(a, b, n)
    decreases m
  {
    if n == m {
    } else {
      TimesMore(a, b, n, m - 1);
      AddZero(Times(a, b, n));
    }
  }

  lemma {:induction false} TimesShift(a: Poly, b: Poly, n: nat)
    ensures Times(a, Shift(b, 1), n + 1) == Shift(Times(a, b, n), 1)
  {
    if n == 0 {
      ShiftNone(1);
      AddZero({});
    } else {
      TimesShift(a, b, n - 1);
      ShiftShift(a, n - 1, 1);
      ShiftNone(1);
      ShiftAdd(Times(a, b, n - 1), if n - 1 in b then Shift(a, n - 1) else {}, 1);
    }
  }

  // ---------- Congruence ----------

  lemma Same(a: Poly, f: Poly)
    ensures Congruent(a, a, f)
  {
    AddZero(a);
    assert Multiple(a, a, f, {}, 0);
  }

  lemma CongruentAdd(a: Poly, b: Poly, c: Poly, d: Poly, f: Poly)
    requires Congruent(a, b, f) && Congruent(c, d, f)
    ensures Congruent(Add(a, c), Add(b, d), f)
  {
    var q: Poly, n: nat :| Multiple(a, b, f, q, n);
    var r: Poly, m: nat :| Multiple(c, d, f, r, m);
    var k := if n < m then m else n;
    TimesMore(f, q, n, k);
    TimesMore(f, r, m, k);
    TimesAdd(f, q, r, k);
    AddSwap(a, c, b, d);
    assert Multiple(Add(a, c), Add(b, d), f, Add(q, r), k);
  }

  lemma CongruentShift(a: Poly, b: Poly, f: Poly)
    requires Congruent(a, b, f)
    ensures Congruent(Shift(a, 1), Shift(b, 1), f)
  {
    var q: Poly, n: nat :| Multiple(a, b, f, q, n);
    TimesShift(f, q, n);
    ShiftAdd(a, b, 1);
    assert Multiple(Shift(a, 1), Shift(b, 1), f, Shift(q, 1), n + 1);
  }

  lemma CongruentTrans(a: Poly, b: Poly, c: Poly, f: Poly)
    requires Congruent(a, b, f) && Congruent(b, c, f)
    ensures Congruent(a, c, f)
  {
    CongruentAdd(a, b, b, c, f);
    assert Add(Add(a, b), b) == a && Add(b, c) == Add(c, b) && Add(b, Add(c, b)) == c;
    CancelMiddle(a, b, c, f);
  }

  lemma CancelMiddle(a: Poly, b: Poly, c: Poly, f: Poly)
    requires Congruent(Add(a, b), Add(b, c), f)
    ensures Congruent(a, c, f)
  {
    var q: Poly, n: nat :| Multiple(Add(a, b), Add(b, c), f, q, n);
    assert Add(Add(a, b), Add(b, c)) == Add(a, c);
    assert Multiple(a, c, f, q, n);
  }

  // ---------- The remainder is unique ----------

  // A multiple of a polynomial of degree d has degree d at least, unless it is zero.
  lemma {:induction false} TopTerm(f: Poly, d: nat, q: Poly, n: nat)
    requires Below(f, d + 1) && d in f && Below(q, n)
    ensures q == {} ==> Times(f, q, n) == {}
    ensures q != {} ==> exists e :: e in Times(f, q, n) && e >= d
    ensures Below(Times(f, q, n), d + n)
    decreases n
  {
    if n == 0 {
    } else {
      var low := q - {n - 1};
      TopTerm(f, d, low, n - 1);
      SameBelow(f, q, low, n - 1);
      if n - 1 in q {
        assert d + (n - 1) in Shift(f, n - 1) && d + (n - 1) !in Times(f, low, n - 1);
        assert d + (n - 1) in Times(f, q, n);
      } else {
        assert low == q;
        AddZero(Times(f, q, n - 1));
        if q != {} {
          var e :| e in Times(f, low, n - 1) && e >= d;
          assert e in Times(f, q, n);
        }
      }
    }
  }

  lemma {:induction false} SameBelow(f: Poly, q: Poly, r: Poly, n: nat)
    requires forall e :: e < n ==> (e in q <==> e in r)
    ensures Times(f, q, n) == Times(f, r, n)
  {
    if n == 0 {
    } else {
      SameBelow(f, q, r, n - 1);
    }
  }

  lemma Unique(a: Poly, b: Poly, f: Poly, d: nat)
    requires Congruent(a, b, f) && Below(f, d + 1) && d in f && Below(a, d) && Below(b, d)
    ensures a == b
  {
    var q: Poly, n: nat :| Multiple(a, b, f, q, n);
    TopTerm(f, d, q, n);
    assert Below(Add(a, b), d);
    assert q == {};
    assert a - b == {} && b - a == {};
  }
}
