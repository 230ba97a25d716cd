// lib/crypt/snow-3g.c: MUL64, the multiplication under the UIA2 message authentication code.  A
// 64-bit word is the polynomial over GF(2) whose coefficients are its bits, so that ^ is addition.
module Mul64 {
  import opened Gf2

  ghost predicate Word(a: Poly) { Below(a, 64) }

  // V << 1
  function Left(v: Poly): (r: Poly)
    ensures Word(r)
    ensures forall e :: e in r <==> 0 < e < 64 && e - 1 in v
  {
    Shift(v, 1) - (set e | e in Shift(v, 1) && e >= 64)
  }

  // MUL64x
  function MulX(v: Poly, c: Poly): (r: Poly)
    ensures Word(c) ==> Word(r)
  {
    if 63 in v then Add(Left(v), c) else Left(v)
  }

  // MUL64xPOW
  function MulXPow(v: Poly, i: nat, c: Poly): (r: Poly)
    ensures Word(v) && Word(c) ==> Word(r)
  {
    if i == 0 then v else MulX(MulXPow(v, i - 1, c), c)
  }

  // The sum of the multiples of v by the powers of x that p has below n.
  function Sum(v: Poly, p: Poly, n: nat, c: Poly): (r: Poly)
    ensures Word(v) && Word(c) ==> Word(r)
  {
    if n == 0 then {} else Add(Sum(v, p, n - 1, c), if n - 1 in p then MulXPow(v, n - 1, c) else {})
  }

  function Mul(v: Poly, p: Poly, c: Poly): (r: Poly)
    ensures Word(v) && Word(c) ==> Word(r)
  {
    Sum(v, p, 64, c)
  }

  // MUL64
  method MUL64(v: Poly, p: Poly, c: Poly) returns (result: Poly)
    ensures result == Mul(v, p, c)
  {
    result := {};
    for i := 0 to 64
      invariant result == Sum(v, p, i, c)
    {
      if i in p {
        result := Add(result, MulXPow(v, i, c));
      } else {
        AddZero(result);
      }
    }
  }

  // ---------- Linearity ----------

  lemma MulXAdd(a: Poly, b: Poly, c: Poly)
    ensures MulX(Add(a, b), c) == Add(MulX(a, c), MulX(b, c))
  {
    assert Left(Add(a, b)) == Add(Left(a), Left(b));
  }

  lemma MulXZero(c: Poly)
    ensures MulX({}, c) == {}
  {
  }

  lemma {:induction false} PowAdd(a: Poly, b: Poly, i: nat, c: Poly)
    ensures MulXPow(Add(a, b), i, c) == Add(MulXPow(a, i, c), MulXPow(b, i, c))
  {
    if i == 0 {
    } else {
      PowAdd(a, b, i - 1, c);
      MulXAdd(MulXPow(a, i - 1, c), MulXPow(b, i - 1, c), c);
    }
  }

  lemma {:induction false} PowZero(i: nat, c: Poly)
    ensures MulXPow({}, i, c) == {}
  {
    if i == 0 {
    } else {
      PowZero(i - 1, c);
      MulXZero(c);
    }
  }

  lemma {:induction false} SumAdd(a: Poly, b: Poly, p: Poly, n: nat, c: Poly)
    ensures Sum(Add(a, b), p, n, c) == Add(Sum(a, p, n, c), Sum(b, p, n, c))
  {
    if n == 0 {
      AddZero({});
    } else {
      SumAdd(a, b, p, n - 1, c);
      PowAdd(a, b, n - 1, c);
      var s, t := if n - 1 in p then MulXPow(a, n - 1, c) else {}, if n - 1 in p then MulXPow(b, n - 1, c) else {};
      AddSwap(Sum(a, p, n - 1, c), Sum(b, p, n - 1, c), s, t);
      AddZero({});
    }
  }

  lemma {:induction false} SumZero(p: Poly, n: nat, c: Poly)
    ensures Sum({}, p, n, c) == {}
  {
    if n == 0 {
    } else {
      SumZero(p, n - 1, c);
      PowZero(n - 1, c);
      AddZero({});
    }
  }

  // ---------- Powers of x ----------

  lemma {:induction false} PowX(v: Poly, i: nat, c: Poly)
    ensures MulXPow(MulX(v, c), i, c) == MulX(MulXPow(v, i, c), c)
  {
    if i == 0 {
    } else {
      PowX(v, i - 1, c);
    }
  }

  lemma {:induction false} SumX(v: Poly, p: Poly, n: nat, c: Poly)
    ensures Sum(MulX(v, c), p, n, c) == MulX(Sum(v, p, n, c), c)
  {
    MulXZero(c);
    hide MulX, MulXPow, Add;
    if n == 0 {
    } else {
      SumX(v, p, n - 1, c);
      PowX(v, n - 1, c);
      var s := Sum(v, p, n - 1, c);
      if n - 1 in p {
        MulXAdd(s, MulXPow(v, n - 1, c), c);
      } else {
        AddZero(s);
        AddZero(MulX(s, c));
      }
    }
  }

  lemma {:induction false} MulPow(v: Poly, p: Poly, i: nat, c: Poly)
    ensures Mul(MulXPow(v, i, c), p, c) == MulXPow(Mul(v, p, c), i, c)
  {
    if i == 0 {
    } else {
      MulPow(v, p, i - 1, c);
      SumX(MulXPow(v, i - 1, c), p, 64, c);
    }
  }

  lemma {:induction false} PowOne(i: nat, c: Poly)
    requires i < 64
    ensures MulXPow({0}, i, c) == {i}
  {
    if i == 0 {
    } else {
      PowOne(i - 1, c);
      assert Left({i - 1}) == {i};
    }
  }

  lemma {:induction false} SumOne(p: Poly, n: nat, c: Poly)
    requires n <= 64
    ensures forall e :: e in Sum({0}, p, n, c) <==> e < n && e in p
  {
    if n == 0 {
    } else {
      SumOne(p, n - 1, c);
      PowOne(n - 1, c);
    }
  }

  lemma One(p: Poly, c: Poly)
    requires Word(p)
    ensures Mul({0}, p, c) == p
  {
    SumOne(p, 64, c);
  }

  // ---------- A commutative ring ----------

  // Multiplying a sum of powers term by term.
  lemma {:induction false} SumTimes(v: Poly, p: Poly, q: Poly, n: nat, c: Poly)
    ensures Mul(Sum(v, p, n, c), q, c) == Sum(Mul(v, q, c), p, n, c)
  {
    SumZero(q, 64, c);
    if n == 0 {
    } else {
      SumTimes(v, p, q, n - 1, c);
      MulPow(v, q, n - 1, c);
      SumAdd(Sum(v, p, n - 1, c), if n - 1 in p then MulXPow(v, n - 1, c) else {}, q, 64, c);
    }
  }

  lemma Commutes(v: Poly, p: Poly, c: Poly)
    requires Word(v) && Word(p)
    ensures Mul(v, p, c) == Mul(p, v, c)
  {
    SumTimes({0}, v, p, 64, c);
    One(v, c);
    One(p, c);
  }

  lemma Associates(v: Poly, p: Poly, q: Poly, c: Poly)
    requires Word(v) && Word(p) && Word(q) && Word(c)
    ensures Mul(Mul(v, p, c), q, c) == Mul(v, Mul(p, q, c), c)
  {
    Commutes(v, p, c);
    SumTimes(p, v, q, 64, c);
    Commutes(Mul(p, q, c), v, c);
  }

  lemma Distributes(v: Poly, w: Poly, p: Poly, c: Poly)
    requires Word(v) && Word(w) && Word(p)
    ensures Mul(Add(v, w), p, c) == Add(Mul(v, p, c), Mul(w, p, c))
    ensures Mul(p, Add(v, w), c) == Add(Mul(p, v, c), Mul(p, w, c))
  {
    SumAdd(v, w, p, 64, c);
    Commutes(p, Add(v, w), c);
    Commutes(p, v, c);
    Commutes(p, w, c);
  }

  // ---------- Multiplication modulo x^64 + c ----------

  function Modulus(c: Poly): Poly { c + {64} }

  lemma MulXCongruent(v: Poly, c: Poly)
    requires Word(v) && Word(c)
    ensures Congruent(MulX(v, c), Shift(v, 1), Modulus(c))
  {
    var f := Modulus(c);
    if 63 in v {
      forall e
        ensures e in Add(MulX(v, c), Shift(v, 1)) <==> e in f
      {
      }
      assert Times(f, {0}, 1) == f;
      assert Multiple(MulX(v, c), Shift(v, 1), f, {0}, 1);
    } else {
      assert Left(v) == Shift(v, 1);
      Same(MulX(v, c), f);
    }
  }

  lemma {:induction false} PowCongruent(v: Poly, i: nat, c: Poly)
    requires Word(v) && Word(c)
    ensures Congruent(MulXPow(v, i, c), Shift(v, i), Modulus(c))
  {
    var f := Modulus(c);
    if i == 0 {
      assert Shift(v, 0) == v;
      Same(v, f);
    } else {
      PowCongruent(v, i - 1, c);
      CongruentShift(MulXPow(v, i - 1, c), Shift(v, i - 1), f);
      ShiftShift(v, i - 1, 1);
      MulXCongruent(MulXPow(v, i - 1, c), c);
      CongruentTrans(MulXPow(v, i, c), Shift(MulXPow(v, i - 1, c), 1), Shift(v, i), f);
    }
  }

  lemma {:induction false} SumCongruent(v: Poly, p: Poly, n: nat, c: Poly)
    requires Word(v) && Word(c)
    ensures Congruent(Sum(v, p, n, c), Times(v, p, n), Modulus(c))
  {
    var f := Modulus(c);
    if n == 0 {
      Same({}, f);
    } else {
      SumCongruent(v, p, n - 1, c);
      PowCongruent(v, n - 1, c);
      Same({}, f);
      CongruentAdd(Sum(v, p, n - 1, c), Times(v, p, n - 1),
                   if n - 1 in p then MulXPow(v, n - 1, c) else {}, if n - 1 in p then Shift(v, n - 1) else {}, f);
    }
  }

  // MUL64 is the remainder of the product of polynomials by x^64 + c, and nothing else is.
  lemma IsRemainder(v: Poly, p: Poly, c: Poly, r: Poly)
    requires Word(v) && Word(p) && Word(c) && Word(r)
    ensures r == Mul(v, p, c) <==> Congruent(r, Times(v, p, 64), Modulus(c))
  {
    var f, m := Modulus(c), Mul(v, p, c);
    SumCongruent(v, p, 64, c);
    if Congruent(r, Times(v, p, 64), f) {
      Reverse(m, Times(v, p, 64), f);
      CongruentTrans(r, Times(v, p, 64), m, f);
      Unique(r, m, f, 64);
    }
  }

  lemma Reverse(a: Poly, b: Poly, f: Poly)
    requires Congruent(a, b, f)
    ensures Congruent(b, a, f)
  {
    var q: Poly, n: nat :| Multiple(a, b, f, q, n);
    AddSwaps(a, b);
    assert Multiple(b, a, f, q, n);
  }
}
