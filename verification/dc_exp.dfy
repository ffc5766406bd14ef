/** Exponentiation by repeated squaring. */
module Exponent {
  import opened Radix
  import opened Blocks
  import opened Division
  import opened Calculator
  import opened SquareRoot
  import Multiplication

  function Power(b: int, n: nat): int {
    if n == 0 then 1 else b * Power(b, n - 1)
  }

  lemma {:induction false} PowerSquare(b: int, n: nat)
    ensures Power(b * b, n) == Power(b, 2 * n)
  {
    if n > 0 {
      PowerSquare(b, n - 1);
      assert Power(b, 2 * n) == b * Power(b, 2 * n - 1) == b * (b * Power(b, 2 * n - 2));
      Associate(b, Power(b, 2 * n - 2));
    }
  }

  lemma Associate(b: int, x: int)
    ensures b * (b * x) == (b * b) * x
  {
  }

  lemma Rearrange(r: int, b: int, x: int)
    ensures (b * r) * x == r * (b * x)
  {
  }

  /** Halving the exponent and squaring the base keeps the result. */
  lemma SquaringStep(goal: int, r: int, b: int, n: nat)
    requires goal == r * Power(b, n)
    ensures n % 2 == 0 ==> goal == r * Power(b * b, n / 2)
    ensures n % 2 == 1 ==> goal == (b * r) * Power(b * b, n / 2)
  {
    PowerSquare(b, n / 2);
    if n % 2 == 1 {
      assert n == 2 * (n / 2) + 1;
      Rearrange(r, b, Power(b, 2 * (n / 2)));
    }
  }

  lemma {:induction false} Remainders(n: int)
    requires n >= 0
    ensures Quotient(n, 2) == n / 2 && Remainder(n, 2) == n % 2
  {
  }

  /** Exponents: normal, or the one-digit zero that scale passes. */
  predicate IsExponent(e: seq<int>) {
    Normal(e) || e == [0]
  }

  /** One round: the parity of e, then e halved. */
  method Halve(dc: Dc, e: Blk) returns (e1: Blk, odd: bool)
    requires dc.Valid() && e !in {dc.divxyz, dc.sqtemp, dc.tenptr} && e.Valid() && Plain(e.Digits())
    requires IsExponent(e.Digits()) && e.Digits() != []
    modifies dc`rem, dc`stack, dc.divxyz, dc.sqtemp`rd
    ensures dc.Valid() && dc.stack == old(dc.stack)
    ensures fresh(e1) && e1.Valid() && Plain(e1.Digits()) && Normal(e1.Digits())
    ensures Val(e1.Digits()) == Val(e.Digits()) / 2 && (odd <==> Val(e.Digits()) % 2 == 1)
  {
    hide Val, Weight, Pow, Quotient, Remainder;
    PlainBounds(e.Digits());
    TwoIsNormal();
    Remainders(Val(e.Digits()));
    e1 := dc.Div(e, dc.sqtemp);
    NormalSign(dc.rem.Digits());
    NormalNonnegative(e1.Digits());
    var n := dc.rem.Length();
    odd := n != 0;
  }

  /** Squares p, multiplying it into r first when the bit is set. */
  method Accumulate(p: Blk, r: Blk, odd: bool) returns (p1: Blk, r1: Blk)
    requires p != r && p.Valid() && r.Valid() && Normal(p.Digits()) && Normal(r.Digits())
    modifies p`rd, r`rd
    ensures fresh(p1) && (r1 == r || fresh(r1)) && p1 != r1
    ensures p1.Valid() && r1.Valid() && Normal(p1.Digits()) && Normal(r1.Digits())
    ensures Val(p1.Digits()) == Val(p.Digits()) * Val(p.Digits())
    ensures Val(r1.Digits()) == if odd then Val(p.Digits()) * Val(r.Digits()) else Val(r.Digits())
  {
    hide Val, Weight, Pow, Normal;
    NormalParts(p.Digits());
    NormalParts(r.Digits());
    r1 := r;
    if odd {
      r1 := Multiplication.Mult(p, r);
    }
    var t := new Blk.Copy(p);
    p1 := Multiplication.Mult(p, t);
  }

  /** The loop: p0 to the power of a nonnegative exponent. */
  method Raise(dc: Dc, p0: Blk, e0: Blk) returns (r: Blk)
    requires dc.Valid() && p0.Valid() && Normal(p0.Digits()) && p0 !in {dc.divxyz, dc.sqtemp, dc.tenptr}
    requires e0 !in {dc.divxyz, dc.sqtemp, dc.tenptr} && e0.Valid() && Plain(e0.Digits())
    requires IsExponent(e0.Digits())
    modifies dc`rem, dc`stack, dc.divxyz, dc.sqtemp`rd, p0`rd
    ensures dc.Valid() && dc.stack == old(dc.stack)
    ensures fresh(r) && r.Valid() && Normal(r.Digits())
    ensures Val(e0.Digits()) >= 0 && Val(r.Digits()) == Power(Val(p0.Digits()), Val(e0.Digits()))
  {
    hide Val, Weight, Pow, Quotient, Remainder, Normal, Power, Plain, IsExponent;
    PlainBounds(e0.Digits());
    ghost var goal := Power(Val(p0.Digits()), Val(e0.Digits()));
    var p, e := p0, e0;
    r := new Blk.Salloc(1);
    r.Sputc(1);
    assert r.Digits() == [1];
    OneIsNormal();
    while e.Length() != 0
      invariant dc.Valid() && dc.stack == old(dc.stack)
      invariant fresh(r) && r.Valid() && Normal(r.Digits())
      invariant (p == p0 || fresh(p)) && p != r && p !in {dc.divxyz, dc.sqtemp, dc.tenptr}
      invariant p.Valid() && Normal(p.Digits())
      invariant (e == e0 || fresh(e)) && e !in {dc.divxyz, dc.sqtemp, dc.tenptr}
      invariant e.Valid() && Plain(e.Digits()) && IsExponent(e.Digits()) && Val(e.Digits()) >= 0
      invariant goal == Val(r.Digits()) * Power(Val(p.Digits()), Val(e.Digits()))
      decreases Val(e.Digits()), e.Length()
    {
      SquaringStep(goal, Val(r.Digits()), Val(p.Digits()), Val(e.Digits()));
      var e1, odd := Halve(dc, e);
      PlainBounds(e1.Digits());
      NormalIsExponent(e1.Digits());
      NormalSign(e1.Digits());
      e := e1;
      p, r := Accumulate(p, r, odd);
    }
    Multiplication.Nothing();
    PowerZero(Val(p.Digits()));
  }

  lemma {:induction false} NormalIsExponent(e: seq<int>)
    requires Normal(e)
    ensures IsExponent(e)
  {
  }

  lemma {:induction false} OneIsNormal()
    ensures Normal([1]) && Val([1]) == 1
  {
    ValCons(1, []);
    assert [1] == [1] + [];
    assert Val([]) == 0;
  }

  lemma PowerZero(b: int)
    ensures Power(b, 0) == 1
  {
  }

  /** What dc answers for a negative exponent: one and the one-digit minus one are returned
      as they are, anything else gives zero. */
  function Reciprocal(base: seq<int>): int {
    if base == [1] then 1 else if base == [-1] then -1 else 0
  }

  /** base to the power ex. No caller passes a negative ex: the ^ command negates one before the
      call and divides afterwards, and scale passes a number of decimals. */
  method DcExp(dc: Dc, base: Blk, ex: Blk) returns (r: Blk)
    requires dc.Valid() && base.Valid() && ex.Valid() && dc.divxyz !in {base, ex}
    requires Normal(base.Digits()) && IsExponent(ex.Digits())
    modifies dc`rem, dc`stack, dc.divxyz, dc.sqtemp`rd, base`rd
    ensures dc.Valid() && dc.stack == old(dc.stack)
    ensures fresh(r) && r.Valid() && Normal(r.Digits())
    ensures Val(ex.Digits()) >= 0 ==> Val(r.Digits()) == Power(Val(base.Digits()), Val(ex.Digits()))
    ensures Val(ex.Digits()) < 0 ==> Val(r.Digits()) == Reciprocal(base.Digits())
  {
    hide Val, Weight, Pow, Normal, Power, Reciprocal, Plain, IsExponent;
    var p := new Blk.Copy(base);
    var e := new Blk.Copy(ex);
    ExponentParts(ex.Digits());
    var temp := Positive(e);
    if Normal(e.Digits()) {
      NormalIsExponent(e.Digits());
    }
    r := Raise(dc, p, e);
    if temp {
      if base.Length() == 0 {
        ZeroToThe(Val(e.Digits()));
      } else {
        Invert(base, r);
      }
    }
  }

  lemma {:induction false} ExponentParts(e: seq<int>)
    requires IsExponent(e)
    ensures Signed(e) && IsExponent([0]) && (e != [0] ==> Normal(e)) && Val([0]) == 0
  {
    TopZero([]);
    assert [] + [0] == [0];
    assert Val([]) == 0;
  }

  lemma {:induction false} ZeroToThe(n: nat)
    requires n > 0
    ensures Power(0, n) == 0 && Val([]) == 0 && Reciprocal([]) == 0
  {
  }

  method Invert(base: Blk, r: Blk)
    requires base != r && base.Valid() && Normal(base.Digits()) && base.Digits() != []
    modifies base`rd, r
    ensures r.Valid() && Normal(r.Digits()) && Val(r.Digits()) == Reciprocal(base.Digits())
  {
    hide Val, Weight, Pow;
    Multiplication.Nothing();
    if base.Length() > 1 {
      r.Create();
    } else {
      base.Rewind();
      var c := base.Sgetc();
      r.Create();
      if c <= 1 {
        r.Sputc(c);
        OneIsNormal();
        MinusOne();
        assert c == 1 || c == -1;
        assert base.Digits() == [c] && r.Digits() == [c];
      }
    }
  }

  lemma {:induction false} MinusOne()
    ensures Val([-1]) == -1
  {
    ValCons(-1, []);
    assert [-1] == [-1] + [];
    assert Val([]) == 0;
  }

  /** The answer for the exponent -n is the reciprocal of the power, truncated, exactly for bases
      other than minus one, and for its one-digit form when n is odd. */
  lemma {:induction false} ReciprocalRight(s: seq<int>, n: nat)
    requires Normal(s) && Val(s) != 0 && n > 0
    ensures Power(Val(s), n) != 0
    ensures Reciprocal(s) == Quotient(1, Power(Val(s), n)) <==> Val(s) != -1 || (s == [-1] && n % 2 == 1)
  {
    hide Val, Weight, Pow, Normal;
    var b := Val(s);
    OneIsNormal();
    MinusOne();
    if b == 1 {
      NormalUnique([1], s);
      UnitPower(1, n);
    } else if b == -1 {
      UnitPower(-1, n);
    } else {
      LargePower(b, n);
    }
  }

  lemma {:induction false} UnitPower(b: int, n: nat)
    requires b == 1 || b == -1
    ensures Power(b, n) == if b == 1 || n % 2 == 0 then 1 else -1
  {
    if n > 0 {
      UnitPower(b, n - 1);
    }
  }

  lemma {:induction false} LargePower(b: int, n: nat)
    requires (b >= 2 || b <= -2) && n > 0
    ensures Power(b, n) >= 2 || Power(b, n) <= -2
  {
    if n > 1 {
      LargePower(b, n - 1);
      LargeProduct(b, Power(b, n - 1));
    }
  }

  lemma LargeProduct(a: int, b: int)
    requires (a >= 2 || a <= -2) && (b >= 2 || b <= -2)
    ensures a * b >= 2 || a * b <= -2
  {
  }
}
