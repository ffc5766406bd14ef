/** The calculator's globals and the operations that use them. */
module Calculator {
  import opened Radix
  import opened Blocks
  import opened TrialDigit
  import opened Division
  import Arith
  import Multiplication

  /** Division truncated toward zero, and its remainder. */
  function Quotient(a: int, b: int): int
    requires b != 0
  {
    var q := (if a < 0 then -a else a) / (if b < 0 then -b else b);
    if (a < 0) == (b < 0) then q else -q
  }

  function Remainder(a: int, b: int): int
    requires b != 0
  {
    a - b * Quotient(a, b)
  }

  /** A nonnegative remainder below the divisor settles the quotient. */
  lemma DivisionUnique(a: int, b: int, q: int, r: int)
    requires b > 0 && 0 <= r < b && a == r + b * q
    ensures q == a / b
  {
    var d := q - a / b;
    assert a == b * (a / b) + a % b;
    assert b * d == a % b - r;
    Multiple(b, d);
  }

  lemma Multiple(b: int, d: int)
    requires b > 0
    ensures (d >= 1 ==> b * d >= b) && (d <= -1 ==> b * d <= -b)
  {
  }

  /** The quotient is the only one whose remainder is smaller than the divisor and zero or
      of the dividend's sign. */
  lemma QuotientUnique(a: int, b: int, q: int, r: int)
    requires b != 0 && a == q * b + r
    requires if b > 0 then -b < r < b else b < r < -b
    requires (a >= 0 ==> r >= 0) && (a <= 0 ==> r <= 0)
    ensures q == Quotient(a, b) && r == Remainder(a, b)
  {
    var c, s, t := if a < 0 then -a else a, if b < 0 then -b else b, if a < 0 then -r else r;
    var e := if (a < 0) == (b < 0) then q else -q;
    SignedProduct(s, q);
    assert c == t + s * e;
    DivisionUnique(c, s, e, t);
    SignedProduct(b, q);
  }

  lemma SignedProduct(b: int, q: int)
    ensures b * q == q * b == (-b) * (-q) && b * (-q) == -(b * q) == (-b) * q
  {
  }

  lemma {:induction false} DivisionStart(d: seq<int>, r: seq<int>)
    requires Plain(d) && Plain(r) && r != [] && r[|r| - 1] >= 1 && |d| >= |r|
    ensures Ongoing(d + [0], r, |d| - |r|) && Val(d + [0]) == Val(d)
  {
    hide Val, Weight, Pow, Times;
    var o := |d| - |r|;
    TopZero(d);
    PlainBounds(d);
    SignedBounds(r);
    PowTimes(o, |r| - 1);
    TimesMono(Pow(|r| - 1), Val(r), Pow(o));
    TimesCommutes(Pow(o), Val(r));
    TimesCommutes(Pow(o), Pow(|r| - 1));
    WeightUp(1, |d| - 1);
    assert (d + [0])[..|d|] == d;
  }

  lemma TimesCommutes(a: int, b: int)
    ensures Times(a, b) == Times(b, a)
  {
  }

  /** Reads two or three leading digits of the divisor. */
  method ReadLeading(divr: Blk) returns (c: int, magic: bool)
    requires divr.Valid() && divr.Digits() != []
    modifies divr`rd
    ensures (c, magic) == LeadingDigits(divr.Digits())
  {
    magic := false;
    divr.Fsfile();
    c := divr.Sbackc();
    if c < 10 {
      magic := true;
    }
    var d := 0;
    if !divr.Sfbeg() {
      d := divr.Sbackc();
    }
    c := c * 100 + d;
    if magic {
      d := 0;
      if !divr.Sfbeg() {
        d := divr.Sbackc();
      }
      c := (c * 100 + d) * 2;
      c := c / 25;
    }
  }

  /** The last quotient digit, corrected either way. */
  method FinishDigits(divd: Blk, divr: Blk, divxyz: Blk, p: Blk, c: int, magic: bool) returns (left: Blk)
    requires divd != divr && divd != divxyz && divr != divxyz && p !in {divd, divr, divxyz}
    requires divd.Valid() && divr.Valid() && divxyz.Valid() && p.Valid()
    requires Ongoing(divd.Digits(), divr.Digits(), 0) && (c, magic) == LeadingDigits(divr.Digits())
    requires p.rd == 1 <= |p.Digits()| && Trials(p.Digits()[1..])
    modifies divd, divr`rd, divxyz, p
    ensures left == divd || fresh(left)
    ensures left.Valid() && Plain(left.Digits()) && p.Valid() && divxyz.Valid() && Trials(p.Digits())
    ensures 0 <= Val(left.Digits()) < Val(divr.Digits())
    ensures forall d: int :: Accounts(d, Val(old(divd.Digits())), Val(divr.Digits()), 1, old(p.Digits()[1..]))
              ==> d == Val(left.Digits()) + Times(Val(divr.Digits()), Val(p.Digits()))
  {
    hide Val, Weight, Pow, Times, LeadingDigits, LeadThree, Trial, Ongoing, Accounts, LastState;
    ghost var s: seq<int>, r: seq<int> := divd.Digits(), divr.Digits();
    ghost var q: seq<int> := p.Digits()[1..];
    TrialRange(s, r, 0);
    OngoingParts(s, r, 0);
    var dig, under, carry, raw := Step(divd, divr, divxyz, c, magic, 0);
    ghost var v := Val(s) - dig * Times(Pow(0), Val(r));
    LastStep(s, divd.Digits(), r, dig, under, carry, raw);
    PutDigit(p, dig, 0);
    assert p.Digits()[0..] == [dig] + q && p.Digits()[0..] == p.Digits();
    divd.Fsfile();
    var d := divd.Sbackc();
    left := Correct(divd, divr, p, dig, under, carry, v);
    ghost var e := p.Digits()[0];
    assert p.Digits() == [e] + q;
    forall d: int | Accounts(d, Val(s), Val(r), 1, q)
      ensures d == Val(left.Digits()) + Times(Val(r), Val([e] + q))
    {
      LastAccount(d, Val(s), Val(r), q, dig, e, Val(left.Digits()));
    }
  }

  lemma {:induction false} LastAccount(d: int, v: int, r: int, q: seq<int>, dig: int, e: int, left: int)
    requires Accounts(d, v, r, 1, q)
    requires left == v - dig * Times(Pow(0), r) - (e - dig) * r
    ensures d == left + Times(r, Val([e] + q))
  {
    hide Val, Weight;
    AccountStep(d, v, r, 0, q, e);
    UnitPlace(r);
    UnitPlace(Times(r, Val([e] + q)));
    assert e * r == dig * r + (e - dig) * r;
  }

  /** Long division of a nonnegative number by a positive one that is not longer. */
  method LongDivision(divd: Blk, divr: Blk, divxyz: Blk, p: Blk, offset: nat) returns (left: Blk)
    requires divd != divr && divd != divxyz && divr != divxyz && p !in {divd, divr, divxyz}
    requires divd.Valid() && divr.Valid() && divxyz.Valid() && p.Valid()
    requires Plain(divd.Digits()) && Plain(divr.Digits()) && Normal(divr.Digits()) && divr.Digits() != []
    requires |divd.Digits()| == |divr.Digits()| + offset && p.Digits() == []
    modifies divd, divr`rd, divxyz, p
    ensures left == divd || fresh(left)
    ensures left.Valid() && p.Valid() && divxyz.Valid()
    ensures Plain(left.Digits()) && Normal(left.Digits()) && Plain(p.Digits()) && Normal(p.Digits())
    ensures 0 <= Val(left.Digits()) < Val(divr.Digits())
    ensures Val(old(divd.Digits())) == Val(left.Digits()) + Times(Val(divr.Digits()), Val(p.Digits()))
  {
    hide Val, Weight, Pow, Times, LeadingDigits, Ongoing, Accounts;
    ghost var d: seq<int>, r: seq<int> := divd.Digits(), divr.Digits();
    p.Seekc(offset + 1);
    DivisionStart(d, r);
    divd.Sputc(0);
    var c, magic := ReadLeading(divr);
    EarlyDigits(divd, divr, divxyz, p, c, magic, offset);
    left := FinishDigits(divd, divr, divxyz, p, c, magic);
    CarryPass(p);
    Trim(p);
    Trim(left);
  }

  /** A nonnegative dividend that goes through the division loop, zeros on top or not. */
  ghost predicate LongEnough(d: seq<int>, r: seq<int>) {
    Plain(d) && Plain(r) && |d| >= |r|
  }

  const STKSZ := 100

  class Dc {
    /** Set by Div: the remainder, or null after a division by zero. */
    var rem: Blk?
    var stack: seq<Blk>
    /** The number of decimals asked for. */
    var k: int
    const divxyz: Blk
    const tenptr: Blk
    const sqtemp: Blk

    ghost predicate Valid()
      reads this, divxyz, tenptr, sqtemp
    {
      && divxyz.Valid() && tenptr.Valid() && sqtemp.Valid()
      && divxyz != tenptr && divxyz != sqtemp && tenptr != sqtemp
      && tenptr.Digits() == [10] && sqtemp.Digits() == [2]
    }

    constructor ()
      ensures Valid() && fresh(divxyz) && fresh(tenptr) && fresh(sqtemp) && stack == []
    {
      rem := null;
      stack := [];
      k := 0;
      divxyz := new Blk.Salloc(0);
      tenptr := new Blk.Salloc(1);
      sqtemp := new Blk.Salloc(1);
      new;
      tenptr.Sputc(10);
      sqtemp.Sputc(2);
    }

    method Pushp(p: Blk)
      modifies this`stack
      ensures stack == if |old(stack)| < STKSZ then old(stack) + [p] else old(stack)
    {
      if |stack| < STKSZ {
        stack := stack + [p];
      }
    }

    method Pop() returns (p: Blk?)
      modifies this`stack
      ensures if |old(stack)| == 0 then p == null && stack == old(stack) else p != null && old(stack) == stack + [p]
    {
      p := null;
      if |stack| > 0 {
        p := stack[|stack| - 1];
        stack := stack[..|stack| - 1];
      }
    }

    /** Truncated division. The remainder goes to rem; a zero divisor is pushed back. */
    method Div(ddivd: Blk, ddivr: Blk) returns (p: Blk)
      requires Valid() && ddivd != ddivr && ddivd != divxyz && ddivr != divxyz
      requires ddivd.Valid() && ddivr.Valid() && Signed(ddivd.Digits()) && Normal(ddivr.Digits())
      modifies this`rem, this`stack, divxyz, ddivr`rd
      ensures Valid() && fresh(p) && p.Valid()
      ensures ddivr.Digits() == [] ==> p.Digits() == [] && rem == null
      ensures ddivr.Digits() == [] && |old(stack)| < STKSZ ==> stack == old(stack) + [ddivr]
      ensures ddivr.Digits() != [] ==>
        && stack == old(stack)
        && Val(ddivr.Digits()) != 0
        && Normal(p.Digits()) && Val(p.Digits()) == Quotient(Val(ddivd.Digits()), Val(ddivr.Digits()))
        && rem != null && fresh(rem) && rem != p && rem.Valid()
        && Signed(rem.Digits())
        && (Normal(ddivd.Digits()) || LongEnough(ddivd.Digits(), ddivr.Digits()) ==> Normal(rem.Digits()))
        && Val(rem.Digits()) == Remainder(Val(ddivd.Digits()), Val(ddivr.Digits()))
    {
      hide Val, Weight, Pow, Quotient, Remainder, Normal, Signed;
      rem := null;
      p := new Blk.Salloc(0);
      if ddivr.Length() == 0 {
        Pushp(ddivr);
      } else {
        rem := DivNonzero(ddivd, ddivr, divxyz, p);
      }
    }
  }

  /** Division with signs, for a divisor that has digits; returns what Div stores in rem. */
  method DivNonzero(ddivd: Blk, ddivr: Blk, divxyz: Blk, p: Blk) returns (left: Blk)
    requires ddivd != ddivr && ddivd != divxyz && ddivr != divxyz && p !in {ddivd, ddivr, divxyz}
    requires ddivd.Valid() && ddivr.Valid() && divxyz.Valid() && p.Valid()
    requires Signed(ddivd.Digits()) && Normal(ddivr.Digits()) && ddivr.Digits() != [] && p.Digits() == []
    modifies divxyz, ddivr`rd, p
    ensures fresh(left) && left != p && left.Valid() && p.Valid() && divxyz.Valid()
    ensures Val(ddivr.Digits()) != 0
    ensures Normal(p.Digits()) && Val(p.Digits()) == Quotient(Val(ddivd.Digits()), Val(ddivr.Digits()))
    ensures Signed(left.Digits())
    ensures Normal(ddivd.Digits()) || LongEnough(ddivd.Digits(), ddivr.Digits()) ==> Normal(left.Digits())
    ensures Val(left.Digits()) == Remainder(Val(ddivd.Digits()), Val(ddivr.Digits()))
  {
    hide Val, Weight, Pow, Times, Quotient, Remainder;
    ghost var a, b := Val(ddivd.Digits()), Val(ddivr.Digits());
    NormalSign(ddivr.Digits());
    var divr, divsign := Multiplication.Magnitude(ddivr);
    var divd := new Blk.Copy(ddivd);
    var remsign := Positive(divd);
    if LongEnough(ddivd.Digits(), ddivr.Digits()) {
      PlainBounds(ddivd.Digits());
      PlainBounds(ddivr.Digits());
    }
    var offset := divd.Length() - divr.Length();
    if offset < 0 {
      ShorterIsSmaller(divd.Digits(), divr.Digits());
    } else {
      divd := LongDivision(divd, divr, divxyz, p, offset);
    }
    SignedDivision(a, b, Val(divd.Digits()), Val(p.Digits()));
    if divsign != remsign {
      Arith.ChSign(p);
    }
    if remsign {
      Arith.ChSign(divd);
    }
    left := divd;
  }

  /** Makes p nonnegative in place. */
  method Positive(p: Blk) returns (negative: bool)
    requires p.Valid() && Signed(p.Digits())
    modifies p
    ensures p.Valid() && Plain(p.Digits())
    ensures Normal(old(p.Digits())) ==> Normal(p.Digits())
    ensures negative <==> Val(old(p.Digits())) < 0
    ensures !negative ==> p.Digits() == old(p.Digits())
    ensures Val(p.Digits()) == if negative then -Val(old(p.Digits())) else Val(old(p.Digits()))
  {
    hide Val, Weight, Pow, Normal;
    p.Fsfile();
    negative := false;
    if !p.Sfbeg() {
      SignedBounds(p.Digits());
      var c := p.Sbackc();
      if c == -1 {
        Arith.ChSign(p);
        negative := true;
        if p.Digits() != [] {
          SignedBounds(p.Digits());
        }
      } else {
        PlainBounds(p.Digits());
      }
    } else {
      Multiplication.Nothing();
    }
  }

  lemma {:induction false} ShorterIsSmaller(d: seq<int>, r: seq<int>)
    requires Plain(d) && Plain(r) && Normal(r) && |d| < |r|
    ensures 0 <= Val(d) < Val(r) && Times(Val(r), Val([])) == 0
  {
    hide Weight, Pow;
    PlainBounds(d);
    SignedBounds(r);
    PowMono(|d|, |r| - 1);
  }

  lemma SignedDivision(a: int, b: int, left: int, q: int)
    requires b != 0
    requires var c, s := if a < 0 then -a else a, if b < 0 then -b else b;
      0 <= left < s && c == left + Times(s, q)
    ensures Quotient(a, b) == if (a < 0) != (b < 0) then -q else q
    ensures Remainder(a, b) == if a < 0 then -left else left
  {
    var e := if (a < 0) != (b < 0) then -q else q;
    SignedProduct(b, q);
    SignedProduct(b, e);
    QuotientUnique(a, b, e, if a < 0 then -left else left);
  }
}
