/** Decimal scale: shifting by powers of ten, and the division and square root commands. */
module DecimalScale {
  import opened Radix
  import opened Blocks
  import opened Division
  import opened Calculator
  import opened SquareRoot
  import opened Exponent
  import Arith
  import Multiplication

  lemma {:induction false} PowerPositive(b: int, n: nat)
    requires b >= 1
    ensures Power(b, n) >= 1
  {
    if n > 0 {
      PowerPositive(b, n - 1);
      Multiplication.ProductMono(1, b, 1, Power(b, n - 1));
    }
  }

  lemma {:induction false} PowerSum(b: int, m: nat, n: nat)
    ensures Power(b, m + n) == Power(b, m) * Power(b, n)
  {
    if m > 0 {
      PowerSum(b, m - 1, n);
      Associate3(b, Power(b, m - 1), Power(b, n));
    }
  }

  lemma Associate3(a: int, b: int, c: int)
    ensures (a * b) * c == a * (b * c)
  {
  }

  /** A cell holds two decimals. */
  lemma {:induction false} PowTen(m: nat)
    ensures Pow(m) == Power(10, 2 * m) && 10 * Pow(m) == Power(10, 2 * m + 1)
  {
    if m > 0 {
      PowTen(m - 1);
      assert Power(10, 2 * m) == 10 * Power(10, 2 * m - 1);
    }
    assert Power(10, 2 * m + 1) == 10 * Power(10, 2 * m);
  }

  // ----- truncated quotients

  lemma FloorUnique(a: int, b: int, q: int)
    requires b > 0 && b * q <= a < b * q + b
    ensures q == a / b
  {
    DivisionUnique(a, b, q, a - b * q);
  }

  lemma FloorTwice(a: int, b: int, c: int)
    requires a >= 0 && b > 0 && c > 0
    ensures b * c > 0 && (a / b) / c == a / (b * c)
  {
    var x := a / b;
    var q := x / c;
    assert a == b * x + a % b && x == c * q + x % c;
    MulPositive(b, c);
    var e := b * (x % c) + a % b;
    assert b * (c * q + x % c) == b * (c * q) + b * (x % c);
    Associate3(b, c, q);
    Multiplication.ProductMono(b, b, x % c + 1, c);
    assert b * (x % c + 1) == b * (x % c) + b;
    assert b * (x % c) >= 0;
    FloorUnique(a, b * c, q);
  }

  lemma MulPositive(b: int, c: int)
    requires b > 0 && c > 0
    ensures b * c > 0
  {
  }

  lemma FloorCancel(a: int, b: int, m: int)
    requires a >= 0 && b > 0 && m > 0
    ensures b * m > 0 && (a * m) / (b * m) == a / b
  {
    var q := a / b;
    assert a == b * q + a % b;
    MulPositive(b, m);
    Reorder(b, m, q);
    assert a * m == (b * q) * m + (a % b) * m;
    Multiplication.ProductMono(a % b + 1, b, m, m);
    assert (a % b + 1) * m == (a % b) * m + m;
    assert (a % b) * m >= 0;
    FloorUnique(a * m, b * m, q);
  }

  lemma Reorder(b: int, m: int, q: int)
    ensures (b * m) * q == (b * q) * m
  {
  }

  lemma SignTimes(a: int, m: int)
    requires m > 0
    ensures (a * m < 0 <==> a < 0) && (-a) * m == -(a * m) && (a * m == 0 <==> a == 0)
  {
  }

  /** A common positive factor cancels. */
  lemma QuotientCancel(a: int, b: int, m: int)
    requires b != 0 && m > 0
    ensures b * m != 0 && Quotient(a * m, b * m) == Quotient(a, b)
  {
    SignTimes(a, m);
    SignTimes(b, m);
    FloorCancel(if a < 0 then -a else a, if b < 0 then -b else b, m);
  }

  /** Cutting decimals first and dividing after is one truncation. */
  lemma QuotientTwice(a: int, m: int, b: int)
    requires b != 0 && m > 0
    ensures b * m != 0 && Quotient(Quotient(a, m), b) == Quotient(a, b * m)
  {
    SignTimes(b, m);
    var s, t := if a < 0 then -a else a, if b < 0 then -b else b;
    FloorTwice(s, m, t);
    assert m * t == t * m;
    Floor0(s, m);
    Floor0(s / m, t);
  }

  lemma Floor0(a: int, b: int)
    requires a >= 0 && b > 0
    ensures a / b >= 0 && (a == 0 ==> a / b == 0)
  {
    DivBounds(a, b);
  }

  lemma {:induction false} DropLow(s: seq<int>, m: nat)
    requires Plain(s)
    ensures m <= |s| ==> Val(s[m..]) == Val(s) / Pow(m)
    ensures m > |s| ==> Val(s) / Pow(m) == 0
  {
    hide Val, Weight, Pow;
    PlainBounds(s);
    if m <= |s| {
      assert s == s[..m] + s[m..];
      ValConcat(s[..m], s[m..]);
      PlainBounds(s[..m]);
      FloorUnique(Val(s), Pow(m), Val(s[m..]));
    } else {
      PowMono(|s|, m);
      assert Pow(m) * 0 == 0;
      FloorUnique(Val(s), Pow(m), 0);
    }
  }

  // ----- shifting

  lemma ShiftValue(v: int, ct: nat)
    ensures ct % 2 == 0 ==> Times(Pow(ct / 2), v) == Times(v, Power(10, ct))
    ensures ct % 2 == 1 ==> 10 * Times(Pow(ct / 2), v) == Times(v, Power(10, ct))
  {
    hide Pow, Power;
    PowTen(ct / 2);
    assert ct == 2 * (ct / 2) + ct % 2;
    Associate3(10, Pow(ct / 2), v);
  }

  /** Multiplying by ten keeps a positive number in form. */
  lemma {:induction false} TenTimes(q: seq<int>, t: seq<int>)
    requires Plain(q) && Normal(q) && q != [] && Normal(t) && Val(t) == 10 * Val(q)
    ensures Plain(t) && t != []
  {
    hide Val;
    NormalSign(q);
    NormalNonnegative(t);
    NormalSign(t);
  }

  /** p followed, in decimal, by ct zeros. */
  method Add0(dc: Dc, p: Blk, ct: nat) returns (q: Blk)
    requires dc.Valid() && p != dc.tenptr && p.Valid() && Signed(p.Digits())
    modifies p`rd, dc.tenptr`rd
    ensures fresh(q) && q.Valid() && Signed(q.Digits())
    ensures Val(q.Digits()) == Times(Val(p.Digits()), Power(10, ct))
    ensures Plain(p.Digits()) && Normal(p.Digits()) && p.Digits() != [] ==>
              Plain(q.Digits()) && Normal(q.Digits()) && q.Digits() != []
  {
    hide Val, Weight, Pow, Power, Times, Plain, Normal;
    ghost var s: seq<int> := p.Digits();
    q := Shifted(p, ct / 2);
    ShiftValue(Val(s), ct);
    if ct % 2 == 1 {
      TenIsNormal();
      ghost var z: seq<int> := q.Digits();
      q := Multiplication.Mult(dc.tenptr, q);
      if Plain(z) && Normal(z) && z != [] {
        TenTimes(z, q.Digits());
      }
    }
  }

  lemma {:induction false} TenIsNormal()
    ensures Normal([10]) && Val([10]) == 10
  {
    ValCons(10, []);
    assert [10] == [10] + [];
    assert Val([]) == 0;
  }

  /** p with m zero cells below it. */
  method Shifted(p: Blk, m: nat) returns (q: Blk)
    requires p.Valid() && Signed(p.Digits())
    modifies p`rd
    ensures fresh(q) && q.Valid() && Signed(q.Digits())
    ensures Val(q.Digits()) == Times(Pow(m), Val(p.Digits()))
    ensures Plain(p.Digits()) && Normal(p.Digits()) && p.Digits() != [] ==>
              Plain(q.Digits()) && Normal(q.Digits()) && q.Digits() != []
  {
    hide Val, Weight, Pow;
    ghost var s: seq<int> := p.Digits();
    q := new Blk.Salloc(p.Length() + m);
    var ct := m;
    while ct > 0
      invariant fresh(q) && q.Valid() && 0 <= ct <= m && |q.Digits()| == m - ct
      invariant forall i :: 0 <= i < |q.Digits()| ==> q.Digits()[i] == 0
    {
      q.Sputc(0);
      ct := ct - 1;
    }
    ghost var z: seq<int> := q.Digits();
    p.Rewind();
    assert s[..0] == [];
    while !p.Sfeof()
      invariant fresh(q) && q.Valid() && p.Valid() && p.Digits() == s && p.rd <= |s|
      invariant q.Digits() == z + s[..p.rd]
      decreases |s| - p.rd
    {
      var c := p.Sgetc();
      q.Sputc(c);
    }
    assert s[..|s|] == s;
    ZerosVal(z);
    ValConcat(z, s);
  }

  lemma {:induction false} SuffixParts(s: seq<int>, m: nat)
    requires Plain(s) && Normal(s) && m <= |s|
    ensures Plain(s[m..]) && Normal(s[m..])
  {
    if m < |s| {
      assert s[m..][|s| - m - 1] == s[|s| - 1];
    }
  }

  /** A copy of p without its m lowest cells. */
  method DropCells(p: Blk, m: nat) returns (r: Blk)
    requires p.Valid()
    modifies p`rd
    ensures fresh(r) && r.Valid() && r.Digits() == if m <= |p.Digits()| then p.Digits()[m..] else []
  {
    ghost var s := p.Digits();
    p.Rewind();
    var n := m;
    while n > 0
      invariant 0 <= n <= m && p.Valid() && p.Digits() == s
      invariant p.rd == if m - n <= |s| then m - n else |s|
    {
      p.Skipc();
      n := n - 1;
    }
    ghost var low := p.rd;
    r := new Blk.Salloc(2);
    while !p.Sfeof()
      invariant fresh(r) && r.Valid() && p.Valid() && p.Digits() == s && low <= p.rd <= |s|
      invariant r.Digits() == s[low..p.rd]
      decreases |s| - p.rd
    {
      var c := p.Sgetc();
      r.Sputc(c);
    }
  }

  lemma CutValue(v: int, n: nat)
    requires v >= 0
    ensures Power(10, n) >= 1 && v / Power(10, n) >= 0
    ensures n % 2 == 0 ==> v / Pow(n / 2) == v / Power(10, n)
    ensures n % 2 == 1 ==> (v / Pow(n / 2)) / 10 == v / Power(10, n)
  {
    hide Pow, Power;
    PowerPositive(10, n);
    DivBounds(v, Power(10, n));
    PowTen(n / 2);
    assert n == 2 * (n / 2) + n % 2;
    FloorTwice(v, Pow(n / 2), 10);
  }

  lemma {:induction false} DropParts(t: seq<int>, m: nat, r: seq<int>)
    requires Plain(t) && Normal(t) && r == if m <= |t| then t[m..] else []
    ensures Plain(r) && Normal(r) && Signed(r) && Val(r) == Val(t) / Pow(m) && Val(r) >= 0
  {
    hide Val, Weight, Pow;
    DropLow(t, m);
    if m <= |t| {
      SuffixParts(t, m);
    } else {
      Multiplication.Nothing();
    }
    PlainBounds(r);
  }

  /** A nonnegative p without its n lowest decimals. */
  method Cut(dc: Dc, p: Blk, n: nat) returns (s: Blk)
    requires dc.Valid() && p !in {dc.divxyz, dc.tenptr, dc.sqtemp} && p.Valid()
    requires Plain(p.Digits()) && Normal(p.Digits())
    modifies p`rd, dc`rem, dc`stack, dc.divxyz, dc.tenptr`rd
    ensures dc.Valid() && dc.stack == old(dc.stack)
    ensures fresh(s) && s.Valid() && Normal(s.Digits())
    ensures Power(10, n) >= 1 && Val(s.Digits()) == Val(p.Digits()) / Power(10, n) >= 0
  {
    hide Val, Weight, Pow, Power, Quotient, Remainder, Normal, Plain;
    ghost var t: seq<int> := p.Digits();
    PlainBounds(t);
    s := DropCells(p, n / 2);
    DropParts(t, n / 2, s.Digits());
    CutValue(Val(t), n);
    if n % 2 == 1 {
      TenIsNormal();
      PositiveQuotient(Val(s.Digits()), 10);
      s := dc.Div(s, dc.tenptr);
    }
  }

  /** p without its n lowest decimals, truncated toward zero. The decimals cut off, which
      only the remainder command uses, are not kept. */
  method Removr(dc: Dc, p: Blk, n: nat) returns (s: Blk)
    requires dc.Valid() && p !in {dc.divxyz, dc.tenptr, dc.sqtemp} && p.Valid() && Normal(p.Digits())
    modifies p, dc`rem, dc`stack, dc.divxyz, dc.tenptr`rd
    ensures dc.Valid() && dc.stack == old(dc.stack)
    ensures fresh(s) && s.Valid() && Normal(s.Digits())
    ensures Power(10, n) >= 1 && Val(s.Digits()) == Quotient(Val(old(p.Digits())), Power(10, n))
  {
    hide Val, Weight, Pow, Power, Quotient, Remainder, Normal, Plain;
    ghost var v := Val(p.Digits());
    NormalParts(p.Digits());
    var neg := Positive(p);
    s := Cut(dc, p, n);
    NormalParts(s.Digits());
    TruncatedSign(v, Power(10, n));
    if neg {
      Arith.ChSign(s);
    }
  }

  lemma TruncatedSign(v: int, m: int)
    requires m > 0
    ensures Quotient(v, m) == if v < 0 then -((-v) / m) else v / m
  {
    if v < 0 {
      Floor0(-v, m);
    }
  }

  // ----- cutting by cells

  /** A signed string without its lowest cells: the value is rounded down, unless nothing is left. */
  lemma {:induction false} SignedSuffix(s: seq<int>, m: nat)
    requires Normal(s) && m < |s|
    ensures Normal(s[m..]) && Val(s[m..]) == Val(s) / Pow(m)
  {
    hide Val, Weight, Pow;
    assert s == s[..m] + s[m..];
    ValConcat(s[..m], s[m..]);
    PlainBounds(s[..m]);
    FloorUnique(Val(s), Pow(m), Val(s[m..]));
    assert s[m..][|s| - m - 1] == s[|s| - 1];
    if |s| - m >= 2 {
      assert s[m..][|s| - m - 2] == s[|s| - 2];
    }
  }

  /** What removc makes of a number of len cells: the low cells are dropped, which rounds down,
      and an odd decimal is divided off, which truncates. */
  function CutDown(v: int, len: nat, n: nat): int {
    var left := if n / 2 < len then v / Pow(n / 2) else 0;
    if n % 2 == 1 then Quotient(left, 10) else left
  }

  /** removc: p without its n lowest decimals. */
  method Removc(dc: Dc, p: Blk, n: nat) returns (q: Blk)
    requires dc.Valid() && p !in {dc.divxyz, dc.tenptr, dc.sqtemp} && p.Valid() && Normal(p.Digits())
    modifies p`rd, dc`rem, dc`stack, dc.divxyz, dc.tenptr`rd
    ensures dc.Valid() && dc.stack == old(dc.stack)
    ensures fresh(q) && q.Valid() && Normal(q.Digits())
    ensures Val(q.Digits()) == CutDown(Val(old(p.Digits())), |old(p.Digits())|, n)
  {
    hide Val, Weight, Pow, Quotient, Remainder, Normal;
    ghost var s: seq<int> := p.Digits();
    q := DropCells(p, n / 2);
    if n / 2 < |s| {
      SignedSuffix(s, n / 2);
    } else {
      assert q.Digits() == [];
      EmptyIsNormal();
    }
    NormalParts(q.Digits());
    if n % 2 == 1 {
      TenIsNormal();
      q := dc.Div(q, dc.tenptr);
    }
  }

  /** The cells that are cut off are not all zero, and the result is a multiple of the base that
      the rounding of the cells has just reached. */
  predicate RoundsAway(v: int, len: nat, n: nat) {
    v < 0 && n / 2 < len && v % Pow(n / 2) != 0 && (n % 2 == 1 ==> (v / Pow(n / 2)) % 10 == 0)
  }

  lemma NegativeFloor(v: int, m: int)
    requires v < 0 && m > 0
    ensures v / m == if v % m == 0 then -((-v) / m) else -((-v) / m) - 1
  {
    var q := v / m;
    assert v == m * q + v % m;
    if v % m == 0 {
      FloorUnique(-v, m, -q);
    } else {
      assert -v == m * (-q - 1) + (m - v % m);
      FloorUnique(-v, m, -q - 1);
    }
  }

  lemma TenthsOfCeiling(a: int, f: int, whole: bool)
    requires a >= 0 && f == if whole then -a else -a - 1
    ensures f <= 0 && ((-f) / 10 == a / 10 <==> whole || f % 10 != 0)
  {
  }

  lemma EmptyIsNormal()
    ensures Normal([]) && Val([]) == 0
  {
  }

  lemma QuotientTen(x: int)
    ensures Quotient(x, 10) == if x >= 0 then x / 10 else -((-x) / 10)
  {
  }

  lemma QuotientPositive(v: int, b: int)
    requires b > 0
    ensures Quotient(v, b) == if v >= 0 then v / b else -((-v) / b)
  {
    if v == 0 {
      assert 0 == b * 0 + 0;
    }
  }

  /** Cutting a negative number of which some cells are left. */
  lemma NegativeCut(v: int, m: int, len: nat, n: nat)
    requires v < 0 && m == Pow(n / 2) > 0 && n / 2 < len
    requires Power(10, n) >= 1
    requires n % 2 == 0 ==> (-v) / m == (-v) / Power(10, n)
    requires n % 2 == 1 ==> ((-v) / m) / 10 == (-v) / Power(10, n)
    ensures CutDown(v, len, n) == Quotient(v, Power(10, n)) <==> !RoundsAway(v, len, n)
  {
    hide Pow, Power, Quotient;
    var a := (-v) / m;
    DivBounds(-v, m);
    NegativeFloor(v, m);
    QuotientPositive(v, Power(10, n));
    QuotientTen(v / m);
    TenthsOfCeiling(a, v / m, v % m == 0);
  }

  /** No cells are left of a number that short. */
  lemma {:induction false} ShortCut(s: seq<int>, n: nat)
    requires Normal(s) && n / 2 >= |s|
    ensures (if Val(s) < 0 then -Val(s) else Val(s)) / Pow(n / 2) == 0
  {
    hide Val, Weight, Pow;
    var m := Pow(n / 2);
    NormalParts(s);
    PowMono(|s|, n / 2);
    var a := if Val(s) < 0 then -Val(s) else Val(s);
    if s != [] {
      SignedBounds(s);
      PowMono(|s| - 1, n / 2);
      BelowTop(s, n / 2);
    } else {
      EmptyIsNormal();
    }
    assert m * 0 == 0;
    FloorUnique(a, m, 0);
  }

  /** removc truncates toward zero exactly when the rounding of the dropped cells does not show. */
  lemma {:induction false} RemovcTruncates(s: seq<int>, n: nat)
    requires Normal(s)
    ensures Power(10, n) >= 1
    ensures CutDown(Val(s), |s|, n) == Quotient(Val(s), Power(10, n)) <==> !RoundsAway(Val(s), |s|, n)
  {
    hide Val, Weight, Pow, Power, Quotient;
    var v := Val(s);
    PowerPositive(10, n);
    PowMono(0, n / 2);
    CutValue(if v < 0 then -v else v, n);
    if n / 2 >= |s| {
      ShortCut(s, n);
      QuotientPositive(v, Power(10, n));
      QuotientTen(0);
    } else if v >= 0 {
      QuotientPositive(v, Power(10, n));
      QuotientTen(v / Pow(n / 2));
      DivBounds(v, Pow(n / 2));
    } else {
      NegativeCut(v, Pow(n / 2), |s|, n);
    }
  }

  lemma {:induction false} BelowTop(s: seq<int>, m: nat)
    requires Normal(s) && s != [] && m >= |s|
    ensures -Pow(m) < Val(s) < Pow(m)
  {
    hide Val, Weight, Pow;
    NormalParts(s);
    SignedBounds(s);
    PowMono(|s|, m);
    PowStrict(|s| - 1);
    if s[|s| - 1] >= 0 {
      PlainBounds(s);
    }
  }

  lemma PowStrict(n: nat)
    ensures 1 <= Pow(n) < Pow(n + 1)
  {
    PowMono(0, n);
  }

  /** -0.0050 without its two lowest decimals is -0.01, not zero. */
  lemma {:induction false} RemovcRoundsDown()
    ensures Normal([50, -1]) && Val([50, -1]) == -50
    ensures CutDown(Val([50, -1]), |[50, -1]|, 2) == -1 && Quotient(Val([50, -1]), Power(10, 2)) == 0
  {
    ValCons(50, [-1]);
    MinusOne();
    assert [50, -1] == [50] + [-1];
    assert Pow(1) == 100 && Power(10, 2) == 10 * Power(10, 1) == 100;
  }
}
