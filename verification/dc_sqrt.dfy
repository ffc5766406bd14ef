/** Integer square root by Newton's method. */
module SquareRoot {
  import opened Radix
  import opened Blocks
  import opened Addition
  import opened Division
  import opened Calculator
  import Arith
  import Multiplication

  /** r is the integer square root of p. */
  ghost predicate IsRoot(r: int, p: int) {
    0 <= r && r * r <= p < (r + 1) * (r + 1)
  }

  lemma RootUnique(r: int, s: int, p: int)
    requires IsRoot(r, p) && IsRoot(s, p)
    ensures r == s
  {
    if r < s {
      Multiplication.ProductMono(r + 1, s, r + 1, s);
    } else if s < r {
      Multiplication.ProductMono(s + 1, r, s + 1, r);
    }
  }

  /** One Newton step from r. */
  function Newton(p: int, r: int): int
    requires r > 0
  {
    (p / r + r) / 2
  }

  lemma MeanBound(b: int, r: int, m: int)
    requires 0 <= r && b + r <= 2 * m
    ensures b * r <= m * m
  {
    var d := m - r;
    assert b * r <= (m + d) * r;
    assert (m + d) * (m - d) == m * m - d * d;
    assert d * d >= 0;
  }

  lemma DivBounds(p: int, r: int)
    requires r > 0 && p >= 0
    ensures p / r >= 0 && r * (p / r) <= p < (p / r + 1) * r
  {
    assert p == r * (p / r) + p % r;
  }

  /** A step stays positive and never falls below the root. */
  lemma NewtonAbove(p: int, r: int)
    requires p >= 1 && r >= 1
    ensures var q := Newton(p, r); q >= 1 && p < (q + 1) * (q + 1)
  {
    var a := p / r;
    DivBounds(p, r);
    var q := Newton(p, r);
    assert 2 * q <= a + r <= 2 * q + 1;
    MeanBound(a + 1, r, q + 1);
    if r == 1 {
      assert a == p;
    }
  }

  /** When a step no longer goes down, it started at the root. */
  lemma NewtonStops(p: int, r: int)
    requires p >= 1 && r >= 1 && p < (r + 1) * (r + 1) && Newton(p, r) >= r
    ensures IsRoot(r, p)
  {
    DivBounds(p, r);
    Multiplication.ProductMono(r, r, r, p / r);
  }

  lemma PositiveQuotient(a: int, b: int)
    requires a >= 0 && b > 0
    ensures Quotient(a, b) == a / b
  {
  }

  /** Counts the odd numbers that fit: one more than the root of c0. */
  method CountOdds(c0: int) returns (c: int)
    requires 0 <= c0 <= 9999
    ensures 1 <= c <= 100 && (c - 1) * (c - 1) <= c0 < c * c
  {
    c := c0;
    var nn := 1;
    ghost var j := 0;
    c := c - nn;
    while c >= 0
      invariant nn == 2 * j + 1 && j >= 0
      invariant c == c0 - j * j - nn && j * j <= c0
      decreases c
    {
      assert (j + 1) * (j + 1) == j * j + 2 * j + 1;
      j := j + 1;
      nn := nn + 2;
      c := c - nn;
    }
    assert (j + 1) * (j + 1) == j * j + 2 * j + 1;
    if j > 99 {
      Multiplication.ProductMono(100, j, 100, j);
    }
    c := (nn + 1) / 2;
  }

  lemma {:induction false} ZerosVal(s: seq<int>)
    requires forall i :: 0 <= i < |s| ==> s[i] == 0
    ensures Val(s) == 0
  {
    hide Weight, Pow;
    if s != [] {
      var t, d := SplitTop(s);
      ZerosVal(t);
      WeightUnits(|t|);
    }
  }

  /** The number of two-digit groups of the root, and the one or two digits above them. */
  function Half(p: seq<int>): nat {
    (|p| + 1) / 2
  }

  function Head(p: seq<int>): int {
    if |p| % 2 == 1 then FromTop(p, 0) else LeadTwo(p)
  }

  lemma {:induction false} HeadBounds(p: seq<int>)
    requires Plain(p) && Normal(p) && p != []
    ensures 1 <= Head(p) <= 9999 && 0 < Val(p) < Weight(Head(p) + 1, 2 * (Half(p) - 1))
  {
    hide Val, Weight, Pow;
    var n := Half(p);
    SignedBounds(p);
    if |p| % 2 == 1 {
      var t, d := SplitTop(p);
      PlainBounds(t);
      WeightSum(d, 1, |t|);
      WeightUnits(|t|);
    } else {
      LeadTwoBounds(p);
      WeightUp(Head(p) + 1, 2 * (n - 1));
    }
  }

  lemma StartAbove(p: int, head: int, c: int, n: nat)
    requires 0 < p < Weight(head + 1, 2 * n) && head + 1 <= c * c && c >= 1
    ensures Weight(c, n) >= 1 && p < Weight(c, n) * Weight(c, n)
  {
    hide Pow;
    PowAdd(n, n);
    var w := Pow(n);
    StartAlgebra(head, c, w);
  }

  lemma StartAlgebra(head: int, c: int, w: int)
    requires head + 1 <= c * c && c >= 1 && w >= 1
    ensures (head + 1) * (w * w) <= (c * w) * (c * w) && c * w >= 1
  {
    assert (c * w) * (c * w) == (c * c) * (w * w);
    assert w * w >= 0;
    assert (head + 1) * (w * w) <= (c * c) * (w * w);
    assert c * w >= w;
  }

  /** A start above the root: zeros with the count of odd numbers on top. */
  method Start(p: Blk) returns (r: Blk)
    requires p.Valid() && Plain(p.Digits()) && Normal(p.Digits()) && p.Digits() != []
    modifies p`rd
    ensures fresh(r) && r.Valid() && Plain(r.Digits()) && Normal(r.Digits())
    ensures Val(r.Digits()) >= 1 && Val(p.Digits()) < Val(r.Digits()) * Val(r.Digits())
  {
    hide Val, Weight, Pow, Head, LeadTwo;
    ghost var s: seq<int> := p.Digits();
    var c := ReadHead(p);
    var n := (p.Length() + 1) / 2;
    r := new Blk.Salloc(n);
    r.Zero();
    r.Seekc(n);
    ghost var z: seq<int> := r.Digits();
    HeadBounds(s);
    c := CountOdds(c);
    StartAbove(Val(s), Head(s), c, n - 1);
    ZerosVal(z[..n - 1]);
    ValSnoc(z[..n - 1], c);
    r.Fsfile();
    r.Backc();
    if c >= 100 {
      c := c - 100;
      r.Salterc(c);
      r.Sputc(1);
      HundredOnTop(z[..n - 1]);
      assert r.Digits() == z[..n - 1] + [0, 1];
    } else {
      r.Salterc(c);
      assert r.Digits() == z[..n - 1] + [c];
    }
  }

  lemma {:induction false} HundredOnTop(z: seq<int>)
    ensures Val(z + [0, 1]) == Val(z) + Weight(100, |z|)
  {
    hide Val, Weight, Pow;
    assert z + [0, 1] == z + [0] + [1];
    TopZero(z);
    ValSnoc(z + [0], 1);
    WeightUp(1, |z|);
  }

  method ReadHead(p: Blk) returns (c: int)
    requires p.Valid() && p.Digits() != []
    modifies p`rd
    ensures c == Head(p.Digits())
  {
    var n := p.Length();
    p.Fsfile();
    c := p.Sbackc();
    if n % 2 != 1 {
      var d := 0;
      if !p.Sfbeg() {
        d := p.Sbackc();
      }
      c := c * 100 + d;
    }
  }

  /** Half the sum of r and p divided by r. */
  method NextRoot(dc: Dc, p: Blk, r: Blk) returns (q: Blk)
    requires dc.Valid() && p != r && p !in {dc.divxyz, dc.sqtemp, dc.tenptr} && r !in {dc.divxyz, dc.sqtemp, dc.tenptr}
    requires p.Valid() && Normal(p.Digits()) && r.Valid() && Normal(r.Digits())
    requires Val(p.Digits()) >= 1 && Val(r.Digits()) >= 1
    modifies dc`rem, dc`stack, dc.divxyz, dc.sqtemp`rd, r`rd
    ensures dc.Valid() && fresh(q) && q.Valid() && Normal(q.Digits())
    ensures Val(q.Digits()) == Newton(Val(p.Digits()), Val(r.Digits()))
    ensures dc.stack == old(dc.stack)
  {
    hide Val, Weight, Pow, Quotient, Remainder, Normal, Cells, Signed;
    ghost var a, b := Val(p.Digits()), Val(r.Digits());
    NormalSign(r.Digits());
    NormalParts(p.Digits());
    NormalParts(r.Digits());
    q := dc.Div(p, r);
    DivBounds(a, b);
    PositiveQuotient(a, b);
    NormalParts(q.Digits());
    var s := Add(q, r);
    TwoIsNormal();
    NormalParts(s.Digits());
    q := dc.Div(s, dc.sqtemp);
    PositiveQuotient(a / b + b, 2);
  }

  /** The sign test that ends the loop, on q - r. */
  method Smaller(q: Blk, r: Blk) returns (smaller: bool)
    requires q != r && q.Valid() && r.Valid() && Normal(q.Digits()) && Normal(r.Digits())
    modifies q`rd
    ensures smaller <==> Val(q.Digits()) < Val(r.Digits())
  {
    hide Val, Weight, Pow, Normal, Cells, Signed;
    NormalParts(r.Digits());
    var s := new Blk.Copy(r);
    Arith.ChSign(s);
    NormalParts(s.Digits());
    NormalParts(q.Digits());
    var t := Add(s, q);
    NormalSign(t.Digits());
    t.Fsfile();
    var nn := 0;
    if !t.Sfbeg() {
      nn := t.Sbackc();
      NormalTop(t.Digits());
    }
    smaller := nn < 0;
  }

  lemma {:induction false} NormalTop(s: seq<int>)
    requires Normal(s) && s != []
    ensures s[|s| - 1] < 0 <==> s[|s| - 1] == -1
  {
  }

  lemma {:induction false} NormalParts(s: seq<int>)
    requires Normal(s)
    ensures Signed(s) && Cells(s)
  {
  }

  lemma {:induction false} TwoIsNormal()
    ensures Normal([2]) && Val([2]) == 2
  {
    ValCons(2, []);
    assert [2] == [2] + [];
    assert Val([]) == 0;
  }

  /** The integer square root of a positive number. */
  method DcSqrt(dc: Dc, p: Blk) returns (r: Blk)
    requires dc.Valid() && p !in {dc.divxyz, dc.sqtemp, dc.tenptr}
    requires p.Valid() && Plain(p.Digits()) && Normal(p.Digits()) && p.Digits() != []
    modifies dc`rem, dc`stack, dc.divxyz, dc.sqtemp`rd, p`rd
    ensures dc.Valid() && fresh(r) && r.Valid() && Normal(r.Digits()) && dc.stack == old(dc.stack)
    ensures IsRoot(Val(r.Digits()), Val(p.Digits()))
  {
    hide Val, Weight, Pow, Newton, Normal, IsRoot;
    ghost var n := Val(p.Digits());
    NormalSign(p.Digits());
    PlainBounds(p.Digits());
    r := Start(p);
    SquareBelow(n, Val(r.Digits()));
    var smaller := true;
    while smaller
      invariant dc.Valid() && fresh(r) && r.Valid() && Normal(r.Digits()) && dc.stack == old(dc.stack)
      invariant p.Valid() && Normal(p.Digits()) && Val(p.Digits()) == n
      invariant Val(r.Digits()) >= 1 && n < (Val(r.Digits()) + 1) * (Val(r.Digits()) + 1)
      invariant !smaller ==> IsRoot(Val(r.Digits()), n)
      decreases smaller, Val(r.Digits())
    {
      NewtonAbove(n, Val(r.Digits()));
      var q := NextRoot(dc, p, r);
      smaller := Smaller(q, r);
      if smaller {
        r := q;
      } else {
        NewtonStops(n, Val(r.Digits()));
      }
    }
  }

  lemma SquareBelow(p: int, r: int)
    requires r >= 1 && p < r * r
    ensures p < (r + 1) * (r + 1)
  {
    assert (r + 1) * (r + 1) == r * r + 2 * r + 1;
  }
}
