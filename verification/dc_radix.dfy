/** Base-100 positional numbers, least significant digit first, as dc stores them.

    Most proofs hide the definitions of Pow and Weight, so that only the linear laws
    below are used and no product reaches the solver. */
module Radix {

  /** 100 to the power n. */
  function Pow(n: nat): (r: int)
    ensures r >= 1
  {
    if n == 0 then 1 else 100 * Pow(n - 1)
  }

  /** What digit d contributes at place n. */
  function Weight(d: int, n: nat): int {
    d * Pow(n)
  }

  /** The number a digit string stands for; any integers may be used as digits. */
  function Val(s: seq<int>): int {
    if s == [] then 0 else Val(s[..|s| - 1]) + Weight(s[|s| - 1], |s| - 1)
  }

  /** Every digit lies in 0..99. */
  predicate Plain(s: seq<int>) {
    forall i :: 0 <= i < |s| ==> 0 <= s[i] <= 99
  }

  /** Plain below the top digit, which may also be -1. */
  predicate Signed(s: seq<int>) {
    && (forall i :: 0 <= i < |s| - 1 ==> 0 <= s[i] <= 99)
    && (s != [] ==> -1 <= s[|s| - 1] <= 99)
  }

  /** dc's normal form: no zero on top, and no 99 under a top -1 except in the two-digit
      form of minus one that addition produces. */
  predicate Normal(s: seq<int>) {
    && Signed(s)
    && (s != [] ==> s[|s| - 1] != 0)
    && (|s| >= 2 && s[|s| - 1] == -1 && s[|s| - 2] == 99 ==> |s| == 2)
  }

  /** A product the solver is not to look into. */
  function Times(a: int, b: int): int {
    a * b
  }

  lemma TimesSum(a: int, b: int, y: int)
    ensures Times(a + b, y) == Times(a, y) + Times(b, y)
    ensures Times(y, a + b) == Times(y, a) + Times(y, b)
  {
  }

  // ----- weights

  lemma WeightSum(a: int, b: int, n: nat)
    ensures Weight(a + b, n) == Weight(a, n) + Weight(b, n)
  {
    var p := Pow(n);
    assert (a + b) * p == a * p + b * p;
  }

  lemma WeightUp(d: int, n: nat)
    ensures Weight(d, n + 1) == Weight(100 * d, n) == 100 * Weight(d, n)
    ensures Pow(n + 1) == 100 * Pow(n)
  {
    var p := Pow(n);
    assert d * (100 * p) == (100 * d) * p;
  }

  lemma WeightUnits(n: nat)
    ensures Weight(0, n) == 0 && Weight(1, n) == Pow(n) && Weight(-1, n) == -Pow(n)
    ensures Pow(0) == 1
  {
  }

  lemma WeightMono(a: int, b: int, n: nat)
    requires a <= b
    ensures Weight(a, n) <= Weight(b, n)
  {
    var p := Pow(n);
    assert a * p <= b * p;
  }

  lemma {:induction false} PowAdd(a: nat, b: nat)
    ensures Pow(a + b) == Pow(a) * Pow(b)
  {
    if b > 0 {
      PowAdd(a, b - 1);
      var p, q := Pow(a), Pow(b - 1);
      assert 100 * (p * q) == p * (100 * q);
    }
  }

  lemma Reassociate(d: int, p: int, q: int)
    ensures d * (p * q) == p * (d * q)
  {
  }

  lemma WeightShift(d: int, a: nat, b: nat)
    ensures Weight(d, a + b) == Pow(a) * Weight(d, b)
  {
    hide Pow;
    PowAdd(a, b);
    Reassociate(d, Pow(a), Pow(b));
  }

  lemma {:induction false} PowMono(a: nat, b: nat)
    requires a <= b
    ensures Pow(a) <= Pow(b)
  {
    if a < b {
      PowMono(a, b - 1);
    }
  }

  // ----- values

  lemma {:induction false} ValSnoc(s: seq<int>, d: int)
    ensures Val(s + [d]) == Val(s) + Weight(d, |s|)
  {
    hide Weight;
    assert (s + [d])[..|s|] == s;
  }

  lemma {:induction false} SplitTop(s: seq<int>) returns (t: seq<int>, d: int)
    requires s != []
    ensures |t| == |s| - 1 && t == s[..|s| - 1] && d == s[|s| - 1] && s == t + [d]
    ensures Val(s) == Val(t) + Weight(d, |t|)
  {
    hide Weight;
    t, d := s[..|s| - 1], s[|s| - 1];
  }

  lemma {:induction false} ValPrefix(s: seq<int>, i: nat)
    requires i < |s|
    ensures s[..i + 1] == s[..i] + [s[i]]
    ensures Val(s[..i + 1]) == Val(s[..i]) + Weight(s[i], i)
  {
    hide Val, Weight;
    ValSnoc(s[..i], s[i]);
  }

  lemma DistributeLeft(p: int, a: int, b: int)
    ensures p * (a + b) == p * a + p * b
  {
  }

  lemma {:induction false} ValConcat(a: seq<int>, b: seq<int>)
    ensures Val(a + b) == Val(a) + Pow(|a|) * Val(b)
  {
    hide Weight, Pow;
    if b == [] {
      assert a + b == a;
    } else {
      var c, d := SplitTop(b);
      assert a + b == (a + c) + [d];
      ValConcat(a, c);
      ValSnoc(a + c, d);
      WeightShift(d, |a|, |c|);
      DistributeLeft(Pow(|a|), Val(c), Weight(d, |c|));
    }
  }

  lemma {:induction false} ValCons(d: int, s: seq<int>)
    ensures Val([d] + s) == d + 100 * Val(s)
  {
    ValConcat([d], s);
    assert Val([d]) == d by {
      assert [d] == [] + [d];
      ValSnoc([], d);
      assert Val([]) == 0;
    }
    assert Pow(1) == 100 * Pow(0) == 100;
  }

  lemma {:induction false} SplitLow(s: seq<int>)
    requires s != []
    ensures Val(s) == s[0] + 100 * Val(s[1..])
  {
    hide Weight;
    assert s == [s[0]] + s[1..];
    ValCons(s[0], s[1..]);
  }

  /** A trailing 99 below the -1 weighs the same as the -1 one place down. */
  lemma {:induction false} FoldNines(x: seq<int>)
    ensures Val(x + [99, -1]) == Val(x + [-1])
  {
    hide Val, Weight, Pow;
    ValSnoc(x, 99);
    ValSnoc(x, -1);
    ValSnoc(x + [99], -1);
    assert x + [99] + [-1] == x + [99, -1];
    WeightUp(-1, |x|);
    WeightSum(99, -100, |x|);
  }

  lemma {:induction false} TopZero(x: seq<int>)
    ensures Val(x + [0]) == Val(x)
  {
    hide Val, Weight, Pow;
    ValSnoc(x, 0);
    WeightUnits(|x|);
  }

  /** A plain string of n digits stands for a number in 0 .. 100^n - 1. */
  lemma {:induction false} PlainBounds(s: seq<int>)
    requires Plain(s)
    ensures 0 <= Val(s) < Pow(|s|)
  {
    hide Weight, Pow;
    if s != [] {
      var t, d := SplitTop(s);
      PlainBounds(t);
      WeightMono(0, d, |t|);
      WeightMono(d + 1, 100, |t|);
      WeightSum(d, 1, |t|);
      WeightUnits(|t|);
      WeightUp(1, |t|);
    }
  }

  /** The top digit of a signed string gives its sign and its size. */
  lemma {:induction false} SignedBounds(s: seq<int>)
    requires Signed(s) && s != []
    ensures s[|s| - 1] == -1 ==> -Pow(|s| - 1) <= Val(s) < 0
    ensures s[|s| - 1] >= 0 ==> Plain(s) && 0 <= Val(s)
    ensures s[|s| - 1] >= 1 ==> Val(s) >= Pow(|s| - 1)
  {
    hide Val, Weight, Pow;
    var t, d := SplitTop(s);
    PlainBounds(t);
    WeightUnits(|t|);
    if d >= 0 {
      WeightMono(0, d, |t|);
    }
    if d >= 1 {
      WeightMono(1, d, |t|);
    }
  }

  /** In normal form the sign is read off the top digit, and only the empty string is zero. */
  lemma {:induction false} NormalSign(s: seq<int>)
    requires Normal(s)
    ensures Val(s) == 0 <==> s == []
    ensures Val(s) < 0 <==> s != [] && s[|s| - 1] == -1
  {
    hide Weight, Pow;
    if s != [] {
      SignedBounds(s);
    }
  }

  // ----- uniqueness

  lemma SameQuotient(x: int, c: int, y: int, d: int, n: nat)
    requires 0 <= x < Pow(n) && 0 <= y < Pow(n) && x + Weight(c, n) == y + Weight(d, n)
    ensures c == d && x == y
  {
    hide Weight, Pow;
    WeightUnits(n);
    if c < d {
      WeightMono(c + 1, d, n);
      WeightSum(c, 1, n);
    } else if d < c {
      WeightMono(d + 1, c, n);
      WeightSum(d, 1, n);
    }
  }

  /** Plain strings of one length are equal when their values are. */
  lemma {:induction false} PlainUnique(a: seq<int>, b: seq<int>)
    requires Plain(a) && Plain(b) && |a| == |b| && Val(a) == Val(b)
    ensures a == b
  {
    hide Val, Weight, Pow;
    if a != [] {
      var x, c := SplitTop(a);
      var y, d := SplitTop(b);
      PlainBounds(x);
      PlainBounds(y);
      SameQuotient(Val(x), c, Val(y), d, |x|);
      PlainUnique(x, y);
    }
  }

  /** A value has one normal form, apart from minus one, which has two. */
  lemma {:induction false} NormalUnique(a: seq<int>, b: seq<int>)
    requires Normal(a) && Normal(b) && Val(a) == Val(b)
    ensures a == b || (a == [-1] && b == [99, -1]) || (a == [99, -1] && b == [-1])
  {
    hide Val, Weight, Pow;
    NormalSign(a);
    NormalSign(b);
    if a != [] {
      if |a| < |b| {
        NormalLengths(a, b);
      } else if |b| < |a| {
        NormalLengths(b, a);
      } else {
        var x, c := SplitTop(a);
        var y, d := SplitTop(b);
        PlainBounds(x);
        PlainBounds(y);
        SameQuotient(Val(x), c, Val(y), d, |x|);
        PlainUnique(x, y);
      }
    }
  }

  /** Two normal strings of different length and one value are the two forms of minus one. */
  lemma {:induction false} NormalLengths(a: seq<int>, b: seq<int>)
    requires Normal(a) && Normal(b) && Val(a) == Val(b) && 0 < |a| < |b|
    ensures a == [-1] && b == [99, -1]
  {
    hide Val, Weight, Pow;
    NormalSign(a);
    NormalSign(b);
    SignedBounds(a);
    SignedBounds(b);
    PowMono(|a|, |b| - 1);
    PowMono(|a| - 1, |b| - 2);
    if a[|a| - 1] >= 1 {
      PlainBounds(a);
    } else {
      var y, e := SplitTop(b);
      var x, d := SplitTop(y);
      PlainBounds(x);
      WeightUnits(|x|);
      WeightUnits(|y|);
      WeightUp(1, |x|);
      WeightSum(99, 1, |x|);
      if d < 99 {
        WeightMono(d, 98, |x|);
        WeightSum(98, 1, |x|);
      }
    }
  }
}
