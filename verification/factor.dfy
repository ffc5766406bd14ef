/** The factor command: trial division on a wheel of 210. */
module Factor {

  /** The distances between the numbers that 2, 3, 5 and 7 do not divide. */
  function Wheel(i: nat): nat
    requires i < 48
  {
    match i
    case 0 => 2 case 1 => 10 case 2 => 2 case 3 => 4 case 4 => 2 case 5 => 4
    case 6 => 6 case 7 => 2 case 8 => 6 case 9 => 4 case 10 => 2 case 11 => 4
    case 12 => 6 case 13 => 6 case 14 => 2 case 15 => 6 case 16 => 4 case 17 => 2
    case 18 => 6 case 19 => 4 case 20 => 6 case 21 => 8 case 22 => 4 case 23 => 2
    case 24 => 4 case 25 => 2 case 26 => 4 case 27 => 8 case 28 => 6 case 29 => 4
    case 30 => 6 case 31 => 2 case 32 => 4 case 33 => 6 case 34 => 2 case 35 => 6
    case 36 => 6 case 37 => 4 case 38 => 2 case 39 => 4 case 40 => 6 case 41 => 2
    case 42 => 6 case 43 => 4 case 44 => 2 case 45 => 4 case 46 => 2 case _ => 10
  }

  /** Where on the wheel each distance is taken, modulo 210. */
  function Spoke(i: nat): nat
    requires i < 48
  {
    match i
    case 0 => 209 case 1 => 1 case 2 => 11 case 3 => 13 case 4 => 17 case 5 => 19
    case 6 => 23 case 7 => 29 case 8 => 31 case 9 => 37 case 10 => 41 case 11 => 43
    case 12 => 47 case 13 => 53 case 14 => 59 case 15 => 61 case 16 => 67 case 17 => 71
    case 18 => 73 case 19 => 79 case 20 => 83 case 21 => 89 case 22 => 97 case 23 => 101
    case 24 => 103 case 25 => 107 case 26 => 109 case 27 => 113 case 28 => 121 case 29 => 127
    case 30 => 131 case 31 => 137 case 32 => 139 case 33 => 143 case 34 => 149 case 35 => 151
    case 36 => 157 case 37 => 163 case 38 => 167 case 39 => 169 case 40 => 173 case 41 => 179
    case 42 => 181 case 43 => 187 case 44 => 191 case 45 => 193 case 46 => 197 case _ => 199
  }

  predicate Divides(d: int, n: int)
    requires d > 0
  {
    n % d == 0
  }

  ghost predicate IsPrime(p: int) {
    p >= 2 && forall d :: 2 <= d < p ==> !Divides(d, p)
  }

  function Product(s: seq<int>): int {
    if s == [] then 1 else Product(s[..|s| - 1]) * s[|s| - 1]
  }

  /** No number from 2 to d divides n. */
  ghost predicate NoFactor(n: int, d: int) {
    forall k :: 2 <= k <= d ==> !Divides(k, n)
  }

  // ----- divisibility

  lemma DividesByDefinition(d: int, n: int, q: int)
    requires d > 0 && n == d * q
    ensures Divides(d, n) && n / d == q
  {
    var r := q - n / d;
    assert n == d * (n / d) + n % d;
    assert d * r == n % d;
    Multiple(d, r);
  }

  lemma Multiple(d: int, r: int)
    requires d > 0
    ensures (r >= 1 ==> d * r >= d) && (r <= -1 ==> d * r <= -d)
  {
  }

  lemma DividesTransitive(a: int, b: int, c: int)
    requires a > 0 && b > 0 && Divides(a, b) && Divides(b, c)
    ensures Divides(a, c)
  {
    var x, y := b / a, c / b;
    assert b == a * x && c == b * y;
    assert (a * x) * y == a * (x * y);
    DividesByDefinition(a, c, x * y);
  }

  lemma DividesFactor(d: int, n: int)
    requires d > 0 && Divides(d, n)
    ensures n == d * (n / d)
    ensures n > 0 ==> n / d > 0 && Divides(n / d, n)
  {
    var q := n / d;
    assert n == d * q;
    if n > 0 {
      DividesByDefinition(q, n, d);
    }
  }

  /** Dividing out keeps the absence of factors. */
  lemma {:induction false} NoFactorQuotient(n: int, d: int, bound: int)
    requires n > 0 && d > 0 && Divides(d, n) && NoFactor(n, bound)
    ensures n / d > 0 && NoFactor(n / d, bound)
  {
    hide Divides;
    DividesFactor(d, n);
    forall k | 2 <= k <= bound ensures !Divides(k, n / d) {
      if Divides(k, n / d) {
        DividesTransitive(k, n / d, n);
      }
    }
  }

  /** The first divisor from 2 on is prime. */
  lemma {:induction false} FirstDivisorPrime(n: int, d: int)
    requires d >= 2 && Divides(d, n) && NoFactor(n, d - 1)
    ensures IsPrime(d)
  {
    hide Divides;
    forall e | 2 <= e < d ensures !Divides(e, d) {
      if Divides(e, d) {
        DividesTransitive(e, d, n);
      }
    }
  }

  lemma SquareOrder(a: int, b: int, m: int)
    requires 0 <= a && 0 <= b && a * b < m * m && 0 <= m
    ensures a < m || b < m
  {
  }

  /** A number above 1 without factors up to d is prime once d - 1 is above its root. */
  lemma {:induction false} LeftoverPrime(n: int, d: int)
    requires n > 1 && d >= 1 && NoFactor(n, d) && (d - 1) * (d - 1) > n
    ensures IsPrime(n) && n > d
  {
    hide Divides;
    SelfDivides(n);
    forall e | 2 <= e < n ensures !Divides(e, n) {
      if Divides(e, n) {
        DividesFactor(e, n);
        var q := n / e;
        SquareOrder(e, q, d - 1);
        ProperQuotient(e, q, n);
      }
    }
  }

  lemma ProperQuotient(e: int, q: int, n: int)
    requires 2 <= e < n && n == e * q && q > 0
    ensures q >= 2
  {
  }

  lemma SelfDivides(n: int)
    requires n > 0
    ensures Divides(n, n)
  {
    DividesByDefinition(n, n, 1);
  }

  // ----- the wheel

  /** 2, 3, 5 or 7 divides k. */
  predicate Skipped(k: int) {
    k % 2 == 0 || k % 3 == 0 || k % 5 == 0 || k % 7 == 0
  }

  /** From spoke r, w leads to spoke next, and everything in between is skipped. */
  predicate Turn(r: int, w: int, next: int) {
    && 2 <= w && next == (r + w) % 210
    && (w <= 1 || Skipped(r + 1)) && (w <= 2 || Skipped(r + 2)) && (w <= 3 || Skipped(r + 3))
    && (w <= 4 || Skipped(r + 4)) && (w <= 5 || Skipped(r + 5)) && (w <= 6 || Skipped(r + 6))
    && (w <= 7 || Skipped(r + 7)) && (w <= 8 || Skipped(r + 8)) && (w <= 9 || Skipped(r + 9)) && w <= 10
  }

  function Next(i: nat): nat {
    if i >= 47 then 0 else i + 1
  }

  lemma LowTurns(i: nat)
    requires i < 24
    ensures Turn(Spoke(i), Wheel(i), Spoke(Next(i)))
  {
  }

  lemma HighTurns(i: nat)
    requires 24 <= i < 36
    ensures Turn(Spoke(i), Wheel(i), Spoke(Next(i)))
  {
  }

  lemma TopTurns(i: nat)
    requires 36 <= i < 48
    ensures Turn(Spoke(i), Wheel(i), Spoke(Next(i)))
  {
  }

  lemma SkipByResidue(k: int, r: int)
    requires k % 210 == r % 210 && Skipped(r)
    ensures Skipped(k)
  {
    var q := k / 210 - r / 210;
    assert k == r + 210 * q;
    SameRemainder(k, r, 2, 105 * q);
    SameRemainder(k, r, 3, 70 * q);
    SameRemainder(k, r, 5, 42 * q);
    SameRemainder(k, r, 7, 30 * q);
  }

  lemma SameRemainder(k: int, r: int, m: int, q: int)
    requires m > 0 && k == r + m * q
    ensures k % m == r % m
  {
    var t := r / m + q - k / m;
    assert k == m * (k / m) + k % m && r == m * (r / m) + r % m;
    assert m * t == k % m - r % m;
    Multiple(m, t);
  }

  /** A multiple of 2, 3, 5 or 7 does not divide n, when those do not. */
  lemma SkippedNoFactor(n: int, k: int)
    requires k >= 2 && NoFactor(n, 7) && Skipped(k)
    ensures !Divides(k, n)
  {
    if Divides(k, n) {
      if k % 2 == 0 {
        DividesTransitive(2, k, n);
      } else if k % 3 == 0 {
        DividesTransitive(3, k, n);
      } else if k % 5 == 0 {
        DividesTransitive(5, k, n);
      } else {
        DividesTransitive(7, k, n);
      }
    }
  }

  /** Turning the wheel from d skips no divisor of n. */
  lemma {:induction false} WheelSkips(n: int, d: int, i: nat)
    requires d >= 1 && i < 48 && d % 210 == Spoke(i) && NoFactor(n, 7) && NoFactor(n, d)
    ensures NoFactor(n, d + Wheel(i) - 1) && (d + Wheel(i)) % 210 == Spoke(Next(i)) && Wheel(i) >= 2
  {
    hide Divides, Wheel, Spoke, Turn, Skipped;
    if i < 24 {
      LowTurns(i);
    } else if i < 36 {
      HighTurns(i);
    } else {
      TopTurns(i);
    }
    var w := Wheel(i);
    TurnEnds(d, Spoke(i), w, Spoke(Next(i)));
    forall k | 2 <= k <= d + w - 1 ensures !Divides(k, n) {
      if k > d {
        SkipAt(d, Spoke(i), w, Spoke(Next(i)), k);
        SkippedNoFactor(n, k);
      }
    }
  }

  lemma TurnEnds(d: int, r: int, w: int, next: int)
    requires d % 210 == r && Turn(r, w, next)
    ensures (d + w) % 210 == next && w >= 2
  {
    hide Skipped;
  }

  lemma TurnGap(r: int, w: int, next: int, j: int)
    requires Turn(r, w, next) && 0 < j < w
    ensures Skipped(r + j)
  {
    hide Skipped;
  }

  lemma SkipAt(d: int, r: int, w: int, next: int, k: int)
    requires d % 210 == r && Turn(r, w, next) && d < k < d + w
    ensures Skipped(k)
  {
    hide Skipped, Turn;
    var j := k - d;
    TurnGap(r, w, next, j);
    SameRemainder(k, r + j, 210, d / 210);
    SkipByResidue(k, r + j);
  }

  // ----- the program

  /** Nondecreasing. */
  ghost predicate Sorted(s: seq<int>) {
    forall i, j :: 0 <= i <= j < |s| ==> s[i] <= s[j]
  }

  /** All prime, in order, none above bound. */
  ghost predicate Printed(s: seq<int>, bound: int) {
    Sorted(s) && forall i :: 0 <= i < |s| ==> IsPrime(s[i]) && s[i] <= bound
  }

  lemma ProductSnoc(s: seq<int>, d: int)
    ensures Product(s + [d]) == Product(s) * d
  {
    assert (s + [d])[..|s|] == s;
  }

  lemma Regroup(p: int, d: int, q: int)
    ensures (p * d) * q == p * (d * q)
  {
  }

  /** The loop that divides n by d as often as it goes. */
  method DivideOut(n0: int, d: int, printed: seq<int>) returns (n: int, out: seq<int>)
    requires n0 >= 1 && d >= 2 && NoFactor(n0, d - 1) && Printed(printed, d)
    ensures 1 <= n <= n0 && NoFactor(n, d) && Printed(out, d)
    ensures Product(out) * n == Product(printed) * n0
  {
    hide Divides, Product, IsPrime;
    n, out := n0, printed;
    while Divides(d, n)
      invariant 1 <= n <= n0 && NoFactor(n, d - 1) && Printed(out, d)
      invariant Product(out) * n == Product(printed) * n0
      decreases n
    {
      FirstDivisorPrime(n, d);
      NoFactorQuotient(n, d, d - 1);
      DividesFactor(d, n);
      ProductSnoc(out, d);
      Regroup(Product(out), d, n / d);
      Shrinks(d, n);
      out := out + [d];
      n := n / d;
    }
  }

  lemma Shrinks(d: int, n: int)
    requires d >= 2 && n >= 1
    ensures n / d < n
  {
  }

  /** d is above the square root of n plus one. */
  predicate Exceeds(d: int, n: int) {
    (d - 1) * (d - 1) > n
  }

  lemma FarExceeds(d: int, n: int)
    requires n >= 1 && d >= n + 3
    ensures Exceeds(d, n)
  {
    Multiple(d - 1, d - 1);
  }

  lemma {:induction false} NoFactorLess(n: int, d: int, less: int)
    requires NoFactor(n, d) && less <= d
    ensures NoFactor(n, less)
  {
  }

  /** An odd number has no even factor. */
  lemma {:induction false} EvenNoFactor(n: int, k: int)
    requires n >= 1 && NoFactor(n, k - 1) && k > 2 && k % 2 == 0
    ensures NoFactor(n, k)
  {
    hide Divides;
    if Divides(k, n) {
      HalfDivides(k);
      DividesTransitive(2, k, n);
    }
  }

  lemma HalfDivides(k: int)
    requires k % 2 == 0
    ensures Divides(2, k)
  {
  }

  lemma {:induction false} PrintedBelow(s: seq<int>, bound: int, larger: int)
    requires Printed(s, bound) && bound <= larger
    ensures Printed(s, larger)
  {
  }

  /** The four loops for 2, 3, 5 and 7. */
  method SmallPrimes(n0: int) returns (n: int, out: seq<int>)
    requires n0 >= 1
    ensures n >= 1 && NoFactor(n, 7) && Printed(out, 7) && Product(out) * n == n0
  {
    hide Divides, IsPrime;
    n, out := DivideOut(n0, 2, []);
    PrintedBelow(out, 2, 3);
    n, out := DivideOut(n, 3, out);
    PrintedBelow(out, 3, 5);
    EvenNoFactor(n, 4);
    n, out := DivideOut(n, 5, out);
    PrintedBelow(out, 5, 7);
    EvenNoFactor(n, 6);
    n, out := DivideOut(n, 7, out);
  }

  /** What holds whenever the wheel has been turned to spoke i and n divided by d. */
  ghost predicate OnWheel(n: int, d: int, i: nat, out: seq<int>, n0: int)
    requires i < 48
  {
    && n >= 1 && d >= 1 && d % 210 == Spoke(i) && ((d == 1 && i == 1) || d >= 11)
    && NoFactor(n, 7) && NoFactor(n, d) && Printed(out, if d < 7 then 7 else d)
    && Product(out) * n == n0
  }

  /** One distance: on to the next number, which is divided out. */
  method Turned(n0: int, d0: int, i: nat, printed: seq<int>, ghost whole: int) returns (n: int, d: int, out: seq<int>)
    requires i < 48 && OnWheel(n0, d0, i, printed, whole)
    ensures OnWheel(n, d, Next(i), out, whole) && n <= n0 && d > d0
  {
    hide Divides, IsPrime, Wheel, Spoke, NoFactor, Printed, Product;
    WheelSkips(n0, d0, i);
    FirstTurn();
    d := d0 + Wheel(i);
    PrintedBelow(printed, if d0 < 7 then 7 else d0, d);
    n, out := DivideOut(n0, d, printed);
    NoFactorLess(n, d, 7);
  }

  lemma FirstTurn()
    ensures Wheel(1) == 10
  {
  }

  lemma Bottom(n: int)
    ensures NoFactor(n, 1) && 1 % 210 == Spoke(1)
  {
  }

  /** Prints the prime factors of n in order, repeated as often as they divide it. */
  method PrimeFactors(n0: int) returns (out: seq<int>)
    requires n0 >= 0
    ensures n0 == 0 ==> out == []
    ensures n0 >= 1 ==> Product(out) == n0 && Sorted(out) && forall i :: 0 <= i < |out| ==> IsPrime(out[i])
  {
    hide Divides, Product, IsPrime, NoFactor, Exceeds, Wheel, Spoke;
    out := [];
    if n0 == 0 {
      return;
    }
    var n: int;
    n, out := SmallPrimes(n0);
    var d, i := 1, 1;
    Bottom(n);
    while true
      invariant 0 <= i < 48 && OnWheel(n, d, i, out, n0)
      decreases n, if d <= n + 3 then n + 3 - d else 0, 48 - i
    {
      n, d, out := Turned(n, d, i, out, n0);
      i := i + 1;
      if i >= 48 {
        i := 0;
        if Exceeds(d, n) {
          break;
        }
        if d >= n + 3 {
          FarExceeds(d, n);
        }
      }
    }
    if n > 1 {
      FullyDivided(n, d);
      ProductSnoc(out, n);
      out := out + [n];
    }
  }

  /** What is left when the loop ends is a prime above all that was printed. */
  lemma {:induction false} FullyDivided(n: int, d: int)
    requires n > 1 && d >= 1 && NoFactor(n, d) && Exceeds(d, n)
    ensures IsPrime(n) && n > d
  {
    LeftoverPrime(n, d);
  }
}
