/** The trial digit of dc's long division, as arithmetic on integers.

    At a step, v is what is left of the dividend, x is the divisor moved up to the current
    place, and y is the place of the divisor's top digit. The program sees v only through
    td, its three leading digits, and x through c, two or three leading digits scaled by
    eight when the top digit is below ten ("magic"). */
module TrialDigit {
  import opened Radix

  lemma TimesMono(a: int, b: int, y: int)
    requires a <= b && 0 <= y
    ensures Times(a, y) <= Times(b, y)
  {
  }

  lemma TimesConst(y: int)
    ensures Times(0, y) == 0 && Times(1, y) == y && Times(y, 1) == y && Times(7, y) == 7 * y && Times(15, y) == 15 * y
    ensures Times(8, y) == 8 * y && Times(117, y) == 117 * y && Times(800, y) == 800 * y && Times(1000, y) == 1000 * y
    ensures Times(118, y) == 118 * y && Times(26, y) == 26 * y
  {
  }

  lemma TimesScale(k: int, a: int, y: int)
    ensures Times(k * a, y) == k * Times(a, y)
  {
  }

  lemma ScaleBelow(d: int, c: int, y: int, k: int, x: int)
    requires 0 <= d && Times(c, y) <= k * x
    ensures Times(Times(d, c), y) <= k * Times(d, x)
  {
    assert d * (c * y) <= d * (k * x);
    assert (d * c) * y == d * (c * y);
    assert d * (k * x) == k * (d * x);
  }

  lemma ScaleAbove(d: int, c: int, y: int, k: int, x: int)
    requires 0 <= d && k * x <= Times(c, y)
    ensures k * Times(d, x) <= Times(Times(d, c), y)
  {
    assert d * (k * x) <= d * (c * y);
    assert (d * c) * y == d * (c * y);
    assert d * (k * x) == k * (d * x);
  }

  lemma DivisionLaw(a: int, b: int)
    requires 0 <= a && 0 < b
    ensures a / b >= 0 && 0 <= a % b < b
    ensures a == Times(a / b, b) + a % b
  {
  }

  lemma TimesBelow(d: int, k: int, x: int)
    requires 0 < x && Times(d, x) < Times(k, x)
    ensures d < k
  {
    if d >= k {
      TimesMono(k, d, x);
    }
  }

  /** How c stands for x. */
  ghost predicate Leading(c: int, magic: bool, x: int, y: int) {
    && 0 < x && 0 < y
    && (!magic ==> 1000 <= c && Times(c, y) <= 100 * x < Times(c + 1, y))
    && (magic ==> 800 <= c && 25 * Times(c, y) <= 20000 * x < 25 * Times(c, y) + 26 * y)
  }

  /** How td stands for v. */
  ghost predicate Window(td: int, v: int, y: int) {
    && 0 <= td
    && Times(td, y) <= 100 * v < Times(td + 1, y)
  }

  /** The trial digit, and whether it was lowered on purpose. */
  function Trial(td0: int, c: int, magic: bool, last: bool): (r: (int, bool))
    requires 0 <= td0 && 0 < c
  {
    var td1 := if last then td0 + 1 else td0;
    var cc := if last then c else c + 1;
    var td := if magic then 8 * td1 else td1;
    var dig := td / cc;
    if td % cc < 8 && dig > 0 && magic then (dig - 1, true) else (dig, false)
  }

  // ----- every digit but the last

  lemma EarlyPlain(td: int, v: int, c: int, x: int, y: int, dig: int)
    requires Leading(c, false, x, y) && Window(td, v, y) && 0 <= v < 117 * x
    requires dig == td / (c + 1)
    ensures 0 <= dig <= 116 && 0 <= v - Times(dig, x) && 100 * (v - Times(dig, x)) < 117 * x
  {
    hide Times;
    DivisionLaw(td, c + 1);
    ScaleAbove(dig, c + 1, y, 100, x);
    TimesMono(Times(dig, c + 1), td, y);
    TimesConst(x);
    TimesConst(y);
    TimesBelow(dig, 117, x);
    TimesSum(dig, 1, c + 1);
    TimesConst(c + 1);
    TimesMono(td + 1, Times(dig + 1, c + 1), y);
    TimesSum(c, 1, dig + 1);
    TimesConst(dig + 1);
    TimesSum(Times(dig + 1, c), dig + 1, y);
    ScaleBelow(dig + 1, c, y, 100, x);
    TimesMono(dig + 1, 117, y);
    TimesMono(1000, c, y);
    TimesSum(dig, 1, x);
  }

  lemma MagicSize(td: int, v: int, c: int, x: int, y: int, dig: int, cc: int)
    requires Leading(c, true, x, y) && Window(td, v, y) && 0 <= v < 117 * x
    requires cc >= c && 0 <= dig && Times(dig, cc) <= 8 * td + 8
    ensures dig <= 118 && y <= x
  {
    hide Times;
    TimesMono(800, c, y);
    TimesConst(y);
    TimesScale(8, td, y);
    // 8 td y <= 800 v < 93600 x and 20000 x < (25 c + 26) y
    TimesScale(117, c, y);
    assert 25 * Times(8 * td, y) < 2925 * Times(c, y) + 3042 * y;
    if 25 * (8 * td) >= 117 * (25 * c + 26) {
      TimesScale(25, 8 * td, y);
      TimesMono(117 * (25 * c + 26), 25 * (8 * td), y);
      TimesScale(117, 25 * c + 26, y);
      TimesSum(25 * c, 26, y);
      TimesScale(25, c, y);
      assert false;
    }
    if dig >= 119 {
      TimesMono(119, dig, cc);
      SmallTimes(cc);
      assert false;
    }
  }

  lemma SmallTimes(c: int)
    ensures Times(119, c) == 119 * c
  {
  }

  lemma EarlyMagic(td: int, v: int, c: int, x: int, y: int, dig: int)
    requires Leading(c, true, x, y) && Window(td, v, y) && 0 <= v < 117 * x
    requires dig == Trial(td, c, true, false).0
    ensures 0 <= dig <= 116 && 0 <= v - Times(dig, x) && 100 * (v - Times(dig, x)) < 117 * x
  {
    hide Times;
    var cc, t := c + 1, 8 * td;
    var d0, rm := t / cc, t % cc;
    DivisionLaw(t, cc);
    MagicSize(td, v, c, x, y, d0, cc);
    TimesConst(x);
    TimesConst(y);
    TimesScale(8, td, y);
    TimesSum(td, 1, y);
    TimesSum(c, 1, y);
    if dig == d0 {
      if d0 > 0 {
        EarlyMagicKeep(td, v, c, x, y, d0, rm);
      } else {
        TimesConst(cc);
        TimesSum(t, 1, y);
        TimesMono(t + 1, cc, y);
      }
    } else {
      EarlyMagicLower(td, v, c, x, y, d0, rm);
    }
    TimesBelow(dig, 117, x);
  }

  lemma EarlyMagicKeep(td: int, v: int, c: int, x: int, y: int, d: int, rm: int)
    requires Leading(c, true, x, y) && Window(td, v, y) && 0 < d <= 118 && y <= x
    requires 8 * td == Times(d, c + 1) + rm && 8 <= rm < c + 1
    ensures Times(d, x) <= v && 100 * (v - Times(d, x)) < 117 * x
  {
    hide Times;
    TimesConst(y);
    TimesConst(x);
    TimesConst(d);
    // 20000 d x <= d (25 c + 26) y
    TimesSum(25 * c, 26, y);
    TimesScale(25, c, y);
    ScaleAbove(d, 25 * c + 26, y, 20000, x);
    TimesSum(25 * c, 26, d);
    LowerTerms(d, c);
    TimesScale(25, Times(d, c + 1), y);
    TimesSum(25 * Times(d, c + 1), d, y);
    TimesMono(d, 118, y);
    // 8 td y
    TimesScale(8, td, y);
    TimesSum(Times(d, c + 1), rm, y);
    TimesMono(8, rm, y);
    // the remainder
    TimesSum(d, 1, c + 1);
    TimesConst(c + 1);
    TimesSum(c, 1, d + 1);
    TimesConst(d + 1);
    TimesMono(8 * td + 1, Times(d + 1, c + 1), y);
    TimesSum(8 * td, 1, y);
    TimesSum(td, 1, y);
    TimesSum(Times(d + 1, c), d + 1, y);
    assert Times(c, y) <= 800 * x;
    ScaleBelow(d + 1, c, y, 800, x);
    TimesSum(d, 1, y);
    TimesSum(d, 1, x);
  }

  lemma LowerTerms(d: int, c: int)
    ensures Times(d, 25 * c + 26) == 25 * Times(d, c + 1) + d
  {
  }

  lemma EarlyMagicLower(td: int, v: int, c: int, x: int, y: int, d: int, rm: int)
    requires Leading(c, true, x, y) && Window(td, v, y) && 0 < d <= 118 && y <= x
    requires 8 * td == Times(d, c + 1) + rm && 0 <= rm < 8
    ensures Times(d - 1, x) <= v && 100 * (v - Times(d - 1, x)) < 117 * x
  {
    hide Times;
    TimesConst(y);
    TimesConst(x);
    TimesSum(25 * c, 26, y);
    TimesScale(25, c, y);
    ScaleAbove(d - 1, 25 * c + 26, y, 20000, x);
    LowerTerms(d - 1, c);
    TimesSum(d - 1, 1, c + 1);
    TimesConst(c + 1);
    var e := Times(d, c + 1);
    TimesMono(25 * Times(d - 1, c + 1) + (d - 1), 25 * e, y);
    TimesScale(25, e, y);
    TimesSum(e, rm, y);
    TimesMono(0, rm, y);
    TimesScale(8, td, y);
    // the remainder
    TimesMono(rm, 7, y);
    TimesSum(td, 1, y);
    TimesSum(c, 1, d);
    TimesConst(d);
    TimesSum(Times(d, c), d, y);
    assert Times(c, y) <= 800 * x;
    ScaleBelow(d, c, y, 800, x);
    TimesMono(d, 118, y);
    TimesSum(d - 1, 1, x);
  }

  // ----- the last digit

  lemma LastPlain(td: int, v: int, c: int, x: int, y: int, d: int)
    requires Leading(c, false, x, y) && Window(td, v, y) && 0 <= v < 117 * x
    requires d == (td + 1) / c
    ensures 0 <= d <= 118 && -x <= v - Times(d, x) < x
  {
    hide Times;
    DivisionLaw(td + 1, c);
    TimesConst(x);
    TimesConst(y);
    // d is small
    TimesSum(c, 1, y);
    TimesScale(117, c + 1, y);
    if td >= 117 * (c + 1) {
      TimesMono(117 * (c + 1), td, y);
      assert false;
    }
    if d >= 119 {
      TimesMono(119, d, c);
      SmallTimes(c);
      assert false;
    }
    // not too small
    TimesSum(d, 1, c);
    TimesConst(c);
    ScaleBelow(d + 1, c, y, 100, x);
    TimesMono(td + 1, Times(d + 1, c), y);
    TimesSum(d, 1, x);
    // at most one too large
    if d > 0 {
      ScaleAbove(d - 1, c + 1, y, 100, x);
      TimesSum(d - 1, 1, c);
      TimesSum(c, 1, d - 1);
      TimesConst(d - 1);
      TimesMono(Times(d - 1, c + 1), td, y);
      TimesSum(d - 1, 1, x);
    }
  }

  /** The lowered digit is at most one too small, the other at most one too large. */
  lemma LastMagic(td: int, v: int, c: int, x: int, y: int, d: int)
    requires Leading(c, true, x, y) && Window(td, v, y) && 0 <= v < 117 * x
    requires d == (8 * (td + 1)) / c
    ensures 0 <= d <= 118 && -x <= v - Times(d, x) < x
  {
    hide Times;
    var t := 8 * (td + 1);
    DivisionLaw(t, c);
    MagicSize(td, v, c, x, y, d, c);
    TimesConst(x);
    TimesConst(y);
    TimesScale(8, td + 1, y);
    TimesScale(8, td, y);
    TimesSum(td, 1, y);
    // not too small
    TimesSum(d, 1, c);
    TimesConst(c);
    assert Times(c, y) <= 800 * x;
    ScaleBelow(d + 1, c, y, 800, x);
    TimesMono(t, Times(d + 1, c), y);
    TimesSum(d, 1, x);
    // at most one too large
    if d > 0 {
      TimesSum(25 * c, 26, y);
      TimesScale(25, c, y);
      ScaleAbove(d - 1, 25 * c + 26, y, 20000, x);
      TimesSum(d - 1, 1, c);
      LastTerms(d - 1, c);
      var e := Times(d - 1, 25 * c + 26);
      TimesMono(e, 25 * (8 * td), y);
      TimesScale(25, 8 * td, y);
      TimesSum(d - 1, 1, x);
    }
  }

  lemma LastTerms(d: int, c: int)
    ensures Times(d, 25 * c + 26) == 25 * Times(d, c) + 26 * d
  {
  }

  // ----- together

  /** A trial digit before the last never overshoots, stays below 117, and leaves less than
      117 times the divisor one place down. */
  lemma EarlyDigit(td: int, v: int, c: int, magic: bool, x: int, y: int)
    requires Leading(c, magic, x, y) && Window(td, v, y) && 0 <= v < 117 * x
    ensures var dig := Trial(td, c, magic, false).0;
      0 <= dig <= 116 && 0 <= v - dig * x && 100 * (v - dig * x) < 117 * x
  {
    var dig := Trial(td, c, magic, false).0;
    if magic {
      EarlyMagic(td, v, c, x, y, dig);
    } else {
      EarlyPlain(td, v, c, x, y, dig);
    }
    assert Times(dig, x) == dig * x;
  }

  /** The last trial digit is right or one too large, unless it was lowered on purpose: then
      it is right or one too small. */
  lemma LastDigit(td: int, v: int, c: int, magic: bool, x: int, y: int)
    requires Leading(c, magic, x, y) && Window(td, v, y) && 0 <= v < 117 * x
    ensures var (dig, under) := Trial(td, c, magic, true);
      && 0 <= dig <= 118
      && (under ==> 0 <= v - dig * x < 2 * x)
      && (!under ==> -x <= v - dig * x < x)
  {
    var (dig, under) := Trial(td, c, magic, true);
    if magic {
      var d := (8 * (td + 1)) / c;
      LastMagic(td, v, c, x, y, d);
      assert Times(d, x) == d * x;
      if under {
        assert (d - 1) * x == d * x - x;
      }
    } else {
      LastPlain(td, v, c, x, y, dig);
      assert Times(dig, x) == dig * x;
    }
  }
}
