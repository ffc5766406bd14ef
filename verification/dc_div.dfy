/** The steps of dc's long division. */
module Division {
  import opened Radix
  import opened Blocks
  import opened Addition
  import opened TrialDigit
  import Arith

  // ----- leading digits

  /** Digit k from the top, zero below the last one. */
  function FromTop(s: seq<int>, k: nat): int {
    if k < |s| then s[|s| - 1 - k] else 0
  }

  function LeadTwo(s: seq<int>): int {
    100 * FromTop(s, 0) + FromTop(s, 1)
  }

  function LeadThree(s: seq<int>): int {
    100 * LeadTwo(s) + FromTop(s, 2)
  }

  lemma {:induction false} LeadTwoBounds(s: seq<int>)
    requires s != [] && Plain(s[..|s| - 1])
    ensures Weight(LeadTwo(s), |s| - 1) <= 100 * Val(s) < Weight(LeadTwo(s) + 1, |s| - 1)
  {
    hide Val, Weight, Pow;
    var t, d := SplitTop(s);
    WeightSum(LeadTwo(s), 1, |t|);
    WeightUnits(|t|);
    if t == [] {
      Digit(d);
    } else {
      var u, e := SplitTop(t);
      PlainBounds(u);
      WeightUnits(|u|);
      WeightUp(d, |u|);
      WeightUp(LeadTwo(s), |u|);
      WeightUp(1, |u|);
      WeightSum(100 * d, e, |u|);
    }
  }

  lemma Digit(d: int)
    ensures Val([]) == 0 && Weight(d, 0) == d && Weight(100 * d, 0) == 100 * d && Weight(10000 * d, 0) == 10000 * d
  {
    assert Pow(0) == 1;
  }

  lemma LeadStep(v: int, low: int, t: int, f: int, m: nat)
    requires v == low + Weight(f, m) + Weight(t, m + 1) && 0 <= low < Pow(m)
    ensures Weight(100 * t + f, m) <= v < Weight(100 * t + f + 1, m)
  {
    hide Weight, Pow;
    WeightUp(t, m);
    WeightSum(100 * t, f, m);
    WeightSum(100 * t + f, 1, m);
    WeightUnits(m);
  }

  lemma {:induction false} LeadThreeLong(w: seq<int>, f: int, e: int, d: int)
    requires Plain(w)
    ensures var s := w + [f, e, d]; var t := 100 * (100 * d + e) + f;
      Weight(t, |s| - 1) <= 10000 * Val(s) < Weight(t + 1, |s| - 1)
  {
    hide Val, Weight, Pow;
    var m := |w|;
    assert w + [f, e, d] == w + [f] + [e] + [d];
    ValSnoc(w, f);
    ValSnoc(w + [f], e);
    ValSnoc(w + [f] + [e], d);
    PlainBounds(w);
    WeightUp(d, m + 1);
    WeightSum(100 * d, e, m + 1);
    var t := 100 * d + e;
    LeadStep(Val(w + [f, e, d]), Val(w), t, f, m);
    WeightUp(100 * t + f, m);
    WeightUp(100 * t + f, m + 1);
    WeightUp(100 * t + f + 1, m);
    WeightUp(100 * t + f + 1, m + 1);
  }

  lemma {:induction false} LeadThreeShort(e: int, d: int)
    ensures Val([d]) == d && Val([e, d]) == 100 * d + e
    ensures Weight(10000 * d, 0) == 10000 * d && Weight(10000 * d + 1, 0) == 10000 * d + 1
    ensures Weight(100 * (100 * d + e), 1) == 10000 * (100 * d + e)
    ensures Weight(100 * (100 * d + e) + 1, 1) == 10000 * (100 * d + e) + 100
  {
    ValCons(d, []);
    ValCons(e, [d]);
    assert [d] == [d] + [] && [e, d] == [e] + [d];
    assert Val([]) == 0;
    assert Pow(1) == 100 * Pow(0) == 100;
  }

  lemma {:induction false} LeadThreeBounds(s: seq<int>)
    requires s != [] && Plain(s[..|s| - 1])
    ensures Weight(LeadThree(s), |s| - 1) <= 10000 * Val(s) < Weight(LeadThree(s) + 1, |s| - 1)
  {
    hide Val, Weight, Pow;
    var n := |s|;
    if n == 1 {
      LeadThreeShort(0, s[0]);
      assert s == [s[0]];
    } else if n == 2 {
      LeadThreeShort(s[0], s[1]);
      assert s == [s[0], s[1]];
    } else {
      LeadThreeLong(s[..n - 3], s[n - 3], s[n - 2], s[n - 1]);
      assert s == s[..n - 3] + [s[n - 3], s[n - 2], s[n - 1]];
    }
  }

  /** The divisor's leading digits as the program scales them. */
  function LeadingDigits(r: seq<int>): (int, bool) {
    if FromTop(r, 0) < 10 then (2 * LeadThree(r) / 25, true) else (LeadTwo(r), false)
  }

  lemma {:induction false} LeadingIsRight(r: seq<int>)
    requires Plain(r) && r != [] && r[|r| - 1] >= 1
    ensures Leading(LeadingDigits(r).0, LeadingDigits(r).1, Val(r), Pow(|r| - 1))
  {
    hide Val, Weight, Pow;
    var p := Pow(|r| - 1);
    SignedBounds(r);
    LeadTwoBounds(r);
    LeadThreeBounds(r);
    var c3 := LeadThree(r);
    var c := 2 * c3 / 25;
    WeightIsTimes(LeadTwo(r), |r| - 1);
    WeightIsTimes(LeadTwo(r) + 1, |r| - 1);
    if FromTop(r, 0) < 10 {
      assert 25 * c <= 2 * c3 <= 25 * c + 24;
      WeightIsTimes(c3, |r| - 1);
      WeightIsTimes(c3 + 1, |r| - 1);
      TimesScale(2, c3, p);
      TimesScale(2, c3 + 1, p);
      TimesScale(25, c, p);
      TimesMono(25 * c, 2 * c3, p);
      TimesMono(2 * (c3 + 1), 25 * c + 26, p);
      TimesSum(25 * c, 26, p);
      TimesConst(p);
    }
  }

  lemma WeightIsTimes(d: int, n: nat)
    ensures Weight(d, n) == Times(d, Pow(n))
  {
  }

  lemma LeadingShift(c: int, magic: bool, x: int, y: int, m: int)
    requires Leading(c, magic, x, y) && m >= 1
    ensures Leading(c, magic, Times(m, x), Times(m, y))
  {
    hide Times;
    ShiftLe(c, y, x, m);
    ShiftLe(c + 1, y, x, m);
    if magic {
      ShiftMagic(c, y, x, m);
    }
    TimesAtLeast(m, x);
    TimesAtLeast(m, y);
  }

  lemma TimesAtLeast(m: int, x: int)
    requires m >= 1 && x > 0
    ensures Times(m, x) >= x
  {
  }

  lemma ShiftLe(c: int, y: int, x: int, m: int)
    requires m >= 1
    ensures Times(c, y) <= 100 * x ==> Times(c, Times(m, y)) <= 100 * Times(m, x)
    ensures 100 * x < Times(c, y) ==> 100 * Times(m, x) < Times(c, Times(m, y))
  {
    assert c * (m * y) == m * (c * y);
    if c * y <= 100 * x {
      assert m * (c * y) <= m * (100 * x);
    } else {
      assert m * (c * y - 100 * x) >= c * y - 100 * x;
      assert m * (c * y - 100 * x) == m * (c * y) - m * (100 * x);
    }
    assert m * (100 * x) == 100 * (m * x);
  }

  lemma ShiftMagic(c: int, y: int, x: int, m: int)
    requires m >= 1 && 25 * Times(c, y) <= 20000 * x < 25 * Times(c, y) + 26 * y
    ensures 25 * Times(c, Times(m, y)) <= 20000 * Times(m, x) < 25 * Times(c, Times(m, y)) + 26 * Times(m, y)
  {
    var a := c * y;
    assert c * (m * y) == m * a;
    ShiftLinear(a, x, y, m);
  }

  lemma ShiftLinear(a: int, x: int, y: int, m: int)
    requires m >= 1 && 25 * a <= 20000 * x < 25 * a + 26 * y
    ensures 25 * (m * a) <= 20000 * (m * x) < 25 * (m * a) + 26 * (m * y)
  {
    var u, w := 20000 * x - 25 * a, 25 * a + 26 * y - 20000 * x;
    assert m * u >= 0 && m * w >= w;
    assert m * u == 20000 * (m * x) - 25 * (m * a);
    assert m * w == 25 * (m * a) + 26 * (m * y) - 20000 * (m * x);
  }

  // ----- one step

  /** The three leading digits of divd, as one number. */
  method PeekThree(divd: Blk) returns (td: int)
    requires divd.Valid() && divd.Digits() != []
    modifies divd`rd
    ensures td == LeadThree(divd.Digits())
  {
    divd.Fsfile();
    td := divd.Sbackc();
    td := td * 100;
    var dd := 0;
    if !divd.Sfbeg() {
      dd := divd.Sbackc();
    }
    td := (td + dd) * 100;
    dd := 0;
    if !divd.Sfbeg() {
      dd := divd.Sbackc();
    }
    td := td + dd;
  }

  /** Looks at the leading digits of divd and picks the trial digit. */
  method Estimate(divd: Blk, c: int, magic: bool, offset: nat) returns (dig: int, under: bool)
    requires divd.Valid() && divd.Digits() != [] && c > 0
    requires forall i :: 0 <= i < |divd.Digits()| ==> divd.Digits()[i] >= 0
    modifies divd`rd
    ensures (dig, under) == Trial(LeadThree(divd.Digits()), c, magic, offset == 0)
  {
    var td := PeekThree(divd);
    var cc := c;
    if offset == 0 {
      td := td + 1;
    } else {
      cc := cc + 1;
    }
    if magic {
      td := 8 * td;  // td<<3
    }
    dig := td / cc;
    under := false;
    if td % cc < 8 && dig > 0 && magic {
      dig := dig - 1;
      under := true;
    }
  }

  lemma {:induction false} DigitCarry(d: int, dig: int, carry: int)
    requires 0 <= d <= 99 && 0 <= carry <= dig
    ensures 0 <= (d * dig + carry) / 100 <= dig
  {
    assert 0 <= d * dig <= 99 * dig;
  }

  lemma {:induction false} MultiplyStep(r: seq<int>, q: seq<int>, dig: int, i: nat, carry: int, e: int, carry': int)
    requires i < |r| && i <= |q|
    requires Val(q[..i]) + Weight(carry, i) == Times(dig, Val(r[..i]))
    requires e + 100 * carry' == r[i] * dig + carry
    ensures Val(q[..i] + [e]) + Weight(carry', i + 1) == Times(dig, Val(r[..i + 1]))
  {
    hide Val, Weight, Pow, Times;
    ValPrefix(r, i);
    ValSnoc(q[..i], e);
    WeightUp(carry', i);
    WeightSum(e, 100 * carry', i);
    WeightSum(r[i] * dig, carry, i);
    TimesSum(Val(r[..i]), Weight(r[i], i), dig);
    TimesWeight(dig, r[i], i);
  }

  lemma TimesWeight(a: int, d: int, i: nat)
    ensures Times(a, Weight(d, i)) == Weight(d * a, i)
  {
    hide Pow;
    ThreeFactors(a, d, Pow(i));
  }

  lemma ThreeFactors(a: int, d: int, p: int)
    ensures a * (d * p) == (d * a) * p
  {
  }

  /** Writes dig times the divisor over the front of the scratch block, whatever is there. */
  method MultiplyOut(divr: Blk, dig: int, divxyz: Blk)
    requires divr != divxyz && divr.Valid() && divxyz.Valid() && Plain(divr.Digits())
    requires 0 <= dig <= 118
    modifies divr`rd, divxyz
    ensures divxyz.Valid() && |divxyz.Digits()| > |divr.Digits()|
    ensures var n := |divr.Digits()|; var q: seq<int> := divxyz.Digits();
      && Plain(q[..n]) && 0 <= q[n] <= dig
      && Val(q[..n + 1]) == Times(dig, Val(divr.Digits()))
  {
    hide Val, Weight, Pow, Times;
    ghost var r: seq<int> := divr.Digits();
    divr.Rewind();
    divxyz.Rewind();
    var carry := 0;
    StartRow(dig);
    while !divr.Sfeof()
      invariant divr.Valid() && divr.Digits() == r && divr.rd <= |r|
      invariant divxyz.Valid() && divxyz.rd == divr.rd <= |divxyz.Digits()|
      invariant Plain(divxyz.Digits()[..divr.rd]) && 0 <= carry <= dig
      invariant Val(divxyz.Digits()[..divr.rd]) + Weight(carry, divr.rd) == Times(dig, Val(r[..divr.rd]))
      decreases |r| - divr.rd
    {
      ghost var q, i := divxyz.Digits(), divr.rd;
      var d := divr.Sgetc();
      DigitCarry(d, dig, carry);
      var e := d * dig + carry;
      MultiplyStep(r, q, dig, i, carry, e % 100, e / 100);
      carry := e / 100;
      divxyz.Salterc(e % 100);
      assert divxyz.Digits()[..i + 1] == q[..i] + [e % 100];
    }
    assert r[..|r|] == r;
    ghost var q := divxyz.Digits()[..|r|];
    ValSnoc(q, carry);
    divxyz.Salterc(carry);
    assert divxyz.Digits()[..|r|] == q;
    assert divxyz.Digits()[..|r| + 1] == q + [carry];
  }

  lemma {:induction false} StartRow(dig: int)
    ensures Val([]) == 0 && Weight(0, 0) == 0 && Times(dig, 0) == 0
  {
  }

  /** Plain below the top digit, which may be as large as a cell allows. */
  predicate Loose(s: seq<int>) {
    s != [] && Plain(s[..|s| - 1]) && s[|s| - 1] >= 0
  }

  lemma {:induction false} SubtractStep(s: seq<int>, t: seq<int>, q: seq<int>, o: nat, k: nat, carry: int, e: int,
      carry': int)
    requires o + k < |s| == |t| && k < |q|
    requires Val(t[..o + k]) == Val(s[..o + k]) - Times(Pow(o), Val(q[..k])) + Weight(carry, o + k)
    requires e - 100 * carry' == s[o + k] - q[k] - carry
    ensures Val(t[..o + k] + [e]) == Val(s[..o + k + 1]) - Times(Pow(o), Val(q[..k + 1])) + Weight(carry', o + k + 1)
  {
    hide Val, Weight, Pow, Times;
    var i := o + k;
    ValPrefix(s, i);
    ValPrefix(q, k);
    ValSnoc(t[..i], e);
    WeightUp(carry', i);
    TimesSum(Val(q[..k]), Weight(q[k], k), Pow(o));
    ShiftWeight(o, q[k], k);
    WeightSum(e, -100 * carry', i);
    WeightSum(100 * carry', -100 * carry', i);
    WeightSum(s[i], -q[k], i);
    WeightSum(q[k], -q[k], i);
    WeightSum(s[i] - q[k], -carry, i);
    WeightSum(carry, -carry, i);
    WeightUnits(i);
  }

  lemma ShiftWeight(o: nat, d: int, k: nat)
    ensures Times(Pow(o), Weight(d, k)) == Weight(d, o + k)
  {
    WeightShift(d, o, k);
  }

  lemma {:induction false} StartSubtract(s: seq<int>, q: seq<int>, o: nat)
    requires o <= |s|
    ensures Val(s[..o]) == Val(s[..o]) - Times(Pow(o), Val(q[..0])) + Weight(0, o)
  {
    hide Pow;
    assert Val(q[..0]) == 0;
  }

  /** Subtracts the product from divd, offset places up; the carry is what the top digit
      still owes. */
  method SubtractAt(divd: Blk, divxyz: Blk, offset: nat, ghost n: nat) returns (carry: int)
    requires divd != divxyz && divd.Valid() && divxyz.Valid() && divxyz.rd == 0
    requires |divd.Digits()| == offset + n + 1 && Loose(divd.Digits())
    requires |divxyz.Digits()| > n && Plain(divxyz.Digits()[..n]) && 0 <= divxyz.Digits()[n] <= 118
    modifies divd, divxyz`rd
    ensures divd.Valid() && |divd.Digits()| == offset + n + 1
    ensures 0 <= carry <= 1 && Plain(divd.Digits()[..offset + n])
    ensures if carry == 0 then divd.Digits()[offset + n] >= 0 else divd.Digits()[offset + n] <= 99
    ensures Val(divd.Digits()) == Val(old(divd.Digits()))
              - Times(Pow(offset), Val(divxyz.Digits()[..n + 1])) + Weight(carry, offset + n + 1)
  {
    hide Val, Weight, Pow, Times;
    ghost var s: seq<int>, q: seq<int> := divd.Digits(), divxyz.Digits();
    ghost var top := offset + n;
    divd.Seekc(offset);
    assert divd.Digits() == s;
    carry := 0;
    StartSubtract(s, q, offset);
    while !divd.Sfeof()
      invariant divd.Valid() && |divd.Digits()| == |s| && offset <= divd.rd <= |s|
      invariant divxyz.Valid() && divxyz.Digits() == q && divxyz.rd == divd.rd - offset
      invariant forall i :: divd.rd <= i < |s| ==> divd.Digits()[i] == s[i]
      invariant forall i :: 0 <= i < divd.rd && i < top ==> 0 <= divd.Digits()[i] <= 99
      invariant 0 <= carry <= 1
      invariant divd.rd == |s| ==> if carry == 0 then divd.Digits()[top] >= 0 else divd.Digits()[top] <= 99
      invariant Val(divd.Digits()[..divd.rd]) == Val(s[..divd.rd])
                  - Times(Pow(offset), Val(q[..divd.rd - offset])) + Weight(carry, divd.rd)
      decreases |s| - divd.rd
    {
      ghost var t, k := divd.Digits(), divd.rd - offset;
      assert 0 <= q[k] && (k < n ==> q[k] <= 99) && 0 <= s[divd.rd] && (divd.rd < top ==> s[divd.rd] <= 99) by {
        assert k < n ==> q[k] == q[..n][k];
        assert divd.rd < top ==> s[divd.rd] == s[..top][divd.rd];
      }
      var d := divd.Slookc();
      var e := 0;
      if !divxyz.Sfeof() {
        e := divxyz.Sgetc();
      }
      d := d - e - carry;
      ghost var before := carry;
      carry := 0;
      if d < 0 {
        d := d + 100;
        carry := 1;
      }
      SubtractStep(s, t, q, offset, k, before, d, carry);
      divd.Salterc(d);
      assert divd.Digits()[..offset + k + 1] == t[..offset + k] + [d];
    }
    assert s[..|s|] == s && divd.Digits()[..|s|] == divd.Digits();
  }

  /** Between steps: divd holds what is left, and the divisor at the current place goes into
      it fewer than 117 times. */
  ghost predicate Ongoing(s: seq<int>, r: seq<int>, o: nat) {
    && Plain(r) && r != [] && r[|r| - 1] >= 1
    && Loose(s) && |s| == |r| + o + 1
    && 0 <= Val(s) < 117 * Times(Pow(o), Val(r))
  }

  lemma {:induction false} LooseNonnegative(s: seq<int>)
    requires Loose(s)
    ensures forall i :: 0 <= i < |s| ==> s[i] >= 0
  {
    forall i | 0 <= i < |s| ensures s[i] >= 0 {
      if i < |s| - 1 {
        assert s[i] == s[..|s| - 1][i];
      }
    }
  }

  lemma {:induction false} WindowIsRight(s: seq<int>, y: int)
    requires Loose(s) && |s| > 1 && Pow(|s| - 1) == 100 * y
    ensures Window(LeadThree(s), Val(s), y)
  {
    hide Val, Weight, Pow, Times;
    LooseNonnegative(s);
    LeadThreeBounds(s);
    var td := LeadThree(s);
    WeightIsTimes(td, |s| - 1);
    WeightIsTimes(td + 1, |s| - 1);
    TimesHundred(td, y);
    TimesHundred(td + 1, y);
  }

  lemma TimesHundred(a: int, y: int)
    ensures Times(a, 100 * y) == 100 * Times(a, y)
  {
  }

  /** What the trial digit is compared against, at the current place. */
  lemma {:induction false} StepScale(s: seq<int>, r: seq<int>, o: nat)
    requires Ongoing(s, r, o)
    ensures var (c, magic) := LeadingDigits(r); var m := Pow(o);
      && Leading(c, magic, Times(m, Val(r)), Times(m, Pow(|r| - 1)))
      && Window(LeadThree(s), Val(s), Times(m, Pow(|r| - 1)))
      && Times(m, Val(r)) < Pow(|r| + o)
  {
    hide Val, Weight, Pow, Times, LeadingDigits, LeadThree;
    var n := |r|;
    LeadingIsRight(r);
    var (c, magic) := LeadingDigits(r);
    LeadingShift(c, magic, Val(r), Pow(n - 1), Pow(o));
    PowTimes(o, n - 1);
    PowTimes(o, n);
    WeightUp(1, o + n - 1);
    WindowIsRight(s, Times(Pow(o), Pow(n - 1)));
    PlainBounds(r);
    TimesStrict(Pow(o), Val(r), Pow(n));
  }

  lemma PowTimes(a: nat, b: nat)
    ensures Times(Pow(a), Pow(b)) == Pow(a + b)
  {
    PowAdd(a, b);
  }

  lemma TimesStrict(m: int, a: int, b: int)
    requires m >= 1 && a < b
    ensures Times(m, a) < Times(m, b)
  {
    assert m * (b - a) >= b - a;
    assert m * (b - a) == m * b - m * a;
  }

  lemma TimesSwap(m: int, d: int, r: int)
    ensures Times(m, Times(d, r)) == Times(d, Times(m, r)) == d * Times(m, r)
  {
    assert m * (d * r) == d * (m * r);
  }

  lemma {:induction false} RawTop(low: seq<int>, raw: int, v: int)
    requires Plain(low) && Val(low) + Weight(raw, |low|) == v
    ensures 0 <= v < 2 * Pow(|low|) ==> 0 <= raw <= 1
    ensures -Pow(|low|) <= v < 0 ==> raw == -1
  {
    hide Val, Weight, Pow;
    PlainBounds(low);
    var m := |low|;
    WeightUnits(m);
    WeightSum(1, 1, m);
    WeightSum(-1, -1, m);
    if raw >= 2 {
      WeightMono(2, raw, m);
    } else if raw >= 0 {
      WeightMono(0, raw, m);
    } else if raw < -1 {
      WeightMono(raw, -2, m);
    }
  }

  /** Estimate, multiply and subtract. raw is the top digit before its borrow is paid. */
  method Step(divd: Blk, divr: Blk, divxyz: Blk, c: int, magic: bool, offset: nat)
      returns (dig: int, under: bool, carry: int, ghost raw: int)
    requires divd != divr && divd != divxyz && divr != divxyz
    requires divd.Valid() && divr.Valid() && divxyz.Valid()
    requires Ongoing(divd.Digits(), divr.Digits(), offset)
    requires (c, magic) == LeadingDigits(divr.Digits())
    modifies divd, divr`rd, divxyz
    ensures divd.Valid() && divxyz.Valid() && |divd.Digits()| == |old(divd.Digits())|
    ensures (dig, under) == Trial(LeadThree(old(divd.Digits())), LeadingDigits(divr.Digits()).0, magic, offset == 0)
    ensures var top := |divd.Digits()| - 1;
      && Plain(divd.Digits()[..top]) && (raw, carry) == (divd.Digits()[top] - 100 * carry, if raw < 0 then 1 else 0)
      && Val(divd.Digits()[..top]) + Weight(raw, top)
           == Val(old(divd.Digits())) - dig * Times(Pow(offset), Val(divr.Digits()))
  {
    hide Val, Weight, Pow, Times, LeadingDigits, LeadThree, Trial;
    ghost var s: seq<int>, r: seq<int> := divd.Digits(), divr.Digits();
    ghost var n, m := |r|, Pow(offset);
    StepScale(s, r, offset);
    LooseNonnegative(s);
    dig, under := Estimate(divd, c, magic, offset);
    TrialRange(s, r, offset);
    MultiplyOut(divr, dig, divxyz);
    divxyz.Rewind();
    ghost var q: seq<int> := divxyz.Digits();
    carry := SubtractAt(divd, divxyz, offset, n);
    ghost var t: seq<int> := divd.Digits();
    ghost var top := n + offset;
    raw := t[top] - 100 * carry;
    ghost var low, d := SplitTop(t);
    WeightUp(carry, top);
    WeightSum(raw, 100 * carry, top);
    TimesSwap(m, dig, Val(r));
  }

  lemma {:induction false} TrialRange(s: seq<int>, r: seq<int>, o: nat)
    requires Ongoing(s, r, o)
    ensures LeadThree(s) >= 0 && LeadingDigits(r).0 > 0
    ensures var (c, magic) := LeadingDigits(r); var x := Times(Pow(o), Val(r));
      var (dig, under) := Trial(LeadThree(s), c, magic, o == 0);
      && 0 <= dig <= 118
      && (o > 0 ==> 0 <= dig <= 116 && 0 <= Val(s) - dig * x && 100 * (Val(s) - dig * x) < 117 * x)
      && (o == 0 && under ==> 0 <= Val(s) - dig * x < 2 * x)
      && (o == 0 && !under ==> -x <= Val(s) - dig * x < x)
  {
    hide Val, Weight, Pow, Times, LeadingDigits, LeadThree, Trial;
    StepScale(s, r, o);
    var (c, magic) := LeadingDigits(r);
    var x, y := Times(Pow(o), Val(r)), Times(Pow(o), Pow(|r| - 1));
    if o > 0 {
      EarlyDigit(LeadThree(s), Val(s), c, magic, x, y);
    } else {
      LastDigit(LeadThree(s), Val(s), c, magic, x, y);
    }
  }

  lemma {:induction false} FoldedValue(t: seq<int>, raw: int)
    requires |t| >= 2
    ensures var top := |t| - 1;
      Val(t[..top - 1] + [t[top - 1] + 100 * raw]) == Val(t[..top]) + Weight(raw, top)
  {
    hide Val, Weight, Pow;
    var top := |t| - 1;
    var u, e := SplitTop(t[..top]);
    assert u == t[..top - 1] && e == t[top - 1];
    ValSnoc(u, e + 100 * raw);
    WeightUp(raw, top - 1);
    WeightSum(e, 100 * raw, top - 1);
  }

  /** After a step that is not the last, the top digit is 0 or 1 and goes into the next one. */
  lemma {:induction false} EarlyStep(t: seq<int>, r: seq<int>, o: nat, raw: int, v: int)
    requires o > 0 && |t| == |r| + o + 1
    requires Plain(r) && r != [] && r[|r| - 1] >= 1 && Plain(t[..|t| - 1])
    requires Val(t[..|t| - 1]) + Weight(raw, |t| - 1) == v
    requires 0 <= v && 100 * v < 117 * Times(Pow(o), Val(r)) && Times(Pow(o), Val(r)) < Pow(|r| + o)
    ensures 0 <= raw <= 1 && 0 <= t[|t| - 2] <= 99 && (raw == 1 ==> t[|t| - 2] <= 16)
    ensures var s := t[..|t| - 2] + [t[|t| - 2] + 100 * raw]; Val(s) == v && Ongoing(s, r, o - 1)
  {
    hide Val, Weight, Pow, Times;
    var top := |t| - 1;
    RawTop(t[..top], raw, v);
    FoldedValue(t, raw);
    assert t[top - 1] == t[..top][top - 1];
    var low, e := SplitTop(t[..top]);
    assert low == t[..top - 1];
    PlainBounds(low);
    WeightUnits(top);
    WeightUp(1, top - 1);
    WeightUnits(top - 1);
    if raw == 1 && e > 16 {
      WeightMono(17, e, top - 1);
      SeventeenUnits(top - 1);
      assert false;
    }
    var s := low + [e + 100 * raw];
    assert s[..|s| - 1] == low;
    PlaceDown(o, Val(r));
  }

  lemma SeventeenUnits(n: nat)
    ensures Weight(17, n) == 17 * Pow(n)
  {
  }

  lemma PlaceDown(o: nat, r: int)
    requires o > 0
    ensures Times(Pow(o), r) == 100 * Times(Pow(o - 1), r)
  {
    var p := Pow(o - 1);
    assert (100 * p) * r == 100 * (p * r);
  }

  /** Folds a top digit of one into the digit below it and drops the top. */
  method FoldOver(divd: Blk, offset: nat)
    requires divd.Valid() && |divd.Digits()| >= 2 && offset > 0
    requires var t := divd.Digits(); var top := |t| - 1;
      0 <= t[top] <= 1 && (t[top] == 1 ==> 0 <= t[top - 1] <= 16)
    modifies divd
    ensures divd.Valid()
    ensures var t := old(divd.Digits()); var top := |t| - 1;
      divd.Digits() == t[..top - 1] + [t[top - 1] + 100 * t[top]]
  {
    divd.Fsfile();
    var d := divd.Sbackc();
    if d != 0 && offset != 0 {
      d := divd.Sbackc();
      divd.Salterc(d + 100);
    }
    divd.wt := divd.wt - 1;
  }

  // ----- the whole division of nonnegative numbers

  /** The dividend is what is left plus the divisor times the quotient digits found so far. */
  ghost predicate Accounts(d: int, v: int, r: int, o: nat, quotient: seq<int>) {
    d == v + Times(Pow(o), Times(r, Val(quotient)))
  }

  lemma {:induction false} AccountStep(d: int, v: int, r: int, o: nat, q: seq<int>, dig: int)
    requires Accounts(d, v, r, o + 1, q)
    ensures Accounts(d, v - dig * Times(Pow(o), r), r, o, [dig] + q)
  {
    hide Val, Weight;
    ValCons(dig, q);
    AccountAlgebra(Pow(o), r, dig, Val(q));
  }

  lemma AccountAlgebra(p: int, r: int, dig: int, h: int)
    ensures Times(100 * p, Times(r, h)) == Times(p, Times(r, dig + 100 * h)) - dig * Times(p, r)
  {
    var x := r * h;
    assert r * (dig + 100 * h) == dig * r + 100 * x;
    assert p * (dig * r + 100 * x) == p * (dig * r) + 100 * (p * x);
    assert p * (dig * r) == dig * (p * r);
    assert (100 * p) * x == 100 * (p * x);
  }

  /** Quotient digits as the loop leaves them. */
  predicate Trials(q: seq<int>) {
    forall i :: 0 <= i < |q| ==> 0 <= q[i] <= 119
  }

  /** Writes one quotient digit and steps below it. */
  method PutDigit(p: Blk, dig: Cell, ghost o: nat)
    requires p.Valid() && p.rd == o + 1 <= |p.Digits()|
    modifies p
    ensures p.Valid() && p.rd == o && |p.Digits()| == |old(p.Digits())|
    ensures p.Digits()[o..] == [dig] + old(p.Digits())[o + 1..]
  {
    p.Backc();
    p.Salterc(dig);
    p.Backc();
  }

  /** Every quotient digit but the last. The cells of p below the cursor hold anything. */
  method EarlyDigits(divd: Blk, divr: Blk, divxyz: Blk, p: Blk, c: int, magic: bool, o: nat)
    requires divd != divr && divd != divxyz && divr != divxyz && p !in {divd, divr, divxyz}
    requires divd.Valid() && divr.Valid() && divxyz.Valid() && p.Valid()
    requires Ongoing(divd.Digits(), divr.Digits(), o) && (c, magic) == LeadingDigits(divr.Digits())
    requires p.rd == o + 1 == |p.Digits()|
    modifies divd, divr`rd, divxyz, p
    ensures divd.Valid() && divxyz.Valid() && p.Valid()
    ensures Ongoing(divd.Digits(), divr.Digits(), 0)
    ensures p.rd == 1 <= |p.Digits()| == o + 1 && Trials(p.Digits()[1..])
    ensures Accounts(Val(old(divd.Digits())), Val(divd.Digits()), Val(divr.Digits()), 1, p.Digits()[1..])
  {
    hide Val, Weight, Pow, Times, LeadingDigits, LeadThree, Trial, Ongoing, Accounts;
    ghost var d, r: seq<int> := Val(divd.Digits()), divr.Digits();
    var offset := o;
    AccountStart(d, Val(r), offset + 1);
    assert p.Digits()[offset + 1..] == [];
    while offset > 0
      invariant 0 <= offset <= o
      invariant divd.Valid() && divxyz.Valid() && p.Valid() && divr.Digits() == r && divr.Valid()
      invariant Ongoing(divd.Digits(), r, offset)
      invariant p.rd == offset + 1 <= |p.Digits()| == o + 1
      invariant Trials(p.Digits()[offset + 1..])
      invariant Accounts(d, Val(divd.Digits()), Val(r), offset + 1, p.Digits()[offset + 1..])
    {
      ghost var s: seq<int>, q: seq<int> := divd.Digits(), p.Digits()[offset + 1..];
      TrialRange(s, r, offset);
      StepScale(s, r, offset);
      OngoingParts(s, r, offset);
      var dig, under, carry, raw := Step(divd, divr, divxyz, c, magic, offset);
      ghost var t: seq<int> := divd.Digits();
      EarlyStep(t, r, offset, raw, Val(s) - dig * Times(Pow(offset), Val(r)));
      AccountStep(d, Val(s), Val(r), offset, q, dig);
      PutDigit(p, dig, offset);
      FoldOver(divd, offset);
      offset := offset - 1;
    }
  }

  lemma {:induction false} OngoingParts(s: seq<int>, r: seq<int>, o: nat)
    requires Ongoing(s, r, o)
    ensures Plain(r) && r != [] && r[|r| - 1] >= 1 && |s| == |r| + o + 1 && Loose(s)
  {
  }

  lemma {:induction false} AccountStart(d: int, r: int, o: nat)
    ensures Accounts(d, d, r, o, [])
  {
    assert Val([]) == 0;
    assert r * 0 == 0;
    assert Pow(o) * 0 == 0;
  }

  lemma {:induction false} SignedIsCells(s: seq<int>)
    requires Signed(s)
    ensures Cells(s)
  {
  }

  /** What the last step leaves: the right digit, or one off on the side the flags say. */
  ghost predicate LastState(t: seq<int>, r: seq<int>, v: int, under: bool, carry: int) {
    && Plain(r) && r != [] && r[|r| - 1] >= 1
    && |t| == |r| + 1 && Plain(t)
    && (under ==> carry == 0 && Val(t) == v && 0 <= v < 2 * Val(r))
    && (!under && carry == 0 ==> Val(t) == v && 0 <= v < Val(r))
    && (!under ==> 0 <= carry <= 1)
    && (carry == 1 ==> t[|r|] == 99 && Val(t[..|r|]) + Weight(-1, |r|) == v && -Val(r) <= v < 0)
  }

  lemma {:induction false} LastStep(s: seq<int>, t: seq<int>, r: seq<int>, dig: int, under: bool, carry: int, raw: int)
    requires Ongoing(s, r, 0) && |t| == |s|
    requires LeadThree(s) >= 0 && LeadingDigits(r).0 > 0
    requires (dig, under) == Trial(LeadThree(s), LeadingDigits(r).0, LeadingDigits(r).1, true)
    requires var top := |t| - 1;
      && Plain(t[..top]) && (raw, carry) == (t[top] - 100 * carry, if raw < 0 then 1 else 0)
      && Val(t[..top]) + Weight(raw, top) == Val(s) - dig * Times(Pow(0), Val(r))
    ensures 0 <= dig <= 118
    ensures LastState(t, r, Val(s) - dig * Times(Pow(0), Val(r)), under, carry)
    ensures carry == 1 ==> dig >= 1
  {
    hide Val, Weight, Pow, Times, LeadingDigits, LeadThree, Trial;
    TrialRange(s, r, 0);
    UnitPlace(Val(r));
    PlainBounds(r);
    var top := |t| - 1;
    var v := Val(s) - dig * Times(Pow(0), Val(r));
    RawTop(t[..top], raw, v);
    if raw >= 0 {
      ValSnoc(t[..top], t[top]);
    }
    assert t == t[..top] + [t[top]];
  }

  lemma UnitPlace(r: int)
    ensures Times(Pow(0), r) == r
  {
  }

  /** Corrects the last digit up when it was lowered for nothing, down when it overshot. */
  method Correct(divd: Blk, divr: Blk, p: Blk, dig: int, under: bool, divcarry: int, ghost v: int) returns (left: Blk)
    requires divd != divr && p !in {divd, divr} && divd.Valid() && divr.Valid() && p.Valid()
    requires LastState(divd.Digits(), divr.Digits(), v, under, divcarry)
    requires divd.rd == |divr.Digits()|
    requires p.rd == 0 && p.Digits() != [] && Trials(p.Digits()) && p.Digits()[0] == dig
    requires 0 <= dig <= 118 && (divcarry == 1 ==> dig >= 1)
    modifies divd, divr`rd, p
    ensures left == divd || fresh(left)
    ensures left.Valid() && Plain(left.Digits()) && p.Valid() && Trials(p.Digits())
    ensures |p.Digits()| == |old(p.Digits())| && p.Digits()[1..] == old(p.Digits()[1..])
    ensures 0 <= Val(left.Digits()) < Val(divr.Digits())
    ensures var fix := p.Digits()[0] - dig; Val(left.Digits()) == v - fix * Val(divr.Digits())
  {
    hide Val, Weight, Pow, Trials;
    ghost var r: seq<int>, t: seq<int> := divr.Digits(), divd.Digits();
    left := divd;
    if under {
      left := CorrectUp(divd, divr, p, dig, v);
    }
    if divcarry != 0 {
      TrialsUpdate(p.Digits(), dig - 1);
      p.Salterc(dig - 1);
      divd.Salterc(-1);
      ValSnoc(t[..|r|], -1);
      assert divd.Digits() == t[..|r|] + [-1];
      left := Add(divr, divd);
      NormalNonnegative(left.Digits());
    }
  }

  lemma {:induction false} TrialsUpdate(q: seq<int>, d: int)
    requires Trials(q) && q != [] && 0 <= d <= 119
    ensures Trials(q[0 := d])
  {
  }

  lemma {:induction false} NormalNonnegative(s: seq<int>)
    requires Normal(s) && Val(s) >= 0
    ensures Plain(s)
  {
    hide Val;
    NormalSign(s);
  }

  method CorrectUp(divd: Blk, divr: Blk, p: Blk, dig: int, ghost v: int) returns (left: Blk)
    requires divd != divr && p !in {divd, divr} && divd.Valid() && divr.Valid() && p.Valid()
    requires LastState(divd.Digits(), divr.Digits(), v, true, 0)
    requires p.rd == 0 && p.Digits() != [] && Trials(p.Digits()) && p.Digits()[0] == dig && 0 <= dig <= 118
    modifies divd`rd, p
    ensures left == divd || fresh(left)
    ensures left.Valid() && Plain(left.Digits()) && p.Valid() && Trials(p.Digits())
    ensures |p.Digits()| == |old(p.Digits())| && p.Digits()[1..] == old(p.Digits()[1..])
    ensures 0 <= Val(left.Digits()) < Val(divr.Digits())
    ensures var fix := p.Digits()[0] - dig; Val(left.Digits()) == v - fix * Val(divr.Digits())
  {
    hide Val, Weight, Pow, Trials;
    var px := new Blk.Copy(divr);
    Arith.ChSign(px);
    SignedIsCells(px.Digits());
    var ps := Add(px, divd);
    NormalSign(ps.Digits());
    ps.Fsfile();
    left := divd;
    var negative := false;
    if ps.Length() > 0 {
      var c := ps.Sbackc();
      negative := c < 0;
    }
    if !negative {
      TrialsUpdate(p.Digits(), dig + 1);
      p.Salterc(dig + 1);
      left := ps;
      NormalNonnegative(ps.Digits());
    }
  }

  lemma {:induction false} CarryStep(s: seq<int>, t: seq<int>, i: nat, carry: int, d: int, carry': int)
    requires i < |s| == |t|
    requires Val(t[..i]) + Weight(carry, i) == Val(s[..i])
    requires d + 100 * carry' == s[i] + carry
    ensures Val(t[..i] + [d]) + Weight(carry', i + 1) == Val(s[..i + 1])
  {
    hide Val, Weight, Pow;
    ValPrefix(s, i);
    ValSnoc(t[..i], d);
    WeightUp(carry', i);
    WeightSum(d, 100 * carry', i);
    WeightSum(s[i], carry, i);
  }

  /** Brings the quotient digits below a hundred. */
  method CarryPass(p: Blk)
    requires p.Valid() && Trials(p.Digits())
    modifies p
    ensures p.Valid() && Plain(p.Digits()) && Val(p.Digits()) == Val(old(p.Digits()))
  {
    hide Val, Weight, Pow;
    ghost var s: seq<int> := p.Digits();
    p.Rewind();
    var divcarry := 0;
    StartRow(0);
    while !p.Sfeof()
      invariant p.Valid() && |p.Digits()| == |s| && p.rd <= |s| && 0 <= divcarry <= 1
      invariant forall i :: p.rd <= i < |s| ==> p.Digits()[i] == s[i]
      invariant Plain(p.Digits()[..p.rd])
      invariant Val(p.Digits()[..p.rd]) + Weight(divcarry, p.rd) == Val(s[..p.rd])
      decreases |s| - p.rd
    {
      ghost var t, i, before := p.Digits(), p.rd, divcarry;
      var d := p.Slookc() + divcarry;
      divcarry := 0;
      if d >= 100 {
        d := d - 100;
        divcarry := 1;
      }
      CarryStep(s, t, i, before, d, divcarry);
      p.Salterc(d);
      assert p.Digits()[..i + 1] == t[..i] + [d];
    }
    assert s[..|s|] == s && p.Digits()[..|s|] == p.Digits();
    WeightUnits(|s|);
    if divcarry != 0 {
      ValSnoc(p.Digits(), divcarry);
      p.Salterc(divcarry);
    }
  }

  /** Drops zeros on top the way div does it. */
  method Trim(p: Blk)
    requires p.Valid() && Plain(p.Digits())
    modifies p
    ensures p.Valid() && Plain(p.Digits()) && Normal(p.Digits()) && Val(p.Digits()) == Val(old(p.Digits()))
  {
    hide Val, Weight, Pow;
    p.Fsfile();
    while !p.Sfbeg()
      invariant p.Valid() && p.rd == |p.Digits()| && Plain(p.Digits())
      invariant Val(p.Digits()) == Val(old(p.Digits()))
      decreases p.rd
    {
      ghost var s: seq<int> := p.Digits();
      var c := p.Sbackc();
      if c != 0 {
        break;
      }
      TopZero(s[..p.rd]);
      assert s == s[..p.rd] + [0];
      p.Truncate();
    }
  }
}
