/** Decimal text of dc numbers: the reader, the printer, and what one makes of the other. */
module DecimalText {
  import opened Radix
  import opened Blocks
  import opened Addition
  import opened Division
  import opened Calculator
  import opened SquareRoot
  import opened Exponent
  import opened DecimalScale
  import opened Commands
  import Multiplication

  // ----- the numerals dc reads, input base ten

  /** What has been read: the digits as one number, the point, and the digits after it. */
  datatype Reading = Reading(v: int, dp: bool, dpct: nat)

  datatype Option<T> = None | Some(value: T)

  const START := Reading(0, false, 0)

  predicate IsDigit(c: char) {
    '0' <= c <= '9' || 'A' <= c <= 'F'
  }

  function DigitOf(c: char): (d: int)
    requires IsDigit(c)
    ensures 0 <= d <= 15
  {
    if 'A' <= c <= 'F' then c as int - 'A' as int + 10 else c as int - '0' as int
  }

  /** One digit or point; None when the numeral ends before it. */
  function Accept(c: char, st: Reading): Option<Reading> {
    if c == '.' then
      if st.dp then None else Some(st.(dp := true))
    else if !IsDigit(c) then None
    else if st.dp && st.dpct >= 99 then Some(st)
    else Some(Reading(10 * st.v + DigitOf(c), st.dp, if st.dp then st.dpct + 1 else 0))
  }

  /** Reads all of s as part of one numeral; a backslash hides the character after it. */
  function Feed(s: string, st: Reading): Option<Reading> {
    if s == "" then Some(st)
    else if s[0] == '\\' then (if |s| >= 2 then Feed(s[2..], st) else None)
    else match Accept(s[0], st)
      case None => None
      case Some(next) => Feed(s[1..], next)
  }

  lemma {:induction false} FeedConcat(a: string, b: string, st: Reading)
    requires Feed(a, st).Some?
    ensures Feed(a + b, st) == Feed(b, Feed(a, st).value)
    decreases |a|
  {
    if a == "" {
      assert a + b == b;
    } else if a[0] == '\\' {
      FeedConcat(a[2..], b, st);
      assert (a + b)[2..] == a[2..] + b;
    } else {
      FeedConcat(a[1..], b, Accept(a[0], st).value);
      assert (a + b)[1..] == a[1..] + b;
    }
  }

  lemma {:induction false} FeedSnoc(a: string, c: char, st: Reading)
    requires Feed(a, st).Some? && c != '\\'
    ensures Feed(a + [c], st) == Accept(c, Feed(a, st).value)
  {
    FeedConcat(a, [c], st);
    var x := Feed(a, st).value;
    assert [c][1..] == "";
    assert Feed([c], x) == Accept(c, x);
  }

  lemma {:induction false} FeedFold(a: string, st: Reading)
    requires Feed(a, st).Some?
    ensures Feed(a + "\\\n", st) == Feed(a, st)
  {
    FeedConcat(a, "\\\n", st);
    assert "\\\n"[2..] == "";
  }

  // ----- decimal text

  function DigitChar(d: int): char
    requires 0 <= d <= 9
  {
    ('0' as int + d) as char
  }

  /** The decimal digits of n, without leading zeros. */
  function Decimal(n: nat): string {
    if n < 10 then [DigitChar(n)] else Decimal(n / 10) + [DigitChar(n % 10)]
  }

  /** The last k decimal digits of n, zeros in front where n has fewer. */
  function Padded(n: nat, k: nat): string {
    if k == 0 then "" else Padded(n / 10, k - 1) + [DigitChar(n % 10)]
  }

  /** What dc prints for v with sc decimals, v having so many cells of two digits: nothing stands
      before the point of a number none of whose cells reaches there. */
  ghost function Numeral(v: nat, cells: nat, sc: nat): string {
    PowerPositive(10, sc);
    (if 2 * cells > sc then Decimal(v / Power(10, sc)) else "")
    + (if sc > 0 then "." + Padded(v % Power(10, sc), sc) else "")
  }

  lemma {:induction false} DecimalSnoc(n: nat, d: int)
    requires n > 0 && 0 <= d <= 9
    ensures Decimal(n) + [DigitChar(d)] == Decimal(10 * n + d)
  {
  }

  lemma {:induction false} PaddedSnoc(n: nat, k: nat, d: int)
    requires 0 <= d <= 9
    ensures Padded(n, k) + [DigitChar(d)] == Padded(10 * n + d, k + 1)
  {
  }

  /** Number and text: no zero comes first but in 0 itself, and the digits are those of n. */
  lemma {:induction false} DecimalDigits(n: nat)
    ensures Decimal(n) != "" && (n > 0 ==> Decimal(n)[0] != '0')
    ensures Decimal(n) == Padded(n, |Decimal(n)|)
    ensures n < Power(10, |Decimal(n)|) && (n > 0 ==> Power(10, |Decimal(n)| - 1) <= n)
  {
    if n >= 10 {
      DecimalDigits(n / 10);
      PaddedSnoc(n / 10, |Decimal(n / 10)|, n % 10);
    } else {
      assert Padded(n, 1) == Padded(n / 10, 0) + [DigitChar(n % 10)];
      assert Power(10, 1) == 10 * Power(10, 0);
    }
  }

  // ----- the printer

  /** Folded lines, each with its backslash and newline, one after the other. */
  function Folded(lines: seq<string>): string {
    if lines == [] then "" else Folded(lines[..|lines| - 1]) + lines[|lines| - 1] + "\\\n"
  }

  /** The same text without the folds. */
  function Unfolded(lines: seq<string>): string {
    if lines == [] then "" else Unfolded(lines[..|lines| - 1]) + lines[|lines| - 1]
  }

  /** How long the lines are: a first cell of one digit is counted as two, and a cell of two digits
      may begin in the last column. */
  predicate Widths(lines: seq<string>, ll: int) {
    forall i :: 0 <= i < |lines| ==> (if i == 0 then ll - 1 else ll) <= |lines[i]| <= ll + 1
  }

  /** The text of one number, folded every ll columns. */
  class Printer {
    var out: string
    var count: int
    const ll: int
    ghost var lines: seq<string>
    ghost var cur: string

    constructor (ll: int)
      ensures out == "" && count == ll == this.ll && Fresh()
    {
      out := "";
      count := ll;
      this.ll := ll;
      lines, cur := [], "";
    }

    ghost predicate Fresh()
      reads this
    {
      out == "" && count == ll && lines == [] && cur == ""
    }

    /** So far the text reads as st. */
    ghost predicate Reads(st: Reading)
      reads this
    {
      Feed(out, START) == Some(st)
    }

    /** The text so far is s and some folds; due columns are yet to be counted. */
    ghost predicate Shows(s: string, due: int)
      reads this
    {
      && out == Folded(lines) + cur && s == Unfolded(lines) + cur
      && (ll >= 1 ==>
            && count >= 1 && Widths(lines, ll)
            && 0 <= ll - (count - due) - |cur| <= if lines == [] then 1 else 0)
    }

    method Put(c: char, ghost st: Reading, ghost s: string, ghost due: int)
      requires Reads(st) && c != '\\' && Accept(c, st).Some? && Shows(s, due)
      modifies this`out, this`cur
      ensures Reads(Accept(c, st).value) && Shows(s + [c], due + 1)
    {
      FeedSnoc(out, c, START);
      assert Folded(lines) + cur + [c] == Folded(lines) + (cur + [c]);
      assert s + [c] == Unfolded(lines) + (cur + [c]);
      out := out + [c];
      cur := cur + [c];
    }

    method Fold(ghost st: Reading, ghost s: string)
      requires Reads(st) && out == Folded(lines) + cur && s == Unfolded(lines) + cur
      requires ll >= 1 ==> Widths(lines, ll) && (if lines == [] then ll - 1 else ll) <= |cur| <= ll + 1
      modifies this
      ensures Reads(st) && Shows(s, 0)
    {
      FeedFold(out, START);
      assert (lines + [cur])[..|lines|] == lines;
      assert Folded(lines) + cur + "\\\n" == Folded(lines + [cur]) + "";
      assert s == Unfolded(lines + [cur]) + "";
      out := out + "\\\n";
      count := ll;
      lines, cur := lines + [cur], "";
    }

    /** OUTC */
    method Outc(c: char, ghost st: Reading, ghost s: string)
      requires Reads(st) && c != '\\' && Accept(c, st).Some? && Shows(s, 0)
      modifies this
      ensures Reads(Accept(c, st).value) && Shows(s + [c], 0)
    {
      Put(c, st, s, 0);
      count := count - 1;
      if count == 0 {
        Fold(Accept(c, st).value, s + [c]);
      }
    }

    /** TEST2 */
    method Test2(ghost st: Reading, ghost s: string)
      requires Reads(st) && Shows(s, 2)
      modifies this
      ensures Reads(st) && Shows(s, 0)
    {
      count := count - 2;
      if count <= 0 {
        Fold(st, s);
      }
    }

    /** One decimal digit. */
    method PutDigit(d: int, ghost st: Reading, ghost s: string, ghost due: int)
      requires Reads(st) && 0 <= d <= 9 && st.dpct < 99 && Shows(s, due)
      modifies this`out, this`cur
      ensures Reads(Reading(10 * st.v + d, st.dp, if st.dp then st.dpct + 1 else 0))
      ensures Shows(s + [DigitChar(d)], due + 1)
    {
      Put(DigitChar(d), st, s, due);
    }

    /** A cell as %d prints it when it is the first one. */
    method PutFirst(c: int)
      requires Reads(START) && 0 < c <= 99 && Fresh()
      modifies this`out, this`cur
      ensures Reads(Reading(c, false, 0)) && Shows(Decimal(c), 2)
    {
      if c < 10 {
        PutDigit(c, START, "", 0);
      } else {
        PutDigit(c / 10, START, "", 0);
        PutDigit(c % 10, Reading(c / 10, false, 0), "" + [DigitChar(c / 10)], 1);
        DecimalSnoc(c / 10, c % 10);
      }
    }

    /** A cell with its two digits. */
    method PutPadded(c: int, ghost st: Reading, ghost s: string)
      requires Reads(st) && 0 <= c <= 99 && (st.dp ==> st.dpct + 2 <= 99) && (!st.dp ==> st.dpct == 0) && Shows(s, 0)
      modifies this`out, this`cur
      ensures Reads(Reading(100 * st.v + c, st.dp, if st.dp then st.dpct + 2 else 0))
      ensures Shows(s + [DigitChar(c / 10)] + [DigitChar(c % 10)], 2)
    {
      var t, u := c / 10, c % 10;
      PutDigit(t, st, s, 0);
      PutDigit(u, Reading(10 * st.v + t, st.dp, if st.dp then st.dpct + 1 else 0), s + [DigitChar(t)], 1);
    }
  }

  lemma {:induction false} TopDown(s: seq<int>, j: nat)
    requires j < |s|
    ensures Val(s[j..]) == s[j] + 100 * Val(s[j + 1..])
  {
    hide Val;
    SplitLow(s[j..]);
    assert s[j..][1..] == s[j + 1..];
  }

  /** The cells from j on, as a number. */
  ghost function Above(s: seq<int>, j: nat): nat
    requires Plain(s) && j <= |s|
  {
    PlainBounds(s[j..]);
    Val(s[j..])
  }

  lemma {:induction false} AboveStep(s: seq<int>, j: nat)
    requires Plain(s) && Normal(s) && j < |s|
    ensures Above(s, j) == s[j] + 100 * Above(s, j + 1) > 0 && Above(s, |s|) == 0 && s[|s| - 1] > 0
  {
    hide Val, Weight, Pow;
    TopDown(s, j);
    PlainBounds(s[j..]);
    SignedBounds(s[j..]);
    Multiplication.Nothing();
    assert s[|s|..] == [] && s[j..][|s| - j - 1] == s[|s| - 1];
    PowPositive(|s| - j - 1);
  }

  lemma {:induction false} PowPositive(n: nat)
    ensures Pow(n) >= 1
  {
    PowMono(0, n);
  }

  /** What stands for the cells from j on, all of them above the point. */
  ghost function WholeText(s: seq<int>, j: nat): string
    requires Plain(s) && j <= |s|
  {
    if j == |s| then "" else Decimal(Above(s, j))
  }

  lemma {:induction false} WholeStep(s: seq<int>, j: nat)
    requires Plain(s) && Normal(s) && j < |s|
    ensures WholeText(s, j) ==
      if j + 1 == |s| then Decimal(s[j]) else WholeText(s, j + 1) + [DigitChar(s[j] / 10)] + [DigitChar(s[j] % 10)]
  {
    hide Val, Normal, Decimal, Above;
    AboveStep(s, j);
    if j + 1 < |s| {
      AboveStep(s, j + 1);
      DecimalSnoc(Above(s, j + 1), s[j] / 10);
      DecimalSnoc(10 * Above(s, j + 1) + s[j] / 10, s[j] % 10);
    }
  }

  /** The cells above the point. */
  method PutWhole(pr: Printer, p: Blk, sc: int)
    requires p.Valid() && Plain(p.Digits()) && Normal(p.Digits()) && 0 <= sc && pr.Reads(START) && pr.Fresh()
    modifies pr, p`rd
    ensures p.rd <= |p.Digits()| && (p.rd > 0 ==> 2 * (p.rd - 1) < sc)
    ensures p.rd < |p.Digits()| ==> 2 * p.rd >= sc
    ensures pr.Reads(Reading(Above(p.Digits(), p.rd), false, 0)) && pr.Shows(WholeText(p.Digits(), p.rd), 0)
  {
    hide Val, Weight, Pow, Feed, Accept, Normal, Decimal, Above;
    ghost var s: seq<int> := p.Digits();
    p.Fsfile();
    var f := false;
    NothingAbove(s);
    while !p.Sfbeg() && (p.rd - 1) * 2 >= sc
      invariant p.Valid() && p.Digits() == s && p.rd <= |s|
      invariant p.rd < |s| ==> 2 * p.rd >= sc
      invariant f <==> p.rd < |s|
      invariant pr.Reads(Reading(Above(s, p.rd), false, 0)) && pr.Shows(WholeText(s, p.rd), 0)
      invariant !f ==> pr.Fresh()
      decreases p.rd
    {
      ghost var st, text := Reading(Above(s, p.rd), false, 0), WholeText(s, p.rd);
      var c := p.Sbackc();
      AboveStep(s, p.rd);
      WholeStep(s, p.rd);
      if f {
        pr.PutPadded(c, st, text);
      } else {
        pr.PutFirst(c);
      }
      f := true;
      pr.Test2(Reading(Above(s, p.rd), false, 0), WholeText(s, p.rd));
    }
  }

  lemma {:induction false} NothingAbove(s: seq<int>)
    requires Plain(s)
    ensures Above(s, |s|) == 0
  {
    Multiplication.Nothing();
    assert s[|s|..] == [];
  }

  /** The zeros between the point and the first digit of a small number. */
  method PutZeros(pr: Printer, sc0: int, low: int, ghost head: string) returns (sc: int)
    requires 0 <= low <= sc0 <= 99 && pr.Reads(Reading(0, true, 0)) && pr.Shows(head, 0)
    modifies pr
    ensures sc == low && pr.Reads(Reading(0, true, sc0 - low)) && pr.Shows(head + Padded(0, sc0 - low), 0)
  {
    hide Feed, Padded;
    sc := sc0;
    NoZeros(head);
    while sc > low
      invariant low <= sc <= sc0 && pr.Reads(Reading(0, true, sc0 - sc)) && pr.Shows(head + Padded(0, sc0 - sc), 0)
    {
      ZeroNext(head, sc0 - sc);
      pr.Outc('0', Reading(0, true, sc0 - sc), head + Padded(0, sc0 - sc));
      sc := sc - 1;
    }
  }

  lemma NoZeros(head: string)
    ensures head + Padded(0, 0) == head
  {
  }

  lemma {:induction false} ZeroNext(head: string, k: nat)
    ensures head + Padded(0, k) + ['0'] == head + Padded(0, k + 1)
  {
    hide Padded;
    PaddedSnoc(0, k, 0);
    assert DigitChar(0) == '0';
  }

  /** f and the cells below place n, as one number. */
  ghost function Joined(f: nat, s: seq<int>, n: nat): nat
    requires Plain(s) && n <= |s|
  {
    PlainBounds(s[..n]);
    PowPositive(n);
    TimesNonnegative(f, Pow(n));
    Times(f, Pow(n)) + Val(s[..n])
  }

  lemma TimesNonnegative(a: int, b: int)
    requires a >= 0 && b >= 0
    ensures Times(a, b) >= 0
  {
  }

  lemma {:induction false} JoinedStep(f: nat, s: seq<int>, n: nat)
    requires Plain(s) && n < |s|
    ensures Joined(f, s, n + 1) == Joined(100 * f + s[n], s, n)
    ensures Joined(f, s, 0) == f
  {
    hide Val, Pow, Weight;
    assert s[..n + 1] == s[..n] + [s[n]];
    ValSnoc(s[..n], s[n]);
    HundredTimes(f, s[n], n);
    JoinedNone(f, s);
  }

  lemma {:induction false} JoinedNone(f: nat, s: seq<int>)
    requires Plain(s)
    ensures Joined(f, s, 0) == f
  {
    assert s[..0] == [];
  }

  lemma HundredTimes(f: int, d: int, n: nat)
    ensures Times(f, Pow(n + 1)) + Weight(d, n) == Times(100 * f + d, Pow(n))
  {
    TimesHundredth(f, d, Pow(n));
  }

  lemma TimesHundredth(f: int, d: int, p: int)
    ensures Times(f, 100 * p) + d * p == Times(100 * f + d, p)
  {
    assert f * (100 * p) == 100 * f * p;
    assert (100 * f + d) * p == 100 * f * p + d * p;
  }

  /** The cells below the point, k digits of which, f, are there. */
  method PutFraction(pr: Printer, p: Blk, sc1: int, ghost v: nat, ghost k: nat, ghost f0: nat, ghost head: string)
    requires p.Valid() && Plain(p.Digits()) && p.rd <= |p.Digits()| && sc1 == 2 * p.rd && k + sc1 <= 99
    requires pr.Reads(Reading(v, true, k)) && pr.Shows(head + Padded(f0, k), 0)
    modifies pr, p`rd
    ensures pr.Reads(Reading(old(Joined(v, p.Digits(), p.rd)), true, k + sc1))
    ensures pr.Shows(head + Padded(old(Joined(f0, p.Digits(), p.rd)), k + sc1), 0)
  {
    hide Val, Weight, Pow, Feed, Accept, Joined, Padded;
    ghost var s: seq<int> := p.Digits();
    ghost var f: nat, w: nat := f0, v;
    var sc := sc1;
    while sc > 1
      invariant p.Valid() && p.Digits() == s && p.rd <= |s| && sc == 2 * p.rd && sc <= sc1
      invariant Joined(f, s, p.rd) == old(Joined(f0, p.Digits(), p.rd))
      invariant Joined(w, s, p.rd) == old(Joined(v, p.Digits(), p.rd))
      invariant pr.Reads(Reading(w, true, k + sc1 - sc)) && pr.Shows(head + Padded(f, k + sc1 - sc), 0)
      decreases sc
    {
      ghost var n := k + sc1 - sc;
      var c := p.Sbackc();
      JoinedStep(f, s, p.rd);
      JoinedStep(w, s, p.rd);
      PaddedTwo(head, f, n, c);
      pr.PutPadded(c, Reading(w, true, n), head + Padded(f, n));
      sc := sc - 2;
      f, w := 100 * f + c, 100 * w + c;
      pr.Test2(Reading(w, true, n + 2), head + Padded(f, n + 2));
    }
    // sc is even here, so the program's last test for a single digit never holds
    assert sc == 0;
    JoinedNone(f, s);
    JoinedNone(w, s);
  }

  lemma {:induction false} PaddedTwo(head: string, f: nat, n: nat, c: int)
    requires 0 <= c <= 99
    ensures head + Padded(f, n) + [DigitChar(c / 10)] + [DigitChar(c % 10)] == head + Padded(100 * f + c, n + 2)
  {
    hide Padded;
    PaddedSnoc(f, n, c / 10);
    PaddedSnoc(10 * f + c / 10, n + 1, c % 10);
    assert head + Padded(f, n) + [DigitChar(c / 10)] == head + Padded(10 * f + c / 10, n + 1);
  }

  /** The text before the point, where it falls into cell j. */
  ghost function StraddleText(s: seq<int>, j: nat): string
    requires Plain(s) && j < |s|
  {
    Decimal(10 * Above(s, j + 1) + s[j] / 10)
  }

  lemma {:induction false} StraddleStep(s: seq<int>, j: nat)
    requires Plain(s) && Normal(s) && j < |s|
    ensures WholeText(s, j + 1) + [DigitChar(s[j] / 10)] == StraddleText(s, j)
  {
    hide Val, Normal, Above;
    NothingAbove(s);
    if j + 1 < |s| {
      AboveStep(s, j + 1);
      DecimalSnoc(Above(s, j + 1), s[j] / 10);
    } else {
      assert "" + [DigitChar(s[j] / 10)] == [DigitChar(s[j] / 10)];
    }
  }

  /** The cell the point falls into: its upper digit, the point, its lower digit. */
  method PutStraddle(pr: Printer, p: Blk, sc: int) returns (rest: int)
    requires p.Valid() && Plain(p.Digits()) && Normal(p.Digits()) && 0 < p.rd <= |p.Digits()| && sc == 2 * p.rd - 1
    requires pr.Reads(Reading(Above(p.Digits(), p.rd), false, 0)) && pr.Shows(WholeText(p.Digits(), p.rd), 0)
    modifies pr, p`rd
    ensures p.rd == old(p.rd) - 1 && rest == 2 * p.rd
    ensures pr.Reads(Reading(Above(p.Digits(), p.rd), true, 1))
    ensures pr.Shows(StraddleText(p.Digits(), p.rd) + "." + Padded(p.Digits()[p.rd] % 10, 1), 0)
  {
    hide Val, Weight, Pow, Feed, Normal, Above, WholeText, StraddleText, Padded;
    ghost var s: seq<int> := p.Digits();
    ghost var v, text := Above(s, p.rd), WholeText(s, p.rd);
    var c := p.Sbackc();
    AboveStep(s, p.rd);
    StraddleStep(s, p.rd);
    OneDigit(c % 10);
    ghost var head := StraddleText(s, p.rd);
    pr.PutDigit(c / 10, Reading(v, false, 0), text, 0);
    ghost var w := 10 * v + c / 10;
    pr.Put('.', Reading(w, false, 0), head, 1);
    pr.Test2(Reading(w, true, 0), head + ".");
    pr.Outc(DigitChar(c % 10), Reading(w, true, 0), head + ".");
    rest := sc - 1;
  }

  lemma OneDigit(d: int)
    requires 0 <= d <= 9
    ensures Padded(d, 1) == [DigitChar(d)]
  {
    assert Padded(d, 1) == Padded(d / 10, 0) + [DigitChar(d % 10)];
  }

  // ----- what the parts come to

  lemma {:induction false} EvenSplit(s: seq<int>, m: nat)
    requires Plain(s) && m <= |s|
    ensures Power(10, 2 * m) > 0 && Above(s, 0) / Power(10, 2 * m) == Above(s, m)
    ensures Above(s, 0) % Power(10, 2 * m) == Joined(0, s, m) && Above(s, 0) == Joined(Above(s, m), s, m)
  {
    hide Val, Pow, Weight, Power;
    PowTen(m);
    PowPositive(m);
    assert s[0..] == s == s[..m] + s[m..];
    ValConcat(s[..m], s[m..]);
    PlainBounds(s[..m]);
    PlainBounds(s[m..]);
    SplitAt(Above(s, 0), Pow(m), Above(s, m), Val(s[..m]));
  }

  lemma SplitAt(v: int, p: int, q: int, r: int)
    requires p > 0 && 0 <= r < p && v == r + Times(p, q)
    ensures v / p == q && v % p == r && v == Times(q, p) + r
  {
    assert p * q == q * p;
    FloorUnique(v, p, q);
  }

  lemma {:induction false} AboveCell(s: seq<int>, j: nat)
    requires Plain(s) && j < |s|
    ensures Above(s, j) == s[j] + 100 * Above(s, j + 1)
  {
    TopDown(s, j);
  }

  lemma {:induction false} JoinedParts(f: nat, s: seq<int>, n: nat)
    requires Plain(s) && n <= |s|
    ensures Joined(f, s, n) == Times(f, Pow(n)) + Joined(0, s, n) && 0 <= Joined(0, s, n) < Pow(n)
  {
    hide Val, Pow, Weight;
    PlainBounds(s[..n]);
  }

  lemma {:induction false} OddSplit(s: seq<int>, j: nat)
    requires Plain(s) && j < |s|
    ensures Power(10, 2 * j + 1) > 0
    ensures Above(s, 0) / Power(10, 2 * j + 1) == 10 * Above(s, j + 1) + s[j] / 10
    ensures Above(s, 0) % Power(10, 2 * j + 1) == Joined(s[j] % 10, s, j)
  {
    hide Val, Pow, Weight, Power, Joined, Above;
    EvenSplit(s, j);
    PowTen(j);
    PowPositive(j);
    AboveCell(s, j);
    JoinedParts(s[j] % 10, s, j);
    JoinedParts(Above(s, j), s, j);
    OddAlgebra(Above(s, 0), Pow(j), Above(s, j + 1), s[j], Joined(0, s, j), Joined(s[j] % 10, s, j));
  }

  lemma OddAlgebra(v: int, p: int, b: int, c: int, r: int, g: int)
    requires p > 0 && 0 <= r < p && 0 <= c <= 99 && v == Times(c + 100 * b, p) + r && g == Times(c % 10, p) + r
    ensures v / (10 * p) == 10 * b + c / 10 && v % (10 * p) == g
  {
    var t, u := c / 10, c % 10;
    var q := 10 * b + t;
    assert c + 100 * b == 10 * q + u;
    OddProduct(q, u, p);
    UnitBelow(u, p);
    SplitAt(v, 10 * p, q, g);
  }

  lemma OddProduct(q: int, u: int, p: int)
    ensures Times(10 * q + u, p) == Times(10 * p, q) + Times(u, p)
  {
    assert (10 * q + u) * p == 10 * q * p + u * p;
    assert (10 * p) * q == 10 * q * p;
  }

  lemma UnitBelow(u: int, p: int)
    requires 0 <= u <= 9 && p > 0
    ensures 0 <= Times(u, p) <= 9 * p
  {
  }

  /** All that PutPoint may have behind it, and what it leads to. */
  lemma {:induction false} ShortValue(s: seq<int>, sc: nat)
    requires Plain(s) && 2 * |s| <= sc
    ensures Power(10, sc) > 0 && Above(s, 0) / Power(10, sc) == 0 && Above(s, 0) % Power(10, sc) == Above(s, 0)
    ensures Joined(0, s, |s|) == Above(s, 0)
  {
    hide Val, Pow, Weight, Power;
    PlainBounds(s);
    PowTen(|s|);
    PowerSum(10, 2 * |s|, sc - 2 * |s|);
    PowerPositive(10, sc - 2 * |s|);
    assert s[0..] == s == s[..|s|];
    AtLeastOnce(Power(10, 2 * |s|), Power(10, sc - 2 * |s|));
  }

  lemma AtLeastOnce(a: int, b: int)
    requires a >= 0 && b >= 1
    ensures a * b >= a
  {
  }

  /** Prints p, scaled by sc, in base ten: the numeral of its value, folded as the width demands.
      The text, up to its newline, reads back as p. */
  method Tenot(pr: Printer, p: Blk, sc: int)
    requires p.Valid() && Plain(p.Digits()) && Normal(p.Digits()) && p.Digits() != [] && 0 <= sc <= 99
    requires pr.Fresh()
    modifies pr, p`rd
    ensures pr.out == Folded(pr.lines) + pr.cur + "\n"
    ensures Unfolded(pr.lines) + pr.cur == Numeral(Above(p.Digits(), 0), |p.Digits()|, sc)
    ensures var text, n := Unfolded(pr.lines) + pr.cur, |p.Digits()|;
      && (2 * (n - 1) >= sc ==> text[0] != '0')
      && |text| == (if sc > 0 then 1 else 0) + (
           if 2 * n <= sc then sc
           else if 2 * (n - 1) >= sc && p.Digits()[n - 1] < 10 then 2 * n - 1
           else 2 * n)
    ensures pr.ll >= 1 ==> Widths(pr.lines, pr.ll) && |pr.cur| < pr.ll
    ensures Feed(pr.out[..|pr.out| - 1], START) == Some(Reading(Val(p.Digits()), sc > 0, sc))
  {
    hide Val, Weight, Pow, Feed, Numeral, Above, Normal, Plain, Folded, Unfolded, Widths;
    ghost var s: seq<int> := p.Digits();
    NumeralShape(s, sc);
    PutNumeral(pr, p, sc);
    ghost var text := pr.out;
    pr.out := pr.out + "\n";
    assert pr.out[..|pr.out| - 1] == text;
  }

  method PutNumeral(pr: Printer, p: Blk, sc: int)
    requires p.Valid() && Plain(p.Digits()) && Normal(p.Digits()) && p.Digits() != [] && 0 <= sc <= 99
    requires pr.Fresh()
    modifies pr, p`rd
    ensures pr.Shows(Numeral(Above(p.Digits(), 0), |p.Digits()|, sc), 0)
    ensures pr.Reads(Reading(Val(p.Digits()), sc > 0, sc))
  {
    hide Val, Weight, Pow, Feed, Numeral, Above, Normal;
    NothingRead();
    WholeValue(p.Digits());
    PutWhole(pr, p, sc);
    if sc != 0 {
      PutPoint(pr, p, sc);
    } else {
      WholeNumeral(p.Digits());
    }
  }

  lemma {:induction false} PaddedLength(n: nat, k: nat)
    ensures |Padded(n, k)| == k
  {
    if k > 0 {
      PaddedLength(n / 10, k - 1);
    }
  }

  /** The text of whole cells: no zero in front, two digits a cell, but the first. */
  lemma {:induction false} WholeShape(s: seq<int>, j: nat)
    requires Plain(s) && Normal(s) && j < |s|
    ensures |WholeText(s, j)| == 2 * (|s| - j) - (if s[|s| - 1] < 10 then 1 else 0) && WholeText(s, j)[0] != '0'
    decreases |s| - j
  {
    hide Val, Normal, Above, WholeText;
    WholeStep(s, j);
    AboveStep(s, j);
    if j + 1 < |s| {
      WholeShape(s, j + 1);
    }
  }

  lemma {:induction false} StraddleShape(s: seq<int>, j: nat)
    requires Plain(s) && Normal(s) && j < |s|
    ensures j + 1 == |s| ==> |StraddleText(s, j)| == 1
    ensures j + 1 < |s| ==>
      |StraddleText(s, j)| == 2 * (|s| - j) - 1 - (if s[|s| - 1] < 10 then 1 else 0) && StraddleText(s, j)[0] != '0'
  {
    hide Val, Normal, Above, WholeText, StraddleText;
    StraddleStep(s, j);
    NoWhole(s);
    if j + 1 < |s| {
      WholeShape(s, j + 1);
    }
  }

  lemma NoWhole(s: seq<int>)
    requires Plain(s)
    ensures WholeText(s, |s|) == ""
  {
  }

  /** How long a numeral is, and where it does not begin with a zero. */
  lemma {:induction false} NumeralShape(s: seq<int>, sc: nat)
    requires Plain(s) && Normal(s) && s != []
    ensures var text, n := Numeral(Above(s, 0), |s|, sc), |s|;
      && |text| == (if sc > 0 then 1 else 0) + (
           if 2 * n <= sc then sc
           else if 2 * (n - 1) >= sc && s[n - 1] < 10 then 2 * n - 1
           else 2 * n)
      && (2 * (n - 1) >= sc ==> text[0] != '0')
  {
    hide Val, Normal, Above, Joined, Padded, WholeText, StraddleText, Numeral;
    NoWhole(s);
    if sc == 0 {
      WholeNumeral(s);
      WholeShape(s, 0);
    } else if sc % 2 == 1 && 2 * |s| > sc {
      var j := sc / 2;
      StraddleNumeral(s, j);
      StraddleShape(s, j);
      PaddedLength(Joined(s[j] % 10, s, j), sc);
    } else {
      var n := if sc / 2 < |s| then sc / 2 else |s|;
      PointNumeral(s, n, sc);
      PaddedLength(Joined(0, s, n), sc);
      if n < |s| {
        WholeShape(s, n);
      }
    }
  }

  lemma WholeValue(s: seq<int>)
    requires Plain(s)
    ensures Above(s, 0) == Val(s)
  {
    assert s[0..] == s;
  }

  lemma {:induction false} WholeNumeral(s: seq<int>)
    requires Plain(s) && s != []
    ensures WholeText(s, 0) == Numeral(Above(s, 0), |s|, 0)
  {
    hide Above, Decimal;
    PowerZero(10);
    assert Above(s, 0) / 1 == Above(s, 0);
    assert Decimal(Above(s, 0)) + "" == Decimal(Above(s, 0));
  }

  method PutPoint(pr: Printer, p: Blk, sc: int)
    requires p.Valid() && Plain(p.Digits()) && Normal(p.Digits()) && 0 < sc <= 99
    requires p.rd <= |p.Digits()| && (p.rd > 0 ==> 2 * (p.rd - 1) < sc)
    requires p.rd < |p.Digits()| ==> 2 * p.rd >= sc
    requires pr.Reads(Reading(Above(p.Digits(), p.rd), false, 0)) && pr.Shows(WholeText(p.Digits(), p.rd), 0)
    modifies pr, p`rd
    ensures pr.Reads(Reading(Above(p.Digits(), 0), true, sc))
    ensures pr.Shows(Numeral(Above(p.Digits(), 0), |p.Digits()|, sc), 0)
  {
    hide Val, Weight, Pow, Feed, Above, Joined, Padded, WholeText, StraddleText, Numeral, Normal;
    ghost var s: seq<int> := p.Digits();
    if p.rd * 2 > sc {
      var rest := PutStraddle(pr, p, sc);
      ghost var j := p.rd;
      PutFraction(pr, p, rest, Above(s, j), 1, s[j] % 10, StraddleText(s, j) + ".");
      StraddleNumeral(s, j);
    } else {
      ghost var n, head := p.rd, WholeText(s, p.rd) + ".";
      var rest := sc;
      pr.Outc('.', Reading(Above(s, p.rd), false, 0), WholeText(s, p.rd));
      NoZeros(head);
      if p.rd * 2 < sc {
        NothingAbove(s);
        rest := PutZeros(pr, sc, p.rd * 2, head);
      }
      PutFraction(pr, p, rest, Above(s, n), sc - rest, 0, head);
      PointNumeral(s, n, sc);
    }
  }

  lemma {:induction false} StraddleNumeral(s: seq<int>, j: nat)
    requires Plain(s) && j < |s|
    ensures StraddleText(s, j) + "." + Padded(Joined(s[j] % 10, s, j), 2 * j + 1)
      == Numeral(Above(s, 0), |s|, 2 * j + 1)
    ensures Joined(Above(s, j), s, j) == Above(s, 0)
  {
    hide Above, Joined, Padded, Decimal;
    EvenSplit(s, j);
    OddSplit(s, j);
  }

  lemma {:induction false} PointNumeral(s: seq<int>, n: nat, sc: nat)
    requires Plain(s) && n <= |s| && 0 < sc && 2 * n <= sc && (n < |s| ==> 2 * n == sc)
    ensures WholeText(s, n) + "." + Padded(Joined(0, s, n), sc) == Numeral(Above(s, 0), |s|, sc)
    ensures Joined(Above(s, n), s, n) == Above(s, 0)
  {
    hide Above, Joined, Padded, Decimal, Power;
    EvenSplit(s, n);
    if n == |s| {
      ShortValue(s, sc);
      assert "" + "." + Padded(Joined(0, s, n), sc) == "" + ("." + Padded(Joined(0, s, n), sc));
    }
  }

  lemma NothingRead()
    ensures Feed("", START) == Some(START)
  {
  }

  // ----- the reader

  function Later(r: Option<(nat, Reading)>, n: nat): Option<(nat, Reading)> {
    match r
    case None => None
    case Some((m, st)) => Some((m + n, st))
  }

  /** Where the numeral at the start of s ends, and its reading; None when s runs out first,
      which ends the program. */
  function NumeralEnd(s: string, st: Reading): Option<(nat, Reading)> {
    if s == "" then None
    else if s[0] == '\\' then (if |s| >= 2 then Later(NumeralEnd(s[2..], st), 2) else None)
    else match Accept(s[0], st)
      case None => Some((0, st))
      case Some(next) => Later(NumeralEnd(s[1..], next), 1)
  }

  /** A numeral followed by a character that cannot continue it is read whole. */
  lemma {:induction false} NumeralEnds(text: string, st: Reading, end: Reading, more: string)
    requires Feed(text, st) == Some(end) && more != "" && more[0] != '\\' && Accept(more[0], end) == None
    ensures NumeralEnd(text + more, st) == Some((|text|, end))
    decreases |text|
  {
    if text == "" {
      assert text + more == more;
    } else if text[0] == '\\' {
      NumeralEnds(text[2..], st, end, more);
      assert (text + more)[2..] == text[2..] + more;
    } else {
      NumeralEnds(text[1..], Accept(text[0], st).value, end, more);
      assert (text + more)[1..] == text[1..] + more;
    }
  }

  /** What a character stands for in a numeral. */
  function CharValue(c: char): int {
    if '0' <= c <= '9' then c as int - '0' as int else if 'A' <= c <= 'F' then c as int - 'A' as int + 10 else 0
  }

  /** The value of a string of digits, each at its place. */
  function Places(s: string): int {
    if s == "" then 0 else CharValue(s[0]) * Power(10, |s| - 1) + Places(s[1..])
  }

  lemma {:induction false} PlacesSnoc(s: string, c: char)
    ensures Places(s + [c]) == 10 * Places(s) + CharValue(c)
  {
    if s == "" {
      assert [c][1..] == "" && Power(10, 0) == 1;
    } else {
      assert (s + [c])[1..] == s[1..] + [c];
      PlacesSnoc(s[1..], c);
      assert Power(10, |s|) == 10 * Power(10, |s| - 1);
      Associate3(CharValue(s[0]), Power(10, |s| - 1), 10);
    }
  }

  /** The characters that can stand in a numeral, the second point apart. */
  predicate InNumeral(c: char) {
    c == '.' || c == '0' || c == '1' || c == '2' || c == '3' || c == '4' || c == '5' || c == '6' || c == '7'
    || c == '8' || c == '9' || c == 'A' || c == 'B' || c == 'C' || c == 'D' || c == 'E' || c == 'F'
  }

  /** s, with or without a point, reads as st: digits at their places, those from the hundredth
      after the point on ignored. */
  ghost predicate Positional(s: string, st: Reading) {
    && (forall i :: 0 <= i < |s| ==> InNumeral(s[i]))
    && (if st.dp then
          exists p :: 0 <= p < |s| && s[p] == '.' && '.' !in s[..p] && '.' !in s[p + 1..] && PointAt(s, st, p)
        else '.' !in s && st.dpct == 0 && st.v == Places(s))
  }

  ghost predicate PointAt(s: string, st: Reading, p: nat)
    requires p < |s|
  {
    && st.dpct == (if |s| - p - 1 <= 99 then |s| - p - 1 else 99)
    && st.v == Places(s[..p] + s[p + 1..p + 1 + st.dpct])
  }

  /** A numeral ends at a character that cannot stand in one, or at its second point. */
  lemma AcceptEnds(c: char, st: Reading)
    ensures Accept(c, st) == None <==> !InNumeral(c) || (c == '.' && st.dp)
  {
  }

  lemma {:induction false} PositionalSnoc(s: string, c: char, st: Reading)
    requires Positional(s, st) && Accept(c, st).Some?
    ensures Positional(s + [c], Accept(c, st).value)
  {
    hide Places;
    var next, t := Accept(c, st).value, s + [c];
    AcceptEnds(c, st);
    if c == '.' {
      assert t[..|s|] == s && t[|s| + 1..] == "";
      assert t[..|s|] + t[|s| + 1..|s| + 1 + 0] == s;
      assert PointAt(t, next, |s|);
    } else if st.dp {
      var p :| 0 <= p < |s| && s[p] == '.' && '.' !in s[..p] && '.' !in s[p + 1..] && PointAt(s, st, p);
      PointSnoc(s, c, st, p);
    } else {
      PlacesSnoc(s, c);
    }
  }

  lemma {:induction false} PointSnoc(s: string, c: char, st: Reading, p: nat)
    requires p < |s| && s[p] == '.' && PointAt(s, st, p) && st.dp && c != '.' && Accept(c, st).Some?
    ensures (s + [c])[p] == '.' && (s + [c])[..p] == s[..p] && (s + [c])[p + 1..] == s[p + 1..] + [c]
    ensures PointAt(s + [c], Accept(c, st).value, p)
  {
    hide Places;
    var t, k := s + [c], st.dpct;
    if k < 99 {
      PlacesSnoc(s[..p] + s[p + 1..p + 1 + k], c);
      assert t[..p] + t[p + 1..p + 1 + (k + 1)] == (s[..p] + s[p + 1..p + 1 + k]) + [c];
    } else {
      assert t[..p] + t[p + 1..p + 1 + k] == s[..p] + s[p + 1..p + 1 + k];
    }
  }

  /** s without backslashes and the characters they hide. */
  function Visible(s: string): string {
    if s == "" then ""
    else if s[0] == '\\' then (if |s| >= 2 then Visible(s[2..]) else "")
    else [s[0]] + Visible(s[1..])
  }

  /** Where the reading of a numeral ends and what it has read by then, spelled out. */
  lemma {:induction false} NumeralMeans(s: string, before: string, st: Reading)
    requires Positional(before, st)
    ensures match NumeralEnd(s, st)
      case None => true
      case Some((n, end)) =>
        && n < |s| && s[n] != '\\' && (!InNumeral(s[n]) || (s[n] == '.' && end.dp))
        && Positional(before + Visible(s[..n]), end)
    decreases |s|
  {
    hide Positional, InNumeral, Accept;
    NumeralStep(s, st);
    if s != "" && s[0] == '\\' {
      if |s| >= 2 {
        NumeralMeans(s[2..], before, st);
        if NumeralEnd(s[2..], st).Some? {
          var m := NumeralEnd(s[2..], st).value.0;
          assert s[..m + 2][2..] == s[2..][..m];
        }
      }
    } else if s != "" {
      AcceptEnds(s[0], st);
      if Accept(s[0], st).Some? {
        var next := Accept(s[0], st).value;
        PositionalSnoc(before, s[0], st);
        NumeralMeans(s[1..], before + [s[0]], next);
        if NumeralEnd(s[1..], next).Some? {
          var m := NumeralEnd(s[1..], next).value.0;
          assert s[..m + 1][1..] == s[1..][..m];
          assert before + [s[0]] + Visible(s[1..][..m]) == before + ([s[0]] + Visible(s[1..][..m]));
        }
      } else {
        assert before + Visible(s[..0]) == before;
      }
    }
  }

  /** Appends the digit c to p: ten times p plus c. */
  method AppendDigit(p: Blk, c: int, inbas: Blk, chptr: Blk) returns (q: Blk)
    requires p != inbas && p != chptr && chptr != inbas && p.Valid() && inbas.Valid() && chptr.Valid()
    requires Normal(p.Digits()) && Plain(p.Digits()) && inbas.Digits() == [10] && 0 <= c <= 15
    modifies p`rd, inbas`rd, chptr
    ensures chptr.Valid() && fresh(q) && q.Valid() && Normal(q.Digits()) && Plain(q.Digits())
    ensures Val(q.Digits()) == 10 * Val(p.Digits()) + c
  {
    hide Val, Weight, Pow, Normal;
    NormalParts(p.Digits());
    PlainBounds(p.Digits());
    TenIsNormal();
    NormalParts(inbas.Digits());
    chptr.Create();
    if c != 0 {
      chptr.Sputc(c);
    }
    OneCell(c);
    assert chptr.Digits() == if c != 0 then [c] else [];
    var t := Multiplication.Mult(p, inbas);
    SignedIsCells(t.Digits());
    q := Add(chptr, t);
    NormalNonnegative(q.Digits());
  }

  lemma {:induction false} OneCell(c: int)
    ensures Val([]) == 0 && Val([c]) == c
  {
    ValCons(c, []);
    assert [c] == [c] + [];
  }

  lemma OverOne(v: int, m: int)
    requires m >= 1 && v >= 0
    ensures Quotient(Times(v, m), m) == v
  {
    hide Quotient;
    QuotientCancel(v, 1, m);
    PositiveQuotient(v, 1);
  }

  lemma {:induction false} CellExponent(n: int)
    requires 0 <= n <= 99
    ensures IsExponent([n])
  {
  }

  /** Gives p, read with n digits after the point, its scale. */
  method ScaleBy(dc: Dc, p: Blk, n: int, inbas: Blk) returns (q: Blk)
    requires dc.Valid() && p !in {dc.divxyz, dc.tenptr, dc.sqtemp} && inbas !in {dc.divxyz, dc.tenptr, dc.sqtemp}
    requires p.Valid() && Plain(p.Digits()) && Normal(p.Digits()) && inbas.Valid() && inbas.Digits() == [10]
      && 0 <= n <= 99
    modifies p`rd, inbas`rd, dc`rem, dc`stack, dc.divxyz, dc.tenptr`rd, dc.sqtemp`rd
    ensures dc.Valid() && dc.stack == old(dc.stack)
    ensures fresh(q) && Number(q) && Scale(q.Digits()) == n && Val(Whole(q.Digits())) == Val(p.Digits())
  {
    hide Val, Weight, Pow, Power, Times, Quotient, Remainder, Normal, IsExponent;
    NormalParts(p.Digits());
    PlainBounds(p.Digits());
    TenIsNormal();
    var t := Add0(dc, p, n);
    var e := new Blk.Salloc(1);
    e.Sputc(n);
    assert e.Digits() == [n];
    CellExponent(n);
    OneCell(n);
    PowerPositive(10, n);
    var s := DcExp(dc, inbas, e);
    NormalSign(s.Digits());
    OverOne(Val(p.Digits()), Power(10, n));
    q := dc.Div(t, s);
    q.Sputc(n);
  }

  /** Reads the numeral at from in the input; null when the input runs out. */
  method Readin(dc: Dc, input: string, from: nat, inbas: Blk, chptr: Blk) returns (p: Blk?, pos: nat)
    requires dc.Valid() && from <= |input|
    requires inbas !in {dc.divxyz, dc.tenptr, dc.sqtemp} && chptr !in {dc.divxyz, dc.tenptr, dc.sqtemp}
      && inbas != chptr
    requires inbas.Valid() && inbas.Digits() == [10] && chptr.Valid()
    modifies inbas`rd, chptr, dc`rem, dc`stack, dc.divxyz, dc.tenptr`rd, dc.sqtemp`rd
    ensures dc.Valid() && dc.stack == old(dc.stack) && chptr.Valid()
    ensures match NumeralEnd(input[from..], START)
      case None => p == null
      case Some((n, st)) =>
        && p != null && fresh(p) && Number(p) && pos == from + n
        && Val(Whole(p.Digits())) == st.v && Scale(p.Digits()) == st.dpct
        && pos < |input| && (!InNumeral(input[pos]) || (input[pos] == '.' && st.dp))
        && Positional(Visible(input[from..pos]), st)
  {
    hide Val, Weight, Pow, Normal, NumeralEnd, Positional, InNumeral, Visible;
    NothingPositional();
    NumeralMeans(input[from..], "", START);
    pos := from;
    var q: Blk := new Blk.Salloc(0);
    EmptyNumber();
    var dp, dpct := false, 0;
    assert input[from..] == input[pos..];
    LaterZero(NumeralEnd(input[pos..], START));
    while true
      invariant from <= pos <= |input| && dpct <= 99 && (!dp ==> dpct == 0)
      invariant fresh(q) && q.Valid() && Normal(q.Digits()) && Plain(q.Digits())
      invariant dc.Valid() && dc.stack == old(dc.stack) && chptr.Valid() && inbas.Valid() && inbas.Digits() == [10]
      invariant NumeralEnd(input[from..], START)
             == Later(NumeralEnd(input[pos..], Reading(Val(q.Digits()), dp, dpct)), pos - from)
      decreases |input| - pos
    {
      ghost var st := Reading(Val(q.Digits()), dp, dpct);
      NextChar(input, from, pos, st);
      if pos == |input| {
        return null, pos;
      }
      var c := input[pos];
      if c == '.' {
        if dp {
          break;
        }
        dp := true;
        pos := pos + 1;
      } else if c == '\\' {
        if pos + 1 == |input| {
          return null, pos;
        }
        pos := pos + 2;
      } else if IsDigit(c) {
        pos := pos + 1;
        if !dp || dpct < 99 {
          if dp {
            dpct := dpct + 1;
          }
          q := AppendDigit(q, DigitOf(c), inbas, chptr);
        }
      } else {
        break;
      }
    }
    assert input[from..][..pos - from] == input[from..pos];
    assert "" + Visible(input[from..pos]) == Visible(input[from..pos]);
    if dp {
      p := ScaleBy(dc, q, dpct, inbas);
    } else {
      q.Sputc(0);
      p := q;
    }
  }

  lemma NothingPositional()
    ensures Positional("", START)
  {
  }

  lemma {:induction false} EmptyNumber()
    ensures Val([]) == 0 && Normal([]) && Plain([])
  {
  }

  lemma LaterZero(r: Option<(nat, Reading)>)
    ensures Later(r, 0) == r
  {
  }

  /** How the rest of the numeral is found from the next character. */
  lemma {:induction false} NextChar(input: string, from: nat, pos: nat, st: Reading)
    requires from <= pos <= |input|
    requires NumeralEnd(input[from..], START) == Later(NumeralEnd(input[pos..], st), pos - from)
    ensures pos == |input| ==> NumeralEnd(input[from..], START) == None
    ensures pos < |input| && input[pos] == '\\' ==>
      NumeralEnd(input[from..], START) ==
        if pos + 1 < |input| then Later(NumeralEnd(input[pos + 2..], st), pos + 2 - from) else None
    ensures pos < |input| && input[pos] != '\\' && Accept(input[pos], st).Some? ==>
      NumeralEnd(input[from..], START) ==
        Later(NumeralEnd(input[pos + 1..], Accept(input[pos], st).value), pos + 1 - from)
    ensures pos < |input| && input[pos] != '\\' && Accept(input[pos], st).None? ==>
      NumeralEnd(input[from..], START) == Some((pos - from, st))
  {
    hide NumeralEnd;
    NumeralStep(input[pos..], st);
    if pos < |input| {
      assert input[pos..][1..] == input[pos + 1..];
      if pos + 1 < |input| {
        assert input[pos..][2..] == input[pos + 2..];
      }
    }
  }

  lemma {:induction false} NumeralStep(s: string, st: Reading)
    ensures s == "" ==> NumeralEnd(s, st) == None
    ensures s != "" && s[0] == '\\' ==> NumeralEnd(s, st) == if |s| >= 2 then Later(NumeralEnd(s[2..], st), 2) else None
    ensures s != "" && s[0] != '\\' && Accept(s[0], st).Some? ==>
      NumeralEnd(s, st) == Later(NumeralEnd(s[1..], Accept(s[0], st).value), 1)
    ensures s != "" && s[0] != '\\' && Accept(s[0], st).None? ==> NumeralEnd(s, st) == Some((0, st))
  {
  }

  /** Printing a positive number and reading the text back gives the same digits and scale,
      wherever the lines were folded and whatever follows. */
  method PrintThenRead(dc: Dc, p: Blk, sc: int, ll: int, more: string, inbas: Blk, chptr: Blk) returns (r: Blk?)
    requires dc.Valid() && inbas !in {dc.divxyz, dc.tenptr, dc.sqtemp} && chptr !in {dc.divxyz, dc.tenptr, dc.sqtemp}
    requires inbas != chptr && p !in {dc.divxyz, inbas, chptr}
    requires inbas.Valid() && inbas.Digits() == [10] && chptr.Valid()
    requires p.Valid() && Plain(p.Digits()) && Normal(p.Digits()) && p.Digits() != [] && 0 <= sc <= 99
    modifies inbas`rd, chptr, p`rd, dc`rem, dc`stack, dc.divxyz, dc.tenptr`rd, dc.sqtemp`rd
    ensures dc.Valid() && r != null && r.Valid() && r.Digits() == p.Digits() + [sc]
  {
    hide Val, Weight, Pow, Normal, Feed, NumeralEnd, Numeral, Above, Positional, InNumeral, Visible, Folded, Unfolded;
    var pr := new Printer(ll);
    Tenot(pr, p, sc);
    var text := pr.out[..|pr.out| - 1];
    var input := pr.out + more;
    assert input == text + ("\n" + more);
    NumeralEnds(text, START, Reading(Val(p.Digits()), sc > 0, sc), "\n" + more);
    assert input[0..] == input;
    var pos;
    r, pos := Readin(dc, input, 0, inbas, chptr);
    PlainBounds(p.Digits());
    NormalUnique(Whole(r.Digits()), p.Digits());
    assert p.Digits()[|p.Digits()| - 1] >= 0;
    assert r.Digits() == Whole(r.Digits()) + [sc];
  }
}
