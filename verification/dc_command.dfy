/** The division and square root commands, on numbers with a scale cell on top. */
module Commands {
  import opened Radix
  import opened Blocks
  import opened Division
  import opened Calculator
  import opened SquareRoot
  import opened Exponent
  import opened DecimalScale

  /** A stack entry that is a number: its digits, and its scale on top of them. */
  ghost predicate Number(b: Blk)
    reads b
  {
    && b.Valid() && b.Digits() != []
    && Normal(Whole(b.Digits())) && 0 <= Scale(b.Digits()) <= 99
  }

  /** The digits of a stack entry. */
  ghost function Whole(s: seq<Cell>): seq<Cell>
    requires s != []
  {
    s[..|s| - 1]
  }

  ghost function Scale(s: seq<Cell>): int
    requires s != []
  {
    s[|s| - 1]
  }

  ghost predicate Operands(dc: Dc, dd: Blk, dr: Blk)
    reads dd, dr
  {
    && dd != dr && Number(dd) && Number(dr)
    && dd !in {dc.divxyz, dc.tenptr, dc.sqtemp} && dr !in {dc.divxyz, dc.tenptr, dc.sqtemp}
  }

  /** The quotient of a/10^sa and b/10^sb, times 10^k, truncated toward zero. */
  ghost function Decimals(a: int, sa: nat, b: int, sb: nat, k: nat): int
    requires b != 0
  {
    PowerPositive(10, sa);
    SignTimes(b, Power(10, sa));
    Quotient(a * Power(10, k + sb), b * Power(10, sa))
  }

  /** Padding the dividend. */
  lemma PadDecimals(a: int, sa: nat, b: int, sb: nat, k: nat, c: nat)
    requires b != 0 && c + sa == k + sb
    ensures Quotient(Times(a, Power(10, c)), b) == Decimals(a, sa, b, sb, k)
  {
    hide Power, Quotient;
    PowerPositive(10, sa);
    PowerSum(10, c, sa);
    Associate3(a, Power(10, c), Power(10, sa));
    QuotientCancel(a * Power(10, c), b, Power(10, sa));
  }

  /** Cutting the dividend. */
  lemma CutDecimals(a: int, sa: nat, b: int, sb: nat, k: nat, c: nat)
    requires b != 0 && sa == k + sb + c && Power(10, c) != 0
    ensures Quotient(Quotient(a, Power(10, c)), b) == Decimals(a, sa, b, sb, k)
  {
    hide Power, Quotient;
    var m, n := Power(10, c), Power(10, k + sb);
    PowerPositive(10, sa);
    PowerPositive(10, c);
    PowerPositive(10, k + sb);
    PowerSum(10, c, k + sb);
    QuotientTwice(a, m, b);
    QuotientCancel(a, b * m, n);
    Associate3(b, m, n);
  }

  /** Brings the dividend to the decimals the quotient is to have. */
  method Rescale(dc: Dc, dd: Blk, c: int) returns (r: Blk)
    requires dc.Valid() && dd !in {dc.divxyz, dc.tenptr, dc.sqtemp} && dd.Valid() && Normal(dd.Digits())
    modifies dd, dc`rem, dc`stack, dc.divxyz, dc.tenptr`rd
    ensures dc.Valid() && dc.stack == old(dc.stack)
    ensures fresh(r) && r.Valid() && Signed(r.Digits())
    ensures c >= 0 ==> Val(r.Digits()) == Times(Val(old(dd.Digits())), Power(10, c))
    ensures c < 0 ==> Power(10, -c) != 0 && Val(r.Digits()) == Quotient(Val(old(dd.Digits())), Power(10, -c))
  {
    hide Val, Power, Times, Quotient, Normal;
    NormalParts(dd.Digits());
    if c < 0 {
      r := Removr(dc, dd, -c);
      NormalParts(r.Digits());
    } else {
      r := Add0(dc, dd, c);
    }
  }

  /** dscale and div: the quotient of two nonzero numbers, to k decimals. */
  method Quotients(dc: Dc, dd: Blk, dr: Blk, skd: int, skr: int) returns (q: Blk)
    requires dc.Valid() && 0 <= dc.k <= 99 && 0 <= skd <= 99 && 0 <= skr <= 99
    requires dd != dr && dd !in {dc.divxyz, dc.tenptr, dc.sqtemp} && dr !in {dc.divxyz, dc.tenptr, dc.sqtemp}
    requires dd.Valid() && Normal(dd.Digits()) && dr.Valid() && Normal(dr.Digits()) && dr.Digits() != []
    modifies dc`rem, dc`stack, dd, dc.divxyz, dc.tenptr`rd, dr`rd
    ensures dc.Valid() && dc.stack == old(dc.stack)
    ensures fresh(q) && q.Valid() && Normal(q.Digits()) && Val(dr.Digits()) != 0
    ensures Val(q.Digits()) == Decimals(Val(old(dd.Digits())), skd, Val(dr.Digits()), skr, dc.k)
  {
    hide Val, Power, Times, Quotient, Remainder, Normal, Decimals;
    ghost var a, b := Val(dd.Digits()), Val(dr.Digits());
    NormalSign(dr.Digits());
    var c := dc.k - skd + skr;
    var r := Rescale(dc, dd, c);
    q := dc.Div(r, dr);
    if c >= 0 {
      PadDecimals(a, skd, b, skr, dc.k, c);
    } else {
      CutDecimals(a, skd, b, skr, dc.k, -c);
    }
  }

  /** Takes the scale off a number. */
  method TakeScale(b: Blk) returns (sc: Cell)
    requires Number(b)
    modifies b
    ensures b.Valid() && b.Digits() == Whole(old(b.Digits())) && sc == Scale(old(b.Digits()))
    ensures b.rd == |b.Digits()|
  {
    b.Fsfile();
    sc := b.Sunputc();
  }

  /** The test dscale makes for zero. */
  method IsZero(b: Blk) returns (zero: bool)
    requires b.Valid() && b.rd == |b.Digits()| && Normal(b.Digits())
    modifies b`rd
    ensures zero <==> b.Digits() == []
  {
    zero := b.Sfbeg();
    if !zero {
      var c := b.Sbackc();
      zero := c == 0;
    }
  }

  /** What the / command leaves for dividend digits a and divisor digits b. */
  twostate predicate Divided(k: int, dd: Blk, dr: Blk, new q: Blk)
    requires old(dd.Valid() && dr.Valid() && dd.Digits() != [] && dr.Digits() != [])
    reads dd, dr, q
  {
    var a, b := old(dd.Digits()), old(dr.Digits());
    if Whole(b) == [] then q == dr && Number(dr) && dr.Digits() == b
    else if Whole(a) == [] then q == dd && Number(dd) && dd.Digits() == a
    else
      && fresh(q) && Number(q) && Scale(q.Digits()) == k
      && Val(Whole(b)) != 0 && 0 <= Scale(a) && 0 <= Scale(b) && 0 <= k
      && Val(Whole(q.Digits())) == Decimals(Val(Whole(a)), Scale(a), Val(Whole(b)), Scale(b), k)
  }

  /** The / command once its operands are popped. A zero divisor is answered with the
      divisor itself, the dividend being lost; a zero dividend with the dividend. */
  method SlashPair(dc: Dc, dd: Blk, dr: Blk) returns (q: Blk)
    requires dc.Valid() && 0 <= dc.k <= 99 && Operands(dc, dd, dr)
    modifies dc`rem, dc`stack, dc.divxyz, dc.tenptr`rd, dd, dr
    ensures dc.Valid() && dc.stack == old(dc.stack)
    ensures Divided(dc.k, dd, dr, q)
  {
    hide Val, Power, Times, Quotient, Remainder, Normal, Decimals, Plain, Signed;
    var skd := TakeScale(dd);
    var skr := TakeScale(dr);
    var zero := IsZero(dr);
    if zero {
      dr.Sputc(skr);
      return dr;
    }
    zero := IsZero(dd);
    if zero {
      dd.Sputc(skd);
      return dd;
    }
    q := Quotients(dc, dd, dr, skd, skr);
    q.Sputc(dc.k);
  }

  /** The / command on the stack; with fewer than two entries it changes nothing. */
  method Slash(dc: Dc)
    requires dc.Valid() && 0 <= dc.k <= 99 && |dc.stack| <= STKSZ
    requires var n := |dc.stack|; n >= 2 ==> Operands(dc, dc.stack[n - 2], dc.stack[n - 1])
    modifies dc`rem, dc`stack, dc.divxyz, dc.tenptr`rd
    modifies if |dc.stack| >= 2 then {dc.stack[|dc.stack| - 2], dc.stack[|dc.stack| - 1]} else {}
    ensures dc.Valid()
    ensures |old(dc.stack)| < 2 ==> dc.stack == old(dc.stack)
    ensures |old(dc.stack)| >= 2 ==>
      var n := |old(dc.stack)|;
      && |dc.stack| == n - 1 && dc.stack[..n - 2] == old(dc.stack[..n - 2])
      && Divided(dc.k, old(dc.stack[n - 2]), old(dc.stack[n - 1]), dc.stack[n - 2])
  {
    hide Val, Normal, Decimals;
    ghost var st := dc.stack;
    var dr := dc.Pop();
    if dr == null {
      return;
    }
    var dd := dc.Pop();
    if dd == null {
      dc.Pushp(dr);
      assert dc.stack == st;
      return;
    }
    var q := SlashPair(dc, dd, dr);
    dc.Pushp(q);
  }

  /** What the square root command gets before it: nothing, a number, or a negative one. */
  method RootOf(dc: Dc, p: Blk, savk: int) returns (r: Blk, scale: int)
    requires dc.Valid() && 0 <= dc.k <= 99 && 0 <= savk <= 99
    requires p !in {dc.divxyz, dc.tenptr, dc.sqtemp} && p.Valid() && Normal(p.Digits()) && Plain(p.Digits())
      && p.Digits() != []
    modifies dc`rem, dc`stack, p`rd, dc.divxyz, dc.tenptr`rd, dc.sqtemp`rd
    ensures dc.Valid() && dc.stack == old(dc.stack)
    ensures scale == if dc.k < savk then savk else dc.k
    ensures fresh(r) && r.Valid() && Normal(r.Digits())
    ensures IsRoot(Val(r.Digits()), Times(Val(p.Digits()), Power(10, 2 * scale - savk)))
  {
    hide Val, Power, Times, Normal, Plain, IsRoot;
    var n := savk;
    scale := savk;
    if dc.k >= savk {
      n := dc.k * 2 - savk;
      scale := dc.k;
    }
    NormalParts(p.Digits());
    var arg1 := Add0(dc, p, n);
    r := DcSqrt(dc, arg1);
  }

  /** What v puts back for p: nothing for a negative number, p itself for zero, else the root. */
  method RootEntry(dc: Dc, p: Blk) returns (r: Blk?)
    requires dc.Valid() && 0 <= dc.k <= 99 && Number(p) && p !in {dc.divxyz, dc.tenptr, dc.sqtemp}
    modifies dc`rem, dc`stack, p, dc.divxyz, dc.tenptr`rd, dc.sqtemp`rd
    ensures dc.Valid() && dc.stack == old(dc.stack)
    ensures var a := old(p.Digits());
      var scale := if dc.k < Scale(a) then Scale(a) else dc.k;
      && (Val(Whole(a)) < 0 ==> r == null)
      && (Val(Whole(a)) == 0 ==> r == p && Number(p) && p.Digits() == a)
      && (Val(Whole(a)) > 0 ==>
            && r != null && fresh(r) && Number(r) && Scale(r.Digits()) == scale
            && IsRoot(Val(Whole(r.Digits())), Times(Val(Whole(a)), Power(10, 2 * scale - Scale(a)))))
  {
    hide Val, Power, Times, Normal, IsRoot, Plain, Signed;
    r := null;
    var savk := TakeScale(p);
    NormalSign(p.Digits());
    if p.Length() == 0 {
      p.Sputc(savk);
      return p;
    }
    var c := p.Sbackc();
    NormalTop(p.Digits());
    if c < 0 {
      return;
    }
    NormalNonnegative(p.Digits());
    var scale;
    r, scale := RootOf(dc, p, savk);
    r.Sputc(scale);
  }

  /** The v command. A negative number is dropped with an error; zero stays as it is. */
  method Root(dc: Dc)
    requires dc.Valid() && 0 <= dc.k <= 99 && |dc.stack| <= STKSZ
    requires |dc.stack| >= 1 ==>
      var p := dc.stack[|dc.stack| - 1]; Number(p) && p !in {dc.divxyz, dc.tenptr, dc.sqtemp}
    modifies dc`rem, dc`stack, dc.divxyz, dc.tenptr`rd, dc.sqtemp`rd
    modifies if |dc.stack| >= 1 then {dc.stack[|dc.stack| - 1]} else {}
    ensures dc.Valid()
    ensures |old(dc.stack)| == 0 ==> dc.stack == old(dc.stack)
    ensures |old(dc.stack)| >= 1 ==>
      var n := |old(dc.stack)|; var p := old(dc.stack[n - 1]); var a := old(p.Digits());
      var scale := if dc.k < Scale(a) then Scale(a) else dc.k;
      && (Val(Whole(a)) < 0 ==> dc.stack == old(dc.stack)[..n - 1])
      && (Val(Whole(a)) == 0 ==> dc.stack == old(dc.stack) && Number(p) && p.Digits() == a)
      && (Val(Whole(a)) > 0 ==>
            && |dc.stack| == n && dc.stack[..n - 1] == old(dc.stack[..n - 1])
            && var r := dc.stack[n - 1];
            && fresh(r) && Number(r) && Scale(r.Digits()) == scale
            && IsRoot(Val(Whole(r.Digits())), Times(Val(Whole(a)), Power(10, 2 * scale - Scale(a)))))
  {
    hide Val, Power, Times, IsRoot, Number, Whole, Scale;
    ghost var st := dc.stack;
    var p := dc.Pop();
    if p == null {
      return;
    }
    var r := RootEntry(dc, p);
    if r != null {
      dc.Pushp(r);
    }
    assert st[..|st| - 1] + [p] == st;
  }
}
