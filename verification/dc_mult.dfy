/** Schoolbook multiplication of dc numbers. */
module Multiplication {
  import opened Radix
  import opened Blocks
  import opened Addition
  import Arith

  /** What a row adds: v times the digit cq, moved up offset places. */
  function RowValue(offset: nat, cq: int, v: int): int {
    Pow(offset) * (cq * v)
  }

  lemma RowValueStep(offset: nat, cq: int, v: int, d: int, i: nat)
    ensures RowValue(offset, cq, v + Weight(d, i)) == RowValue(offset, cq, v) + Weight(d * cq, offset + i)
  {
    hide Pow;
    WeightShift(d * cq, offset, i);
    RowAlgebra(Pow(offset), cq, v, d, Pow(i));
  }

  lemma RowAlgebra(p: int, cq: int, v: int, d: int, w: int)
    ensures p * (cq * (v + d * w)) == p * (cq * v) + p * ((d * cq) * w)
  {
    assert cq * (v + d * w) == cq * v + cq * (d * w);
    assert cq * (d * w) == (d * cq) * w;
  }

  lemma TimesStep(a: int, b: int, d: int, j: nat)
    ensures Times(a, b + Weight(d, j)) == Times(a, b) + RowValue(j, d, a)
  {
    hide Pow;
    TimesAlgebra(a, b, d, Pow(j));
  }

  lemma TimesAlgebra(a: int, b: int, d: int, w: int)
    ensures a * (b + d * w) == a * b + w * (d * a)
  {
    assert a * (d * w) == w * (d * a);
  }

  lemma RowValueZero(offset: nat, cq: int)
    ensures RowValue(offset, cq, 0) == 0 && Val([]) == 0
  {
  }

  lemma TimesZero(a: int)
    ensures Times(a, 0) == 0 && Times(0, a) == 0
  {
  }

  lemma {:induction false} OverwriteVal(s: seq<Cell>, k: nat, c: Cell)
    requires k <= |s|
    ensures Val(Overwrite(s, k, c)) == Val(s) + Weight(c - At(s, k), k)
    decreases |s|
  {
    hide Val, Weight, Pow;
    if k == |s| {
      ValSnoc(s, c);
    } else if k == |s| - 1 {
      var t, d := SplitTop(s);
      var u, e := SplitTop(s[k := c]);
      assert u == t;
      WeightSum(d, c - d, k);
    } else {
      var t := s[..|s| - 1];
      var t', d := SplitTop(s);
      var u, e := SplitTop(s[k := c]);
      assert u == t[k := c];
      OverwriteVal(t, k, c);
    }
  }

  /** One digit of a row: the largest carry is 99, so the product always fits. */
  lemma RowDigit(cp: int, cq: int, carry: int, mcr: int)
    requires 0 <= cp <= 99 && 0 <= cq <= 99 && 0 <= carry <= 99 && 0 <= mcr <= 99
    ensures 0 <= (cp * cq + carry + mcr) / 100 <= 99
    ensures 0 <= (cp * cq + carry + mcr) % 100 <= 99
  {
    assert 0 <= cp * cq <= 99 * 99;
  }

  lemma {:induction false} RowStep(a: seq<int>, mp: seq<int>, r: seq<Cell>, offset: nat, cq: int, i: nat, carry: int,
      c: Cell, carry': int)
    requires i < |mp| && offset + i <= |r|
    requires Val(r) + Weight(carry, offset + i) == Val(a) + RowValue(offset, cq, Val(mp[..i]))
    requires c + 100 * carry' == mp[i] * cq + carry + At(r, offset + i)
    ensures Val(Overwrite(r, offset + i, c)) + Weight(carry', offset + i + 1)
         == Val(a) + RowValue(offset, cq, Val(mp[..i + 1]))
  {
    hide Val, Weight, Pow, RowValue, At;
    var k := offset + i;
    OverwriteVal(r, k, c);
    ValPrefix(mp, i);
    RowValueStep(offset, cq, Val(mp[..i]), mp[i], i);
    WeightUp(carry', k);
    WeightSum(c - At(r, k), 100 * carry', k);
    WeightSum(mp[i] * cq, carry, k);
  }

  /** Adds cq times mp to mr, offset places up; the last carry lands on a fresh cell. */
  method Row(mp: Blk, mr: Blk, cq: int, offset: nat)
    requires mp != mr && mp.Valid() && mr.Valid() && Plain(mp.Digits()) && Plain(mr.Digits())
    requires 0 <= cq <= 99 && mr.rd == offset <= |mr.Digits()| <= offset + |mp.Digits()|
    requires mp.Digits() != []
    modifies mp`rd, mr
    ensures mr.Valid() && Plain(mr.Digits())
    ensures Val(mr.Digits()) == Val(old(mr.Digits())) + RowValue(offset, cq, Val(mp.Digits()))
    ensures
      || |mr.Digits()| == offset + |mp.Digits()|
      || (|mr.Digits()| == offset + |mp.Digits()| + 1 && mr.Digits()[|mr.Digits()| - 1] != 0)
  {
    hide Val, Weight, Pow, RowValue;
    ghost var a: seq<int>, m: seq<int> := mr.Digits(), mp.Digits();
    var carry := 0;
    mp.Rewind();
    RowValueZero(offset, cq);
    WeightUnits(offset);
    while !mp.Sfeof()
      invariant mp.Valid() && mp.Digits() == m && mp.rd <= |m|
      invariant mr.Valid() && Plain(mr.Digits()) && mr.rd == offset + mp.rd
      invariant |mr.Digits()| == if mr.rd > |a| then mr.rd else |a|
      invariant 0 <= carry <= 99
      invariant Val(mr.Digits()) + Weight(carry, mr.rd) == Val(a) + RowValue(offset, cq, Val(m[..mp.rd]))
      decreases |m| - mp.rd
    {
      ghost var r, i := mr.Digits(), mp.rd;
      var cp := mp.Sgetc();
      var mcr := if mr.Sfeof() then 0 else mr.Slookc();
      var mt := cp * cq + carry + mcr;
      RowDigit(cp, cq, carry, mcr);
      RowStep(a, m, r, offset, cq, i, carry, mt % 100, mt / 100);
      carry := mt / 100;
      mr.Salterc(mt % 100);
    }
    assert m[..|m|] == m;
    assert mr.Sfeof();
    if carry != 0 {
      var mcr := 0;  // nothing under the cursor, as just asserted
      ValSnoc(mr.Digits(), carry);
      mr.Salterc(mcr + carry);
    } else {
      WeightUnits(mr.rd);
    }
  }

  /** p itself, or the negation of a copy of it when p is negative. */
  method Magnitude(p: Blk) returns (mp: Blk, negative: bool)
    requires p.Valid() && Signed(p.Digits())
    modifies p`rd
    ensures if negative then fresh(mp) else mp == p
    ensures mp.Valid() && Plain(mp.Digits()) && (Normal(p.Digits()) ==> Normal(mp.Digits()))
    ensures negative <==> Val(p.Digits()) < 0
    ensures Val(mp.Digits()) == if negative then -Val(p.Digits()) else Val(p.Digits())
    ensures mp.Digits() == [] <==> p.Digits() == []
  {
    hide Val, Weight, Pow, Normal;
    p.Fsfile();
    mp, negative := p, false;
    if !p.Sfbeg() {
      SignedBounds(p.Digits());
      var c := p.Sbackc();
      if c < 0 {
        mp := new Blk.Copy(p);
        Arith.ChSign(mp);
        negative := true;
        if mp.Digits() != [] {
          SignedBounds(mp.Digits());
        }
      } else {
        PlainBounds(p.Digits());
      }
    }
    if mp.Digits() == [] || p.Digits() == [] {
      Nothing();
    }
  }

  lemma Nothing()
    ensures Val([]) == 0
  {
  }

  /** A plain string as large as its length allows has a nonzero top digit. */
  lemma {:induction false} TopByValue(s: seq<int>)
    requires Plain(s) && s != [] && Val(s) >= Pow(|s| - 1)
    ensures Normal(s)
  {
    hide Val, Weight, Pow;
    var t, d := SplitTop(s);
    PlainBounds(t);
    WeightUnits(|t|);
  }

  lemma PowProduct(a: int, b: int, m: nat, n: nat)
    requires a >= Pow(m) && b >= Pow(n)
    ensures Times(a, b) >= Pow(m + n)
  {
    hide Pow;
    PowAdd(m, n);
    ProductMono(Pow(m), a, Pow(n), b);
  }

  lemma ProductMono(x: int, a: int, y: int, b: int)
    requires 0 <= x <= a && 0 <= y <= b
    ensures x * y <= a * b
  {
    assert x * y <= a * y;
    assert a * y <= a * b;
  }

  /** The product of two plain numbers, row by row. */
  method Rows(mp: Blk, mq: Blk) returns (mr: Blk)
    requires mp != mq && mp.Valid() && mq.Valid() && Plain(mp.Digits()) && Plain(mq.Digits())
    modifies mp`rd, mq`rd
    ensures fresh(mr) && mr.Valid() && Plain(mr.Digits())
    ensures Val(mr.Digits()) == Times(Val(mp.Digits()), Val(mq.Digits()))
    ensures |mp.Digits()| == 0 || |mq.Digits()| == 0 ==> mr.Digits() == []
    ensures |mp.Digits()| > 0 && |mq.Digits()| > 0 ==>
              var n := |mp.Digits()| + |mq.Digits()|; n - 1 <= |mr.Digits()| <= n
    ensures |mp.Digits()| > 0 && |mq.Digits()| > 0 && |mr.Digits()| == |mp.Digits()| + |mq.Digits()| ==>
              mr.Digits()[|mr.Digits()| - 1] != 0
  {
    hide Val, Weight, Pow, Times, RowValue;
    ghost var m: seq<int>, n: seq<int> := mp.Digits(), mq.Digits();
    var offset := 0;
    mr := new Blk.Salloc(mp.Length() + mq.Length());
    mr.Zero();
    mq.Rewind();
    Nothing();
    TimesZero(Val(m));
    while !mq.Sfeof()
      invariant fresh(mr) && mr.Valid() && Plain(mr.Digits())
      invariant mp.Valid() && mq.Valid() && mp.Digits() == m && mq.Digits() == n
      invariant mq.rd == offset <= |n|
      invariant m == [] || offset == 0 ==> mr.Digits() == []
      invariant m != [] && offset > 0 ==>
          || |mr.Digits()| == |m| + offset - 1
          || (|mr.Digits()| == |m| + offset && mr.Digits()[|mr.Digits()| - 1] != 0)
      invariant Val(mr.Digits()) == Times(Val(m), Val(n[..offset]))
      decreases |n| - mq.rd
    {
      var cq := mq.Sgetc();
      ValPrefix(n, offset);
      TimesStep(Val(m), Val(n[..offset]), cq, offset);
      mr.Rewind();
      mr.rd := mr.rd + offset;
      if mp.Length() == 0 {  // a row of no digits; mr's cursor may be past its end
        TimesZero(Val(n[..offset]));
        TimesZero(Val(n[..offset + 1]));
        mp.Rewind();
      } else {
        Row(mp, mr, cq, offset);
      }
      offset := offset + 1;
    }
    assert n[..|n|] == n;
  }

  /** The exact signed product. */
  method Mult(p: Blk, q: Blk) returns (mr: Blk)
    requires p != q && p.Valid() && q.Valid() && Signed(p.Digits()) && Signed(q.Digits())
    modifies p`rd, q`rd
    ensures fresh(mr) && mr.Valid() && Signed(mr.Digits())
    ensures Val(mr.Digits()) == Val(p.Digits()) * Val(q.Digits())
    ensures Normal(p.Digits()) && Normal(q.Digits()) ==> Normal(mr.Digits())
  {
    hide Val, Weight, Pow, Times, Normal;
    var mp, np := Magnitude(p);
    var mq, nq := Magnitude(q);
    mr := Rows(mp, mq);
    if Normal(p.Digits()) && Normal(q.Digits()) {
      RowsNormal(mp.Digits(), mq.Digits(), mr.Digits());
    }
    SignRule(Val(p.Digits()), Val(q.Digits()));
    SignRule(-Val(p.Digits()), Val(q.Digits()));
    if np != nq {
      Arith.ChSign(mr);
    }
  }

  lemma SignRule(a: int, b: int)
    ensures Times(a, b) == a * b == Times(-a, -b)
    ensures Times(-a, b) == -(a * b) == Times(a, -b)
  {
  }

  lemma {:induction false} RowsNormal(m: seq<int>, n: seq<int>, r: seq<int>)
    requires Normal(m) && Normal(n) && Plain(m) && Plain(n) && Plain(r)
    requires Val(r) == Times(Val(m), Val(n))
    requires m == [] || n == [] ==> r == []
    requires m != [] && n != [] ==>
      || |r| == |m| + |n| - 1
      || (|r| == |m| + |n| && r[|r| - 1] != 0)
    ensures Normal(r)
  {
    hide Val, Weight, Pow, Times;
    if m != [] && n != [] && |r| == |m| + |n| - 1 {
      SignedBounds(m);
      SignedBounds(n);
      PowProduct(Val(m), Val(n), |m| - 1, |n| - 1);
      TopByValue(r);
    }
  }
}
