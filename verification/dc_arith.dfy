/** Negation, addition and multiplication of dc numbers. */
module Arith {
  import opened Radix
  import opened Blocks

  // ----- negation

  /** The borrow into digit i when s is subtracted from zero. */
  function Borrow(s: seq<int>, i: nat): (b: int)
    requires i <= |s|
    ensures 0 <= b <= 1
  {
    if i == 0 || 100 - s[i - 1] - Borrow(s, i - 1) >= 100 then 0 else 1
  }

  /** Digit i of zero minus s. */
  function Hundreds(s: seq<int>, i: nat): int
    requires i < |s|
  {
    100 - s[i] - Borrow(s, i) - 100 * (1 - Borrow(s, i + 1))
  }

  lemma {:induction false} BorrowMeans(s: seq<int>, i: nat)
    requires Signed(s) && i < |s|
    ensures Borrow(s, i) == 0 <==> forall j :: 0 <= j < i ==> s[j] == 0
    ensures 0 <= Hundreds(s, i) <= 99
  {
    if i > 0 {
      BorrowMeans(s, i - 1);
    }
  }

  lemma {:induction false} NegationValue(s: seq<int>, t: seq<int>, i: nat)
    requires i <= |s| == |t| && forall j :: 0 <= j < i ==> t[j] == Hundreds(s, j)
    ensures Val(t[..i]) + Val(s[..i]) == Weight(Borrow(s, i), i)
  {
    hide Weight, Pow;
    if i > 0 {
      NegationValue(s, t, i - 1);
      ValPrefix(s, i - 1);
      ValPrefix(t, i - 1);
      var b, b' := Borrow(s, i - 1), Borrow(s, i);
      assert t[i - 1] + s[i - 1] + b == 100 * b';
      WeightSum(t[i - 1], s[i - 1], i - 1);
      WeightSum(t[i - 1] + s[i - 1], b, i - 1);
      WeightUp(b', i - 1);
    } else {
      WeightUnits(0);
    }
  }

  /** What is left of the complement t once the final borrow is known. */
  function Close(t: seq<int>, borrow: int): seq<int> {
    if borrow != 0 then
      if t != [] && t[|t| - 1] == 99 then t[..|t| - 1] + [-1] else t + [-1]
    else
      if t != [] && t[|t| - 1] == 0 then t[..|t| - 1] else t
  }

  lemma {:induction false} CloseValue(s: seq<int>, t: seq<int>)
    requires Signed(s) && |s| == |t| && forall j :: 0 <= j < |s| ==> t[j] == Hundreds(s, j)
    ensures Val(Close(t, Borrow(s, |s|))) == -Val(s)
  {
    hide Val, Weight, Pow, Signed, Hundreds;
    NegationValue(s, t, |s|);
    assert t[..|t|] == t && s[..|s|] == s;
    WeightUnits(|t|);
    if t != [] {
      var x := t[..|t| - 1];
      if Borrow(s, |s|) != 0 {
        ValSnoc(t, -1);
        if t[|t| - 1] == 99 {
          FoldNines(x);
          assert t + [-1] == x + [99, -1];
        }
      } else if t[|t| - 1] == 0 {
        TopZero(x);
        assert t == x + [0];
      }
    }
  }

  lemma {:induction false} CloseNormal(s: seq<int>, t: seq<int>)
    requires Signed(s) && |s| == |t| && forall j :: 0 <= j < |s| ==> t[j] == Hundreds(s, j)
    ensures Signed(Close(t, Borrow(s, |s|)))
    ensures Normal(s) ==> Normal(Close(t, Borrow(s, |s|)))
  {
    forall i | 0 <= i < |s| ensures 0 <= t[i] <= 99 {
      BorrowMeans(s, i);
    }
    if |s| > 0 {
      BorrowMeans(s, |s| - 1);
    }
    if |s| > 1 {
      BorrowMeans(s, |s| - 2);
      assert t[|s| - 2] == Hundreds(s, |s| - 2);
    }
  }

  lemma {:induction false} CellRange(s: seq<int>, i: nat)
    requires Signed(s) && i < |s|
    ensures -1 <= s[i] <= 99
    ensures 0 <= Hundreds(s, i) <= 99
    ensures Borrow(s, 0) == 0
    ensures Borrow(s, i + 1) == if 100 - s[i] - Borrow(s, i) >= 100 then 0 else 1
    ensures Hundreds(s, i) == 100 - s[i] - Borrow(s, i) - 100 * (1 - Borrow(s, i + 1))
  {
    BorrowMeans(s, i);
  }

  /** Negates p in place. */
  method ChSign(p: Blk)
    requires p.Valid() && Signed(p.Digits())
    modifies p
    ensures p.Valid() && Signed(p.Digits())
    ensures Val(p.Digits()) == -Val(old(p.Digits()))
    ensures Normal(old(p.Digits())) ==> Normal(p.Digits())
  {
    hide Val, Weight, Pow, Signed, Normal, Hundreds;
    ghost var s: seq<int> := p.Digits();
    var carry := 0;
    p.Rewind();
    while !p.Sfeof()
      invariant p.Valid() && |p.Digits()| == |s| && p.rd <= |s|
      invariant forall i :: p.rd <= i < |s| ==> p.Digits()[i] == s[i]
      invariant forall i :: 0 <= i < p.rd ==> p.Digits()[i] == Hundreds(s, i)
      invariant carry == Borrow(s, p.rd)
      decreases |s| - p.rd
    {
      CellRange(s, p.rd);
      var ct: Cell := 100 - p.Slookc() - carry;
      carry := 1;
      if ct >= 100 {
        ct := ct - 100;
        carry := 0;
      }
      p.Salterc(ct);
    }
    ghost var t: seq<int> := p.Digits();
    CloseValue(s, t);
    CloseNormal(s, t);
    ghost var r := Close(t, carry);
    if carry != 0 {
      p.Sputc(-1);
      p.Fsfile();
      p.Backc();
      var ct := p.Sbackc();
      if ct == 99 {
        p.Truncate();
        p.Sputc(-1);
      }
      assert p.Digits() == r;
    } else {
      p.Fsfile();
      var ct := p.Sbackc();
      if ct == 0 {
        p.Truncate();
      }
      assert p.Digits() == r;
    }
  }
}
