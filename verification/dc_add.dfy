/** Addition of dc numbers, and the normal form it leaves them in. */
module Addition {
  import opened Radix
  import opened Blocks

  /** Every cell lies in -1..99, the only values dc arithmetic leaves in a number. */
  predicate Cells(s: seq<int>) {
    forall i :: 0 <= i < |s| ==> -1 <= s[i] <= 99
  }

  /** Digit i of s, zero beyond its end. */
  function At(s: seq<int>, i: nat): int {
    if i < |s| then s[i] else 0
  }

  function Take(s: seq<int>, i: nat): seq<int> {
    if i < |s| then s[..i] else s
  }

  lemma {:induction false} TakeStep(s: seq<int>, i: nat)
    ensures Val(Take(s, i + 1)) == Val(Take(s, i)) + Weight(At(s, i), i)
  {
    hide Val, Weight, Pow;
    if i < |s| {
      ValPrefix(s, i);
      assert Take(s, i + 1) == s[..i + 1];
    } else {
      WeightUnits(i);
    }
  }

  /** s without the zeros on top. */
  function Strip(s: seq<int>): (r: seq<int>)
    ensures |r| <= |s| && r == s[..|r|]
    ensures r != [] ==> r[|r| - 1] != 0
    ensures |r| < |s| ==> s[|r|] == 0
  {
    if s != [] && s[|s| - 1] == 0 then Strip(s[..|s| - 1]) else s
  }

  lemma {:induction false} StripVal(s: seq<int>)
    ensures Val(Strip(s)) == Val(s)
  {
    hide Val, Weight, Pow;
    if s != [] && s[|s| - 1] == 0 {
      StripVal(s[..|s| - 1]);
      TopZero(s[..|s| - 1]);
      assert s == s[..|s| - 1] + [0];
    }
  }

  /** The top of a sum: zeros dropped, the way add does it. */
  method DropZeros(p: Blk)
    requires p.Valid()
    modifies p
    ensures p.Valid() && p.Digits() == Strip(old(p.Digits()))
  {
    ghost var s: seq<int> := p.Digits();
    p.Fsfile();
    if !p.Sfbeg() {
      var c: Cell := 0;
      assert s[..|s|] == s;
      while !p.Sfbeg() && c == 0
        invariant p.Valid() && p.Digits() == s && p.rd <= |s|
        invariant c == 0 ==> Strip(s[..p.rd]) == Strip(s)
        invariant c != 0 ==> p.rd < |s| && s[p.rd] == c && Strip(s) == s[..p.rd + 1]
        decreases p.rd, c == 0
      {
        ghost var r := p.rd;
        c := p.Sbackc();
        assert s[..r][..r - 1] == s[..p.rd];
      }
      if c != 0 {
        p.Salterc(c);
      }
      p.Truncate();
    }
  }

  lemma {:induction false} FoldLast(x: seq<int>, y: seq<int>)
    requires x == y + [99]
    ensures Val(x + [-1]) == Val(y + [-1])
  {
    hide Val, Weight, Pow;
    FoldNines(y);
    assert x + [-1] == y + [99, -1];
  }

  /** Folds the 99s under a top -1 into it. */
  method FoldTop(p: Blk)
    requires p.Valid() && Signed(p.Digits()) && |p.Digits()| >= 2
    requires p.Digits()[|p.Digits()| - 1] == -1 && p.rd == |p.Digits()| - 1
    modifies p
    ensures p.Valid() && Normal(p.Digits()) && Val(p.Digits()) == Val(old(p.Digits()))
  {
    hide Val, Weight, Pow;
    ghost var s: seq<int> := p.Digits();
    ghost var r := p.rd;
    assert s == s[..r] + [-1];
    var c := p.Sbackc();
    while c == 99
      invariant p.Valid() && p.Digits() == s && 0 <= r < |s|
      invariant if r == 0 then c == -1 && p.rd == 0 else p.rd == r - 1 && s[r - 1] == c
      invariant r < |s| - 1 ==> s[r] == 99
      invariant Val(s[..r] + [-1]) == Val(s)
      decreases r
    {
      assert s[..r] == s[..r - 1] + [99];
      FoldLast(s[..r], s[..r - 1]);
      r := r - 1;
      c := p.Sbackc();
    }
    ghost var k := if r == 0 then 1 else r;
    if r == 0 {
      assert s[..1] == s[..0] + [99];
      FoldLast(s[..1], s[..0]);
    }
    p.Skipc();
    p.Salterc(-1);
    p.Truncate();
    assert p.Digits() == s[..k] + [-1];
    assert p.Digits()[..k] == s[..k];
  }

  lemma {:induction false} AddStep(a: seq<int>, b: seq<int>, r: seq<int>, carry: int, n: int, carry': int)
    requires Val(r) + Weight(carry, |r|) == Val(Take(a, |r|)) + Val(Take(b, |r|))
    requires n + 100 * carry' == At(a, |r|) + At(b, |r|) + carry
    ensures Val(r + [n]) + Weight(carry', |r| + 1) == Val(Take(a, |r| + 1)) + Val(Take(b, |r| + 1))
  {
    hide Val, Weight, Pow, At, Take;
    var i := |r|;
    TakeStep(a, i);
    TakeStep(b, i);
    ValSnoc(r, n);
    WeightUp(carry', i);
    WeightSum(n, 100 * carry', i);
    WeightSum(At(a, i), At(b, i), i);
    WeightSum(At(a, i) + At(b, i), carry, i);
  }

  /** Where a cursor stands after i digits have been asked for. */
  function Cursor(len: nat, i: nat): nat {
    if i < len then i else len
  }

  /** The next digit of b, zero once b is used up. */
  method Fetch(b: Blk, ghost i: nat) returns (n: int)
    requires b.Valid() && b.rd == Cursor(|b.Digits()|, i)
    modifies b`rd
    ensures b.rd == Cursor(|b.Digits()|, i + 1) && n == At(b.Digits(), i)
  {
    n := 0;
    if !b.Sfeof() {
      n := b.Sgetc();
    }
  }

  function CarryOut(n: int): int {
    if n >= 100 then 1 else if n < 0 then -1 else 0
  }

  lemma {:induction false} AtRange(s: seq<int>, i: nat)
    requires Cells(s)
    ensures -1 <= At(s, i) <= 99
  {
  }

  lemma {:induction false} Empty(a: seq<int>, b: seq<int>)
    ensures Val([]) == 0 && Weight(0, 0) == 0
    ensures Val(Take(a, 0)) == 0 && Val(Take(b, 0)) == 0
  {
  }

  /** The digits of a1 + a2 with the last carry on top. */
  method Column(a1: Blk, a2: Blk) returns (p: Blk)
    requires a1 != a2 && a1.Valid() && a2.Valid()
    requires Cells(a1.Digits()) && Cells(a2.Digits())
    modifies a1`rd, a2`rd
    ensures fresh(p) && p.Valid() && Signed(p.Digits())
    ensures Val(p.Digits()) == Val(a1.Digits()) + Val(a2.Digits())
    ensures |p.Digits()| > 0 && p.Digits()[|p.Digits()| - 1] == -1 ==> |p.Digits()| >= 2
  {
    hide Val, Weight, Pow, At, Take, Cells;
    ghost var a: seq<int>, b: seq<int> := a1.Digits(), a2.Digits();
    var size: int := if a1.Length() > a2.Length() then a1.Length() else a2.Length();
    ghost var total := size;
    p := new Blk.Salloc(size);
    a1.Rewind();
    a2.Rewind();
    var carry := 0;
    Empty(a, b);
    size := size - 1;
    while size >= 0
      invariant fresh(p) && p.Valid() && Plain(p.Digits())
      invariant |p.Digits()| == total - size - 1 && -1 <= size
      invariant a1.rd == Cursor(|a|, |p.Digits()|)
      invariant a2.rd == Cursor(|b|, |p.Digits()|)
      invariant -1 <= carry <= 1 && (|p.Digits()| == 0 ==> carry == 0)
      invariant Val(p.Digits()) + Weight(carry, |p.Digits()|)
             == Val(Take(a, |p.Digits()|)) + Val(Take(b, |p.Digits()|))
      decreases size
    {
      ghost var r: seq<int> := p.Digits();
      var n1 := Fetch(a1, |r|);
      var n2 := Fetch(a2, |r|);
      AtRange(a, |r|);
      AtRange(b, |r|);
      var n := n1 + n2 + carry;
      AddStep(a, b, r, carry, n - 100 * CarryOut(n), CarryOut(n));
      carry := CarryOut(n);
      n := n - 100 * carry;
      p.Sputc(n);
      size := size - 1;
    }
    TakeAll(a, total);
    TakeAll(b, total);
    PushCarry(p, carry);
  }

  lemma {:induction false} TakeAll(s: seq<int>, i: nat)
    requires i >= |s|
    ensures Take(s, i) == s
  {
  }

  method PushCarry(p: Blk, carry: int)
    requires p.Valid() && Plain(p.Digits())
    requires -1 <= carry <= 1 && (|p.Digits()| == 0 ==> carry == 0)
    modifies p
    ensures p.Valid() && Signed(p.Digits())
    ensures Val(p.Digits()) == Val(old(p.Digits())) + Weight(carry, |old(p.Digits())|)
    ensures |p.Digits()| > 0 && p.Digits()[|p.Digits()| - 1] == -1 ==> |p.Digits()| >= 2
  {
    hide Val, Weight, Pow;
    ghost var r: seq<int> := p.Digits();
    WeightUnits(|r|);
    ValSnoc(r, carry);
    if carry != 0 {
      p.Sputc(carry);
    }
  }

  /** The sum of a1 and a2, in normal form. */
  method Add(a1: Blk, a2: Blk) returns (p: Blk)
    requires a1 != a2 && a1.Valid() && a2.Valid()
    requires Cells(a1.Digits()) && Cells(a2.Digits())
    modifies a1`rd, a2`rd
    ensures fresh(p) && p.Valid() && Normal(p.Digits())
    ensures Val(p.Digits()) == Val(a1.Digits()) + Val(a2.Digits())
  {
    hide Val, Weight, Pow;
    p := Column(a1, a2);
    StripVal(p.Digits());
    DropZeros(p);
    p.Fsfile();
    if !p.Sfbeg() {
      var c := p.Sbackc();
      if c == -1 {
        FoldTop(p);
      }
    }
  }
}
