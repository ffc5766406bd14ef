/** ed's array of line handles and the commands that edit it in place. The low bit of a
    handle is the mark of the global command. */
module LineArray {

  function Mark(h: int): bool {
    h % 2 == 1
  }

  function Clear(h: int): int {
    h - h % 2
  }

  /** The entries without a mark, in order. */
  function Unmarked(s: seq<int>): (r: seq<int>)
    ensures |r| <= |s|
  {
    if s == [] then [] else Unmarked(s[..|s| - 1]) + (if Mark(s[|s| - 1]) then [] else [s[|s| - 1]])
  }

  function Marks(s: seq<int>): nat {
    if s == [] then 0 else Marks(s[..|s| - 1]) + (if Mark(s[|s| - 1]) then 1 else 0)
  }

  /** Cuts i..j out and puts it back after t, which is outside it. */
  function Moved(s: seq<int>, i: nat, j: nat, t: nat): seq<int>
    requires i <= j < |s| && t < |s| && !(i <= t <= j)
  {
    if t < i then s[..t + 1] + s[i..j + 1] + s[t + 1..i] + s[j + 1..]
    else s[..i] + s[j + 1..t + 1] + s[i..j + 1] + s[t + 1..]
  }

  /** Puts hs after entry t. */
  function Inserted(s: seq<int>, t: nat, hs: seq<int>): seq<int>
    requires t < |s|
  {
    s[..t + 1] + hs + s[t + 1..]
  }

  /** Removes i..j. */
  function Removed(s: seq<int>, i: nat, j: nat): seq<int>
    requires i <= j < |s|
  {
    s[..i] + s[j + 1..]
  }

  /** The number of entries that stay before the last marked one. */
  function LastGone(s: seq<int>): nat
    requires Marks(s) > 0
  {
    var n := |s| - 1;
    if Mark(s[n]) then |Unmarked(s[..n])| else LastGone(s[..n])
  }

  function Least(a: int, b: int): int {
    if a < b then a else b
  }

  /** Dot after the marked lines of s have been deleted one at a time. */
  function SlowDot(s: seq<int>, dot: int): int {
    if Marks(s) == 0 then dot else Least(LastGone(s), |Unmarked(s)| - 1)
  }

  /** Dot after gdelete, which moves it for the second marked entry and those after it. */
  function FastDot(s: seq<int>, dot: int): int {
    if Marks(s) == 0 then dot else Least(if Marks(s) == 1 then dot else LastGone(s), |Unmarked(s)| - 1)
  }

  // ----- laws

  lemma {:induction false} MarksConcat(a: seq<int>, b: seq<int>)
    ensures Marks(a + b) == Marks(a) + Marks(b)
    decreases |b|
  {
    if b == [] {
      assert a + b == a;
    } else {
      MarksConcat(a, b[..|b| - 1]);
      assert (a + b)[..|a + b| - 1] == a + b[..|b| - 1];
    }
  }

  lemma {:induction false} UnmarkedConcat(a: seq<int>, b: seq<int>)
    ensures Unmarked(a + b) == Unmarked(a) + Unmarked(b)
    decreases |b|
  {
    if b == [] {
      assert a + b == a;
    } else {
      UnmarkedConcat(a, b[..|b| - 1]);
      assert (a + b)[..|a + b| - 1] == a + b[..|b| - 1];
    }
  }

  lemma {:induction false} UnmarkedSnoc(s: seq<int>, i: nat)
    requires i < |s|
    ensures Unmarked(s[..i + 1]) == Unmarked(s[..i]) + (if Mark(s[i]) then [] else [s[i]])
    ensures Marks(s[..i + 1]) == Marks(s[..i]) + (if Mark(s[i]) then 1 else 0)
    ensures s[..i + 1] == s[..i] + [s[i]]
  {
    assert s[..i + 1][..i] == s[..i];
  }

  lemma {:induction false} LastGoneSnoc(s: seq<int>, i: nat)
    requires i < |s| && Marks(s[..i + 1]) > 0
    ensures Mark(s[i]) || Marks(s[..i]) > 0
    ensures LastGone(s[..i + 1]) == if Mark(s[i]) then |Unmarked(s[..i])| else LastGone(s[..i])
  {
    assert s[..i + 1][..i] == s[..i];
  }

  /** p being the last marked entry. */
  lemma {:induction false} LastGoneIs(s: seq<int>, p: nat)
    requires p < |s| && Mark(s[p]) && forall k :: p < k < |s| ==> !Mark(s[k])
    ensures Marks(s) > 0 && LastGone(s) == |Unmarked(s[..p])|
  {
    if p < |s| - 1 {
      LastGoneIs(s[..|s| - 1], p);
      assert s[..|s| - 1][..p] == s[..p];
    }
  }

  /** The two ways to delete leave dot in the same place unless a single line went: then gdelete
      leaves dot alone, but for the end of the lines. */
  lemma {:induction false} DotsAgree(s: seq<int>, p: nat, dot: int)
    requires p < |s| && Mark(s[p]) && forall k :: p < k < |s| ==> !Mark(s[k])
    ensures var last, gone := |s| - Marks(s) - 1, |Unmarked(s[..p])|;
      && SlowDot(s, dot) == Least(gone, last)
      && (FastDot(s, dot) == SlowDot(s, dot) <==> Marks(s) > 1 || Least(dot, last) == Least(gone, last))
  {
    LastGoneIs(s, p);
    UnmarkedLength(s);
  }

  lemma {:induction false} UnmarkedLength(s: seq<int>)
    ensures |Unmarked(s)| + Marks(s) == |s|
  {
    if s != [] {
      UnmarkedLength(s[..|s| - 1]);
    }
  }

  lemma {:induction false} NoMarks(s: seq<int>)
    requires forall k :: 0 <= k < |s| ==> !Mark(s[k])
    ensures Marks(s) == 0 && Unmarked(s) == s
  {
    if s != [] {
      var t := s[..|s| - 1];
      NoMarks(t);
      assert s == t + [s[|s| - 1]];
    }
  }

  lemma {:induction false} SomeMark(s: seq<int>, k: nat)
    requires k < |s| && Mark(s[k])
    ensures Marks(s) > 0
  {
    if k < |s| - 1 {
      SomeMark(s[..|s| - 1], k);
    }
  }

  // ----- the editor's array

  class Lines {
    /** zero[0] is the slot before the first line. */
    var zero: array<int>
    var nlall: nat
    var dol: int
    var dot: int
    var fchange: bool
    /** The handle the last substitution stored, and the one it replaced. */
    var subnewa: int
    var subolda: int

    ghost predicate Valid()
      reads this
    {
      zero.Length == nlall + 5 && 0 <= dol <= nlall && !Mark(subolda)
    }

    /** The slot before the first line and the lines. */
    ghost function List(): seq<int>
      requires 0 <= dol + 1 <= zero.Length
      reads this, zero
    {
      zero[..dol + 1]
    }

    constructor ()
      ensures Valid() && fresh(zero) && dol == 0
    {
      nlall := 128;
      zero := new int[133];
      dol, dot, fchange := 0, 0, false;
      subnewa, subolda := 0, 0;
    }

    /** reverse: the entries from i up to, not including, j. */
    method Reverse(i: nat, j: nat)
      requires 1 <= i <= j <= zero.Length
      modifies zero
      ensures Flipped(old(zero[..]), zero[..], i, j)
    {
      var a1: int, a2: int := i, j;
      while true
        invariant i <= a1 <= a2 + 1 && a2 <= j && a1 - i == j - a2
        invariant forall k :: 0 <= k < zero.Length && !(i <= k < a1 || a2 <= k < j) ==> zero[k] == old(zero[k])
        invariant forall k :: i <= k < a1 || a2 <= k < j ==> zero[k] == old(zero[i + j - 1 - k])
        decreases a2 - a1
      {
        a2 := a2 - 1;
        var t := zero[a2];
        if a2 <= a1 {
          break;
        }
        zero[a2] := zero[a1];
        zero[a1] := t;
        a1 := a1 + 1;
      }
    }

    /** The copying loop of rdelete. */
    method CloseUp(ad1: nat, ad2: nat)
      requires 1 <= ad1 <= ad2 <= dol && dol + 1 < zero.Length
      modifies zero
      ensures forall k :: 0 <= k < ad1 ==> zero[k] == old(zero[k])
      ensures forall k :: ad1 <= k <= dol - (ad2 - ad1 + 1) ==> zero[k] == old(zero[k + (ad2 - ad1 + 1)])
    {
      var a1, a2, a3 := ad1, ad2 + 1, dol;
      ghost var gap := a2 - a1;
      // do ... while: one entry is copied before the first test
      zero[a1] := zero[a2];
      a1, a2 := a1 + 1, a2 + 1;
      while a2 <= a3
        invariant ad1 < a1 && a2 == a1 + gap && a2 <= a3 + 2
        invariant forall k :: 0 <= k < ad1 ==> zero[k] == old(zero[k])
        invariant forall k :: ad1 <= k < a1 ==> zero[k] == old(zero[k + gap])
        invariant forall k :: a1 <= k < zero.Length ==> zero[k] == old(zero[k])
      {
        zero[a1] := zero[a2];
        a1, a2 := a1 + 1, a2 + 1;
      }
    }

    /** rdelete: removes lines ad1 to ad2. */
    method Rdelete(ad1: nat, ad2: nat)
      requires Valid() && 1 <= ad1 <= ad2 <= dol
      modifies this`dol, this`dot, this`fchange, zero
      ensures Valid() && List() == Removed(old(List()), ad1, ad2)
      ensures dol == old(dol) - (ad2 - ad1 + 1) && dot == if ad1 > dol then dol else ad1
    {
      CloseUp(ad1, ad2);
      dol := dol - (ad2 + 1 - ad1);
      dot := if ad1 > dol then dol else ad1;
      fchange := true;
    }

    /** The scan of gdelete for the first marked entry. */
    method FirstMarked() returns (found: bool, a1: nat)
      requires Valid()
      ensures a1 <= dol && (found ==> Mark(zero[a1]))
      ensures found ==> Unmarked(zero[..a1 + 1]) == zero[..a1] && Marks(zero[..a1 + 1]) == 1
      ensures !found ==> Unmarked(List()) == List() && Marks(List()) == 0
    {
      hide Unmarked, Marks, Mark;
      ghost var s := List();
      a1 := 0;
      found := true;
      NoMarks(s[..0]);
      while !Mark(zero[a1])
        invariant 0 <= a1 <= dol && found
        invariant Unmarked(s[..a1]) == s[..a1] && Marks(s[..a1]) == 0
        decreases dol - a1
      {
        UnmarkedSnoc(s, a1);
        if a1 >= dol {
          assert s[..a1 + 1] == s;
          return false, a1;
        }
        a1 := a1 + 1;
      }
      UnmarkedSnoc(s, a1);
      assert s[..a1] == zero[..a1] && s[..a1 + 1] == zero[..a1 + 1];
    }

    /** The compacting loop of gdelete. */
    method Compact(start: nat) returns (a1: nat)
      requires Valid() && start <= dol && Unmarked(zero[..start + 1]) == zero[..start]
      requires Marks(zero[..start + 1]) == 1
      modifies this`dot, zero
      ensures a1 <= dol + 1 && zero[..a1] == Unmarked(old(List())) && Marks(old(List())) > 0
      ensures dot == if Marks(old(List())) == 1 then old(dot) else LastGone(old(List()))
    {
      hide Unmarked, Marks, LastGone;
      ghost var s := List();
      a1 := start;
      var a2 := a1 + 1;
      assert s[..a2] == zero[..a2];
      while a2 <= dol
        invariant 0 <= a1 < a2 <= dol + 1
        invariant zero[..a1] == Unmarked(s[..a2]) && Marks(s[..a2]) > 0
        invariant dot == if Marks(s[..a2]) == 1 then old(dot) else LastGone(s[..a2])
        invariant forall k :: a2 <= k <= dol ==> zero[k] == s[k]
        decreases dol - a2
      {
        UnmarkedSnoc(s, a2);
        LastGoneSnoc(s, a2);
        ghost var kept := zero[..a1];
        if Mark(zero[a2]) {
          a2 := a2 + 1;
          dot := a1;
        } else {
          zero[a1] := zero[a2];
          assert zero[..a1 + 1] == kept + [s[a2]];
          a1, a2 := a1 + 1, a2 + 1;
        }
      }
      assert s[..a2] == s;
    }

    /** gdelete: removes every marked entry in one pass. The slot before the first line is
        swept with the lines, so dol ends below zero when that slot is marked and no line
        stays. */
    method Gdelete()
      requires Valid()
      modifies this`dol, this`dot, this`fchange, zero
      ensures zero.Length == nlall + 5 && -1 <= dol <= nlall && List() == Unmarked(old(List()))
      ensures dot == FastDot(old(List()), old(dot)) && (old(dot) <= old(dol) ==> dot <= dol)
    {
      var found, a1 := FirstMarked();
      if !found {
        return;
      }
      var end: int := Compact(a1);
      dol := end - 1;
      if dot > dol {
        dot := dol;
      }
      fchange := true;
    }

    /** realloc in append: 512 more slots, contents kept. */
    method Grow()
      requires Valid()
      modifies this`zero, this`nlall
      ensures Valid() && fresh(zero) && nlall == old(nlall) + 512 && List() == old(List())
    {
      var old_zero := zero;
      assert old_zero.Length == nlall + 5;
      nlall := nlall + 512;
      zero := new int[nlall + 5];
      var i := 0;
      while i < old_zero.Length
        invariant 0 <= i <= old_zero.Length < zero.Length == nlall + 5 && fresh(zero)
        invariant nlall == old(nlall) + 512
        invariant forall k :: 0 <= k < i ==> zero[k] == old_zero[k]
        invariant forall k :: 0 <= k < old_zero.Length ==> old_zero[k] == old(zero[k])
      {
        zero[i] := old_zero[i];
        i := i + 1;
      }
    }

    /** The shifting loop of append: makes room at rdot, dol being one more already. */
    method OpenUp(rdot: nat)
      requires 1 <= rdot <= dol && dol < zero.Length
      modifies zero
      ensures forall k :: 0 <= k < rdot ==> zero[k] == old(zero[k])
      ensures forall k :: rdot < k <= dol ==> zero[k] == old(zero[k - 1])
    {
      var a1, a2 := dol, dol + 1;
      while a1 > rdot
        invariant rdot <= a1 <= dol && a2 == a1 + 1
        invariant forall k :: 0 <= k <= a1 ==> zero[k] == old(zero[k])
        invariant forall k :: a1 < k <= dol ==> zero[k] == old(zero[k - 1])
      {
        a2 := a2 - 1;
        a1 := a1 - 1;
        zero[a2] := zero[a1];
      }
    }

    /** Puts h in after dot, where there is room. */
    method PutAfterDot(h: int)
      requires Valid() && 0 <= dot <= dol < nlall
      modifies this`dol, this`dot, zero
      ensures Valid() && List() == Inserted(old(List()), old(dot), [h]) && dot == old(dot) + 1 && dol == old(dol) + 1
    {
      hide Inserted;
      ghost var s := List();
      dol := dol + 1;
      dot := dot + 1;
      OpenUp(dot);
      zero[dot] := h;
      InsertedIs(s, List(), dot - 1, h);
    }

    /** One round of append: the line h goes in after dot. */
    method InsertOne(h: int)
      requires Valid() && 0 <= dot <= dol
      modifies this`zero, this`nlall, this`dol, this`dot, zero
      ensures Valid() && (zero == old(zero) || fresh(zero))
      ensures List() == Inserted(old(List()), old(dot), [h]) && dot == old(dot) + 1 && dol == old(dol) + 1
    {
      hide Inserted;
      if dol >= nlall {
        Grow();
      }
      PutAfterDot(h);
    }

    /** append: the lines hs, as putline returned them, go in after entry a. */
    method Append(hs: seq<int>, a: nat)
      requires Valid() && a <= dol
      modifies this`zero, this`nlall, this`dol, this`dot, zero
      ensures Valid() && (zero == old(zero) || fresh(zero))
      ensures List() == Inserted(old(List()), a, hs) && dot == a + |hs| && dol == old(dol) + |hs|
    {
      ghost var s := List();
      dot := a;
      var nline := 0;
      while nline < |hs|
        invariant 0 <= nline <= |hs| && Valid() && (zero == old(zero) || fresh(zero))
        invariant dot == a + nline && dol == |s| - 1 + nline
        invariant List() == Inserted(s, a, hs[..nline])
      {
        InsertOne(hs[nline]);
        InsertTwice(s, a, hs, nline);
        nline := nline + 1;
      }
      assert hs[..|hs|] == hs;
    }

    /** The three reversals of move: entries i up to j change places with j up to k. */
    method Rotate(i: nat, j: nat, k: nat)
      requires 1 <= i <= j <= k <= dol + 1 <= zero.Length
      modifies zero
      ensures List() == Rotated(old(List()), i, j, k)
    {
      hide Rotated, Flipped;
      ghost var z := zero[..];
      Reverse(i, j);
      ghost var z1 := zero[..];
      Reverse(j, k);
      ghost var z2 := zero[..];
      Reverse(i, k);
      ThreeFlips(z, z1, z2, zero[..], i, j, k, dol + 1);
    }

    /** Clears the marks of lines i to j. */
    method ClearMarks(i: nat, j: nat)
      requires Valid() && 1 <= i <= j <= dol
      modifies zero
      ensures forall k :: 0 <= k < zero.Length ==> zero[k] == if i <= k <= j then Clear(old(zero[k])) else old(zero[k])
    {
      var ad1 := i;
      while ad1 <= j
        invariant i <= ad1 <= j + 1
        invariant forall k :: 0 <= k < zero.Length ==>
          zero[k] == if i <= k < ad1 then Clear(old(zero[k])) else old(zero[k])
      {
        zero[ad1] := Clear(zero[ad1]);
        ad1 := ad1 + 1;
      }
    }

    /** move of lines addr1 to addr2 after adt; false when adt lies within them, the marks of
        the lines being lost even then. */
    method Move(addr1: nat, addr2: nat, adt: nat) returns (ok: bool)
      requires Valid() && 1 <= addr1 <= addr2 <= dol && adt <= dol
      modifies this`dot, this`fchange, zero
      ensures Valid() && ok == !(addr1 <= adt <= addr2)
      ensures ok ==> List() == Moved(Cleared(old(List()), addr1, addr2), addr1, addr2, adt)
      ensures ok ==> dot == if adt < addr1 then adt + (addr2 - addr1 + 1) else adt
      ensures !ok ==> List() == Cleared(old(List()), addr1, addr2) && dot == old(dot)
    {
      hide Moved, Cleared, Rotated;
      ghost var s := List();
      ClearMarks(addr1, addr2);
      ClearedIs(s, List(), addr1, addr2);
      ghost var c := List();
      var ad1, ad2 := addr1, addr2 + 1;
      ok := true;
      if adt < ad1 {
        dot := adt + (ad2 - ad1);
        MovedIsRotated(c, addr1, addr2, adt);
        if adt + 1 == ad1 {
          return;
        }
        Rotate(adt + 1, ad1, ad2);
      } else if adt >= ad2 {
        dot := adt;
        MovedIsRotated(c, addr1, addr2, adt);
        Rotate(ad1, ad2, adt + 1);
      } else {
        return false;
      }
      fchange := true;
    }

    /** move in its copying form: hs are the handles of the copies, made at the end. */
    method Copy(hs: seq<int>, adt: nat)
      requires Valid() && adt <= dol && hs != []
      modifies this`zero, this`nlall, this`dol, this`dot, this`fchange, zero
      ensures Valid() && (zero == old(zero) || fresh(zero))
      ensures List() == Inserted(old(List()), adt, hs) && dot == adt + |hs| && dol == old(dol) + |hs|
    {
      hide Rotated, Inserted;
      ghost var s := List();
      CopiedIsRotated(s, hs, adt);
      var ad1 := dol;
      Append(hs, ad1);
      ad1 := ad1 + 1;
      var ad2 := dol + 1;
      dot := adt + (ad2 - ad1);
      if adt + 1 == ad1 {
        return;
      }
      Rotate(adt + 1, ad1, ad2);
      fchange := true;
    }
  }

  /** Entries i up to j of s change places with j up to k. */
  function Rotated(s: seq<int>, i: nat, j: nat, k: nat): seq<int>
    requires i <= j <= k <= |s|
  {
    s[..i] + s[j..k] + s[i..j] + s[k..]
  }

  /** t is s with entries i up to j in reverse. */
  ghost predicate Flipped(s: seq<int>, t: seq<int>, i: nat, j: nat) {
    && |s| == |t| && i <= j <= |s|
    && (forall n :: 0 <= n < i || j <= n < |s| ==> t[n] == s[n])
    && (forall n :: i <= n < j ==> t[n] == s[i + j - 1 - n])
  }

  lemma {:induction false} ThreeFlips(z: seq<int>, z1: seq<int>, z2: seq<int>, z3: seq<int>, i: nat, j: nat, k: nat,
      n: nat)
    requires i <= j <= k <= n <= |z| && Flipped(z, z1, i, j) && Flipped(z1, z2, j, k) && Flipped(z2, z3, i, k)
    ensures z3[..n] == Rotated(z[..n], i, j, k)
  {
    hide Rotated;
    var s, u := z[..n], z3[..n];
    forall m | i <= m < i + k - j ensures u[m] == s[m + (j - i)] {
      assert z3[m] == z2[i + k - 1 - m] == z1[j - i + m] == z[j - i + m];
    }
    forall m | i + k - j <= m < k ensures u[m] == s[m - (k - j)] {
      assert z3[m] == z2[i + k - 1 - m] == z1[i + k - 1 - m] == z[m - (k - j)];
    }
    RotatedIs(s, u, i, j, k);
  }

  lemma {:induction false} RotatedIs(s: seq<int>, u: seq<int>, i: nat, j: nat, k: nat)
    requires i <= j <= k <= |s| == |u|
    requires forall n :: 0 <= n < i || k <= n < |s| ==> u[n] == s[n]
    requires forall n :: i <= n < i + k - j ==> u[n] == s[n + (j - i)]
    requires forall n :: i + k - j <= n < k ==> u[n] == s[n - (k - j)]
    ensures u == Rotated(s, i, j, k)
  {
  }

  /** What the moves of move come to. */
  lemma {:induction false} MovedIsRotated(s: seq<int>, i: nat, j: nat, t: nat)
    requires i <= j < |s| && t < |s| && !(i <= t <= j)
    ensures t < i ==> Moved(s, i, j, t) == Rotated(s, t + 1, i, j + 1)
    ensures t > j ==> Moved(s, i, j, t) == Rotated(s, i, j + 1, t + 1)
    ensures t + 1 == i ==> Moved(s, i, j, t) == s
  {
  }

  /** New lines at the end, rotated to their place. */
  lemma {:induction false} CopiedIsRotated(s: seq<int>, hs: seq<int>, t: nat)
    requires t < |s|
    ensures Rotated(Inserted(s, |s| - 1, hs), t + 1, |s|, |s| + |hs|) == Inserted(s, t, hs)
    ensures t + 1 == |s| ==> Inserted(s, |s| - 1, hs) == Inserted(s, t, hs)
  {
    assert Inserted(s, |s| - 1, hs) == s + hs;
  }

  lemma {:induction false} ClearedIs(s: seq<int>, u: seq<int>, i: nat, j: nat)
    requires i <= j < |s| == |u|
    requires forall k :: 0 <= k < |s| ==> u[k] == if i <= k <= j then Clear(s[k]) else s[k]
    ensures u == Cleared(s, i, j)
  {
  }

  lemma {:induction false} InsertedIs(s: seq<int>, u: seq<int>, t: nat, h: int)
    requires t < |s| && |u| == |s| + 1
    requires forall k :: 0 <= k <= t ==> u[k] == s[k]
    requires u[t + 1] == h && forall k :: t + 1 < k < |u| ==> u[k] == s[k - 1]
    ensures u == Inserted(s, t, [h])
  {
  }

  lemma {:induction false} InsertTwice(s: seq<int>, a: nat, hs: seq<int>, n: nat)
    requires a < |s| && n < |hs|
    ensures Inserted(Inserted(s, a, hs[..n]), a + n, [hs[n]]) == Inserted(s, a, hs[..n + 1])
  {
  }

  /** s with the marks of i..j cleared. */
  function Cleared(s: seq<int>, i: nat, j: nat): (r: seq<int>)
    requires i <= j < |s|
  {
    s[..i] + ClearedAll(s[i..j + 1]) + s[j + 1..]
  }

  function ClearedAll(s: seq<int>): (r: seq<int>)
    ensures |r| == |s| && forall k :: 0 <= k < |s| ==> r[k] == Clear(s[k])
  {
    seq(|s|, k requires 0 <= k < |s| => Clear(s[k]))
  }
}
