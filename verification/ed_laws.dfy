/** What each edit of ed's array means, entry by entry, and how edits follow each other. */
module EditLaws {
  import opened LineArray
  import opened GlobalCommand

  /** A list of one edit: what it makes of the lines, and whether it is accepted. */
  lemma {:induction false} OneEdit(st: Edited, e: Edit)
    ensures PerformedAll(st, [e]) == (Performed(st, e), Applies(st.s, e, st.subnewa))
  {
    hide Performed, Applies;
    assert PerformedAll(Performed(st, e), []) == (Performed(st, e), true);
    assert [e][0] == e && [e][1..] == [];
  }

  /** A list is its parts in order; after a refusal nothing more happens. */
  lemma {:induction false} EditsInTurn(st: Edited, a: seq<Edit>, b: seq<Edit>)
    ensures var (r, ok) := PerformedAll(st, a);
      PerformedAll(st, a + b) == if ok then PerformedAll(r, b) else (r, false)
    decreases |a|
  {
    hide Performed, Applies;
    if a == [] {
      assert a + b == b;
    } else {
      assert (a + b)[0] == a[0] && (a + b)[1..] == a[1..] + b;
      EditsInTurn(Performed(st, a[0]), a[1..], b);
    }
  }

  // ----- the edits

  /** a and copy: the new lines stand after line t, everything else in its order. */
  lemma {:induction false} Adds(st: Edited, t: nat, hs: seq<int>, e: Edit)
    requires e == Add(t, hs) || e == Transfer(hs, t)
    ensures var (r, ok) := PerformedAll(st, [e]); var s, n := st.s, |hs|;
      && ok == (t < |s|)
      && (!ok ==> r == st)
      && (ok ==> |r.s| == |s| + n && r.subnewa == st.subnewa && r.subolda == st.subolda && r.dot == t + n)
      && (ok ==> forall k :: 0 <= k <= t ==> r.s[k] == s[k])
      && (ok ==> forall k :: t < k <= t + n ==> r.s[k] == hs[k - t - 1])
      && (ok ==> forall k :: t + n < k < |r.s| ==> r.s[k] == s[k - n])
  {
    hide PerformedAll;
    OneEdit(st, e);
  }

  /** c: the new lines stand in the place of the range. */
  lemma {:induction false} Changes(st: Edited, i: nat, j: nat, hs: seq<int>)
    ensures var (r, ok) := PerformedAll(st, [Change(i, j, hs)]); var s, n := st.s, |hs|;
      && ok == (1 <= i <= j < |s|)
      && (!ok ==> r == st)
      && (ok ==> r.subnewa == st.subnewa && r.subolda == st.subolda && r.dot == i - 1 + n)
      && (ok ==> |r.s| == |s| - (j - i + 1) + n)
      && (ok ==> forall k :: 0 <= k < i ==> r.s[k] == s[k])
      && (ok ==> forall k :: i <= k < i + n ==> r.s[k] == hs[k - i])
      && (ok ==> forall k :: i + n <= k < |r.s| ==> r.s[k] == s[k - n + (j - i + 1)])
  {
    hide PerformedAll;
    OneEdit(st, Change(i, j, hs));
  }

  /** d: the range is gone, and dot is on the line after it, or on the last. */
  lemma {:induction false} Deletes(st: Edited, i: nat, j: nat)
    ensures var (r, ok) := PerformedAll(st, [Delete(i, j)]); var s := st.s;
      && ok == (1 <= i <= j < |s|)
      && (!ok ==> r == st)
      && (ok ==> |r.s| == |s| - (j - i + 1) && r.subnewa == st.subnewa && r.subolda == st.subolda)
      && (ok ==> r.dot == if j == |s| - 1 then i - 1 else i)
      && (ok ==> forall k :: 0 <= k < i ==> r.s[k] == s[k])
      && (ok ==> forall k :: i <= k < |r.s| ==> r.s[k] == s[k + (j - i + 1)])
  {
    hide PerformedAll;
    OneEdit(st, Delete(i, j));
  }

  /** Entry k of four runs in a row. */
  lemma {:induction false} FourRuns(p: seq<int>, x: seq<int>, y: seq<int>, q: seq<int>, k: nat)
    requires k < |p| + |x| + |y| + |q|
    ensures |p + x + y + q| == |p| + |x| + |y| + |q|
    ensures (p + x + y + q)[k] ==
      if k < |p| then p[k]
      else if k < |p| + |x| then x[k - |p|]
      else if k < |p| + |x| + |y| then y[k - |p| - |x|]
      else q[k - |p| - |x| - |y|]
  {
  }

  /** Entry k after a move upwards, and after one downwards. */
  lemma {:induction false} MovedUp(c: seq<int>, i: nat, j: nat, t: nat, k: nat)
    requires t < i <= j < |c| && k < |c|
    ensures var u, n := Moved(c, i, j, t), j - i + 1;
      |u| == |c| && u[k] == c[if k <= t || j < k then k else if k <= t + n then i + (k - t - 1) else k - n]
  {
    FourRuns(c[..t + 1], c[i..j + 1], c[t + 1..i], c[j + 1..], k);
  }

  lemma {:induction false} MovedDown(c: seq<int>, i: nat, j: nat, t: nat, k: nat)
    requires i <= j < t < |c| && k < |c|
    ensures var u, n := Moved(c, i, j, t), j - i + 1;
      |u| == |c| && u[k] == c[if k < i || t < k then k else if k <= t - n then k + n else j - (t - k)]
  {
    FourRuns(c[..i], c[j + 1..t + 1], c[i..j + 1], c[t + 1..], k);
  }

  lemma {:induction false} ClearedAt(s: seq<int>, i: nat, j: nat)
    requires i <= j < |s|
    ensures var c := Cleared(s, i, j);
      && |c| == |s|
      && (forall k :: 0 <= k < i || j < k < |s| ==> c[k] == s[k])
      && (forall k :: i <= k <= j ==> c[k] == Clear(s[k]))
  {
  }

  /** m upwards: the range stands after line t, its marks gone, and what was between has moved down. */
  lemma {:induction false} MovesUp(st: Edited, i: nat, j: nat, t: nat)
    requires t < i <= j < |st.s|
    ensures var (r, ok) := PerformedAll(st, [Shift(i, j, t)]); var s, n := st.s, j - i + 1;
      && ok && |r.s| == |s| && r.subnewa == st.subnewa && r.subolda == st.subolda && r.dot == t + n
      && (forall k :: 0 <= k <= t || j < k < |s| ==> r.s[k] == s[k])
      && (forall k :: t < k <= t + n ==> r.s[k] == Clear(s[i + (k - t - 1)]))
      && (forall k :: t + n < k <= j ==> r.s[k] == s[k - n])
  {
    hide PerformedAll, Moved, Cleared, Clear;
    OneEdit(st, Shift(i, j, t));
    ClearedAt(st.s, i, j);
    var c := Cleared(st.s, i, j);
    var u, n := Moved(c, i, j, t), j - i + 1;
    MovedUp(c, i, j, t, 0);
    forall k | 0 <= k <= t || j < k < |c| ensures u[k] == c[k] {
      MovedUp(c, i, j, t, k);
    }
    forall k | t < k <= t + n ensures u[k] == c[i + (k - t - 1)] {
      MovedUp(c, i, j, t, k);
    }
    forall k | t + n < k <= j ensures u[k] == c[k - n] {
      MovedUp(c, i, j, t, k);
    }
  }

  /** m downwards: the range ends in the place of line t. */
  lemma {:induction false} MovesDown(st: Edited, i: nat, j: nat, t: nat)
    requires 1 <= i <= j < t < |st.s|
    ensures var (r, ok) := PerformedAll(st, [Shift(i, j, t)]); var s, n := st.s, j - i + 1;
      && ok && |r.s| == |s| && r.subnewa == st.subnewa && r.subolda == st.subolda && r.dot == t
      && (forall k :: 0 <= k < i || t < k < |s| ==> r.s[k] == s[k])
      && (forall k :: i <= k <= t - n ==> r.s[k] == s[k + n])
      && (forall k :: t - n < k <= t ==> r.s[k] == Clear(s[j - (t - k)]))
  {
    hide PerformedAll, Moved, Cleared, Clear;
    OneEdit(st, Shift(i, j, t));
    ClearedAt(st.s, i, j);
    var c := Cleared(st.s, i, j);
    var u, n := Moved(c, i, j, t), j - i + 1;
    MovedDown(c, i, j, t, 0);
    forall k | 0 <= k < i || t < k < |c| ensures u[k] == c[k] {
      MovedDown(c, i, j, t, k);
    }
    forall k | i <= k <= t - n ensures u[k] == c[k + n] {
      MovedDown(c, i, j, t, k);
    }
    forall k | t - n < k <= t ensures u[k] == c[j - (t - k)] {
      MovedDown(c, i, j, t, k);
    }
  }

  /** m into its own range, and m with bad addresses: refused; the first loses the marks of the range. */
  lemma {:induction false} MovesNowhere(st: Edited, i: nat, j: nat, t: nat)
    requires !(1 <= i <= j < |st.s|) || t >= |st.s| || i <= t <= j
    ensures var (r, ok) := PerformedAll(st, [Shift(i, j, t)]); var s := st.s;
      && !ok && |r.s| == |s| && r.subnewa == st.subnewa && r.subolda == st.subolda && r.dot == st.dot
      && (forall k :: 0 <= k < |s| && 1 <= i <= k <= j < |s| && t < |s| ==> r.s[k] == Clear(s[k]))
      && (forall k :: 0 <= k < |s| && !(1 <= i <= k <= j < |s| && t < |s|) ==> r.s[k] == s[k])
  {
    hide PerformedAll;
    OneEdit(st, Shift(i, j, t));
  }

  /** j: the joined line stands in the place of the range. */
  lemma {:induction false} Joins(st: Edited, i: nat, j: nat, h: int)
    ensures var (r, ok) := PerformedAll(st, [GlobalCommand.Join(i, j, h)]); var s := st.s;
      && ok == (1 <= i <= j < |s|)
      && (!ok ==> r == st)
      && (ok ==> |r.s| == |s| - (j - i) && r.subnewa == st.subnewa && r.subolda == st.subolda && r.dot == i)
      && (ok ==> r.s[i] == h)
      && (ok ==> forall k :: 0 <= k < i ==> r.s[k] == s[k])
      && (ok ==> forall k :: i < k < |r.s| ==> r.s[k] == s[k + (j - i)])
  {
    hide PerformedAll;
    OneEdit(st, GlobalCommand.Join(i, j, h));
  }

  /** s on one line: the new line stands in its place with those split off it behind, and undo can
      tell the new one and has the old one. */
  lemma {:induction false} Substitutes(st: Edited, i: nat, h: int, hs: seq<int>)
    ensures var (r, ok) := PerformedAll(st, [Subst(i, h, hs)]); var s, n := st.s, |hs|;
      && ok == (1 <= i < |s|)
      && (!ok ==> r == st)
      && (ok ==> |r.s| == |s| + n && r.dot == i + n && r.subnewa == h && r.subolda == Clear(s[i]))
      && (ok ==> r.s[i] == h)
      && (ok ==> forall k :: 0 <= k < i ==> r.s[k] == s[k])
      && (ok ==> forall k :: i < k <= i + n ==> r.s[k] == hs[k - i - 1])
      && (ok ==> forall k :: i + n < k < |r.s| ==> r.s[k] == s[k - n])
  {
    hide PerformedAll;
    OneEdit(st, Subst(i, h, hs));
  }

  /** u: on the line of the latest substitution the old line comes back; elsewhere it is refused. */
  lemma {:induction false} Undoes(st: Edited, i: nat)
    ensures var (r, ok) := PerformedAll(st, [Undo(i)]); var s := st.s;
      && ok == (1 <= i < |s| && (s[i] == st.subnewa || (s[i] == st.subnewa + 1 && Mark(s[i]))) && !Mark(st.subnewa))
      && (!ok ==> r == st)
      && (ok ==> |r.s| == |s| && r.subnewa == st.subnewa && r.subolda == st.subolda && r.dot == i)
      && (ok ==> r.s[i] == st.subolda)
      && (ok ==> forall k :: 0 <= k < |s| && k != i ==> r.s[k] == s[k])
  {
    hide PerformedAll;
    OneEdit(st, Undo(i));
  }

  lemma {:induction false} InTwo(st: Edited, d: Edit, e: Edit)
    requires PerformedAll(st, [d]).1
    ensures PerformedAll(st, [d, e]) == PerformedAll(PerformedAll(st, [d]).0, [e])
  {
    hide PerformedAll;
    assert [d, e] == [d] + [e];
    EditsInTurn(st, [d], [e]);
  }

  /** s and then u on the same line: the old line is back without its mark, only the lines split off
      stay; and a second u is refused, unless the line was its own replacement. */
  lemma {:induction false} UndoSubst(st: Edited, i: nat, h: int, hs: seq<int>)
    requires 1 <= i < |st.s| && !Mark(h)
    ensures var (r, ok) := PerformedAll(st, [Subst(i, h, hs), Undo(i)]); var s, n := st.s, |hs|;
      && ok && |r.s| == |s| + n && r.dot == i && r.s[i] == Clear(s[i])
      && (forall k :: 0 <= k < i ==> r.s[k] == s[k])
      && (forall k :: i < k <= i + n ==> r.s[k] == hs[k - i - 1])
      && (forall k :: i + n < k < |r.s| ==> r.s[k] == s[k - n])
      && PerformedAll(r, [Undo(i)]).1 == (h == Clear(s[i]))
  {
    hide PerformedAll;
    Substitutes(st, i, h, hs);
    var mid := PerformedAll(st, [Subst(i, h, hs)]).0;
    InTwo(st, Subst(i, h, hs), Undo(i));
    Undoes(mid, i);
    Undoes(PerformedAll(mid, [Undo(i)]).0, i);
  }

  /** Nothing split off: but for the mark all lines are as they were. */
  lemma {:induction false} UndoRestores(st: Edited, i: nat, h: int)
    requires 1 <= i < |st.s| && !Mark(h)
    ensures var (r, ok) := PerformedAll(st, [Subst(i, h, []), Undo(i)]); ok && r.s == st.s[i := Clear(st.s[i])]
  {
    hide PerformedAll, Clear, Mark;
    UndoSubst(st, i, h, []);
    var r := PerformedAll(st, [Subst(i, h, []), Undo(i)]).0;
    assert r.s == st.s[i := Clear(st.s[i])];
  }

  /** Lines added and deleted again leave the others as they were. */
  lemma {:induction false} AddThenDelete(st: Edited, t: nat, hs: seq<int>)
    requires t < |st.s| && hs != []
    ensures var (r, ok) := PerformedAll(st, [Add(t, hs), Delete(t + 1, t + |hs|)]); ok && r.s == st.s
  {
    hide PerformedAll;
    var n, e := |hs|, Delete(t + 1, t + |hs|);
    Adds(st, t, hs, Add(t, hs));
    var mid := PerformedAll(st, [Add(t, hs)]).0;
    InTwo(st, Add(t, hs), e);
    Deletes(mid, t + 1, t + n);
    var r := PerformedAll(mid, [e]).0;
    forall k: int | 0 <= k < |r.s| ensures r.s[k] == st.s[k] {
      if k <= t {
        assert r.s[k] == mid.s[k];
      } else {
        assert r.s[k] == mid.s[k + n];
      }
    }
    assert r.s == st.s;
  }

  /** Lines moved down and back again are where they were, without their marks. */
  lemma {:induction false} MoveAndBack(st: Edited, i: nat, j: nat, t: nat)
    requires 1 <= i <= j < t < |st.s|
    ensures var (r, ok) := PerformedAll(st, [Shift(i, j, t), Shift(t - (j - i), t, i - 1)]); var s := st.s;
      && ok && |r.s| == |s|
      && (forall k :: i <= k <= j ==> r.s[k] == Clear(s[k]))
      && (forall k :: 0 <= k < i || j < k < |s| ==> r.s[k] == s[k])
  {
    hide PerformedAll;
    var there, back := Shift(i, j, t), Shift(t - (j - i), t, i - 1);
    MovesDown(st, i, j, t);
    InTwo(st, there, back);
    MovesUp(PerformedAll(st, [there]).0, t - (j - i), t, i - 1);
  }
}
