/** ed's global command: marks, and a command list run once per marked line. */
module GlobalCommand {
  import opened LineArray

  /** The edits a command list can make. Handles in hs come from putline. */
  datatype Edit =
    | Add(at: nat, hs: seq<int>)
    | Change(i: nat, j: nat, hs: seq<int>)
    | Delete(i: nat, j: nat)
    | Shift(i: nat, j: nat, t: nat)
    | Transfer(hs: seq<int>, t: nat)
    | Join(i: nat, j: nat, h: int)
    | Subst(i: nat, h: int, hs: seq<int>)
    | Undo(i: nat)

  /** Handles as putline makes them carry no mark. */
  predicate Unmarkeds(hs: seq<int>) {
    forall k :: 0 <= k < |hs| ==> !Mark(hs[k])
  }

  predicate FromPutline(e: Edit) {
    match e
    case Add(_, hs) => Unmarkeds(hs)
    case Change(_, _, hs) => Unmarkeds(hs)
    case Transfer(hs, _) => Unmarkeds(hs) && hs != []
    case Join(_, _, h) => !Mark(h)
    case Subst(_, h, hs) => !Mark(h) && Unmarkeds(hs)
    case _ => true
  }

  predicate Range(s: seq<int>, i: nat, j: nat) {
    1 <= i <= j < |s|
  }

  /** The addresses the command accepts. */
  predicate Applies(s: seq<int>, e: Edit, subnewa: int) {
    match e
    case Add(at, _) => at < |s|
    case Change(i, j, _) => Range(s, i, j)
    case Delete(i, j) => Range(s, i, j)
    case Shift(i, j, t) => Range(s, i, j) && t < |s| && !(i <= t <= j)
    case Transfer(_, t) => t < |s|
    case Join(i, j, _) => Range(s, i, j)
    case Subst(i, _, _) => Range(s, i, i)
    case Undo(i) => Range(s, i, i) && Clear(s[i]) == subnewa
  }

  /** What the edit leaves. */
  function Effect(s: seq<int>, e: Edit, subnewa: int, subolda: int): seq<int>
    requires Applies(s, e, subnewa)
  {
    match e
    case Add(at, hs) => Inserted(s, at, hs)
    case Change(i, j, hs) => Inserted(Removed(s, i, j), i - 1, hs)
    case Delete(i, j) => Removed(s, i, j)
    case Shift(i, j, t) => Moved(Cleared(s, i, j), i, j, t)
    case Transfer(hs, t) => Inserted(s, t, hs)
    case Join(i, j, h) => if i < j then Removed(s[i := h], i + 1, j) else s[i := h]
    case Subst(i, h, hs) => Inserted(s[i := h], i, hs)
    case Undo(i) => s[i := subolda]
  }

  /** Where the edit leaves dot, u being the lines then. */
  function DotAfter(e: Edit, u: seq<int>): int {
    match e
    case Add(at, hs) => at + |hs|
    case Change(i, _, hs) => i - 1 + |hs|
    case Delete(i, _) => if i > |u| - 1 then |u| - 1 else i
    case Shift(i, j, t) => if t < i then t + (j - i + 1) else t
    case Transfer(hs, t) => t + |hs|
    case Join(i, _, _) => i
    case Subst(i, _, hs) => i + |hs|
    case Undo(i) => i
  }

  // ----- no edit makes a mark

  /** The lines, the handle of the latest substitution and the one it replaced, and dot. */
  datatype Edited = Edited(s: seq<int>, subnewa: int, subolda: int, dot: int)

  /** What an edit makes of them, refused or not: a refused move has cleared the marks of its lines. */
  function Performed(st: Edited, e: Edit): Edited {
    if Applies(st.s, e, st.subnewa) then
      var u := Effect(st.s, e, st.subnewa, st.subolda);
      Edited(u, if e.Subst? then e.h else st.subnewa, if e.Subst? then Clear(st.s[e.i]) else st.subolda,
             DotAfter(e, u))
    else if e.Shift? && Range(st.s, e.i, e.j) && e.t < |st.s| then st.(s := Cleared(st.s, e.i, e.j))
    else st
  }

  /** A command list, up to the first edit that is refused. */
  function PerformedAll(st: Edited, es: seq<Edit>): (Edited, bool)
    decreases |es|
  {
    if es == [] then (st, true)
    else if !Applies(st.s, es[0], st.subnewa) then (Performed(st, es[0]), false)
    else PerformedAll(Performed(st, es[0]), es[1..])
  }

  /** The first marked entry. */
  function FirstMark(s: seq<int>): (i: nat)
    requires Marks(s) > 0
    ensures i < |s| && Mark(s[i]) && forall k :: 0 <= k < i ==> !Mark(s[k])
  {
    if Marks(s[..|s| - 1]) > 0 then FirstMark(s[..|s| - 1])
    else
      NoneMarked(s[..|s| - 1]);
      |s| - 1
  }

  lemma {:induction false} NoneMarked(s: seq<int>)
    requires Marks(s) == 0
    ensures forall k :: 0 <= k < |s| ==> !Mark(s[k])
  {
    if s != [] {
      NoneMarked(s[..|s| - 1]);
    }
  }

  predicate AllFromPutline(es: seq<Edit>) {
    forall k :: 0 <= k < |es| ==> FromPutline(es[k])
  }

  /** Line i loses its mark and becomes dot. */
  function Unmark(st: Edited, i: nat): Edited
    requires i < |st.s|
  {
    st.(s := st.s[i := Clear(st.s[i])], dot := i)
  }

  /** What is wanted of the global command: while there is a mark, the first one is cleared and
      the list performed there; it ends early at a refusal. cmds(n, d) is what the list amounts to
      the n-th time, dot being d. The number of times comes with the result. */
  function Rounds(st: Edited, cmds: (nat, nat) -> seq<Edit>, n: nat): (r: (Edited, nat, bool))
    requires st.s != [] && !Mark(st.subolda) && forall k: nat, d: nat :: AllFromPutline(cmds(k, d))
    ensures r.1 <= n + Marks(st.s) && (r.2 ==> Marks(r.0.s) == 0)
    decreases Marks(st.s)
  {
    if Marks(st.s) == 0 then (st, n, true)
    else
      var i := FirstMark(st.s);
      var cleared := Unmark(st, i);
      ListUpdate(st.s, i);
      var (next, ok) := PerformedAll(cleared, cmds(n, i));
      PerformedMarks(cleared, cmds(n, i));
      if ok then Rounds(next, cmds, n + 1) else (next, n + 1, false)
  }

  lemma {:induction false} PerformedMarks(st: Edited, es: seq<Edit>)
    requires st.s != [] && !Mark(st.subolda) && AllFromPutline(es)
    ensures var (r, ok) := PerformedAll(st, es);
      ok ==> r.s != [] && r.s[0] == st.s[0] && !Mark(r.subolda) && Marks(r.s) <= Marks(st.s)
    decreases |es|
  {
    hide Marks, Applies, Effect, Mark, Clear, FromPutline, DotAfter;
    if es != [] && Applies(st.s, es[0], st.subnewa) {
      EffectMarks(st.s, es[0], st.subnewa, st.subolda);
      SubstInRange(st.s, es[0], st.subnewa);
      PerformedMarks(Performed(st, es[0]), es[1..]);
    }
  }

  lemma SubstInRange(s: seq<int>, e: Edit, subnewa: int)
    requires Applies(s, e, subnewa)
    ensures e.Subst? ==> e.i < |s| && !Mark(Clear(s[e.i]))
  {
  }

  lemma {:induction false} InsertMarks(s: seq<int>, t: nat, hs: seq<int>)
    requires t < |s| && Unmarkeds(hs)
    ensures Marks(Inserted(s, t, hs)) == Marks(s) && Inserted(s, t, hs) != [] && Inserted(s, t, hs)[0] == s[0]
  {
    hide Marks, Mark;
    MarksConcat(s[..t + 1] + hs, s[t + 1..]);
    MarksConcat(s[..t + 1], hs);
    MarksConcat(s[..t + 1], s[t + 1..]);
    assert s == s[..t + 1] + s[t + 1..];
    NoMarks(hs);
  }

  lemma {:induction false} RemoveMarks(s: seq<int>, i: nat, j: nat)
    requires 1 <= i <= j < |s|
    ensures Marks(Removed(s, i, j)) == Marks(s) - Marks(s[i..j + 1]) && Removed(s, i, j) != []
      && Removed(s, i, j)[0] == s[0]
  {
    hide Marks;
    MarksConcat(s[..i], s[j + 1..]);
    MarksConcat(s[..i] + s[i..j + 1], s[j + 1..]);
    MarksConcat(s[..i], s[i..j + 1]);
    assert s == s[..i] + s[i..j + 1] + s[j + 1..];
  }

  lemma {:induction false} UpdateMarks(s: seq<int>, i: nat, h: int)
    requires 1 <= i < |s| && !Mark(h)
    ensures Marks(s[i := h]) == Marks(s) - (if Mark(s[i]) then 1 else 0) && s[i := h][0] == s[0]
  {
    var u := s[i := h];
    assert s == s[..i] + [s[i]] + s[i + 1..] && u == s[..i] + [h] + s[i + 1..];
    MarksConcat(s[..i] + [s[i]], s[i + 1..]);
    MarksConcat(s[..i], [s[i]]);
    MarksConcat(s[..i] + [h], s[i + 1..]);
    MarksConcat(s[..i], [h]);
    OneMark(s[i]);
    OneMark(h);
  }

  lemma {:induction false} OneMark(h: int)
    ensures Marks([h]) == if Mark(h) then 1 else 0
  {
    assert [h][..0] == [];
  }

  lemma {:induction false} ClearMarksGone(s: seq<int>, i: nat, j: nat)
    requires 1 <= i <= j < |s|
    ensures Marks(Cleared(s, i, j)) == Marks(s) - Marks(s[i..j + 1]) && Cleared(s, i, j)[0] == s[0]
    ensures Marks(Cleared(s, i, j)[i..j + 1]) == 0
  {
    hide Marks;
    var c := ClearedAll(s[i..j + 1]);
    NoMarks(c);
    assert Cleared(s, i, j)[i..j + 1] == c;
    MarksConcat(s[..i] + c, s[j + 1..]);
    MarksConcat(s[..i], c);
    MarksConcat(s[..i] + s[i..j + 1], s[j + 1..]);
    MarksConcat(s[..i], s[i..j + 1]);
    assert s == s[..i] + s[i..j + 1] + s[j + 1..];
  }

  lemma {:induction false} MoveMarks(s: seq<int>, i: nat, j: nat, t: nat)
    requires 1 <= i <= j < |s| && t < |s| && !(i <= t <= j)
    ensures Marks(Moved(s, i, j, t)) == Marks(s) && Moved(s, i, j, t) != [] && Moved(s, i, j, t)[0] == s[0]
  {
    hide Marks;
    if t < i {
      RotateMarks(s[..t + 1], s[t + 1..i], s[i..j + 1], s[j + 1..]);
      assert s == s[..t + 1] + s[t + 1..i] + s[i..j + 1] + s[j + 1..];
    } else {
      RotateMarks(s[..i], s[i..j + 1], s[j + 1..t + 1], s[t + 1..]);
      assert s == s[..i] + s[i..j + 1] + s[j + 1..t + 1] + s[t + 1..];
    }
  }

  lemma {:induction false} RotateMarks(p: seq<int>, x: seq<int>, y: seq<int>, q: seq<int>)
    ensures Marks(p + y + x + q) == Marks(p + x + y + q)
  {
    hide Marks;
    MarksConcat(p + y + x, q);
    MarksConcat(p + y, x);
    MarksConcat(p, y);
    MarksConcat(p + x + y, q);
    MarksConcat(p + x, y);
    MarksConcat(p, x);
  }

  /** No edit makes a mark or touches the slot before the first line. */
  lemma {:induction false} EffectMarks(s: seq<int>, e: Edit, subnewa: int, subolda: int)
    requires s != [] && Applies(s, e, subnewa) && FromPutline(e) && !Mark(subolda)
    ensures var u := Effect(s, e, subnewa, subolda); u != [] && u[0] == s[0] && Marks(u) <= Marks(s)
  {
    hide Marks, Mark, Clear, Inserted, Removed, Moved, Cleared;
    match e
    case Add(at, hs) => InsertMarks(s, at, hs);
    case Change(i, j, hs) =>
      RemoveMarks(s, i, j);
      RemovedLength(s, i, j);
      InsertMarks(Removed(s, i, j), i - 1, hs);
    case Delete(i, j) =>
      RemoveMarks(s, i, j);
      RemovedLength(s, i, j);
    case Shift(i, j, t) =>
      ClearMarksGone(s, i, j);
      ClearedLength(s, i, j);
      MoveMarks(Cleared(s, i, j), i, j, t);
    case Transfer(hs, t) => InsertMarks(s, t, hs);
    case Join(i, j, h) =>
      UpdateMarks(s, i, h);
      if i < j {
        RemoveMarks(s[i := h], i + 1, j);
        RemovedLength(s[i := h], i + 1, j);
      }
    case Subst(i, h, hs) =>
      UpdateMarks(s, i, h);
      InsertMarks(s[i := h], i, hs);
    case Undo(i) => UpdateMarks(s, i, subolda);
  }

  lemma {:induction false} RemovedLength(s: seq<int>, i: nat, j: nat)
    requires i <= j < |s|
    ensures |Removed(s, i, j)| == |s| - (j - i + 1)
  {
  }

  lemma {:induction false} ClearedLength(s: seq<int>, i: nat, j: nat)
    requires i <= j < |s|
    ensures |Cleared(s, i, j)| == |s|
  {
  }

  // ----- the edits on the array

  method ChangeLines(l: Lines, i: nat, j: nat, hs: seq<int>)
    requires l.Valid() && 1 <= i <= j <= l.dol
    modifies l, l.zero
    ensures l.Valid() && (l.zero == old(l.zero) || fresh(l.zero))
    ensures l.List() == Inserted(Removed(old(l.List()), i, j), i - 1, hs) && l.dot == i - 1 + |hs|
    ensures l.subnewa == old(l.subnewa) && l.subolda == old(l.subolda)
  {
    l.Rdelete(i, j);
    l.Append(hs, i - 1);
  }

  /** join, h being the handle of the joined line. */
  method JoinLines(l: Lines, i: nat, j: nat, h: int)
    requires l.Valid() && 1 <= i <= j <= l.dol
    modifies l, l.zero
    ensures l.Valid() && l.zero == old(l.zero) && l.dot == i
    ensures var s := old(l.List())[i := h]; l.List() == if i < j then Removed(s, i + 1, j) else s
    ensures l.subnewa == old(l.subnewa) && l.subolda == old(l.subolda)
  {
    PutEntry(l, i, h);
    if i < j {
      l.Rdelete(i + 1, j);
    }
    l.dot := i;
  }

  /** substitute on one matching line, h being the new line and hs the lines split off it. */
  method SubstLine(l: Lines, i: nat, h: int, hs: seq<int>)
    requires l.Valid() && 1 <= i <= l.dol
    modifies l, l.zero
    ensures l.Valid() && (l.zero == old(l.zero) || fresh(l.zero))
    ensures l.List() == Inserted(old(l.List())[i := h], i, hs) && l.dot == i + |hs|
    ensures l.subnewa == h && l.subolda == Clear(old(l.zero[i]))
  {
    l.subnewa := h;
    l.subolda := Clear(l.zero[i]);
    ClearIsUnmarked(l.zero[i]);
    PutEntry(l, i, h);
    l.Append(hs, i);
  }

  ghost function State(l: Lines): Edited
    requires 0 <= l.dol + 1 <= l.zero.Length
    reads l, l.zero
  {
    Edited(l.List(), l.subnewa, l.subolda, l.dot)
  }

  /** Runs one edit; false when the command refuses its addresses, which ends the global
      command. A refused move has by then cleared the marks of its lines. */
  method RunEdit(l: Lines, e: Edit) returns (ok: bool)
    requires l.Valid() && FromPutline(e)
    modifies l, l.zero
    ensures l.Valid() && (l.zero == old(l.zero) || fresh(l.zero))
    ensures ok == old(Applies(l.List(), e, l.subnewa)) && State(l) == Performed(old(State(l)), e)
  {
    hide Inserted, Removed, Moved, Cleared, Marks, Unmarked;
    match e {
      case Add(at, hs) =>
        ok := at <= l.dol;
        if ok {
          l.Append(hs, at);
        }
      case Change(i, j, hs) =>
        ok := 1 <= i <= j <= l.dol;
        if ok {
          ChangeLines(l, i, j, hs);
        }
      case Delete(i, j) =>
        ok := 1 <= i <= j <= l.dol;
        if ok {
          l.Rdelete(i, j);
        }
      case Shift(i, j, t) =>
        ok := 1 <= i <= j <= l.dol && t <= l.dol;
        if ok {
          ok := l.Move(i, j, t);
        }
      case Transfer(hs, t) =>
        ok := t <= l.dol;
        if ok {
          l.Copy(hs, t);
        }
      case Join(i, j, h) =>
        ok := 1 <= i <= j <= l.dol;
        if ok {
          JoinLines(l, i, j, h);
        }
      case Subst(i, h, hs) =>
        ok := 1 <= i <= l.dol;
        if ok {
          SubstLine(l, i, h, hs);
        }
      case Undo(i) =>
        ok := 1 <= i <= l.dol && Clear(l.zero[i]) == l.subnewa;
        if ok {
          PutEntry(l, i, l.subolda);
          l.dot := i;
        }
    }
  }

  /** Puts a handle into the array. */
  method PutEntry(l: Lines, i: nat, h: int)
    requires l.Valid() && i <= l.dol
    modifies l.zero
    ensures l.List() == old(l.List())[i := h] && l.zero[i] == h
  {
    l.zero[i] := h;
  }

  /** A command list, up to the first edit that is refused. */
  method RunEdits(l: Lines, es: seq<Edit>) returns (ok: bool)
    requires l.Valid() && AllFromPutline(es)
    modifies l, l.zero
    ensures l.Valid() && (l.zero == old(l.zero) || fresh(l.zero))
    ensures (State(l), ok) == PerformedAll(old(State(l)), es)
  {
    hide Marks, Applies, Effect, FromPutline, Mark, Unmarked, Performed;
    var n := 0;
    ok := true;
    while ok && n < |es|
      invariant 0 <= n <= |es|
      invariant l.Valid() && (l.zero == old(l.zero) || fresh(l.zero))
      invariant if ok then PerformedAll(State(l), es[n..]) == PerformedAll(old(State(l)), es)
                else (State(l), false) == PerformedAll(old(State(l)), es)
      decreases |es| - n
    {
      assert es[n..][1..] == es[n + 1..];
      ok := RunEdit(l, es[n]);
      n := n + 1;
    }
  }

  lemma {:induction false} ListUpdate(s: seq<int>, i: nat)
    requires i < |s| && Mark(s[i])
    ensures Marks(s[i := Clear(s[i])]) == Marks(s) - 1
  {
    var u := s[i := Clear(s[i])];
    assert s == s[..i] + [s[i]] + s[i + 1..] && u == s[..i] + [u[i]] + s[i + 1..];
    MarksConcat(s[..i] + [s[i]], s[i + 1..]);
    MarksConcat(s[..i], [s[i]]);
    MarksConcat(s[..i] + [u[i]], s[i + 1..]);
    MarksConcat(s[..i], [u[i]]);
    OneMark(s[i]);
    OneMark(u[i]);
  }

  /** The mark of line i is cleared, dot is set to it and the command list is run there. */
  method OneRound(l: Lines, i: nat, cmds: (nat, nat) -> seq<Edit>, n: nat) returns (ok: bool)
    requires l.Valid() && i <= l.dol && Mark(l.zero[i]) && (i > 0 ==> !Mark(l.zero[0]))
    requires AllFromPutline(cmds(n, i))
    modifies l, l.zero
    ensures l.Valid() && (l.zero == old(l.zero) || fresh(l.zero))
    ensures (State(l), ok) == PerformedAll(Unmark(old(State(l)), i), cmds(n, i))
    ensures ok ==> Marks(l.List()) < Marks(old(l.List())) && !Mark(l.zero[0])
  {
    hide Marks, AllFromPutline, Clear, PerformedAll, Mark;
    ghost var st := Unmark(State(l), i);
    ListUpdate(l.List(), i);
    ClearIsUnmarked(l.zero[i]);
    PutEntry(l, i, Clear(l.zero[i]));
    l.dot := i;
    PerformedMarks(st, cmds(n, i));
    ok := RunEdits(l, cmds(n, l.dot));
    assert l.zero[0] == l.List()[0];
  }

  /** The general loop of global: every time a marked line is found its mark is cleared, the
      command list runs with dot on it, and the scan starts over. */
  method Global(l: Lines, cmds: (nat, nat) -> seq<Edit>) returns (done: bool, rounds: nat)
    requires l.Valid() && forall n: nat, d: nat :: AllFromPutline(cmds(n, d))
    modifies l, l.zero
    ensures l.Valid() && (State(l), rounds, done) == Rounds(old(State(l)), cmds, 0)
    ensures rounds <= Marks(old(l.List())) && (done ==> Marks(l.List()) == 0)
  {
    hide Marks, AllFromPutline, Clear, Mark, Unmarked, PerformedAll, Unmark, Rounds, FirstMark;
    rounds := 0;
    done := true;
    var a1 := 0;
    while a1 <= l.dol
      invariant l.Valid() && (l.zero == old(l.zero) || fresh(l.zero)) && 0 <= a1 <= l.dol + 1 && done
      invariant Rounds(State(l), cmds, rounds) == Rounds(old(State(l)), cmds, 0)
      invariant forall k :: 0 <= k < a1 ==> !Mark(l.zero[k])
      decreases Marks(l.List()), l.dol - a1
    {
      if Mark(l.zero[a1]) {
        RoundsOn(State(l), cmds, rounds, a1);
        var ok := OneRound(l, a1, cmds, rounds);
        rounds := rounds + 1;
        if !ok {
          return false, rounds;
        }
        a1 := 0;
      }
      a1 := a1 + 1;
    }
    RoundsEnd(State(l), cmds, rounds);
  }

  lemma {:induction false} RoundsOn(st: Edited, cmds: (nat, nat) -> seq<Edit>, n: nat, i: nat)
    requires st.s != [] && !Mark(st.subolda) && forall k: nat, d: nat :: AllFromPutline(cmds(k, d))
    requires i < |st.s| && Mark(st.s[i]) && forall k :: 0 <= k < i ==> !Mark(st.s[k])
    ensures Marks(st.s) > 0
    ensures var (next, ok) := PerformedAll(Unmark(st, i), cmds(n, i));
      && (ok ==> next.s != [] && !Mark(next.subolda))
      && Rounds(st, cmds, n) == if ok then Rounds(next, cmds, n + 1) else (next, n + 1, false)
  {
    hide Marks, AllFromPutline, Clear, Mark, PerformedAll, FirstMark;
    FirstMarkIs(st.s, i);
    PerformedMarks(Unmark(st, i), cmds(n, i));
  }

  lemma {:induction false} RoundsEnd(st: Edited, cmds: (nat, nat) -> seq<Edit>, n: nat)
    requires st.s != [] && !Mark(st.subolda) && forall k: nat, d: nat :: AllFromPutline(cmds(k, d))
    requires forall k :: 0 <= k < |st.s| ==> !Mark(st.s[k])
    ensures Marks(st.s) == 0 && Rounds(st, cmds, n) == (st, n, true)
  {
    hide Marks, AllFromPutline, Mark;
    NoMarks(st.s);
  }

  lemma {:induction false} FirstMarkIs(s: seq<int>, i: nat)
    requires i < |s| && Mark(s[i]) && forall k :: 0 <= k < i ==> !Mark(s[k])
    ensures Marks(s) > 0 && FirstMark(s) == i
  {
    hide Marks, FirstMark;
    SomeMark(s, i);
  }

  lemma ClearIsUnmarked(h: int)
    ensures !Mark(Clear(h))
  {
  }

  // ----- the delete command, both ways

  lemma {:induction false} DropMarked(s: seq<int>, i: nat)
    requires 1 <= i < |s| && Mark(s[i])
    ensures Unmarked(Removed(s[i := Clear(s[i])], i, i)) == Unmarked(s)
    ensures Marks(Removed(s[i := Clear(s[i])], i, i)) == Marks(s) - 1
  {
    var c := s[i := Clear(s[i])];
    assert Removed(c, i, i) == s[..i] + s[i + 1..] && s == s[..i] + [s[i]] + s[i + 1..];
    UnmarkedConcat(s[..i], s[i + 1..]);
    UnmarkedConcat(s[..i] + [s[i]], s[i + 1..]);
    UnmarkedConcat(s[..i], [s[i]]);
    assert [s[i]][..0] == [];
    MarksConcat(s[..i], s[i + 1..]);
    MarksConcat(s[..i] + [s[i]], s[i + 1..]);
    MarksConcat(s[..i], [s[i]]);
    OneMark(s[i]);
  }

  /** Without the first marked entry the last one keeps its place, unless the two are one. */
  lemma {:induction false} DropFirst(s: seq<int>, i: nat)
    requires 1 <= i < |s| && Mark(s[i]) && forall k :: 0 <= k < i ==> !Mark(s[k])
    ensures Marks(s) > 0
    ensures var u := Removed(s[i := Clear(s[i])], i, i); LastGone(s) == if Marks(u) == 0 then i else LastGone(u)
  {
    hide Unmarked;
    var n := |s| - 1;
    DropMarked(s, i);
    if i == n {
      NoMarks(s[..n]);
    } else {
      var front := s[..n];
      DropFirst(front, i);
      DropMarked(front, i);
      DropsInFront(s, i);
    }
  }

  lemma {:induction false} DropsInFront(s: seq<int>, i: nat)
    requires 1 <= i < |s| - 1
    ensures var n := |s| - 1;
      Removed(s[i := Clear(s[i])], i, i) == Removed(s[..n][i := Clear(s[i])], i, i) + [s[n]]
  {
  }

  /** Deleting the first marked line round after round leaves the unmarked ones, and dot where the
      last one was. */
  lemma {:induction false} RoundsDelete(st: Edited, cmds: (nat, nat) -> seq<Edit>, n: nat)
    requires st.s != [] && !Mark(st.s[0]) && !Mark(st.subolda)
    requires forall k: nat, d: nat :: cmds(k, d) == [Delete(d, d)]
    ensures forall k: nat, d: nat :: AllFromPutline(cmds(k, d))
    ensures var u := Unmarked(st.s);
      Rounds(st, cmds, n) == (st.(s := u, dot := SlowDot(st.s, st.dot)), n + Marks(st.s), true)
    decreases Marks(st.s)
  {
    hide Marks, FirstMark, Mark, Clear, Unmarked, Removed, LastGone;
    OnlyDeletes(cmds);
    if Marks(st.s) == 0 {
      NoneMarked(st.s);
      NoMarks(st.s);
    } else {
      var i := FirstMark(st.s);
      assert i > 0;
      DropMarked(st.s, i);
      DropFirst(st.s, i);
      var c := st.s[i := Clear(st.s[i])];
      RemovedHead(c, i);
      OneDelete(Unmark(st, i), i);
      var next := PerformedAll(Unmark(st, i), cmds(n, i)).0;
      RoundsDelete(next, cmds, n + 1);
      if Marks(next.s) == 0 {
        NoneMarked(next.s);
        NoMarks(next.s);
      }
    }
  }

  lemma OnlyDeletes(cmds: (nat, nat) -> seq<Edit>)
    requires forall k: nat, d: nat :: cmds(k, d) == [Delete(d, d)]
    ensures forall k: nat, d: nat :: AllFromPutline(cmds(k, d))
  {
  }

  lemma {:induction false} OneDelete(st: Edited, i: nat)
    requires 1 <= i < |st.s|
    ensures var u := Removed(st.s, i, i);
      PerformedAll(st, [Delete(i, i)]) == (st.(s := u, dot := if i > |u| - 1 then |u| - 1 else i), true)
  {
    hide Removed;
    assert PerformedAll(Performed(st, Delete(i, i)), []) == (Performed(st, Delete(i, i)), true);
    assert [Delete(i, i)][1..] == [];
  }

  /** The general loop of global with the command d: one marked line is deleted at a time and
      the scan restarts. It leaves the same lines as gdelete. */
  method SlowDelete(l: Lines) returns (rounds: nat)
    requires l.Valid() && !Mark(l.zero[0])
    modifies l, l.zero
    ensures l.Valid() && l.List() == Unmarked(old(l.List())) && rounds == Marks(old(l.List()))
    ensures l.dot == SlowDot(old(l.List()), old(l.dot))
  {
    hide Marks, Mark, Clear, Unmarked, Removed, Rounds, AllFromPutline, SlowDot;
    var cmds: (nat, nat) -> seq<Edit> := (k: nat, d: nat) => [Delete(d, d)];
    RoundsDelete(State(l), cmds, 0);
    var done;
    done, rounds := Global(l, cmds);
  }

  lemma {:induction false} RemovedHead(s: seq<int>, i: nat)
    requires 1 <= i < |s|
    ensures |Removed(s, i, i)| == |s| - 1 && Removed(s, i, i)[0] == s[0]
  {
  }

  /** The marking loop of global: lines in addr1..addr2 whose match agrees with k. No
      pattern matches the slot before the first line. */
  method MarkMatching(l: Lines, addr1: nat, addr2: int, matches: seq<bool>, k: bool)
    requires l.Valid() && |matches| == l.dol + 1 && !matches[0]
    modifies l.zero
    ensures l.Valid() && |l.List()| == |old(l.List())|
    ensures forall i :: 0 <= i <= l.dol ==> Clear(l.zero[i]) == Clear(old(l.zero[i]))
    ensures forall i :: 0 <= i <= l.dol ==> (Mark(l.zero[i]) <==> addr1 <= i <= addr2 && matches[i] == k)
  {
    var a1 := 0;
    while a1 <= l.dol
      invariant l.Valid() && 0 <= a1 <= l.dol + 1
      invariant forall i :: a1 <= i <= l.dol ==> l.zero[i] == old(l.zero[i])
      invariant forall i :: 0 <= i < a1 ==> Clear(l.zero[i]) == Clear(old(l.zero[i]))
      invariant forall i :: 0 <= i < a1 ==> (Mark(l.zero[i]) <==> addr1 <= i <= addr2 && matches[i] == k)
    {
      l.zero[a1] := Clear(l.zero[a1]);
      if addr1 <= a1 <= addr2 && matches[a1] == k {
        l.zero[a1] := l.zero[a1] + 1;
      }
      a1 := a1 + 1;
    }
  }

  lemma {:induction false} UnmarkedKeeps(s: seq<int>, k: nat)
    requires k < |s| && !Mark(s[k])
    ensures Unmarked(s) != []
  {
    if k < |s| - 1 {
      UnmarkedKeeps(s[..|s| - 1], k);
    }
  }

  /** The entries of s outside addr1..addr2, and those inside whose match is not k, unmarked. */
  function Survivors(s: seq<int>, addr1: nat, addr2: int, matches: seq<bool>, k: bool): seq<int>
    requires |s| <= |matches|
  {
    if s == [] then []
    else
      var n := |s| - 1;
      Survivors(s[..n], addr1, addr2, matches, k)
      + (if addr1 <= n <= addr2 && matches[n] == k then [] else [Clear(s[n])])
  }

  /** The marked lines are the ones that are not to survive. */
  lemma {:induction false} SurvivorsAre(s: seq<int>, t: seq<int>, addr1: nat, addr2: int, matches: seq<bool>, k: bool)
    requires |t| == |s| <= |matches|
    requires forall i :: 0 <= i < |s| ==> Clear(t[i]) == Clear(s[i])
    requires forall i :: 0 <= i < |s| ==> (Mark(t[i]) <==> addr1 <= i <= addr2 && matches[i] == k)
    ensures Unmarked(t) == Survivors(s, addr1, addr2, matches, k)
  {
    if s != [] {
      SurvivorsAre(s[..|s| - 1], t[..|s| - 1], addr1, addr2, matches, k);
    }
  }

  /** g/re/d and v/re/d, with the addresses squeeze accepts: the lines that are to go are gone,
      and no others. dol ends below zero exactly when a v command meets an empty buffer. */
  method GlobalDelete(l: Lines, addr1: nat, addr2: nat, matches: seq<bool>, k: bool)
    requires l.Valid() && |matches| == l.dol + 1 && !matches[0]
    requires (if l.dol > 0 then 1 else 0) <= addr1 <= addr2 <= l.dol
    modifies l`dol, l`dot, l`fchange, l.zero
    ensures -1 <= l.dol < l.zero.Length && l.List() == Survivors(old(l.List()), addr1, addr2, matches, k)
    ensures l.dol < 0 <==> old(l.dol) == 0 && !k
    ensures old(l.dot) <= old(l.dol) ==> l.dot <= l.dol
  {
    hide Survivors;
    MarkMatching(l, addr1, addr2, matches, k);
    ghost var s := l.List();
    SurvivorsAre(old(l.List()), s, addr1, addr2, matches, k);
    if l.dol == 0 && !k {
      assert Mark(s[0]) && s[..0] == [];
    } else {
      UnmarkedKeeps(s, 0);
    }
    l.Gdelete();
  }
}
