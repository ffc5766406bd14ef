/** Commands that read lines from the store and put new ones into it: join and the copying move. */
module LineText {
  import opened LineStore
  import opened LineArray
  import opened GlobalCommand

  /** What getline answers for handle g: its line, or where the mark of the global command is set
      the line without its first rune. Of an empty line with its mark set nothing is said here. */
  function Text(lines: map<int, seq<Rune>>, g: int): seq<Rune>
    requires Clear(g) in lines
  {
    var l := lines[Clear(g)];
    if Mark(g) && l != [] then l[1..] else l
  }

  function Concat(ts: seq<seq<Rune>>): seq<Rune> {
    if ts == [] then [] else Concat(ts[..|ts| - 1]) + ts[|ts| - 1]
  }

  /** Reading the entries of s from i on gives ts. */
  ghost predicate Reads(c: Cache, s: seq<int>, i: nat, ts: seq<seq<Rune>>) {
    i + |ts| <= |s| && forall k :: 0 <= k < |ts| ==> ReadsAs(c, s[i + k], ts[k])
  }

  /** A handle of a line reads as its text, marked or not, unless it is marked and the line is
      empty; then it reads as the line exactly when a zero stands there. */
  lemma {:induction false} TextReads(st: Store, g: int)
    requires st.Sound() && Clear(g) in st.lines
    ensures !Mark(g) || st.lines[Clear(g)] != [] ==>
      ReadsAs(st.View(), g, Text(st.lines, g)) && g + |Text(st.lines, g)| < st.tline
    ensures Mark(g) && st.lines[Clear(g)] == [] ==> (ReadsAs(st.View(), g, []) <==> Cell(st.View(), g) == 0)
  {
    hide Written, Coherent, Cell;
    var h := Clear(g);
    MarkedReads(st.View(), st.tline, st.lines, h);
    assert HoldsIn(st.View(), st.tline, h, st.lines[h]);
    assert g == if Mark(g) then h + 1 else h;
  }

  predicate HasText(lines: map<int, seq<Rune>>, g: int, t: seq<Rune>) {
    Clear(g) in lines && (!Mark(g) || lines[Clear(g)] != []) && t == Text(lines, g)
  }

  /** So reading a range of lines gives their texts. */
  lemma {:induction false} RangeReads(st: Store, s: seq<int>, i: nat, ts: seq<seq<Rune>>)
    requires st.Sound() && i + |ts| <= |s|
    requires forall k :: 0 <= k < |ts| ==> HasText(st.lines, s[i + k], ts[k])
    ensures Reads(st.View(), s, i, ts) && Ends(s, i, ts, st.tline)
  {
    hide ReadsAs, Text, Store.Sound, Mark, Clear;
    forall k | 0 <= k < |ts| ensures ReadsAs(st.View(), s[i + k], ts[k]) && s[i + k] + |ts[k]| < st.tline {
      assert HasText(st.lines, s[i + k], ts[k]);
      TextReads(st, s[i + k]);
    }
  }

  /** The runes read lie below end. */
  ghost predicate Ends(s: seq<int>, i: nat, ts: seq<seq<Rune>>, end: int) {
    i + |ts| <= |s| && forall k :: 0 <= k < |ts| ==> s[i + k] + |ts[k]| < end
  }

  // ----- reading

  /** All positions there are, and those of all lines. */
  ghost function Everything(st: Store): int
    reads st
  {
    if st.tline > PER * NBLK then st.tline else PER * NBLK
  }

  lemma {:induction false} WithinFile(c: Cache, g: int, l: seq<Rune>)
    requires Coherent(c) && ReadsAs(c, g, l)
    ensures g + |l| < PER * NBLK
  {
    hide Coherent;
    AtRune(c, g, l + [0], |l|);
    BelowBlock(g + |l|, NBLK);
  }

  lemma {:induction false} ReadsKept(c: Cache, d: Cache, lim: int, g: int, l: seq<Rune>)
    requires ReadsAs(c, g, l) && Kept(c, d, lim) && g + |l| < lim
    ensures ReadsAs(d, g, l)
  {
    hide Kept, Written;
    WrittenKept(c, d, g, l + [0], lim);
  }

  /** getline at g, and the runes it left before the zero. */
  method FetchAs(st: Store, g: int, ghost l: seq<Rune>) returns (line: seq<Rune>)
    requires st.Valid() && ReadsAs(st.View(), g, l)
    modifies st, st.linebuf, st.ibuff
    ensures st.Valid() && st.lines == old(st.lines) && st.tline == old(st.tline) && line == l
    ensures Kept(old(st.View()), st.View(), Everything(st))
  {
    hide Written, Coherent, Kept, AllHold;
    WithinFile(st.View(), g, l);
    st.GetAs(g, l, Everything(st));
    line := ReadBack(st.linebuf, l);
  }

  lemma {:induction false} ReadsStill(c: Cache, d: Cache, lim: int, s: seq<int>, i: nat, ts: seq<seq<Rune>>)
    requires Coherent(c) && Reads(c, s, i, ts) && Kept(c, d, lim) && lim >= PER * NBLK
    ensures Reads(d, s, i, ts)
  {
    hide ReadsAs, Kept, Coherent;
    forall k | 0 <= k < |ts| ensures ReadsAs(d, s[i + k], ts[k]) {
      WithinFile(c, s[i + k], ts[k]);
      ReadsKept(c, d, lim, s[i + k], ts[k]);
    }
  }

  // ----- join

  lemma {:induction false} ConcatNext(ts: seq<seq<Rune>>, n: nat)
    requires n < |ts|
    ensures Concat(ts[..n + 1]) == Concat(ts[..n]) + ts[n]
  {
    assert ts[..n + 1][..n] == ts[..n];
  }

  lemma {:induction false} ConcatGrows(ts: seq<seq<Rune>>, n: nat)
    requires n <= |ts|
    ensures |Concat(ts[..n])| <= |Concat(ts)|
    decreases |ts| - n
  {
    if n < |ts| {
      ConcatNext(ts, n);
      ConcatGrows(ts, n + 1);
    } else {
      assert ts[..n] == ts;
    }
  }

  lemma NoText(ts: seq<seq<Rune>>)
    ensures Concat(ts[..0]) == []
  {
  }

  /** The longest line a join makes. */
  const JOINED := LBSIZE - 4

  /** The first loop of join: what is read of the lines addr1..addr2 one after the other; false
      when that is too long. */
  method Gather(st: Store, l: Lines, addr1: nat, addr2: nat, ghost ts: seq<seq<Rune>>)
    returns (ok: bool, genbuf: seq<Rune>)
    requires st.Valid() && l.Valid() && 1 <= addr1 <= addr2 <= l.dol
    requires |ts| == addr2 - addr1 + 1 && Reads(st.View(), l.List(), addr1, ts)
    modifies st, st.linebuf, st.ibuff
    ensures st.Valid() && st.lines == old(st.lines) && st.tline == old(st.tline)
    ensures ok == (|Concat(ts)| <= JOINED) && (ok ==> genbuf == Concat(ts))
  {
    hide Store.Valid, Concat, ReadsAs, Kept;
    ghost var s := l.List();
    genbuf := [];
    ok := true;
    var a1 := addr1;
    NoText(ts);
    while a1 <= addr2 && ok
      invariant addr1 <= a1 <= addr2 + 1 && st.Valid() && st.lines == old(st.lines) && st.tline == old(st.tline)
      invariant Reads(st.View(), s, addr1, ts) && l.Valid() && l.List() == s
      invariant ok ==> genbuf == Concat(ts[..a1 - addr1]) && |genbuf| <= JOINED
      invariant !ok ==> |Concat(ts)| > JOINED
    {
      ConcatNext(ts, a1 - addr1);
      ConcatGrows(ts, a1 - addr1 + 1);
      ValidCoheres(st);
      ghost var c := st.View();
      assert s[addr1 + (a1 - addr1)] == l.zero[a1];
      var line := FetchAs(st, l.zero[a1], ts[a1 - addr1]);
      ReadsStill(c, st.View(), Everything(st), s, addr1, ts);
      genbuf := genbuf + line;
      ok := |genbuf| <= JOINED;
      a1 := a1 + 1;
    }
    ConcatGrows(ts, |ts|);
    assert ts[..|ts|] == ts;
  }

  lemma ValidCoheres(st: Store)
    requires st.Valid()
    ensures Coherent(st.View())
  {
  }

  /** join: the line at addr1 becomes what is read of all of them, one after the other; false when
      that is too long, or the file is full. */
  method Join(st: Store, l: Lines, addr1: nat, addr2: nat, ghost ts: seq<seq<Rune>>) returns (ok: bool)
    requires st.Valid() && l.Valid() && 1 <= addr1 <= addr2 <= l.dol
    requires |ts| == addr2 - addr1 + 1 && Reads(st.View(), l.List(), addr1, ts)
    modifies st, st.linebuf, st.ibuff, st.obuff, l, l.zero
    ensures l.Valid() && st.Sound()
    ensures var s, t := old(l.List()), LineOf(Concat(ts));
      && ok == (|Concat(ts)| <= JOINED && (old(st.tline) + |t|) / PER < NBLK)
      && (!ok ==> l.List() == s && st.lines == old(st.lines))
      && (ok ==>
            var h := old(st.tline);
            && st.Valid() && h !in old(st.lines) && st.lines == old(st.lines)[h := t]
            && l.dot == addr1
            && l.List() == if addr1 < addr2 then Removed(s[addr1 := h], addr1 + 1, addr2) else s[addr1 := h])
  {
    hide Store.Valid, Store.Sound, Concat, LineOf, Removed, Written, Reads, Kept, Spared, Begun;
    ghost var s := l.List();
    var t;
    ok, t := Gather(st, l, addr1, addr2, ts);
    assert l.List() == s;
    ValidIsSound(st);
    if ok {
      var h;
      ok, h := StoreText(st, t);
      if ok {
        JoinLines(l, addr1, addr2, h);
      }
    }
  }

  /** What is read of lines is a line, so it is stored as it is. */
  lemma {:induction false} ConcatIsLine(ts: seq<seq<Rune>>)
    requires forall i :: 0 <= i < |ts| ==> OneLine(ts[i])
    ensures LineOf(Concat(ts)) == Concat(ts)
  {
    ConcatOneLine(ts);
    WholeLine(Concat(ts));
  }

  lemma {:induction false} ConcatOneLine(ts: seq<seq<Rune>>)
    requires forall i :: 0 <= i < |ts| ==> OneLine(ts[i])
    ensures OneLine(Concat(ts))
  {
    if ts != [] {
      ConcatOneLine(ts[..|ts| - 1]);
    }
  }

  // ----- copying

  /** A put keeps what is read below it, as long as none has failed. */
  lemma {:induction false} ReadsPast(c: Cache, d: Cache, end: int, s: seq<int>, i: nat, ts: seq<seq<Rune>>)
    requires Coherent(c) && FileBelow(c) && c.iblock <= c.oblock <= end / PER && 0 <= end
    requires Reads(c, s, i, ts) && Ends(s, i, ts, end) && Kept(Begun(c, end), d, end)
    ensures Reads(d, s, i, ts)
  {
    hide ReadsAs, Kept, Coherent, Begun;
    forall k | 0 <= k < |ts| ensures ReadsAs(d, s[i + k], ts[k]) {
      BegunReads(c, end, s[i + k], ts[k]);
      ReadsKept(Begun(c, end), d, end, s[i + k], ts[k]);
    }
  }

  lemma {:induction false} BegunReads(c: Cache, end: int, g: int, l: seq<Rune>)
    requires Coherent(c) && FileBelow(c) && c.iblock <= c.oblock <= end / PER && ReadsAs(c, g, l) && 0 <= end
    ensures ReadsAs(Begun(c, end), g, l)
  {
    hide Coherent, Cell, Opened;
    var m := l + [0];
    if end / PER < NBLK {
      forall i | 0 <= i < |m| ensures Rests(Begun(c, end), g, m, i) {
        AtRune(c, g, m, i);
        OpenAt(c, end / PER, g + i);
      }
    }
  }

  /** getcopy and the putline after it: what is read of entry i + k is stored. */
  method CopyOne(st: Store, g: int, ghost k: nat, ghost s: seq<int>, ghost i: nat, ghost ts: seq<seq<Rune>>)
    returns (ok: bool, copy: int)
    requires st.Valid() && Reads(st.View(), s, i, ts) && k < |ts| && g == s[i + k] && Ends(s, i, ts, st.tline)
    modifies st, st.linebuf, st.ibuff, st.obuff
    ensures st.Sound() && copy == old(st.tline) >= 2 && ok == ((copy + |LineOf(ts[k])|) / PER < NBLK)
    ensures ok ==>
      && st.Valid() && copy !in old(st.lines) && st.lines == old(st.lines)[copy := LineOf(ts[k])]
      && st.tline == copy + RoundUp(|LineOf(ts[k])| + 1)
    ensures !ok ==> st.lines == old(st.lines) && st.tline == copy
    ensures Reads(st.View(), s, i, ts) && Ends(s, i, ts, st.tline)
  {
    hide Written, LineOf, Kept, AllHold, Coherent, Safe, Begun, ReadsAs, Spared, FileBelow;
    ghost var c, l := st.View(), ts[k];
    WithinFile(c, g, l);
    Short(c, g, l);
    st.GetAs(g, l, Everything(st));
    ghost var d := st.View();
    ReadsStill(c, d, Everything(st), s, i, ts);
    LineOfBuffer(st.linebuf[..], l);
    ok, copy := st.Putline();
    ReadsPast(d, st.View(), copy, s, i, ts);
  }

  lemma Short(c: Cache, g: int, l: seq<Rune>)
    requires ReadsAs(c, g, l)
    ensures |l| < LBSIZE
  {
  }

  /** hs are new handles, of lines with the texts ts; the lines there were are still there. */
  ghost predicate Copied(lines: map<int, seq<Rune>>, lines': map<int, seq<Rune>>, ts: seq<seq<Rune>>, hs: seq<int>) {
    && |hs| <= |ts|
    && (forall g :: g in lines ==> g in lines' && lines'[g] == lines[g])
    && (forall k :: 0 <= k < |hs| ==> hs[k] !in lines && hs[k] in lines' && lines'[hs[k]] == LineOf(ts[k]))
  }

  lemma {:induction false} CopiedMore(lines: map<int, seq<Rune>>, lines': map<int, seq<Rune>>,
      lines'': map<int, seq<Rune>>, ts: seq<seq<Rune>>, hs: seq<int>, copy: int)
    requires Copied(lines, lines', ts, hs) && |hs| < |ts|
    requires copy !in lines' && lines'' == lines'[copy := LineOf(ts[|hs|])]
    ensures Copied(lines, lines'', ts, hs + [copy])
  {
    hide LineOf;
  }

  /** The copying form of move: what is read of addr1..addr2 is stored again and the new lines put
      after adt. When the file is full the copies made until then stay at the end. */
  method CopyLines(st: Store, l: Lines, addr1: nat, addr2: nat, adt: nat, ghost ts: seq<seq<Rune>>)
    returns (ok: bool, hs: seq<int>)
    requires st.Valid() && l.Valid() && 1 <= addr1 <= addr2 <= l.dol && adt <= l.dol
    requires |ts| == addr2 - addr1 + 1 && Reads(st.View(), l.List(), addr1, ts) && Ends(l.List(), addr1, ts, st.tline)
    modifies st, st.linebuf, st.ibuff, st.obuff, l, l.zero
    ensures l.Valid() && st.Sound() && ok == (|hs| == |ts|)
    ensures Copied(old(st.lines), st.lines, ts, hs)
    ensures ok ==> st.Valid() && l.List() == Inserted(old(l.List()), adt, hs) && l.dot == adt + |hs|
    ensures !ok ==>
      |hs| < |ts| && l.List() == old(l.List()) + hs && (st.tline + |LineOf(ts[|hs|])|) / PER >= NBLK
  {
    hide Store.Valid, Store.Sound, Copied, Inserted, LineOf, Reads, Ends;
    ghost var s, lines := l.List(), st.lines;
    hs := [];
    ok := true;
    var a1 := addr1;
    NoneCopied(lines, ts);
    ValidIsSound(st);
    while a1 <= addr2 && ok
      invariant addr1 <= a1 <= addr2 + 1 && st.Sound() && (ok ==> st.Valid()) && Copied(lines, st.lines, ts, hs)
      invariant if ok then |hs| == a1 - addr1 else |hs| == a1 - addr1 - 1
      invariant !ok ==> |hs| < |ts| && (st.tline + |LineOf(ts[|hs|])|) / PER >= NBLK
      invariant l.Valid() && l.List() == s && l.zero == old(l.zero)
      invariant Reads(st.View(), s, addr1, ts) && Ends(s, addr1, ts, st.tline)
    {
      ghost var before := st.lines;
      assert l.zero[a1] == s[addr1 + |hs|];
      var copy;
      ok, copy := CopyOne(st, l.zero[a1], |hs|, s, addr1, ts);
      if ok {
        CopiedMore(lines, before, st.lines, ts, hs, copy);
        hs := hs + [copy];
      }
      a1 := a1 + 1;
    }
    if ok {
      l.Copy(hs, adt);
    } else {
      l.Append(hs, l.dol);
      AtEnd(s, hs);
    }
  }

  lemma NoneCopied(lines: map<int, seq<Rune>>, ts: seq<seq<Rune>>)
    ensures Copied(lines, lines, ts, [])
  {
  }

  lemma {:induction false} AtEnd(s: seq<int>, hs: seq<int>)
    requires s != []
    ensures Inserted(s, |s| - 1, hs) == s + hs
  {
  }
}
