/** ed's line store: lines appended to a temporary file through a two-buffer block cache. */
module LineStore {

  type Rune = x: int | 0 <= x < 0x1_0000_0000

  const NEWLINE: Rune := 10
  const LBSIZE := 4096
  /** Runes in a block, BLKSIZE/sizeof(Rune). */
  const PER := 1024
  const NBLK := 8191

  /** The runes before the first zero or newline. */
  function LineOf(s: seq<Rune>): (r: seq<Rune>)
    ensures |r| <= |s| && r == s[..|r|]
    ensures forall i :: 0 <= i < |r| ==> r[i] != 0 && r[i] != NEWLINE
    ensures |r| < |s| ==> s[|r|] == 0 || s[|r|] == NEWLINE
  {
    if s == [] || s[0] == 0 || s[0] == NEWLINE then [] else [s[0]] + LineOf(s[1..])
  }

  lemma {:induction false} RuneAt(s: seq<Rune>, i: nat)
    requires |LineOf(s)| < |s| && i <= |LineOf(s)|
    ensures i < |LineOf(s)| ==> s[i] == LineOf(s)[i] && s[i] != 0 && s[i] != NEWLINE
    ensures i == |LineOf(s)| ==> s[i] == 0 || s[i] == NEWLINE
  {
  }

  lemma {:induction false} LineRunes(s: seq<Rune>)
    ensures OneLine(LineOf(s))
  {
  }

  lemma {:induction false} LineOfIs(s: seq<Rune>, n: nat)
    requires n < |s| && (s[n] == 0 || s[n] == NEWLINE)
    requires forall i :: 0 <= i < n ==> s[i] != 0 && s[i] != NEWLINE
    ensures LineOf(s) == s[..n]
  {
    if n > 0 {
      LineOfIs(s[1..], n - 1);
      assert s[..n] == [s[0]] + s[1..][..n - 1];
    }
  }

  // ----- the cache as a value

  /** The temporary file and the two buffers in front of it. */
  datatype Cache = Cache(file: map<int, seq<Rune>>, iblock: int, ibuff: seq<Rune>, ichanged: bool,
                         oblock: int, obuff: seq<Rune>)

  /** Block b is in one of the buffers. */
  predicate Held(c: Cache, b: int) {
    b == c.iblock || b == c.oblock
  }

  predicate Has(c: Cache, b: int) {
    Held(c, b) || b in c.file
  }

  /** What position q of the store holds, wherever its block is. */
  function Cell(c: Cache, q: int): Rune {
    var b, k := q / PER, q % PER;
    if b == c.iblock && |c.ibuff| == PER then c.ibuff[k]
    else if b == c.oblock && |c.obuff| == PER then c.obuff[k]
    else if b in c.file && |c.file[b]| == PER then c.file[b][k]
    else 0
  }

  /** No block is in both buffers, and the input buffer is its block of the file unless changed. */
  ghost predicate Coherent(c: Cache) {
    && |c.ibuff| == PER && |c.obuff| == PER && (forall b :: b in c.file ==> 0 <= b < NBLK && |c.file[b]| == PER)
    && -1 <= c.iblock < NBLK && -1 <= c.oblock < NBLK && (c.iblock == c.oblock ==> c.iblock == -1)
    && (c.ichanged ==> c.iblock >= 0)
    && (c.iblock >= 0 && !c.ichanged ==> c.iblock in c.file && c.file[c.iblock] == c.ibuff)
  }

  /** A file after a block is written back, when it is. */
  function Flushed(f: map<int, seq<Rune>>, b: int, s: seq<Rune>, dirty: bool): map<int, seq<Rune>> {
    if dirty then f[b := s] else f
  }

  /** What getblock makes of the cache. A block opened for writing is not read in: when neither
      buffer held it, the output buffer keeps what the previous block left there. */
  function Opened(c: Cache, b: int, write: bool): Cache {
    if b == c.iblock then c.(ichanged := c.ichanged || write)
    else if b == c.oblock then c
    else if write then c.(file := Flushed(c.file, c.oblock, c.obuff, c.oblock >= 0), oblock := b)
    else
      var f := Flushed(c.file, c.iblock, c.ibuff, c.ichanged);
      c.(file := f, ichanged := false, iblock := b, ibuff := if b in f then f[b] else c.ibuff)
  }

  /** Every position below lim reads as it did. */
  ghost predicate Kept(c: Cache, d: Cache, lim: int) {
    forall q :: 0 <= q < lim ==> Cell(d, q) == Cell(c, q) && (Has(c, q / PER) ==> Has(d, q / PER))
  }

  /** The file has no block from the output block on. */
  ghost predicate FileBelow(c: Cache) {
    forall b :: b in c.file ==> b < c.oblock
  }

  /** Both buffers are where a store without failures has them. */
  ghost predicate Settled(c: Cache) {
    FileBelow(c) && (c.iblock == -1 || c.iblock < c.oblock)
  }

  lemma {:induction false} ReadSettled(c: Cache, b: int)
    requires Coherent(c) && 0 <= b && Has(c, b)
    ensures Settled(c) ==> Settled(Opened(c, b, false))
  {
  }

  lemma {:induction false} BegunBelow(c: Cache, h: int)
    requires Coherent(c) && 0 <= h
    ensures FileBelow(c) && c.oblock <= h / PER ==> FileBelow(Begun(c, h)) && Begun(c, h).oblock <= h / PER
  {
    hide FileBelow, Coherent;
    if h / PER < NBLK && FileBelow(c) && c.oblock <= h / PER {
      OpenBelow(c, h / PER);
    }
  }

  lemma {:induction false} OpenBelow(c: Cache, b: int)
    requires Coherent(c) && FileBelow(c) && 0 <= b && c.oblock <= b
    ensures FileBelow(Opened(c, b, true)) && Opened(c, b, true).oblock <= b
  {
  }

  /** Nothing but the n positions from h on may read differently. */
  ghost predicate Spared(c: Cache, d: Cache, h: int, n: nat) {
    forall q :: 0 <= q && !(h <= q < h + n) ==> Cell(d, q) == Cell(c, q) && (Has(c, q / PER) ==> Has(d, q / PER))
  }

  /** Rune i of l stands at h + i. */
  ghost predicate Rests(c: Cache, h: int, l: seq<Rune>, i: nat) {
    i < |l| && Cell(c, h + i) == l[i] && Has(c, (h + i) / PER)
  }

  /** The runes of l stand at h, h + 1, ... */
  ghost predicate Written(c: Cache, h: int, l: seq<Rune>) {
    forall i :: 0 <= i < |l| ==> Rests(c, h, l, i)
  }

  /** What putline makes a line of: neither zeros nor newlines. */
  ghost predicate OneLine(l: seq<Rune>) {
    forall i :: 0 <= i < |l| ==> l[i] != 0 && l[i] != NEWLINE
  }

  /** The line l stands at handle h, ended by a zero, below end. */
  ghost predicate HoldsIn(c: Cache, end: int, h: int, l: seq<Rune>) {
    && 2 <= h && h % 2 == 0 && |l| < LBSIZE && h + |l| < end
    && OneLine(l) && Written(c, h, l + [0])
  }

  /** Read from position g up to the next zero the store gives l. */
  ghost predicate ReadsAs(c: Cache, g: int, l: seq<Rune>) {
    0 <= g && |l| < LBSIZE && (forall i :: 0 <= i < |l| ==> l[i] != 0) && Written(c, g, l + [0])
  }

  ghost predicate AllHold(c: Cache, end: int, lines: map<int, seq<Rune>>) {
    forall h :: h in lines ==> HoldsIn(c, end, h, lines[h])
  }

  /** Where rune i of the line l at g lies in the block of h, the output buffer has that rune. */
  ghost predicate AgreesAt(c: Cache, h: int, g: int, l: seq<Rune>, i: nat) {
    i <= |l| && ((g + i) / PER == h / PER ==> |c.obuff| == PER && c.obuff[(g + i) % PER] == (l + [0])[i])
  }

  /** No line has a rune in the block of h other than the one the output buffer has there. */
  ghost predicate Agrees(c: Cache, lines: map<int, seq<Rune>>, h: int) {
    forall g, i :: g in lines && 0 <= i <= |lines[g]| ==> AgreesAt(c, h, g, lines[g], i)
  }

  /** Opening the block of h to write there harms no line: it is past the end, or in a buffer, or
      the output buffer happens to hold what matters of it. */
  ghost predicate Safe(c: Cache, lines: map<int, seq<Rune>>, h: int) {
    h / PER >= NBLK || Held(c, h / PER) || Agrees(c, lines, h)
  }

  /** The cache once the block of h is open for writing, if there is such a block. */
  function Begun(c: Cache, h: int): Cache {
    if h / PER >= NBLK then c else Opened(c, h / PER, true)
  }

  lemma {:induction false} OpenToRead(c: Cache, b: int, lim: int)
    requires Coherent(c) && 0 <= b < NBLK && Has(c, b)
    ensures var d := Opened(c, b, false);
      && Coherent(d) && Held(d, b) && d.oblock == c.oblock && Kept(c, d, lim)
      && (d.iblock == c.iblock || d.iblock == b)
  {
    var d := Opened(c, b, false);
    forall q | 0 <= q < lim ensures Cell(d, q) == Cell(c, q) && (Has(c, q / PER) ==> Has(d, q / PER)) {
    }
  }

  lemma {:induction false} OpenToWrite(c: Cache, b: int)
    requires Coherent(c) && 0 <= b < NBLK
    ensures var d := Opened(c, b, true);
      && Coherent(d) && Held(d, b) && (b == d.iblock ==> d.ichanged)
      && (forall q :: 0 <= q && q / PER != b ==> Cell(d, q) == Cell(c, q) && (Has(c, q / PER) ==> Has(d, q / PER)))
      && (forall q :: 0 <= q && q / PER == b ==> Cell(d, q) == if Held(c, b) then Cell(c, q) else c.obuff[q % PER])
  {
  }

  lemma {:induction false} KeptTwice(c: Cache, d: Cache, e: Cache, lim: int, lim1: int)
    requires Kept(c, d, lim) && Kept(d, e, lim1) && lim <= lim1
    ensures Kept(c, e, lim)
  {
    hide Cell, Has;
  }

  lemma {:induction false} WrittenKept(c: Cache, d: Cache, h: int, l: seq<Rune>, lim: int)
    requires Written(c, h, l) && Kept(c, d, lim) && 0 <= h && h + |l| <= lim
    ensures Written(d, h, l)
  {
    hide Cell, Has;
    forall i | 0 <= i < |l| ensures Rests(d, h, l, i) {
      assert Rests(c, h, l, i);
      KeptAt(c, d, lim, h + i);
    }
  }

  /** The cache with rune d at place k of block b, which a buffer holds. */
  function Put1(c: Cache, b: int, k: nat, d: Rune): Cache
    requires k < |c.ibuff| && k < |c.obuff|
  {
    if b == c.iblock then c.(ibuff := c.ibuff[k := d]) else c.(obuff := c.obuff[k := d])
  }

  lemma {:induction false} CellPut(c: Cache, b: int, k: nat, d: Rune)
    requires Coherent(c) && 0 <= b && Held(c, b) && (b == c.iblock ==> c.ichanged) && k < PER
    ensures var e := Put1(c, b, k, d);
      && Coherent(e) && Cell(e, PER * b + k) == d && Has(e, (PER * b + k) / PER)
      && (forall q :: 0 <= q && q != PER * b + k ==> Cell(e, q) == Cell(c, q))
      && (forall x :: Has(c, x) <==> Has(e, x))
  {
    Aligned(b);
    InBlock(PER * b, k);
    var e := Put1(c, b, k, d);
    forall q | 0 <= q && q != PER * b + k ensures Cell(e, q) == Cell(c, q) {
      assert q == PER * (q / PER) + q % PER;
    }
  }

  /** Writing the next rune of the line l at h. */
  lemma {:induction false} PutCell(base: Cache, c: Cache, b: int, k: nat, d: Rune, h: int, l: seq<Rune>, lp: nat)
    requires Coherent(c) && 0 <= b && Held(c, b) && (b == c.iblock ==> c.ichanged) && k < PER
    requires 0 <= h && lp < |l| && PER * b + k == h + lp && d == l[lp]
    requires Kept(base, c, h) && Written(c, h, l[..lp])
    ensures var e := Put1(c, b, k, d); Coherent(e) && Kept(base, e, h) && Written(e, h, l[..lp + 1])
  {
    hide Cell, Has, Coherent;
    CoherentSizes(c);
    CellPut(c, b, k, d);
    var e := Put1(c, b, k, d);
    var m := l[..lp + 1];
    forall i | 0 <= i < |m| ensures Rests(e, h, m, i) {
      if i < lp {
        assert Rests(c, h, l[..lp], i);
        assert h + i != PER * b + k;
      } else {
        assert h + i == PER * b + k;
      }
    }
  }

  lemma {:induction false} PutSpared(base: Cache, c: Cache, b: int, k: nat, d: Rune, h: int, lp: nat)
    requires Coherent(c) && 0 <= b && Held(c, b) && (b == c.iblock ==> c.ichanged) && k < PER
    requires 0 <= h && PER * b + k == h + lp && Spared(base, c, h, lp)
    ensures |c.ibuff| == PER == |c.obuff| && Spared(base, Put1(c, b, k, d), h, lp + 1)
  {
    hide Cell, Has, Coherent;
    CoherentSizes(c);
    CellPut(c, b, k, d);
  }

  lemma SparedSelf(c: Cache, h: int)
    ensures Spared(c, c, h, 0)
  {
  }

  lemma CoherentSizes(c: Cache)
    requires Coherent(c)
    ensures |c.ibuff| == PER && |c.obuff| == PER && c.iblock < NBLK && c.oblock < NBLK
    ensures c.iblock == -1 || c.iblock != c.oblock
  {
  }

  /** Opening the next block leaves everything before it. */
  lemma {:induction false} OpenNext(c: Cache, b: int)
    requires Coherent(c) && 0 <= b < NBLK
    ensures var d := Opened(c, b, true);
      Coherent(d) && Held(d, b) && (b == d.iblock ==> d.ichanged) && Kept(c, d, PER * b)
  {
    hide Cell, Has, Coherent, Held;
    OpenToWrite(c, b);
    forall q | 0 <= q < PER * b ensures q / PER != b {
      BelowBlock(q, b);
    }
  }

  lemma BelowBlock(q: int, b: int)
    requires q < PER * b
    ensures q / PER < b
  {
  }

  // ----- which lines a put leaves readable

  /** Beginning a put at h keeps the lines exactly when it is safe. */
  lemma {:induction false} BeginKeeps(c: Cache, h: int, lines: map<int, seq<Rune>>, d: Cache)
    requires Coherent(c) && 0 <= h && AllHold(c, h, lines) && Kept(Begun(c, h), d, h)
    ensures AllHold(d, h, lines) <==> Safe(c, lines, h)
  {
    hide Cell, Has, Held, Opened;
    if h / PER >= NBLK {
      forall g | g in lines ensures HoldsIn(d, h, g, lines[g]) {
        WrittenKept(c, d, g, lines[g] + [0], h);
      }
    } else {
      var e := Opened(c, h / PER, true);
      CoherentSizes(c);
      OpenToWrite(c, h / PER);
      if Safe(c, lines, h) {
        forall g | g in lines ensures HoldsIn(d, h, g, lines[g]) {
          SafeLine(c, e, h, g, lines[g], lines);
          WrittenKept(e, d, g, lines[g] + [0], h);
        }
      }
      if AllHold(d, h, lines) && !Held(c, h / PER) {
        forall g, i | g in lines && 0 <= i <= |lines[g]|
          ensures AgreesAt(c, h, g, lines[g], i)
        {
          assert HoldsIn(d, h, g, lines[g]);
          AtRune(d, g, lines[g] + [0], i);
          KeptAt(e, d, h, g + i);
        }
      }
    }
  }

  lemma {:induction false} SafeLine(c: Cache, e: Cache, h: int, g: int, l: seq<Rune>, lines: map<int, seq<Rune>>)
    requires Coherent(c) && 0 <= h && h / PER < NBLK && Safe(c, lines, h) && g in lines && lines[g] == l
      && HoldsIn(c, h, g, l)
    requires e == Opened(c, h / PER, true)
    ensures Written(e, g, l + [0])
  {
    hide Cell, Opened, Coherent, Has;
    CoherentSizes(c);
    var m := l + [0];
    forall i | 0 <= i < |m| ensures Rests(e, g, m, i) {
      AtRune(c, g, m, i);
      OpenAt(c, h / PER, g + i);
      if (g + i) / PER == h / PER && !Held(c, h / PER) {
        assert AgreesAt(c, h, g, lines[g], i);
      }
    }
  }

  lemma {:induction false} OpenAt(c: Cache, b: int, q: int)
    requires Coherent(c) && 0 <= b < NBLK && 0 <= q
    ensures var d := Opened(c, b, true);
      && (Has(c, q / PER) ==> Has(d, q / PER))
      && Cell(d, q) == if q / PER != b || Held(c, b) then Cell(c, q) else c.obuff[q % PER]
  {
    hide Cell, Has, Held, Coherent;
    OpenToWrite(c, b);
    HeldIsThere(Opened(c, b, true), b);
  }

  lemma HeldIsThere(c: Cache, b: int)
    requires Held(c, b)
    ensures Has(c, b)
  {
  }

  /** What getline reads at h is settled: if it is l, it is no other line. So a line whose runes
      are not in place is not what getline answers. */
  lemma {:induction false} OneLineAt(c: Cache, h: int, l: seq<Rune>, m: seq<Rune>)
    requires Written(c, h, l + [0]) && Written(c, h, m + [0])
    requires (forall i :: 0 <= i < |l| ==> l[i] != 0) && forall i :: 0 <= i < |m| ==> m[i] != 0
    ensures l == m
  {
    hide Cell, Has, Written;
    NoLonger(c, h, l, m);
    NoLonger(c, h, m, l);
    forall i | 0 <= i < |l| ensures l[i] == m[i] {
      AtRune(c, h, l + [0], i);
      AtRune(c, h, m + [0], i);
    }
  }

  /** A marked handle reads as its line exactly when the line is empty and a zero stands behind
      the zero that ends it; any other line loses its first rune. */
  lemma {:induction false} MarkedReads(c: Cache, end: int, lines: map<int, seq<Rune>>, h: int)
    requires AllHold(c, end, lines) && h in lines
    ensures ReadsAs(c, h, lines[h])
    ensures lines[h] != [] ==> ReadsAs(c, h + 1, lines[h][1..])
    ensures ReadsAs(c, h + 1, lines[h]) <==> lines[h] == [] && Cell(c, h + 1) == 0
  {
    hide Written, Cell;
    var l := lines[h];
    assert HoldsIn(c, end, h, l);
    if l != [] {
      WrittenRest(c, h, l);
      if ReadsAs(c, h + 1, l) {
        OneLineAt(c, h + 1, l, l[1..]);
      }
    } else {
      ZeroBehind(c, h);
    }
  }

  lemma {:induction false} ZeroBehind(c: Cache, h: int)
    requires h % 2 == 0 && Written(c, h, [] + [0])
    ensures Written(c, h + 1, [] + [0]) <==> Cell(c, h + 1) == 0
  {
    hide Cell;
    var m: seq<Rune> := [] + [0];
    assert Rests(c, h, m, 0);
    assert Rests(c, h + 1, m, 0) <==> Cell(c, h + 1) == 0;
  }

  lemma {:induction false} MarkedEmpty(c: Cache, h: int, l: seq<Rune>)
    requires ReadsAs(c, h + 1, l)
    ensures l == [] <==> Cell(c, h + 1) == 0
  {
    hide Cell;
    AtRune(c, h + 1, l + [0], 0);
  }

  lemma {:induction false} NoLonger(c: Cache, h: int, l: seq<Rune>, m: seq<Rune>)
    requires Written(c, h, l + [0]) && Written(c, h, m + [0]) && forall i :: 0 <= i < |m| ==> m[i] != 0
    ensures |m| <= |l|
  {
    hide Cell, Has, Written;
    AtRune(c, h, l + [0], |l|);
    if |l| < |m| {
      AtRune(c, h, m + [0], |l|);
    }
  }

  lemma {:induction false} LineHolds(c: Cache, h: int, l: seq<Rune>)
    requires Written(c, h, l + [0]) && 2 <= h && h % 2 == 0 && |l| < LBSIZE && OneLine(l)
    ensures HoldsIn(c, h + RoundUp(|l| + 1), h, l)
  {
    hide Cell, Has, Written;
  }

  /** The new line joins the others. */
  lemma {:induction false} NewHolds(c: Cache, end: int, lines: map<int, seq<Rune>>, l: seq<Rune>)
    requires Written(c, end, l + [0]) && end !in lines && (forall g :: g in lines ==> g + |lines[g]| < end)
    requires 2 <= end && end % 2 == 0 && |l| < LBSIZE && OneLine(l)
    ensures AllHold(c, end + RoundUp(|l| + 1), lines[end := l]) <==> AllHold(c, end, lines)
  {
    hide Cell, Has, Written;
    LineHolds(c, end, l);
    var m := lines[end := l];
    if AllHold(c, end, lines) {
      forall g | g in m ensures HoldsIn(c, end + RoundUp(|l| + 1), g, m[g]) {
        assert g != end ==> HoldsIn(c, end, g, lines[g]);
      }
    }
    if AllHold(c, end + RoundUp(|l| + 1), m) {
      forall g | g in lines ensures HoldsIn(c, end, g, lines[g]) {
        assert HoldsIn(c, end + RoundUp(|l| + 1), g, m[g]);
      }
    }
  }

  // ----- the store

  class Store {
    const linebuf: array<Rune>
    const ibuff: array<Rune>
    const obuff: array<Rune>
    var tfile: map<int, seq<Rune>>
    var iblock: int
    var oblock: int
    var ichanged: bool
    var tline: int
    var linebp: int
    var nleft: int
    /** Every line putline has accepted since init, by the handle it returned. */
    ghost var lines: map<int, seq<Rune>>

    ghost function View(): Cache
      reads this`tfile, this`iblock, this`ichanged, this`oblock, ibuff, obuff
    {
      Cache(tfile, iblock, ibuff[..], ichanged, oblock, obuff[..])
    }

    ghost predicate Apart() {
      ibuff != obuff && ibuff != linebuf && obuff != linebuf && linebuf.Length == LBSIZE
      && ibuff.Length == PER && obuff.Length == PER
    }

    /** The cache works, whatever has become of the lines. */
    ghost predicate Works()
      reads this`tfile, this`iblock, this`ichanged, this`oblock, this`tline, ibuff, obuff
    {
      Apart() && Coherent(View()) && 2 <= tline && tline % 2 == 0
    }

    /** Every accepted line is there. */
    ghost predicate Sound()
      reads this, ibuff, obuff
    {
      Works() && AllHold(View(), tline, lines)
    }

    /** No put has failed that began before the last block: the next line goes into the output
        block or the one after it, and all lines end before that. */
    ghost predicate Valid()
      reads this, ibuff, obuff
    {
      && Sound() && oblock <= tline / PER <= oblock + 1 && Settled(View())
      && forall h :: h in lines ==> (h + |lines[h]|) / PER <= oblock
    }

    constructor ()
      ensures Valid() && lines == map[] && tline == 2 && iblock == -1 && fresh(linebuf) && fresh(ibuff) && fresh(obuff)
    {
      linebuf := new Rune[LBSIZE];
      ibuff := new Rune[PER];
      obuff := new Rune[PER];
      tfile := map[];
      iblock, oblock, ichanged := -1, -1, false;
      tline, linebp, nleft := 2, -1, 0;
      lines := map[];
    }

    /** init */
    method Init()
      requires Apart()
      modifies this
      ensures Valid() && lines == map[] && tline == 2
    {
      tline := 2;
      iblock, oblock, ichanged := -1, -1, false;
      tfile := map[];
      lines := map[];
    }

    /** getblock: the buffer that holds rune position atl, for reading or for writing; false
        when the file is full or the block cannot be read. */
    method GetBlock(atl: int, write: bool) returns (ok: bool, buf: array<Rune>)
      requires Apart() && 0 <= atl
      modifies this`iblock, this`oblock, this`ichanged, this`nleft, this`tfile, ibuff
      ensures var b := atl / PER;
        if b >= NBLK then !ok && View() == old(View()) && nleft == old(nleft)
        else
          && nleft == PER - atl % PER
          && (old(Coherent(View())) ==> View() == Opened(old(View()), b, write) && ok == (write || Has(old(View()), b)))
          && (ok ==> buf == if b == iblock then ibuff else obuff)
    {
      buf := obuff;
      var bno := atl / PER;
      if bno >= NBLK {
        return false, buf;
      }
      ok := true;
      nleft := PER - atl % PER;
      if bno == iblock {
        ichanged := ichanged || write;
        return ok, ibuff;
      }
      if bno == oblock {
        return;
      }
      if !write {
        if ichanged {
          tfile := tfile[iblock := ibuff[..]];
        }
        ichanged := false;
        iblock := bno;
        if bno !in tfile || |tfile[bno]| != PER {
          return false, buf;
        }
        ReadBlock(bno);
        return ok, ibuff;
      }
      if oblock >= 0 {
        tfile := tfile[oblock := obuff[..]];
      }
      oblock := bno;
    }

    /** blkio with read. */
    method ReadBlock(b: int)
      requires Apart() && b in tfile && |tfile[b]| == PER
      modifies ibuff
      ensures ibuff[..] == tfile[b]
    {
      var s := tfile[b];
      var i := 0;
      while i < PER
        invariant 0 <= i <= PER
        invariant ibuff[..i] == s[..i]
      {
        ibuff[i] := s[i];
        i := i + 1;
      }
    }

    /** getblock for reading a block that is there: what it hands out is that block. */
    method Fetch(q: int, ghost lim: int) returns (buf: array<Rune>)
      requires Apart() && Coherent(View()) && 0 <= q && q / PER < NBLK && Has(View(), q / PER)
      modifies this`iblock, this`oblock, this`ichanged, this`nleft, this`tfile, ibuff
      ensures Coherent(View()) && Kept(old(View()), View(), lim) && Held(View(), q / PER) && oblock == old(oblock)
      ensures iblock == old(iblock) || iblock == q / PER
      ensures (buf == ibuff || buf == obuff) && buf.Length == PER && nleft == PER - q % PER
      ensures forall j :: 0 <= j < PER ==> buf[j] == Cell(View(), q - q % PER + j)
      ensures Settled(old(View())) ==> Settled(View())
    {
      hide Kept, Settled;
      ReadSettled(View(), q / PER);
      OpenToRead(View(), q / PER, lim);
      var ok;
      ok, buf := GetBlock(q, false);
      forall j | 0 <= j < PER ensures buf[j] == Cell(View(), q - q % PER + j) {
        InBlock(q, j);
        assert buf == ibuff ==> ibuff[j] == ibuff[..][j];
        assert buf == obuff ==> obuff[j] == obuff[..][j];
      }
    }

    /** getline: the stored line, ended by a zero, is put in linebuf. */
    method Getline(h: int)
      requires Sound() && h in lines
      modifies this`iblock, this`oblock, this`ichanged, this`nleft, this`tfile, ibuff, linebuf
      ensures Sound() && (old(Valid()) ==> Valid())
      ensures Held(View(), (h + |lines[h]|) / PER) && oblock == old(oblock)
      ensures linebuf[..|lines[h]| + 1] == lines[h] + [0]
    {
      hide Written, Kept, Coherent;
      assert HoldsIn(View(), tline, h, lines[h]);
      GetAs(h, lines[h], tline);
    }

    /** getline for a handle that carries the mark of the global command. The bit is not cleared,
        so it reads from the second rune on: of an empty line, whatever stands behind its zero. */
    method GetMarked(h: int, ghost l: seq<Rune>)
      requires Sound() && h in lines && ReadsAs(View(), h + 1, l)
      modifies this`iblock, this`oblock, this`ichanged, this`nleft, this`tfile, ibuff, linebuf
      ensures Sound() && (old(Valid()) ==> Valid())
      ensures linebuf[..|l| + 1] == l + [0]
      ensures lines[h] != [] ==> l == lines[h][1..]
      ensures l == lines[h] <==> lines[h] == [] && old(Cell(View(), h + 1)) == 0
    {
      hide Written, Kept, Coherent, Cell;
      MarkedReads(View(), tline, lines, h);
      if lines[h] != [] {
        OneLineAt(View(), h + 1, l, lines[h][1..]);
      } else {
        MarkedEmpty(View(), h, l);
      }
      GetAs(h + 1, l, if h + |l| + 2 > tline then h + |l| + 2 else tline);
    }

    /** getline at any position g from which it reads l; positions below lim are kept. */
    method GetAs(g: int, ghost l: seq<Rune>, ghost lim: int)
      requires Works() && ReadsAs(View(), g, l) && g + |l| < lim
      modifies this`iblock, this`oblock, this`ichanged, this`nleft, this`tfile, ibuff, linebuf
      ensures Works() && Kept(old(View()), View(), lim) && linebuf[..|l| + 1] == l + [0]
      ensures Held(View(), (g + |l|) / PER) && oblock == old(oblock)
      ensures lim >= tline ==> (old(Sound()) ==> Sound()) && (old(Valid()) ==> Valid())
    {
      hide Written, Kept, Coherent, AllHold;
      ghost var c := View();
      ReadLine(g, l + [0], lim);
      CoherentSizes(View());
      if lim >= tline && AllHold(c, tline, lines) {
        StillHold(c, View(), lim, tline, lines);
      }
    }

    /** The place of the next rune of a line, in the next block where this one ends. */
    method ReadOn(buf0: array<Rune>, tl0: int, bp0: nat, nl0: int, ghost c: Cache, ghost h: int, ghost l: seq<Rune>,
        ghost lp: nat, ghost lim: int, ghost k0: nat)
      returns (buf: array<Rune>, tl: int, bp: nat, nl: int, ghost k: nat)
      requires Apart() && Coherent(c) && Coherent(View()) && Kept(c, View(), lim) && Held(View(), k0)
        && oblock == c.oblock
      requires 0 <= h && lp < |l| && h + |l| <= lim && Written(c, h, l)
      requires tl0 == PER * k0 && 1 <= bp0 <= PER && nl0 == PER - bp0 + 1 && tl0 + bp0 == h + lp
      requires (buf0 == ibuff || buf0 == obuff) && forall j :: 0 <= j < PER ==> buf0[j] == Cell(View(), tl0 + j)
      modifies this`iblock, this`oblock, this`ichanged, this`nleft, this`tfile, ibuff
      ensures Coherent(View()) && Kept(c, View(), lim) && Held(View(), k) && oblock == c.oblock
      ensures k0 <= k <= (h + |l| - 1) / PER && (iblock == old(iblock) || iblock == k)
      ensures tl == PER * k && bp < PER && nl == PER - bp && tl + bp == h + lp
      ensures (buf == ibuff || buf == obuff) && forall j :: 0 <= j < PER ==> buf[j] == Cell(View(), tl + j)
      ensures Settled(old(View())) ==> Settled(View())
    {
      hide Settled, Cell, Kept, Coherent, Held, Has, Written;
      buf, tl, bp, nl, k := buf0, tl0, bp0, nl0 - 1, k0;
      Aligned(k + 1);
      BlockMono(tl, h + |l| - 1);
      Aligned(k);
      if nl == 0 {
        tl := tl + PER;
        k := k + 1;
        BlockMono(tl, h + |l| - 1);
        AtRune(c, h, l, lp);
        KeptAt(c, View(), lim, tl);
        ghost var d := View();
        buf := Fetch(tl, lim);
        KeptTwice(c, d, View(), lim, lim);
        bp := 0;
        nl := nleft;
      }
    }

    /** The loop of getline, for a line l that stands at h whatever has become of others. */
    method ReadLine(h: int, ghost l: seq<Rune>, ghost lim: int)
      requires Apart() && Coherent(View()) && 0 <= h && 0 < |l| <= LBSIZE && h + |l| <= lim && Written(View(), h, l)
      requires forall i :: 0 <= i < |l| ==> (l[i] == 0 <==> i == |l| - 1)
      modifies this`iblock, this`oblock, this`ichanged, this`nleft, this`tfile, ibuff, linebuf
      ensures Coherent(View()) && Kept(old(View()), View(), lim) && Held(View(), (h + |l| - 1) / PER)
        && oblock == old(oblock)
      ensures iblock == old(iblock) || h / PER <= iblock <= (h + |l| - 1) / PER
      ensures Settled(old(View())) ==> Settled(View())
      ensures linebuf[..|l|] == l
    {
      hide Settled, Cell, Kept, Coherent, Held, Has, Written;
      ghost var c := View();
      var tl := h;
      AtRune(c, h, l, 0);
      BlockMono(h, h + |l| - 1);
      var buf := Fetch(tl, lim);
      var bp := tl % PER;
      var nl := nleft;
      tl := tl - bp;
      ghost var k := h / PER;
      var lp := 0;
      var more := true;
      while more
        invariant Coherent(View()) && Kept(c, View(), lim) && Held(View(), k) && oblock == c.oblock
        invariant Settled(c) ==> Settled(View())
        invariant iblock == c.iblock || h / PER <= iblock <= k
        invariant (buf == ibuff || buf == obuff) && h / PER <= k <= (h + |l| - 1) / PER
        invariant 0 <= lp <= |l| && (more <==> lp < |l|)
        invariant tl == PER * k && 0 <= k && 0 <= bp <= PER
        invariant if more then tl + bp == h + lp && bp < PER && nl == PER - bp else k == (h + |l| - 1) / PER
        invariant more ==> forall j :: 0 <= j < PER ==> buf[j] == Cell(View(), tl + j)
        invariant linebuf[..lp] == l[..lp]
        decreases |l| - lp
      {
        AtRune(c, h, l, lp);
        KeptAt(c, View(), lim, h + lp);
        assert buf[bp] == l[lp];
        var r := buf[bp];
        linebuf[lp] := r;
        lp := lp + 1;
        bp := bp + 1;
        more := r != 0;
        if more {
          buf, tl, bp, nl, k := ReadOn(buf, tl, bp, nl, c, h, l, lp, lim, k);
        } else {
          LastBlock(k, tl + bp);
        }
      }
    }

    /** Midway through a line: the first lp runes of m are in place, block k is open for writing,
        and everything before the line is as it was when the line was begun; as long as the line
        is in its first block, so is everything after it. */
    ghost predicate Going(base: Cache, m: seq<Rune>, lp: int, k: int)
      reads this`tfile, this`iblock, this`ichanged, this`oblock, this`tline, ibuff, obuff
    {
      && Coherent(View()) && 0 <= lp <= |m| && 0 <= k && Held(View(), k) && (k == iblock ==> ichanged)
      && Kept(base, View(), tline) && Written(View(), tline, m[..lp])
      && tline / PER <= k && (k == tline / PER ==> Spared(base, View(), tline, lp))
      && (FileBelow(base) && base.oblock <= tline / PER ==> FileBelow(View()) && oblock <= k)
    }

    method PutRune(buf: array<Rune>, bp: nat, d: Rune, ghost base: Cache, ghost m: seq<Rune>, ghost lp: nat,
        ghost k: nat)
      requires Apart() && 0 <= tline && Going(base, m, lp, k) && buf == (if k == iblock then ibuff else obuff)
      requires bp < PER && lp < |m| && d == m[lp] && PER * k + bp == tline + lp
      modifies buf
      ensures Going(base, m, lp + 1, k)
    {
      hide Cell, Kept, Written, Coherent, Spared;
      PutCell(base, View(), k, bp, d, tline, m, lp);
      if k == tline / PER {
        PutSpared(base, View(), k, bp, d, tline, lp);
      }
      CoherentSizes(View());
      ghost var e := Put1(View(), k, bp, d);
      buf[bp] := d;
      assert View() == e;
    }

    /** Moves to the next block. */
    method NextBlock(tl: int, ghost base: Cache, ghost m: seq<Rune>, ghost lp: nat, ghost k: nat)
      returns (ok: bool, buf: array<Rune>)
      requires Apart() && tl == PER * (k + 1) == tline + lp && 0 <= tline && Going(base, m, lp, k)
      modifies this`iblock, this`oblock, this`ichanged, this`nleft, this`tfile, ibuff
      ensures ok <==> k + 1 < NBLK
      ensures ok ==> nleft == PER && buf == if k + 1 == iblock then ibuff else obuff
      ensures Going(base, m, lp, if ok then k + 1 else k)
      ensures !ok ==> View() == old(View())
      ensures ok ==> oblock == if k + 1 == old(iblock) then old(oblock) else k + 1
      ensures iblock == old(iblock)
    {
      hide Cell, Kept, Written, Coherent, Spared;
      BlockMono(tline, tline + lp);
      Aligned(k + 1);
      ghost var c := View();
      if k + 1 < NBLK {
        OpenNext(c, k + 1);
        if FileBelow(c) && c.oblock <= k {
          OpenBelow(c, k + 1);
        }
      }
      ok, buf := GetBlock(tl, true);
      if ok {
        KeptTwice(base, c, View(), tline, tl);
        WrittenKept(c, View(), tline, m[..lp], tl);
      }
    }

    /** The next place for a rune, in the next block where this one ends. */
    method Advance(buf0: array<Rune>, tl0: int, bp0: nat, nl0: int, ghost base: Cache, ghost m: seq<Rune>,
        ghost lp: nat, ghost k0: nat)
      returns (ok: bool, buf: array<Rune>, tl: int, bp: nat, nl: int, ghost k: nat)
      requires Apart() && 0 <= tline && Going(base, m, lp, k0) && buf0 == (if k0 == iblock then ibuff else obuff)
      requires tl0 == PER * k0 && k0 < NBLK && bp0 < PER && nl0 == PER - bp0 && tl0 + bp0 + 1 == tline + lp
      modifies this`iblock, this`oblock, this`ichanged, this`nleft, this`tfile, ibuff
      ensures Going(base, m, lp, if ok then k else k0) && iblock == old(iblock)
      ensures ok <==> tline + lp < PER * NBLK
      ensures ok ==>
        && buf == (if k == iblock then ibuff else obuff) && tl == PER * k && k0 <= k < NBLK && bp < PER
        && nl == PER - bp && tl + bp == tline + lp
        && (iblock < k0 && old(oblock) == k0 ==> oblock == k)
      ensures !ok ==> oblock == old(oblock) && k0 == NBLK - 1 && tline + lp == PER * NBLK
    {
      ok, buf, tl, bp, nl, k := true, buf0, tl0, bp0 + 1, nl0 - 1, k0;
      if nl == 0 {
        tl := tl + PER;
        ok, buf := NextBlock(tl, base, m, lp, k);
        if ok {
          k := k + 1;
          bp := 0;
          nl := nleft;
        }
      }
    }

    /** The first block of a line. */
    method Start(ghost m: seq<Rune>) returns (ok: bool, buf: array<Rune>)
      requires Works()
      modifies this`iblock, this`oblock, this`ichanged, this`nleft, this`tfile, ibuff
      ensures ok <==> tline / PER < NBLK
      ensures ok ==> nleft == PER - tline % PER && buf == if tline / PER == iblock then ibuff else obuff
      ensures Coherent(View()) && View() == Begun(old(View()), tline)
      ensures ok ==> Going(Begun(old(View()), tline), m, 0, tline / PER)
    {
      hide Cell, Kept, Written, Coherent, Spared;
      SparedSelf(Begun(View(), tline), tline);
      if tline / PER < NBLK {
        OpenToWrite(View(), tline / PER);
      }
      ok, buf := GetBlock(tline, true);
      KeptSelf(View(), tline);
      NoneWritten(View(), tline);
      assert m[..0] == [];
    }

    /** The loop of putline. lp counts the runes that went into the store. */
    method WriteLine(ghost l: seq<Rune>) returns (ok: bool, lp: nat)
      requires Works() && l == LineOf(linebuf[..]) && |l| < LBSIZE
      modifies this`iblock, this`oblock, this`ichanged, this`nleft, this`tfile, this`linebp, ibuff, obuff
      ensures Coherent(View()) && Kept(Begun(old(View()), tline), View(), tline)
      ensures ok <==> (tline + |l|) / PER < NBLK
      ensures if ok then lp == |l| + 1 && Written(View(), tline, l + [0])
              else lp <= |l| && Written(View(), tline, l[..lp])
      ensures !ok ==> lp == if tline / PER < NBLK then PER * NBLK - tline else 0
      ensures iblock == old(iblock)
      ensures old(iblock) < tline / PER && tline / PER < NBLK ==> oblock == if ok then (tline + |l|) / PER else NBLK - 1
      ensures tline / PER >= NBLK ==> oblock == old(oblock)
      ensures ok && (tline + |l|) / PER == tline / PER ==> Spared(Begun(old(View()), tline), View(), tline, |l| + 1)
      ensures FileBelow(old(View())) && old(oblock) <= tline / PER ==> FileBelow(View())
    {
      hide FileBelow, Cell, Kept, Written, LineOf, Coherent, Spared;
      ghost var m := l + [0];
      ghost var base := Begun(View(), tline);
      lp := 0;
      BegunBelow(View(), tline);
      BlockMono(tline, tline + |l|);
      KeptSelf(base, tline);
      NoneWritten(base, tline);
      assert l[..0] == [];
      var buf;
      ok, buf := Start(m);
      if ok {
        ok, lp := WriteRunes(buf, base, l);
        assert if ok then m[..lp] == m else m[..lp] == l[..lp];
      }
    }

    /** The loop itself, once the first block is open. */
    method WriteRunes(buf0: array<Rune>, ghost base: Cache, ghost l: seq<Rune>) returns (ok: bool, lp: nat)
      requires Apart() && 0 <= tline && tline / PER < NBLK && l == LineOf(linebuf[..]) && |l| < LBSIZE
      requires Going(base, l + [0], 0, tline / PER) && buf0 == (if tline / PER == iblock then ibuff else obuff)
      requires nleft == PER - tline % PER
      modifies this`iblock, this`oblock, this`ichanged, this`nleft, this`tfile, this`linebp, ibuff, obuff
      ensures ok <==> (tline + |l|) / PER < NBLK
      ensures lp == if ok then |l| + 1 else PER * NBLK - tline
      ensures lp <= |l| + 1 && Going(base, l + [0], lp, if ok then (tline + |l|) / PER else NBLK - 1)
      ensures !ok ==> lp <= |l|
      ensures iblock == old(iblock)
      ensures old(iblock) < tline / PER && old(oblock) == tline / PER ==>
        oblock == if ok then (tline + |l|) / PER else NBLK - 1
    {
      hide LineOf, Going;
      lp := 0;
      var buf, tl, bp, nl := buf0, tline - tline % PER, tline % PER, nleft;
      ok := true;
      ghost var k := tline / PER;
      var more := true;
      while more
        invariant ok && tline / PER <= k < NBLK && iblock == old(iblock)
        invariant iblock < tline / PER && old(oblock) == tline / PER ==> oblock == k
        invariant if more then lp <= |l| && Going(base, l + [0], lp, k) && Placed(buf, tl, bp, nl, lp, k)
                  else lp == |l| + 1 && Going(base, l + [0], lp, k) && k == (tline + |l|) / PER
        decreases |l| + 1 - lp
      {
        ok, more, buf, tl, bp, nl, k := WriteRune(buf, tl, bp, nl, lp, base, l, k);
        lp := lp + 1;
        if !ok {
          BlockMono(tline + lp, tline + |l|);
          return;
        }
      }
      BlockMono(tline + |l|, PER * NBLK - 1);
    }

    /** The next rune goes into buf at bp, position tl + bp of the store, in block k. */
    ghost predicate Placed(buf: array<Rune>, tl: int, bp: int, nl: int, lp: int, k: int)
      reads this`iblock, this`tline
    {
      && buf == (if k == iblock then ibuff else obuff) && tl == PER * k && 0 <= bp < PER && nl == PER - bp
      && tl + bp == tline + lp
    }

    /** One round of the loop; more tells whether it goes on. */
    method WriteRune(buf0: array<Rune>, tl0: int, bp0: nat, nl0: int, lp: nat, ghost base: Cache, ghost l: seq<Rune>,
                     ghost k0: nat)
      returns (ok: bool, more: bool, buf: array<Rune>, tl: int, bp: nat, nl: int, ghost k: nat)
      requires Apart() && 0 <= tline && l == LineOf(linebuf[..]) && lp <= |l| < LBSIZE && k0 < NBLK
      requires Going(base, l + [0], lp, k0) && Placed(buf0, tl0, bp0, nl0, lp, k0)
      modifies this`iblock, this`oblock, this`ichanged, this`nleft, this`tfile, this`linebp, ibuff, obuff
      ensures iblock == old(iblock) && more == (lp < |l|) && linebuf[..] == old(linebuf[..])
      ensures Going(base, l + [0], lp + 1, if ok then k else NBLK - 1)
      ensures more ==> (ok <==> tline + lp + 1 < PER * NBLK)
      ensures more && ok ==> Placed(buf, tl, bp, nl, lp + 1, k)
      ensures !more ==> ok && k == k0 == (tline + |l|) / PER
      ensures ok ==> k0 <= k < NBLK && (iblock < k0 && old(oblock) == k0 ==> oblock == k)
      ensures !ok ==> tline + lp + 1 == PER * NBLK && k0 == NBLK - 1 && oblock == old(oblock)
    {
      hide LineOf, Going;
      ok, buf, tl, bp, nl, k := true, buf0, tl0, bp0, nl0, k0;
      var r := linebuf[lp];
      RuneAt(linebuf[..], lp);
      PutRune(buf, bp, if r == NEWLINE then 0 else r, base, l + [0], lp, k);
      if r == NEWLINE {
        linebp := lp + 1;
      }
      more := r != 0 && r != NEWLINE;
      if more {
        ok, buf, tl, bp, nl, k := Advance(buf, tl, bp, nl, base, l + [0], lp + 1, k);
      } else {
        LastBlock(k, tl + bp + 1);
      }
    }

    /** putline: the line in linebuf, up to a newline, is stored; the result is its handle. It
        fails when the line would end beyond the last block. Stored or not, the lines before it
        stay readable exactly when it was safe to begin, which it is until a line has failed
        that began before the last block. */
    method Putline() returns (ok: bool, h: int)
      requires Works() && |LineOf(linebuf[..])| < LBSIZE
      modifies this, ibuff, obuff
      ensures Works() && linebuf[..] == old(linebuf[..]) && h == old(tline)
      ensures var l := LineOf(linebuf[..]);
        && (ok <==> (h + |l|) / PER < NBLK)
        && (ok ==> tline == h + RoundUp(|l| + 1) && lines == old(lines)[h := l] && HoldsIn(View(), tline, h, l))
        && (!ok ==> tline == h && lines == old(lines))
        && (!ok && h / PER < NBLK ==> 0 <= PER * NBLK - h <= |l| && Written(View(), h, l[..PER * NBLK - h]))
      ensures Kept(Begun(old(View()), h), View(), h) && iblock == old(iblock)
      ensures var n := |LineOf(linebuf[..])|;
        ok && (h + n) / PER == h / PER ==> Spared(Begun(old(View()), h), View(), h, n + 1)
      ensures old(Sound()) ==> h !in old(lines) && (Sound() <==> Safe(old(View()), old(lines), h))
      ensures old(Valid()) ==>
        && Safe(old(View()), old(lines), h) && (ok ==> Valid() && oblock == (h + |LineOf(linebuf[..])|) / PER)
        && (!ok ==>
              (if h / PER < NBLK then oblock == NBLK - 1 else oblock == old(oblock))
              && (Valid() <==> h / PER >= NBLK - 1))
    {
      hide Cell, AllHold, HoldsIn, Kept, Written, LineOf, Coherent, Has, Safe, Spared, FileBelow;
      h := tline;
      ghost var l := LineOf(linebuf[..]);
      LineRunes(linebuf[..]);
      ghost var c := View();
      ghost var valid, sound, before := Valid(), Sound(), lines;
      var n;
      ok, n := WriteLine(l);
      PlaceAfter(h, |l|);
      if ok {
        LineHolds(View(), h, l);
      }
      if sound {
        PutOutcome(c, View(), h, before, l, ok);
      }
      if valid {
        SafeWhenValid(c, h, before);
      }
      if !ok {
        return;
      }
      tline := tline + RoundUp(n);
      lines := lines[h := l];
    }

    /** Fills linebuf, ended by a zero. */
    method SetLine(t: seq<Rune>)
      requires Apart() && |t| < LBSIZE
      modifies linebuf
      ensures linebuf[..|t| + 1] == t + [0]
    {
      var i := 0;
      while i < |t|
        invariant 0 <= i <= |t| && linebuf[..i] == t[..i]
      {
        linebuf[i] := t[i];
        i := i + 1;
      }
      linebuf[i] := 0;
    }
  }

  lemma PlaceAfter(h: int, n: nat)
    requires 2 <= h && h % 2 == 0
    ensures var e := h + RoundUp(n + 1);
      e % 2 == 0 && h + n < e && (h + n) / PER <= e / PER <= (h + n) / PER + 1 && h / PER <= (h + n) / PER
  {
  }

  /** What has become of the lines after a put. */
  lemma {:induction false} PutOutcome(c: Cache, d: Cache, h: int, lines: map<int, seq<Rune>>, l: seq<Rune>, ok: bool)
    requires Coherent(c) && 2 <= h && h % 2 == 0 && AllHold(c, h, lines) && Kept(Begun(c, h), d, h)
    requires |l| < LBSIZE && OneLine(l) && (ok ==> Written(d, h, l + [0]))
    ensures h !in lines
    ensures AllHold(d, if ok then h + RoundUp(|l| + 1) else h, if ok then lines[h := l] else lines) <==>
      Safe(c, lines, h)
  {
    hide Cell, Has, Written, Kept, Begun, Safe, AllHold, Coherent;
    LinesEnd(c, h, lines);
    BeginKeeps(c, h, lines, d);
    if ok {
      NewHolds(d, h, lines, l);
    }
  }

  lemma KeptSelf(c: Cache, lim: int)
    ensures Kept(c, c, lim)
  {
  }

  lemma NoneWritten(c: Cache, h: int)
    ensures Written(c, h, [])
  {
  }

  lemma {:induction false} LinesEnd(c: Cache, end: int, lines: map<int, seq<Rune>>)
    requires AllHold(c, end, lines)
    ensures end !in lines && forall g :: g in lines ==> g + |lines[g]| < end
  {
    hide Written;
    forall g | g in lines ensures g + |lines[g]| < end {
      assert HoldsIn(c, end, g, lines[g]);
    }
  }

  /** As long as no put has failed, the next one begins in the output block or after all lines. */
  lemma {:induction false} SafeWhenValid(c: Cache, h: int, lines: map<int, seq<Rune>>)
    requires c.oblock <= h / PER <= c.oblock + 1 && forall g :: g in lines ==> (g + |lines[g]|) / PER <= c.oblock
    ensures Safe(c, lines, h)
  {
    if h / PER != c.oblock {
      forall g, i | g in lines && 0 <= i <= |lines[g]| ensures AgreesAt(c, h, g, lines[g], i) {
        BlockMono(g + i, g + |lines[g]|);
      }
    }
  }

  lemma {:induction false} WrittenRest(c: Cache, h: int, l: seq<Rune>)
    requires Written(c, h, l + [0]) && l != []
    ensures Written(c, h + 1, l[1..] + [0])
  {
    hide Cell, Has, Written;
    var g, m := h + 1, l[1..] + [0];
    forall i | 0 <= i < |m| ensures Rests(c, g, m, i) {
      AtRune(c, h, l + [0], i + 1);
      assert m[i] == (l + [0])[i + 1];
    }
    AllRest(c, g, m);
  }

  lemma AllRest(c: Cache, h: int, l: seq<Rune>)
    requires forall i :: 0 <= i < |l| ==> Rests(c, h, l, i)
    ensures Written(c, h, l)
  {
  }

  /** Reading keeps the lines. */
  lemma {:induction false} StillHold(c: Cache, d: Cache, lim: int, end: int, lines: map<int, seq<Rune>>)
    requires AllHold(c, end, lines) && Kept(c, d, lim) && end <= lim
    ensures AllHold(d, end, lines)
  {
    hide Kept, Written;
    forall g | g in lines ensures HoldsIn(d, end, g, lines[g]) {
      assert HoldsIn(c, end, g, lines[g]);
      WrittenKept(c, d, g, lines[g] + [0], lim);
    }
  }

  lemma {:induction false} AtRune(c: Cache, h: int, l: seq<Rune>, i: nat)
    requires Written(c, h, l) && i < |l|
    ensures Cell(c, h + i) == l[i] && Has(c, (h + i) / PER) && (Coherent(c) ==> (h + i) / PER < NBLK)
  {
    hide Cell;
    assert Rests(c, h, l, i);
  }

  lemma KeptAt(c: Cache, d: Cache, lim: int, q: int)
    requires Kept(c, d, lim) && 0 <= q < lim
    ensures Cell(d, q) == Cell(c, q) && (Has(c, q / PER) ==> Has(d, q / PER))
  {
  }

  /** ((n + 3) & 077776), for an n that a line buffer can hold. */
  function RoundUp(n: nat): nat {
    (n + 3) - (n + 3) % 2
  }

  /** Storing a text, or fetching the line of the n-th text stored. */
  datatype Op = Put(text: seq<Rune>) | Get(n: nat)

  /** What the fetches of a script are to answer, puts being the lines stored before it. */
  function Replies(script: seq<Op>, puts: seq<seq<Rune>>): seq<seq<Rune>> {
    if script == [] then []
    else match script[0]
      case Put(t) => Replies(script[1..], puts + [LineOf(t)])
      case Get(n) => (if n < |puts| then [puts[n]] else []) + Replies(script[1..], puts)
  }

  lemma {:induction false} LineOfBuffer(b: seq<Rune>, t: seq<Rune>)
    requires |t| < |b| && b[..|t| + 1] == t + [0]
    ensures LineOf(b) == LineOf(t) && |LineOf(b)| < |b|
  {
    var n := |LineOf(t)|;
    assert forall i :: 0 <= i <= |t| ==> b[i] == b[..|t| + 1][i] == (t + [0])[i];
    LineOfIs(b, n);
    assert b[..n] == t[..n];
  }

  lemma {:induction false} ReplyStep(script: seq<Op>, i: nat, puts: seq<seq<Rune>>)
    requires i < |script|
    ensures Replies(script[i..], puts) ==
      match script[i]
      case Put(t) => Replies(script[i + 1..], puts + [LineOf(t)])
      case Get(n) => (if n < |puts| then [puts[n]] else []) + Replies(script[i + 1..], puts)
  {
    assert script[i..][1..] == script[i + 1..];
  }

  /** How many operations of the script are performed before one ends beyond the last block, the
      next line going to position at. */
  function Performed(script: seq<Op>, at: nat): (n: nat)
    ensures n <= |script|
  {
    if script == [] then 0
    else match script[0]
      case Put(t) =>
        if (at + |LineOf(t)|) / PER >= NBLK then 0 else 1 + Performed(script[1..], at + RoundUp(|LineOf(t)| + 1))
      case Get(_) => 1 + Performed(script[1..], at)
  }

  lemma {:induction false} PerformedStep(script: seq<Op>, i: nat, at: nat)
    requires i < |script|
    ensures Performed(script[i..], at) ==
      match script[i]
      case Put(t) =>
        if (at + |LineOf(t)|) / PER >= NBLK then 0 else 1 + Performed(script[i + 1..], at + RoundUp(|LineOf(t)| + 1))
      case Get(_) => 1 + Performed(script[i + 1..], at)
  {
    assert script[i..][1..] == script[i + 1..];
  }

  /** putline of a given text. */
  method StoreText(st: Store, t: seq<Rune>) returns (ok: bool, h: int)
    requires st.Valid() && |t| < LBSIZE
    modifies st, st.linebuf, st.ibuff, st.obuff
    ensures st.Sound() && h == old(st.tline) && ok == ((h + |LineOf(t)|) / PER < NBLK) && st.iblock == old(st.iblock)
    ensures ok ==>
      && st.Valid() && h !in old(st.lines) && st.lines == old(st.lines)[h := LineOf(t)]
      && st.tline == h + RoundUp(|LineOf(t)| + 1) && st.oblock == (h + |LineOf(t)|) / PER
    ensures Kept(Begun(old(st.View()), h), st.View(), h)
    ensures ok && (h + |LineOf(t)|) / PER == h / PER ==> Spared(Begun(old(st.View()), h), st.View(), h, |LineOf(t)| + 1)
    ensures !ok ==>
      && st.lines == old(st.lines) && st.tline == h
      && (h / PER < NBLK ==> st.oblock == NBLK - 1 && 0 <= PER * NBLK - h <= |LineOf(t)|)
      && (h / PER < NBLK ==> Written(st.View(), h, LineOf(t)[..PER * NBLK - h]))
  {
    hide LineOf, Written, Kept, AllHold, Coherent, Safe, Begun, Spared;
    st.SetLine(t);
    LineOfBuffer(st.linebuf[..], t);
    ok, h := st.Putline();
  }

  /** getline, and the runes it left before the zero. */
  method FetchText(st: Store, h: int) returns (line: seq<Rune>)
    requires st.Sound() && h in st.lines
    modifies st, st.linebuf, st.ibuff
    ensures st.Sound() && (old(st.Valid()) ==> st.Valid())
    ensures st.lines == old(st.lines) && st.tline == old(st.tline) && line == st.lines[h]
    ensures Held(st.View(), (h + |line|) / PER) && st.oblock == old(st.oblock)
  {
    hide Written, Coherent;
    assert HoldsIn(st.View(), st.tline, h, st.lines[h]);
    st.Getline(h);
    line := ReadBack(st.linebuf, st.lines[h]);
  }

  /** The handles of the lines stored so far. */
  ghost predicate Filed(lines: map<int, seq<Rune>>, handles: seq<int>, puts: seq<seq<Rune>>) {
    |handles| == |puts| && forall j :: 0 <= j < |puts| ==> handles[j] in lines && lines[handles[j]] == puts[j]
  }

  lemma {:induction false} FileOne(lines: map<int, seq<Rune>>, lines': map<int, seq<Rune>>, handles: seq<int>,
      puts: seq<seq<Rune>>, h: int, l: seq<Rune>)
    requires Filed(lines, handles, puts) && h !in lines && lines' == lines[h := l]
    ensures Filed(lines', handles + [h], puts + [l])
  {
  }

  lemma NothingFiled(lines: map<int, seq<Rune>>)
    ensures Filed(lines, [], [])
  {
  }

  lemma FiledAt(lines: map<int, seq<Rune>>, handles: seq<int>, puts: seq<seq<Rune>>, m: nat)
    requires Filed(lines, handles, puts)
    ensures |handles| == |puts| && (m < |puts| ==> handles[m] in lines && lines[handles[m]] == puts[m])
  {
  }

  /** getline for a marked handle, and the runes it left before the zero. */
  method FetchMarked(st: Store, h: int, ghost l: seq<Rune>) returns (line: seq<Rune>)
    requires st.Sound() && h in st.lines && |l| < LBSIZE && Written(st.View(), h + 1, l + [0])
    requires forall i :: 0 <= i < |l| ==> l[i] != 0
    modifies st, st.linebuf, st.ibuff
    ensures st.Sound() && st.lines == old(st.lines) && line == l
  {
    hide Written, Coherent, Kept;
    assert HoldsIn(st.View(), st.tline, h, st.lines[h]);
    st.GetMarked(h, l);
    line := ReadBack(st.linebuf, l);
  }

  /** Any mix of stores and fetches: every fetch answers exactly what was stored under its
      handle, and the file is found full at the first line that would end beyond its last block. */
  method Replay(st: Store, script: seq<Op>) returns (full: bool, replies: seq<seq<Rune>>)
    requires st.Valid() && forall t :: Put(t) in script ==> |t| < LBSIZE
    modifies st, st.linebuf, st.ibuff, st.obuff
    ensures st.Sound() && (!full ==> st.Valid())
    ensures var n := Performed(script, old(st.tline)); full == (n < |script|) && replies == Replies(script[..n], [])
  {
    hide LineOf, Replies, Performed, Store.Valid, Store.Sound, Written, Filed, Answered, Kept, Spared, Begun;
    NothingFiled(st.lines);
    ValidIsSound(st);
    ghost var n := Performed(script, st.tline);
    ghost var done := script[..n];
    var i := 0;
    var handles: seq<int> := [];
    ghost var puts: seq<seq<Rune>> := [];
    full, replies := false, [];
    assert script[0..] == script;
    NothingAnswered(done);
    while i < |script|
      invariant 0 <= i <= n && st.Valid() && !full && 2 <= st.tline && Performed(script[i..], st.tline) == n - i
      invariant Filed(st.lines, handles, puts) && Answered(done, i, puts, replies)
      decreases |script| - i
    {
      ValidIsSound(st);
      PerformedStep(script, i, st.tline);
      match script[i] {
        case Put(t) =>
          assert Put(t) in script;
          ghost var before := st.lines;
          var ok, h := StoreText(st, t);
          if !ok {
            AllAnswered(done, puts, replies);
            return true, replies;
          }
          AnswerPut(done, i, puts, replies);
          FileOne(before, st.lines, handles, puts, h, LineOf(t));
          handles := handles + [h];
          puts := puts + [LineOf(t)];
        case Get(m) =>
          FiledAt(st.lines, handles, puts, m);
          AnswerGet(done, i, puts, replies);
          if m < |handles| {
            var line := FetchText(st, handles[m]);
            replies := replies + [line];
          }
      }
      i := i + 1;
    }
    ValidIsSound(st);
    AllAnswered(done, puts, replies);
  }

  /** The first i operations have been answered by replies, with the lines puts stored. */
  ghost predicate Answered(script: seq<Op>, i: nat, puts: seq<seq<Rune>>, replies: seq<seq<Rune>>) {
    i <= |script| && replies + Replies(script[i..], puts) == Replies(script, [])
  }

  lemma {:induction false} NothingAnswered(script: seq<Op>)
    ensures Answered(script, 0, [], [])
  {
    assert script[0..] == script;
  }

  lemma {:induction false} AnswerPut(script: seq<Op>, i: nat, puts: seq<seq<Rune>>, replies: seq<seq<Rune>>)
    requires Answered(script, i, puts, replies) && i < |script| && script[i].Put?
    ensures Answered(script, i + 1, puts + [LineOf(script[i].text)], replies)
  {
    hide Replies, LineOf;
    ReplyStep(script, i, puts);
  }

  lemma {:induction false} AnswerGet(script: seq<Op>, i: nat, puts: seq<seq<Rune>>, replies: seq<seq<Rune>>)
    requires Answered(script, i, puts, replies) && i < |script| && script[i].Get?
    ensures var n := script[i].n; Answered(script, i + 1, puts, if n < |puts| then replies + [puts[n]] else replies)
  {
    hide Replies;
    ReplyStep(script, i, puts);
    var n, rest := script[i].n, Replies(script[i + 1..], puts);
    if n < |puts| {
      assert replies + ([puts[n]] + rest) == (replies + [puts[n]]) + rest;
    }
  }

  lemma {:induction false} AllAnswered(script: seq<Op>, puts: seq<seq<Rune>>, replies: seq<seq<Rune>>)
    requires Answered(script, |script|, puts, replies)
    ensures replies == Replies(script, [])
  {
    hide Replies;
    NoReplies(puts);
    assert script[|script|..] == [] && replies + [] == replies;
  }

  lemma ValidIsSound(st: Store)
    requires st.Valid()
    ensures st.Sound() && st.tline >= 2
  {
  }

  lemma NoReplies(puts: seq<seq<Rune>>)
    ensures Replies([], puts) == []
  {
  }

  /** The runes of a buffer before its zero. */
  method ReadBack(b: array<Rune>, ghost l: seq<Rune>) returns (r: seq<Rune>)
    requires |l| < b.Length && b[..|l| + 1] == l + [0] && forall i :: 0 <= i < |l| ==> l[i] != 0
    ensures r == l
  {
    var n := 0;
    assert forall i :: 0 <= i <= |l| ==> b[i] == (l + [0])[i];
    while b[n] != 0
      invariant 0 <= n <= |l|
      decreases |l| - n
    {
      n := n + 1;
    }
    r := b[..n];
    assert n == |l|;
  }

  // ----- a line that is lost

  function Repeat(r: Rune, n: nat): (s: seq<Rune>)
    ensures |s| == n && forall i :: 0 <= i < n ==> s[i] == r
  {
    seq(n, _ => r)
  }

  lemma RepeatedRunes(r: Rune, n: nat)
    ensures |Repeat(r, n)| == n && forall i :: 0 <= i < n ==> Repeat(r, n)[i] == r
  {
  }

  lemma {:induction false} WholeLine(t: seq<Rune>)
    requires forall i :: 0 <= i < |t| ==> t[i] != 0 && t[i] != NEWLINE
    ensures LineOf(t) == t
  {
    if t != [] {
      WholeLine(t[1..]);
    }
  }

  /** A store whose next line begins in the last block but one, and one short line in that block. */
  method NearlyFull() returns (st: Store, h: int)
    ensures fresh(st) && fresh(st.linebuf) && fresh(st.ibuff) && fresh(st.obuff)
    ensures st.Valid() && st.iblock == -1 && h == PER * (NBLK - 2) + 2 && st.tline == h + 4
    ensures h in st.lines && st.lines[h] == [97]
  {
    hide Store.Valid, Store.Sound, LineOf, Written, Kept, Spared, Begun, Repeat;
    RepeatedRunes(120, 4 * PER - 4);
    RepeatedRunes(120, PER - 4);
    st := new Store();
    var i := 0;
    while i < 2047
      invariant 0 <= i <= 2047 && st.Valid() && st.iblock == -1 && st.tline == 2 + 4 * PER * i
      invariant fresh(st) && fresh(st.linebuf) && fresh(st.ibuff) && fresh(st.obuff)
    {
      WholeLine(Repeat(120, 4 * PER - 4));
      var ok, at := StoreText(st, Repeat(120, 4 * PER - 4));
      i := i + 1;
    }
    var ok;
    WholeLine(Repeat(120, PER - 4));
    ok, h := StoreText(st, Repeat(120, PER - 4));
    WholeLine([97]);
    ok, h := StoreText(st, [97]);
  }

  /** The output buffer of the last block stands in for the block of h. */
  lemma {:induction false} Clobbered(c: Cache, d: Cache, h: int, b: seq<Rune>)
    requires Coherent(c) && c.oblock == NBLK - 1 && c.iblock == -1 && h == PER * (NBLK - 2) + 2
    requires |b| >= PER && (forall i :: 0 <= i < |b| ==> b[i] == 98) && Written(c, h + 4, b)
    requires Kept(Begun(c, h + 4), d, h + 4) && Written(d, h + 4, [99] + [0])
    ensures Written(d, h, [98, 98, 98, 98, 99, 0])
  {
    hide Cell, Kept, Coherent, Opened, Has, Held;
    var l := [98, 98, 98, 98, 99, 0];
    var e := Begun(c, h + 4);
    forall i | 0 <= i < |l| ensures Rests(d, h, l, i) {
      if i < 4 {
        AtRune(c, h + 4, b, PER - 4 + i);
        InLast(c, PER + h + i);
        NotHeld(c);
        OpenAt(c, NBLK - 2, h + i);
        KeptAt(e, d, h + 4, h + i);
        OpenToWrite(c, NBLK - 2);
        HeldIsThere(e, NBLK - 2);
      } else {
        AtRune(d, h + 4, [99] + [0], i - 4);
      }
    }
  }

  lemma InLast(c: Cache, q: int)
    requires Coherent(c) && c.oblock == NBLK - 1 && c.iblock == -1 && q / PER == NBLK - 1
    ensures Cell(c, q) == c.obuff[q % PER]
  {
  }

  lemma NotHeld(c: Cache)
    requires c.oblock == NBLK - 1 && c.iblock == -1
    ensures !Held(c, NBLK - 2)
  {
  }

  /** The line c goes into the block of the line at h, which no buffer holds. */
  method LoseLine(st: Store, h: int, ghost b: seq<Rune>) returns (last: seq<Rune>)
    requires st.Works() && st.oblock == NBLK - 1 && st.iblock == -1 && h == PER * (NBLK - 2) + 2 && st.tline == h + 4
    requires |b| >= PER && (forall i :: 0 <= i < |b| ==> b[i] == 98) && Written(st.View(), h + 4, b)
    modifies st, st.linebuf, st.ibuff, st.obuff
    ensures last == [98, 98, 98, 98, 99]
  {
    hide Written, LineOf, Kept, AllHold, Coherent, Safe, Begun, Held;
    ghost var c := st.View();
    st.SetLine([99]);
    WholeLine([99]);
    LineOfBuffer(st.linebuf[..], [99]);
    var ok, at := st.Putline();
    Clobbered(c, st.View(), h, b);
    st.ReadLine(h, [98, 98, 98, 98, 99, 0], h + 6);
    assert [98, 98, 98, 98, 99, 0] == [98, 98, 98, 98, 99] + [0];
    last := ReadBack(st.linebuf, [98, 98, 98, 98, 99]);
  }

  /** The same once the block has been read: the line stays. */
  method KeepLine(st: Store, h: int) returns (last: seq<Rune>)
    requires st.Sound() && h in st.lines && st.lines[h] == [97] && h == PER * (NBLK - 2) + 2 && st.tline == h + 4
    requires Held(st.View(), NBLK - 2)
    modifies st, st.linebuf, st.ibuff, st.obuff
    ensures last == [97]
  {
    hide Written, LineOf, Kept, AllHold, Coherent, Held;
    st.SetLine([99]);
    WholeLine([99]);
    LineOfBuffer(st.linebuf[..], [99]);
    var ok, at := st.Putline();
    last := FetchText(st, h);
  }

  /** The line a is stored in the last block but one; a line of 2048 b does not fit; c is stored.
      Reading the first line then gives it, or bbbbc, depending on whether it was read before. */
  method Overflow(peek: bool) returns (last: seq<Rune>)
    ensures last == if peek then [97] else [98, 98, 98, 98, 99]
  {
    hide AllHold, LineOf, Coherent, Kept, Written;
    var st, h := NearlyFull();
    var b := Repeat(98, 2 * PER);
    WholeLine(b);
    var ok, at := StoreText(st, b);
    if peek {
      last := FetchText(st, h);
      last := KeepLine(st, h);
    } else {
      last := LoseLine(st, h, b[..PER * NBLK - at]);
    }
  }

  // ----- an empty line that is not

  /** Behind an empty line at the front of a new block stands what the block before had there. */
  lemma {:induction false} StaleRunes(c: Cache, d: Cache, e: Cache)
    requires Coherent(c) && c.iblock == -1 && c.oblock == 0 && Written(c, 2, Repeat(120, PER - 4) + [0])
    requires Spared(Begun(c, PER + 2), d, PER + 2, 1)
    requires Kept(Begun(d, PER + 6), e, PER + 6) && d.iblock == -1 && d.oblock == 1 && Written(e, PER + 6, [121] + [0])
    ensures Written(e, PER + 3, [120, 120, 120, 121, 0])
  {
    hide Cell, Kept, Coherent, Opened, Has, Held, Spared;
    var l: seq<Rune> := [120, 120, 120, 121, 0];
    var o, g := Begun(c, PER + 2), PER + 3;
    forall i | 0 <= i < |l| ensures Rests(e, g, l, i) {
      if i < 3 {
        AtRune(c, 2, Repeat(120, PER - 4) + [0], 1 + i);
        FirstBlock(c, 3 + i);
        OpenAt(c, 1, g + i);
        SparedAt(o, d, PER + 2, 1, g + i);
        BegunHeld(d, PER + 6);
        KeptAt(d, e, PER + 6, g + i);
      } else {
        AtRune(e, PER + 6, [121] + [0], i - 3);
      }
    }
  }

  lemma FirstBlock(c: Cache, q: int)
    requires Coherent(c) && c.oblock == 0 && c.iblock == -1 && 0 <= q < PER
    ensures Cell(c, q) == c.obuff[q] && !Held(c, 1)
  {
  }

  lemma SparedAt(c: Cache, d: Cache, h: int, n: nat, q: int)
    requires Spared(c, d, h, n) && 0 <= q && !(h <= q < h + n)
    ensures Cell(d, q) == Cell(c, q)
  {
  }

  lemma BegunHeld(c: Cache, h: int)
    requires c.oblock == h / PER && c.iblock == -1 && 0 <= h
    ensures Begun(c, h) == c && Has(c, h / PER)
  {
  }

  /** A full block, an empty line at the front of the next one, and the line y: with its mark set
      the empty line reads as xxxy. */
  method StaleEmpty() returns (plain: seq<Rune>, marked: seq<Rune>)
    ensures plain == [] && marked == [120, 120, 120, 121]
  {
    hide Store.Valid, Store.Sound, LineOf, Written, Kept, Spared, Begun, Coherent, AllHold, Repeat, ReadsAs, HoldsIn;
    var st := new Store();
    var x := Repeat(120, PER - 4);
    RepeatedRunes(120, PER - 4);
    WholeLine(x);
    var ok, h := StoreText(st, x);
    InPlace(st, h);
    ghost var c := st.View();
    WholeLine([]);
    ok, h := StoreText(st, []);
    ghost var d := st.View();
    WholeLine([121]);
    var y;
    ok, y := StoreText(st, [121]);
    InPlace(st, y);
    StaleRunes(c, d, st.View());
    assert [120, 120, 120, 121, 0] == [120, 120, 120, 121] + [0];
    marked := FetchMarked(st, h, [120, 120, 120, 121]);
    plain := FetchText(st, h);
  }

  lemma InPlace(st: Store, h: int)
    requires st.Sound() && h in st.lines
    ensures Written(st.View(), h, st.lines[h] + [0]) && Coherent(st.View())
  {
    hide Written, Coherent;
    assert HoldsIn(st.View(), st.tline, h, st.lines[h]);
  }

  lemma InBlock(q: int, j: int)
    requires 0 <= q && 0 <= j < PER
    ensures (q - q % PER + j) / PER == q / PER && (q - q % PER + j) % PER == j
  {
  }

  /** The rune before position q is in block k, where q ends block k or falls in it. */
  lemma LastBlock(k: int, q: int)
    requires PER * k < q <= PER * (k + 1)
    ensures (q - 1) / PER == k
  {
  }

  lemma Aligned(k: int)
    ensures (PER * k) % PER == 0 && (PER * k) / PER == k
  {
  }

  lemma BlockMono(p: int, q: int)
    requires p <= q
    ensures p / PER <= q / PER
  {
  }
}
