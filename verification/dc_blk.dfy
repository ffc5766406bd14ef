/** dc's string blocks: a growable buffer with a read and a write cursor.
    Each method is one of the macros or helpers of the program. */
module Blocks {

  /** A signed char. Storing anything else does not type-check, so no cell ever wraps. */
  type Cell = x: int | -128 <= x < 128

  /** s with c at index i, one longer when i is the end of s. */
  function Overwrite(s: seq<Cell>, i: nat, c: Cell): (r: seq<Cell>)
    requires i <= |s|
  {
    if i < |s| then s[i := c] else s + [c]
  }

  /** The offsets rd, wt and |buf| stand for the pointers rd, wt and last, counted from beg.
      A block is valid whatever its read cursor; the macros that go through the cursor ask
      for it to be inside the digits. */
  class Blk {
    var buf: seq<Cell>
    var rd: nat
    var wt: nat

    ghost predicate Valid()
      reads this
    {
      wt <= |buf|
    }

    function Digits(): seq<Cell>
      requires Valid()
      reads this
    {
      buf[..wt]
    }

    function Length(): nat
      reads this
    {
      wt
    }

    predicate Sfeof()
      reads this
    {
      rd == wt
    }

    predicate Sfbeg()
      reads this
    {
      rd == 0
    }

    /** The cell under the read cursor, or -1 at the end. */
    function Slookc(): int
      requires Valid() && rd <= wt
      reads this
    {
      if rd == wt then -1 else buf[rd]
    }

    /** Allocates size cells; nothing is promised about what they hold. */
    constructor Salloc(size: nat)
      ensures Valid() && rd == 0 && wt == 0 && |buf| == size
    {
      buf := seq(size, _ => 0);
      rd, wt := 0, 0;
    }

    constructor Copy(p: Blk)
      requires p.Valid()
      ensures Valid() && rd == 0 && Digits() == p.Digits()
    {
      buf := p.buf[..p.wt];
      rd, wt := 0, p.wt;
    }

    method Rewind()
      modifies this`rd
      ensures rd == 0
    {
      rd := 0;
    }

    method Fsfile()
      modifies this`rd
      ensures rd == wt
    {
      rd := wt;
    }

    method Create()
      modifies this`rd, this`wt
      ensures Valid() && rd == 0 && Digits() == []
    {
      rd, wt := 0, 0;
    }

    method Truncate()
      requires Valid() && rd <= wt
      modifies this`wt
      ensures Valid() && Digits() == old(Digits())[..rd]
    {
      wt := rd;
    }

    method Sgetc() returns (c: int)
      requires Valid() && rd <= wt
      modifies this`rd
      ensures old(Sfeof()) ==> c == -1 && rd == old(rd)
      ensures !old(Sfeof()) ==> rd == old(rd) + 1 && c == Digits()[old(rd)]
    {
      if rd == wt {
        return -1;
      }
      c := buf[rd];
      rd := rd + 1;
    }

    method Skipc()
      requires Valid() && rd <= wt
      modifies this`rd
      ensures rd == if old(Sfeof()) then old(rd) else old(rd) + 1
    {
      if rd < wt {
        rd := rd + 1;
      }
    }

    method Sbackc() returns (c: int)
      requires Valid() && rd <= wt
      modifies this`rd
      ensures old(rd) == 0 ==> c == -1 && rd == 0
      ensures old(rd) > 0 ==> rd == old(rd) - 1 && c == Digits()[rd]
    {
      if rd == 0 {
        return -1;
      }
      rd := rd - 1;
      c := buf[rd];
    }

    method Backc()
      modifies this`rd
      ensures rd == if old(rd) == 0 then 0 else old(rd) - 1
    {
      if rd > 0 {
        rd := rd - 1;
      }
    }

    /** Doubles the buffer. */
    method More()
      requires Valid()
      modifies this`buf
      ensures Valid() && |buf| > |old(buf)| && buf[..|old(buf)|] == old(buf)
    {
      var size := if |buf| == 0 then 2 else 2 * |buf|;
      buf := buf + seq(size - |buf|, _ => 0);
    }

    method Sputc(c: Cell)
      requires Valid()
      modifies this`buf, this`wt
      ensures Valid() && Digits() == old(Digits()) + [c]
    {
      if wt == |buf| {
        More();
      }
      assert buf[..wt] == old(Digits());
      buf := buf[wt := c];
      wt := wt + 1;
    }

    method Salterc(c: Cell)
      requires Valid() && rd <= wt
      modifies this
      ensures Valid() && rd == old(rd) + 1
      ensures Digits() == Overwrite(old(Digits()), old(rd), c)
    {
      if rd == |buf| {
        More();
      }
      assert buf[..wt] == old(Digits());
      buf := buf[rd := c];
      rd := rd + 1;
      if rd > wt {
        wt := rd;
      }
    }

    method Sunputc() returns (c: Cell)
      requires Valid() && wt > 0
      modifies this`rd, this`wt
      ensures Valid() && rd == wt && old(Digits()) == Digits() + [c]
    {
      wt := wt - 1;
      rd := wt;
      c := buf[rd];
    }

    /** Clears every cell up to last, digits or not. */
    method Zero()
      requires Valid()
      modifies this`buf
      ensures Valid() && |buf| == |old(buf)| && forall i :: 0 <= i < |buf| ==> buf[i] == 0
    {
      buf := seq(|buf|, _ => 0);
    }

    /** Moves the read cursor to n, growing the block when it is shorter than that. Cells
        that become digits keep whatever the buffer held. */
    method Seekc(n: nat)
      requires Valid()
      modifies this
      ensures Valid() && rd == n && wt == (if n > old(wt) then n else old(wt))
      ensures n <= |old(buf)| ==> buf == old(buf)
      ensures Digits()[..old(wt)] == old(Digits())
    {
      if n > |buf| {
        buf := buf + seq(n - |buf|, _ => 0);
        wt, rd := n, n;
        return;
      }
      rd := n;
      if n > wt {
        wt := n;
      }
    }
  }
}
