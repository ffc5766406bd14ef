/** The temporary files of the archiver, in core and on disk, and the archive made from them. */
module Archiver {
  import opened ArchiveModel
  import opened ArchiveProof

  /** A member buffer; owner is the file it is inserted into. */
  class Armember {
    const m: Member
    var next: Armember?
    ghost const owner: Arfile

    constructor (m: Member, ghost owner: Arfile)
      ensures this.m == m && this.owner == owner && next == null
    {
      this.m := m;
      next := null;
      this.owner := owner;
    }
  }

  /** A temporary file: a chain of buffers whose first part may have gone to disk. */
  class Arfile {
    var paged: bool
    var disk: seq<Byte>
    var size: nat
    var head: Armember?
    var tail: Armember?
    /** The symbols, newest first. */
    var sym: seq<Symref>
    /** The buffers in core; all that was ever inserted; how many of those went to disk. */
    ghost var chain: seq<Armember>
    ghost var entries: seq<Entry>
    ghost var spilled: nat
    /** How many bytes attempts to page have left on disk that failed. */
    ghost var left: nat
    /** Symbols scanned for the member that comes next. */
    ghost var pending: seq<Symbol>

    ghost predicate Linked()
      reads this`head, this`tail, this`chain, chain
    {
      && Chained(chain, this)
      && head == (if chain == [] then null else chain[0])
      && tail == (if chain == [] then null else chain[|chain| - 1])
    }

    ghost predicate Valid()
      reads this, chain
    {
      Linked() && Stored(chain, entries, spilled, disk, paged, left) && Counted(size, sym, entries, pending)
    }

    constructor ()
      ensures Valid() && entries == [] && pending == [] && chain == [] && sym == [] && left == 0
    {
      paged, disk, size, head, tail, sym := false, [], 0, null, null, [];
      chain, entries, spilled, left, pending := [], [], 0, 0, [];
    }

    /** arinsert. */
    method Arinsert(bp: Armember)
      requires Linked() && bp.owner == this && bp !in chain
      modifies this`head, this`tail, this`chain, bp, if tail == null then {} else {tail}
      ensures Linked() && chain == old(chain) + [bp]
    {
      bp.next := null;
      if tail == null {
        head := bp;
      } else {
        tail.next := bp;
      }
      tail := bp;
      chain := chain + [bp];
    }

    /** Insertion of a member whose symbols have been scanned, and the new size. */
    method Insert(bp: Armember)
      requires Valid() && bp.owner == this && bp !in chain
      modifies this, bp, if tail == null then {} else {tail}
      ensures Valid() && chain == old(chain) + [bp] && pending == []
      ensures entries == old(entries) + [Entry(bp.m, old(pending))] && sym == old(sym) && left == old(left)
    {
      hide Counted, Stored, Linked;
      StoredAppend(chain, entries, spilled, disk, paged, left, bp, pending);
      CountedInsert(size, sym, entries, pending, bp.m);
      Arinsert(bp);
      size := size + Even(bp.m.size) + SAR_HDR;
      entries := entries + [Entry(bp.m, pending)];
      pending := [];
    }

    /** page: the first buffer goes to disk, unless the file cannot be created or written. */
    method Page(how: Outcome) returns (ok: bool)
      requires Valid() && head != null
      modifies this
      ensures Valid() && ok == how.Works? && entries == old(entries) && pending == old(pending)
      ensures chain == if ok then old(chain)[1..] else old(chain)
      ensures size == old(size) && sym == old(sym)
      ensures left > 0 <==> old(left) > 0 || Leaves(1, how)
    {
      hide Counted, Stored, Linked;
      if how.Works? {
        ToDisk();
        Unlink();
        return true;
      }
      ok := false;
      if how.Stops? {
        PartToDisk(how.left);
      }
    }

    /** A write that stops early. */
    method PartToDisk(n: nat)
      requires Linked() && Stored(chain, entries, spilled, disk, paged, left) && head != null
      modifies this`paged, this`disk, this`left
      ensures Stored(chain, entries, spilled, disk, paged, left) && (left > 0 <==> old(left) > 0 || n > 0)
    {
      hide Stored, Flat, Chained, Image;
      ghost var was := disk;
      ImageLong(head.m);
      var part := if n < |Image(head.m)| then n else |Image(head.m)| - 1;
      StoredPart(chain, entries, spilled, disk, paged, left, Image(head.m)[..part]);
      paged := true;
      disk := disk + Image(head.m)[..part];
      left := left + part;
    }

    /** The first buffer is written to the disk copy. */
    method ToDisk()
      requires Linked() && Stored(chain, entries, spilled, disk, paged, left) && head != null
      modifies this`paged, this`disk, this`spilled
      ensures chain != [] && Stored(chain[1..], entries, spilled, disk, paged, left)
    {
      hide Stored, Flat, Chained;
      FirstStored(chain, entries, spilled, disk, paged, left);
      StoredSpill(chain, entries, spilled, disk, paged, left);
      paged := true;
      disk := disk + Image(head.m);
      spilled := spilled + 1;
    }

    /** The first buffer leaves the chain. */
    method Unlink()
      requires Linked() && head != null
      modifies this`head, this`tail, this`chain
      ensures Linked() && chain == old(chain)[1..]
    {
      hide Chained;
      ChainedRest(chain, this);
      var bp := head;
      head := bp.next;
      if tail == bp {
        tail := bp.next;
      }
      chain := chain[1..];
    }

    /** A symbol goes in front of the chain of symbols. */
    method Push(s: Symbol, offset: nat)
      requires Valid() && offset == size
      modifies this`sym, this`pending
      ensures Valid() && pending == old(pending) + [s]
      ensures sym == [Symref(s, offset)] + old(sym)
    {
      hide Stored, Linked;
      CountedPush(size, sym, entries, pending, s);
      sym := [Symref(s, offset)] + sym;
      pending := pending + [s];
    }

    lemma Owned()
      requires Valid()
      ensures forall m :: m in chain ==> m.owner == this
      ensures tail != null ==> tail in chain
      ensures size == FileSize(entries) && (pending == [] ==> sym == Refs(entries))
    {
      hide Stored;
      CountedIdle(size, sym, entries, pending);
    }

    twostate predicate SameMembers()
      reads this
    {
      entries == old(entries) && forall m :: m in chain ==> m in old(chain)
    }

    /** At most paging has happened. */
    twostate predicate Same()
      reads this
    {
      SameMembers() && pending == old(pending) && size == old(size) && sym == old(sym)
    }

    /** arstream, its disk part: all that went to disk, a buffer at a time. */
    method DiskPart(out: seq<Byte>) returns (r: seq<Byte>)
      requires Valid()
      ensures r == out + disk
    {
      hide Counted, Stored, Linked;
      r := out;
      StoredDisk(chain, entries, spilled, disk, paged, left);
      if paged {
        var at := 0;
        while at < |disk|
          invariant at <= |disk| && r == out + disk[..at]
        {
          var n := if |disk| - at < 8192 then |disk| - at else 8192;
          assert disk[..at] + disk[at..at + n] == disk[..at + n];
          r := r + disk[at..at + n];
          at := at + n;
        }
        assert disk[..at] == disk;
      }
    }

    /** arstream: the whole file, in the order its members were inserted, and whatever else
        attempts to page have left. */
    method Arstream(out: seq<Byte>) returns (r: seq<Byte>)
      requires Valid()
      ensures |r| == |out| + size + left && size == |Flat(Members(entries))|
      ensures left == 0 ==> r == out + Flat(Members(entries))
    {
      hide Flat, Chained, Stored, Counted, Members;
      CountedSize(size, sym, entries, pending);
      r := DiskPart(out);
      StoredDisk(chain, entries, spilled, disk, paged, left);
      var bp := head;
      ghost var i := 0;
      while bp != null
        invariant 0 <= i <= |chain| && bp == (if i < |chain| then chain[i] else null)
        invariant |r| == |out| + |Flat(Members(entries[..spilled + i]))| + left
        invariant left == 0 ==> r == out + Flat(Members(entries[..spilled + i]))
        decreases |chain| - i
      {
        StoredAt(chain, entries, spilled, disk, paged, left, i);
        DiskSnoc(entries, spilled + i);
        ChainedNext(chain, this, i);
        r := r + Image(bp.m);
        bp := bp.next;
        i := i + 1;
      }
      assert entries[..spilled + i] == entries;
    }
  }

  function Follower(chain: seq<Armember>, i: nat): Armember? {
    if i + 1 < |chain| then chain[i + 1] else null
  }

  /** Each buffer leads to the next one, and all belong to the file. */
  ghost predicate Chained(chain: seq<Armember>, file: Arfile)
    reads chain
  {
    && (forall i :: 0 <= i < |chain| ==> chain[i].owner == file)
    && (forall i :: 0 <= i < |chain| ==> chain[i].next == Follower(chain, i))
    && (forall i, j :: 0 <= i < j < |chain| ==> chain[i] != chain[j])
  }

  lemma {:induction false} ChainedNext(chain: seq<Armember>, file: Arfile, i: nat)
    requires Chained(chain, file) && i < |chain|
    ensures chain[i].next == if i + 1 < |chain| then chain[i + 1] else null
  {
  }

  lemma {:induction false} ChainedRest(chain: seq<Armember>, file: Arfile)
    requires Chained(chain, file) && chain != []
    ensures Chained(chain[1..], file) && chain[0].next == (if |chain| > 1 then chain[1] else null)
    ensures |chain| > 1 ==> chain[0] != chain[|chain| - 1]
  {
    var rest := chain[1..];
    forall i | 0 <= i < |rest| ensures rest[i].next == Follower(rest, i) {
      ChainedNext(chain, file, i + 1);
    }
    ChainedNext(chain, file, 0);
  }

  /** The chain is what of the entries is not on disk, and the disk holds the others, with left
      bytes of attempts that failed in between. */
  ghost predicate Stored(chain: seq<Armember>, entries: seq<Entry>, spilled: nat, disk: seq<Byte>, paged: bool,
      left: nat) {
    && spilled + |chain| == |entries|
    && (forall i :: 0 <= i < |chain| ==> chain[i].m == entries[spilled + i].member)
    && |disk| == |Flat(Members(entries[..spilled]))| + left
    && (left == 0 ==> disk == Flat(Members(entries[..spilled])))
    && (!paged ==> disk == [])
  }

  lemma {:induction false} StoredAppend(chain: seq<Armember>, entries: seq<Entry>, spilled: nat, disk: seq<Byte>,
      paged: bool, left: nat, bp: Armember, syms: seq<Symbol>)
    requires Stored(chain, entries, spilled, disk, paged, left)
    ensures Stored(chain + [bp], entries + [Entry(bp.m, syms)], spilled, disk, paged, left)
  {
    hide Flat;
    assert (entries + [Entry(bp.m, syms)])[..spilled] == entries[..spilled];
  }

  lemma {:induction false} FirstStored(chain: seq<Armember>, entries: seq<Entry>, spilled: nat, disk: seq<Byte>,
      paged: bool, left: nat)
    requires Stored(chain, entries, spilled, disk, paged, left) && chain != []
    ensures spilled < |entries| && chain[0].m == entries[spilled].member
  {
  }

  lemma {:induction false} StoredSpill(chain: seq<Armember>, entries: seq<Entry>, spilled: nat, disk: seq<Byte>,
      paged: bool, left: nat)
    requires Stored(chain, entries, spilled, disk, paged, left) && chain != []
    ensures Stored(chain[1..], entries, spilled + 1, disk + Image(chain[0].m), true, left)
  {
    hide Flat, Image;
    DiskSnoc(entries, spilled);
  }

  lemma {:induction false} StoredPart(chain: seq<Armember>, entries: seq<Entry>, spilled: nat, disk: seq<Byte>,
      paged: bool, left: nat, part: seq<Byte>)
    requires Stored(chain, entries, spilled, disk, paged, left)
    ensures Stored(chain, entries, spilled, disk + part, true, left + |part|)
  {
    hide Flat;
    if part == [] {
      assert disk + part == disk;
    }
  }

  lemma ImageLong(m: Member)
    ensures |Image(m)| >= SAR_HDR
  {
  }

  lemma {:induction false} StoredDisk(chain: seq<Armember>, entries: seq<Entry>, spilled: nat, disk: seq<Byte>,
      paged: bool, left: nat)
    requires Stored(chain, entries, spilled, disk, paged, left)
    ensures spilled + |chain| == |entries| && |disk| == |Flat(Members(entries[..spilled]))| + left
    ensures left == 0 ==> disk == Flat(Members(entries[..spilled]))
    ensures entries[..spilled + |chain|] == entries && (!paged ==> disk == [])
  {
  }

  lemma {:induction false} StoredAt(chain: seq<Armember>, entries: seq<Entry>, spilled: nat, disk: seq<Byte>,
      paged: bool, left: nat, i: nat)
    requires Stored(chain, entries, spilled, disk, paged, left) && i < |chain|
    ensures spilled + i < |entries| && chain[i].m == entries[spilled + i].member
  {
  }

  /** The size and the symbols of a file that holds these entries. */
  ghost predicate Counted(size: nat, sym: seq<Symref>, entries: seq<Entry>, pending: seq<Symbol>) {
    size == FileSize(entries) && sym == At(pending, size) + Refs(entries)
  }

  lemma {:induction false} CountedPush(size: nat, sym: seq<Symref>, entries: seq<Entry>, pending: seq<Symbol>,
      s: Symbol)
    requires Counted(size, sym, entries, pending)
    ensures Counted(size, [Symref(s, size)] + sym, entries, pending + [s])
  {
    hide FileSize, Refs;
    assert (pending + [s])[..|pending|] == pending;
    assert [Symref(s, size)] + (At(pending, size) + Refs(entries)) ==
      [Symref(s, size)] + At(pending, size) + Refs(entries);
  }

  lemma {:induction false} CountedSize(size: nat, sym: seq<Symref>, entries: seq<Entry>, pending: seq<Symbol>)
    requires Counted(size, sym, entries, pending)
    ensures size == |Flat(Members(entries))|
  {
  }

  lemma {:induction false} CountedIdle(size: nat, sym: seq<Symref>, entries: seq<Entry>, pending: seq<Symbol>)
    requires Counted(size, sym, entries, pending)
    ensures size == FileSize(entries) && (pending == [] ==> sym == Refs(entries))
  {
    hide FileSize, Refs;
  }

  lemma {:induction false} CountedInsert(size: nat, sym: seq<Symref>, entries: seq<Entry>, pending: seq<Symbol>,
      m: Member)
    requires Counted(size, sym, entries, pending)
    ensures Counted(size + Even(m.size) + SAR_HDR, sym, entries + [Entry(m, pending)], [])
  {
    hide FileSize, Refs;
    SizeSnoc(entries, Entry(m, pending));
    RefsSnoc(entries, Entry(m, pending));
    assert sym == At([], size) + (At(pending, size) + Refs(entries));
  }

  lemma {:induction false} SizeSnoc(es: seq<Entry>, e: Entry)
    ensures FileSize(es + [e]) == FileSize(es) + Even(e.member.size) + SAR_HDR
  {
    hide Flat;
    assert Members(es + [e]) == Members(es) + [e.member];
    FlatSnoc(Members(es), e.member);
  }

  lemma {:induction false} RefsSnoc(es: seq<Entry>, e: Entry)
    ensures Refs(es + [e]) == At(e.syms, FileSize(es)) + Refs(es)
  {
    hide Flat;
    assert (es + [e])[..|es|] == es;
  }

  lemma {:induction false} DiskSnoc(es: seq<Entry>, n: nat)
    requires n < |es|
    ensures Flat(Members(es[..n + 1])) == Flat(Members(es[..n])) + Image(es[n].member)
  {
    hide Flat;
    assert Members(es[..n + 1]) == Members(es[..n]) + [es[n].member];
    FlatSnoc(Members(es[..n]), es[n].member);
  }

  lemma {:induction false} SizePush(r: Symref, refs: seq<Symref>)
    ensures TableSize([r] + refs) == 4 + (|r.symbol.name| + 1) + 1 + TableSize(refs)
  {
    assert ([r] + refs)[1..] == refs;
  }

  ghost function Buffers(f: Arfile?): seq<Armember>
    reads f
  {
    if f == null then [] else f.chain
  }

  ghost function BufferSet(f: Arfile?): set<Armember>
    reads f
  {
    if f == null then {} else set m | m in f.chain
  }

  ghost function LeftOf(f: Arfile?): nat
    reads f
  {
    if f == null then 0 else f.left
  }

  ghost function EntriesOf(f: Arfile?): seq<Entry>
    reads f
  {
    if f == null then [] else f.entries
  }

  ghost function SymOf(f: Arfile?): seq<Symref>
    reads f
  {
    if f == null then [] else f.sym
  }

  ghost predicate Good(f: Arfile?)
    reads f, Buffers(f)
  {
    f != null ==> f.Valid()
  }

  ghost predicate Idle(f: Arfile?)
    reads f
  {
    f != null ==> f.pending == []
  }

  /** As newtempfile leaves it. */
  ghost predicate Unused(f: Arfile?)
    reads f, Buffers(f)
  {
    f != null ==> f.Valid() && f.entries == [] && f.pending == [] && f.chain == [] && f.sym == [] && f.left == 0
  }

  /** The archiver's globals. */
  class Ar {
    const astart: Arfile
    const amiddle: Arfile?
    var aend: Arfile?
    var allobj: bool
    var lastobj: int
    var dupfound: bool
    /** The names in the hash table of text symbols. */
    var hash: set<Name>
    var symdefsize: nat
    /** How short memory is at each allocation, and how many there were. */
    const memory: nat -> Shortage
    var calls: nat

    ghost function InCore(): Core
      reads this`aend, astart, amiddle, aend
    {
      Core(|astart.chain|, |Buffers(amiddle)|, |Buffers(aend)|,
        astart.left > 0 || LeftOf(amiddle) > 0 || LeftOf(aend) > 0)
    }

    ghost predicate Apart()
      reads this
    {
      amiddle != astart && aend != astart && (amiddle != null ==> aend != amiddle)
    }

    ghost predicate Valid()
      reads this, astart, amiddle, aend, Buffers(astart), Buffers(amiddle), Buffers(aend)
    {
      && Apart() && Good(astart) && Good(amiddle) && Good(aend)
      && symdefsize == TableSize(astart.sym) + TableSize(SymOf(amiddle)) + TableSize(SymOf(aend))
    }

    ghost predicate AllIdle()
      reads this, astart, amiddle, aend
    {
      Idle(astart) && Idle(amiddle) && Idle(aend)
    }

    ghost function View(): Plan
      reads this, astart, amiddle, aend
    {
      Plan(astart.entries, EntriesOf(amiddle), EntriesOf(aend), aend != null, allobj, lastobj, dupfound, hash)
    }

    constructor (start: Arfile, middle: Arfile?, memory: nat -> Shortage)
      requires start != middle && Unused(start) && Unused(middle)
      ensures Valid() && AllIdle() && View() == EMPTYPLAN && InCore() == NOTHING
      ensures astart == start && amiddle == middle && aend == null && this.memory == memory && calls == 0
    {
      astart, amiddle, aend := start, middle, null;
      allobj, lastobj, dupfound, hash, symdefsize := true, -1, false, {}, 0;
      this.memory := memory;
      calls := 0;
    }

    /** The allocations for the first file and the middle one, before any member is in core. */
    method ControlBlocks() returns (ok: bool)
      requires Valid() && AllIdle() && View() == EMPTYPLAN && InCore() == NOTHING && calls == 0
      modifies this`calls, astart, amiddle, aend
      ensures Valid() && AllIdle() && View() == EMPTYPLAN && Paged()
      ensures ok == Suffices(memory, amiddle != null, []).0
      ensures ok ==> Suffices(memory, amiddle != null, []) == (true, InCore(), calls)
    {
      hide Arfile.Valid, TableSize, Allocs;
      AllocsPlus(memory, 0, 1, 1, InCore());
      ok := Armalloc();
      if ok && amiddle != null {
        ok := Armalloc();
      }
    }

    /** Nothing has happened to the files but paging. */
    twostate predicate Paged()
      reads this, astart, amiddle, aend
    {
      && aend == old(aend) && astart.Same() && (amiddle != null ==> amiddle.Same()) && (aend != null ==> aend.Same())
    }

    /** Symbols may have come and buffers gone to disk. */
    twostate predicate SameEntries()
      reads this, astart, amiddle, aend
    {
      && aend == old(aend) && astart.SameMembers() && (amiddle != null ==> amiddle.SameMembers())
      && (aend != null ==> aend.SameMembers())
    }

    /** Files other than ap have the symbols waiting that they had. */
    twostate predicate OthersPending(ap: Arfile)
      reads this, astart, amiddle, aend
    {
      && (astart != ap ==> astart.pending == old(astart.pending))
      && (amiddle != null && amiddle != ap ==> amiddle.pending == old(amiddle.pending))
      && (aend != null && aend == old(aend) && aend != ap ==> aend.pending == old(aend.pending))
    }

    /** getspace: the first buffer of the first file that has one and can be paged goes to disk. */
    method Getspace(how: (Outcome, Outcome, Outcome)) returns (ok: bool)
      requires Valid()
      modifies astart, amiddle, aend
      ensures Valid() && Paged()
      ensures (ok, InCore()) == Relieve(old(InCore()), how)
      ensures var a, m, e := old(|astart.chain|), old(|Buffers(amiddle)|), old(|Buffers(aend)|);
        (ok, |astart.chain|, |Buffers(amiddle)|, |Buffers(aend)|)
          == if a > 0 && how.0.Works? then (true, a - 1, m, e)
             else if m > 0 && how.1.Works? then (true, a, m - 1, e)
             else if e > 0 && how.2.Works? then (true, a, m, e - 1)
             else (false, a, m, e)
    {
      hide Arfile.Valid;
      ok := PageFirst(astart, how.0);
      if !ok {
        ok := PageFirst(amiddle, how.1);
        if !ok {
          ok := PageFirst(aend, how.2);
        }
      }
    }

    /** armalloc: pages until the allocation works; without success the program ends. */
    method Armalloc() returns (ok: bool)
      requires Valid()
      modifies this`calls, astart, amiddle, aend
      ensures Valid() && Paged()
      ensures (ok, InCore()) == Allocs(memory, old(calls), 1, old(InCore()))
      ensures ok ==> calls == old(calls) + 1
    {
      hide Arfile.Valid, InCore, AllocWith, Relieve, Allocs;
      var fails := memory(calls);
      OneAlloc(memory, calls, InCore());
      AllocEnds(InCore(), fails);
      calls := calls + 1;
      ok := true;
      var i := 0;
      while i < |fails| && ok
        invariant 0 <= i <= |fails| && Valid() && Paged() && calls == old(calls) + 1
        invariant if ok then AllocWith(InCore(), fails[i..]) == AllocWith(old(InCore()), fails)
                  else (false, InCore()) == AllocWith(old(InCore()), fails)
      {
        AllocStep(InCore(), fails, i);
        ok := Getspace(fails[i]);
        i := i + 1;
      }
      AllocEnds(InCore(), fails);
    }

    ghost predicate Mine(f: Arfile)
      reads this
    {
      f == astart || f == amiddle || f == aend
    }

    /** objsym, with duplicate. */
    method Objsym(ap: Arfile, s: Symbol) returns (ok: bool)
      requires Valid() && Mine(ap)
      modifies this`calls, this`hash, this`dupfound, this`symdefsize, astart, amiddle, aend
      ensures Valid()
      ensures ok ==> dupfound == (old(dupfound) || (s.kind == 'T' as int && s.name in old(hash)))
      ensures ok ==> hash == if s.kind == 'T' as int then old(hash) + {s.name} else old(hash)
      ensures ok ==>
        ap.pending == old(ap.pending)
          + (if s.kind == 'D' as int || (s.kind == 'T' as int && s.name !in old(hash)) then [s] else [])
      ensures ok ==> calls == old(calls) + (if s.kind == 'D' as int then 2
                                            else if s.kind == 'T' as int then (if s.name in old(hash) then 2 else 3)
                                            else 0)
      ensures SameEntries() && OthersPending(ap)
      ensures (ok, InCore()) == Allocs(memory, old(calls), SymbolAllocs(s, old(hash)), old(InCore()))
      ensures ok ==> calls == old(calls) + SymbolAllocs(s, old(hash))
    {
      hide Arfile.Valid, TableSize;
      AllocsNone(memory, calls, InCore());
      hide Allocs, InCore;
      if s.kind != TEXT && s.kind != DATA {
        return true;
      }
      var offset;
      AllocsPlus(memory, calls, 2, 1, InCore());
      ok, offset := NewSymref(ap);
      AllocsNone(memory, calls, InCore());
      if ok && s.kind == TEXT {
        var dup;
        ok, dup := Duplicate(s.name);
        if dup {
          dupfound := true;
          return;
        }
      }
      if ok {
        Enter(ap, s, offset);
      }
    }

    /** The two allocations of objsym; the offset is noted between them. */
    method NewSymref(ap: Arfile) returns (ok: bool, offset: nat)
      requires Valid() && Mine(ap)
      modifies this`calls, astart, amiddle, aend
      ensures Valid() && Paged() && offset == ap.size
      ensures (ok, InCore()) == Allocs(memory, old(calls), 2, old(InCore()))
      ensures ok ==> calls == old(calls) + 2
    {
      hide Arfile.Valid, TableSize;
      hide Allocs;
      offset := ap.size;
      AllocsPlus(memory, calls, 1, 1, InCore());
      ok := Armalloc();
      if ok {
        offset := ap.size;
        ok := Armalloc();
      }
    }

    /** duplicate: is the name in the table; if not it is entered. */
    method Duplicate(name: Name) returns (ok: bool, dup: bool)
      requires Valid()
      modifies this`calls, this`hash, astart, amiddle, aend
      ensures Valid() && Paged() && dup == (name in old(hash)) && (dup ==> ok)
      ensures ok ==> hash == old(hash) + {name}
      ensures (ok, InCore()) == Allocs(memory, old(calls), (if dup then 0 else 1), old(InCore()))
      ensures ok ==> calls == old(calls) + (if dup then 0 else 1)
    {
      hide Arfile.Valid, TableSize;
      AllocsNone(memory, calls, InCore());
      hide Allocs;
      dup := name in hash;
      ok := true;
      if !dup {
        ok := Armalloc();
        if ok {
          hash := hash + {name};
        }
      }
    }

    /** The symbol enters the chain of its file and is counted. */
    method Enter(ap: Arfile, s: Symbol, offset: nat)
      requires Valid() && Mine(ap) && offset == ap.size
      modifies this`symdefsize, ap`sym, ap`pending
      ensures Valid() && ap.pending == old(ap.pending) + [s] && InCore() == old(InCore())
    {
      hide Arfile.Valid, TableSize;
      symdefsize := symdefsize + (4 + (|s.name| + 1) + 1);
      SizePush(Symref(s, offset), ap.sym);
      ap.Push(s, offset);
    }

    /** The symbols of one object file. */
    method Objtraverse(ap: Arfile, syms: seq<Symbol>) returns (ok: bool)
      requires Valid() && Mine(ap) && ap.pending == []
      modifies this`calls, this`hash, this`dupfound, this`symdefsize, astart, amiddle, aend
      ensures Valid() && SameEntries() && OthersPending(ap)
      ensures ok ==> dupfound == (old(dupfound) || Clash(syms, old(hash))) && hash == Seen(syms, old(hash))
      ensures ok ==> ap.pending == Accepted(syms, old(hash))
      ensures (ok, InCore()) == Allocs(memory, old(calls), SymAllocs(syms, old(hash)), old(InCore()))
      ensures ok ==> calls == old(calls) + SymAllocs(syms, old(hash))
    {
      hide Arfile.Valid, TableSize, Allocs, SymbolAllocs, SymAllocs, Accepted, Clash, Seen;
      NoSyms(hash);
      AllocsNone(memory, calls, InCore());
      ok := true;
      var i := 0;
      assert syms[..0] == [];
      while i < |syms| && ok
        invariant 0 <= i <= |syms| && Valid() && SameEntries() && OthersPending(ap)
        invariant ok ==>
          dupfound == (old(dupfound) || Clash(syms[..i], old(hash)))
          && hash == Seen(syms[..i], old(hash))
        invariant ok ==> ap.pending == Accepted(syms[..i], old(hash))
        invariant (ok, InCore()) == Allocs(memory, old(calls), SymAllocs(syms[..i], old(hash)), old(InCore()))
        invariant ok ==> calls == old(calls) + SymAllocs(syms[..i], old(hash))
      {
        ghost var cost := SymbolAllocs(syms[i], hash);
        AllocsPlus(memory, old(calls), SymAllocs(syms[..i], old(hash)), cost, old(InCore()));
        ok := Objsym(ap, syms[i]);
        OneSymbol(syms, i, old(hash));
        i := i + 1;
      }
      assert syms[..|syms|] == syms;
      SymAllocsGrow(syms, i, old(hash));
      AllocsPlus(memory, old(calls), SymAllocs(syms[..i], old(hash)),
        SymAllocs(syms, old(hash)) - SymAllocs(syms[..i], old(hash)), old(InCore()));
    }

    /** scanobj: what the object library says of the member is recorded for ap. */
    method Scanobj(ap: Arfile, scan: Scan) returns (ok: bool)
      requires Valid() && Mine(ap) && AllIdle()
      modifies this`calls, this`hash, this`dupfound, this`symdefsize, this`allobj, this`lastobj, astart, amiddle, aend
      ensures Valid() && SameEntries() && OthersPending(ap)
      ensures var p, c, n := old(View()), old(InCore()), old(calls);
        && (ok ==> ap.pending == ScanSyms(p, scan) && View() == AfterScan(p, scan))
        && (ok, InCore()) == Allocs(memory, n, ScanAllocs(p, scan), c)
        && (ok ==> calls == n + ScanAllocs(p, scan))
    {
      hide Arfile.Valid, TableSize, Allocs, SymAllocs, Accepted, Clash, Seen, InCore;
      AllocsNone(memory, calls, InCore());
      ok := true;
      var goes := Recognize(scan);
      if goes {
        ok := Objtraverse(ap, scan.syms);
      }
    }

    /** What the object library says of the kind of the member, before its symbols. */
    method Recognize(scan: Scan) returns (goes: bool)
      modifies this`allobj, this`lastobj
      ensures goes == old(Scannable(View(), scan))
      ensures var p := old(View());
        if !p.allobj then allobj == p.allobj && lastobj == p.lastobj
        else if scan.kind < 0 || (p.lastobj >= 0 && scan.kind != p.lastobj) then !allobj && lastobj == p.lastobj
        else lastobj == scan.kind && allobj == scan.readable
    {
      goes := false;
      if !allobj {
        return;
      }
      if scan.kind < 0 {
        allobj := false;
        return;
      }
      if lastobj >= 0 && scan.kind != lastobj {
        allobj := false;
        return;
      }
      lastobj := scan.kind;
      if !scan.readable {
        allobj := false;
        return;
      }
      goes := true;
    }

    function Target(place: Place): Arfile?
      reads this
    {
      if place == Middle then amiddle else if place == First || aend == null then astart else aend
    }

    /** Every buffer was there before, or is new. */
    twostate predicate OldOrFresh()
      reads this, astart, amiddle, aend
    {
      && fresh(BufferSet(astart) - old(BufferSet(astart))) && fresh(BufferSet(amiddle) - old(BufferSet(amiddle)))
      && fresh(BufferSet(aend) - old(BufferSet(aend)))
    }

    /** A scanned member goes into its file: arcopy or armove, once the member is in core. */
    method Put(place: Place, m: Member)
      requires Valid() && (place == Middle ==> amiddle != null)
      modifies Target(place), Target(place).tail
      ensures Valid() && View() == Inserted(old(View()), place, Entry(m, old(Target(place).pending)))
      ensures InCore() == Grown(old(InCore()), place, aend != null)
      ensures Target(place).pending == []
      ensures forall b :: b in Target(place).chain ==> b in old(Target(place).chain) || fresh(b)
    {
      hide Arfile.Valid, TableSize, Good;
      PutInto(Target(place), m);
    }

    method PutInto(ap: Arfile, m: Member)
      requires Valid() && Mine(ap)
      modifies ap, ap.tail
      ensures Valid() && ap.entries == old(ap.entries) + [Entry(m, old(ap.pending))] && ap.pending == []
      ensures |ap.chain| == |old(ap.chain)| + 1 && ap.left == old(ap.left)
      ensures forall b :: b in ap.chain ==> b in old(ap.chain) || fresh(b)
    {
      hide Arfile.Valid, TableSize;
      ghost var tail := ap.tail;
      OwnedBy(ap);
      OwnedBy(astart);
      OwnedBy(amiddle);
      OwnedBy(aend);
      var bp := new Armember(m, ap);
      ap.Insert(bp);
      if ap != astart {
        assert tail !in astart.chain;
        assert Good(astart);
      }
      if ap != amiddle && amiddle != null {
        assert tail !in amiddle.chain;
        assert Good(amiddle);
      }
      if ap != aend && aend != null {
        assert tail !in aend.chain;
        assert Good(aend);
      }
    }

    /** A member read and scanned goes into the file for its place. */
    method AddMember(place: Place, scan: Scan, m: Member) returns (ok: bool)
      requires Valid() && AllIdle() && (place == Middle ==> amiddle != null)
      modifies this, astart, amiddle, aend, BufferSet(astart), BufferSet(amiddle), BufferSet(aend)
      ensures OldOrFresh() && aend == old(aend)
      ensures ok ==> Valid() && AllIdle()
      ensures var p, c, n := old(View()), old(InCore()), old(calls);
        var k := OpAllocs(p, Add(place, scan, m));
        var (fits, d) := Allocs(memory, n, k, c);
        && ok == fits
        && (ok ==>
              View() == After(p, Add(place, scan, m)) && InCore() == Grown(d, place, p.pivoted) && calls == n + k)
    {
      hide Arfile.Valid, TableSize, AfterScan, ScanSyms, Inserted, Allocs, ScanAllocs, Grown, InCore;
      ok := TakeIn(place, scan);
      if ok {
        OwnedBy(Target(place));
        Put(place, m);
      }
    }

    /** The header, the scan of the member and its image: all that needs memory. */
    method TakeIn(place: Place, scan: Scan) returns (ok: bool)
      requires Valid() && AllIdle() && (place == Middle ==> amiddle != null)
      modifies this, astart, amiddle, aend
      ensures Valid() && SameEntries() && Target(place) == old(Target(place))
      ensures ok ==> OthersPending(Target(place))
      ensures var p, c, n := old(View()), old(InCore()), old(calls);
        && (ok ==> View() == AfterScan(p, scan) && Target(place).pending == ScanSyms(p, scan))
        && (ok, InCore()) == Allocs(memory, n, 1 + ScanAllocs(p, scan) + 1, c)
        && (ok ==> calls == n + (1 + ScanAllocs(p, scan) + 1))
    {
      hide Arfile.Valid, TableSize, AfterScan, ScanSyms, Allocs, ScanAllocs, InCore;
      AllocsPlus(memory, calls, 1 + ScanAllocs(View(), scan), 1, InCore());
      ok := ReadHeader(place, scan);
      if ok {
        ok := Armalloc();
      }
    }

    method ReadHeader(place: Place, scan: Scan) returns (ok: bool)
      requires Valid() && AllIdle() && (place == Middle ==> amiddle != null)
      modifies this, astart, amiddle, aend
      ensures Valid() && SameEntries() && Target(place) == old(Target(place)) && OthersPending(Target(place))
      ensures var p, c, n := old(View()), old(InCore()), old(calls);
        && (ok ==> View() == AfterScan(p, scan) && Target(place).pending == ScanSyms(p, scan))
        && (ok, InCore()) == Allocs(memory, n, 1 + ScanAllocs(p, scan), c)
        && (ok ==> calls == n + (1 + ScanAllocs(p, scan)))
    {
      hide Arfile.Valid, TableSize, AfterScan, ScanSyms, Allocs, ScanAllocs, InCore;
      AllocsPlus(memory, calls, 1, ScanAllocs(View(), scan), InCore());
      ok := Armalloc();
      if ok {
        ok := Scanobj(Target(place), scan);
      }
    }

    /** The pivot has been met: the members copied from here on go to a third file. */
    method PivotFound() returns (ok: bool)
      requires Valid() && AllIdle() && aend == null
      modifies this, astart, amiddle
      ensures ok ==> Valid() && AllIdle() && View() == After(old(View()), Pivot)
      ensures OldOrFresh() && (aend != null ==> fresh(aend))
      ensures (ok, InCore()) == Allocs(memory, old(calls), 1, old(InCore()))
      ensures ok ==> calls == old(calls) + 1
    {
      hide Arfile.Valid, TableSize;
      ok := Armalloc();
      if ok {
        aend := new Arfile();
        NoSymbols();
      }
    }

    method Perform(op: Op) returns (ok: bool)
      requires Valid() && AllIdle() && (op.Pivot? ==> aend == null)
        && (op.Add? && op.place == Middle ==> amiddle != null)
      modifies this, astart, amiddle, aend, BufferSet(astart), BufferSet(amiddle), BufferSet(aend)
      ensures OldOrFresh() && (aend == old(aend) || (aend != null ==> fresh(aend)))
      ensures ok ==> Valid() && AllIdle()
      ensures var p, c, n := old(View()), old(InCore()), old(calls);
        var k := OpAllocs(p, op);
        var (fits, d) := Allocs(memory, n, k, c);
        ok == fits && (ok ==> View() == After(p, op) && InCore() == GrownBy(d, op, p.pivoted) && calls == n + k)
    {
      hide Arfile.Valid, TableSize, After;
      match op {
        case Pivot => ok := PivotFound();
        case Add(place, scan, m) => ok := AddMember(place, scan, m);
      }
    }

    lemma SizesSettled()
      requires Valid() && AllIdle()
      ensures symdefsize == SymdefSize(View())
    {
      hide Arfile.Valid, TableSize, Refs;
      Settled(astart);
      Settled(amiddle);
      Settled(aend);
      NoSymbols();
    }

    /** rl: the header and the contents of the symbol table, when out is the magic string. */
    method Rl(out: Magic, hdr: Header) returns (r: seq<Byte>)
      requires Valid() && AllIdle()
      ensures r == out + Symdef(View(), hdr)
    {
      hide Arfile.Valid, TableSize, Table, FileSize, Refs;
      var len := symdefsize;
      if len % 2 == 1 {
        len := len + 1;
      }
      r := out + hdr;
      len := len + |r|;
      SizesSettled();
      r, len := FileTable(astart, r, len);
      r, len := FileTable(amiddle, r, len);
      r, len := FileTable(aend, r, len);
      if symdefsize % 2 == 1 {
        r := r + [0];
      }
    }

    /** install: no archive when a text symbol of objects came twice. What is written is the archive
        unless an attempt to page has left bytes behind. */
    method Install(magic: Magic, hdr: Header) returns (written: bool, out: seq<Byte>)
      requires Valid() && AllIdle()
      ensures written == !(allobj && dupfound)
      ensures written ==> (out == Archive(View(), magic, hdr) <==> !InCore().soiled)
    {
      hide Arfile.Valid, TableSize, Symdef, Flat, Members, Archive;
      out := [];
      if allobj && dupfound {
        return false, out;
      }
      written, out := true, magic;
      if allobj {
        out := Rl(magic, hdr);
      }
      ArchiveFrom(View(), magic, hdr, out);
      out := StreamOf(astart, out);
      out := StreamOf(amiddle, out);
      out := StreamOf(aend, out);
    }
  }

  lemma {:induction false} ArchiveFrom(p: Plan, magic: Magic, hdr: Header, out: seq<Byte>)
    requires out == if p.allobj then magic + Symdef(p, hdr) else magic
    ensures Archive(p, magic, hdr) == out + Flat(Members(p.start)) + Flat(Members(p.middle)) + Flat(Members(p.end))
  {
    hide Flat, Members, Symdef;
    var a, b, c := Flat(Members(p.start)), Flat(Members(p.middle)), Flat(Members(p.end));
    assert out + (a + b + c) == out + a + b + c;
    if !p.allobj {
      assert magic + [] == magic;
    }
  }

  /** A temporary file, if there is one, is copied out, with what attempts to page have left. */
  method StreamOf(f: Arfile?, out: seq<Byte>) returns (r: seq<Byte>)
    requires Good(f)
    ensures |r| == |out| + |Flat(Members(EntriesOf(f)))| + LeftOf(f)
    ensures LeftOf(f) == 0 ==> r == out + Flat(Members(EntriesOf(f)))
  {
    hide Arfile.Valid, Flat;
    NoSymbols();
    r := out;
    if f != null {
      r := f.Arstream(r);
    }
  }

  ghost predicate Allowed(ops: seq<Op>, middle: bool) {
    (forall i :: 0 <= i < |ops| && ops[i].Add? && ops[i].place == Middle ==> middle)
    && forall i, j :: 0 <= i < j < |ops| && ops[i].Pivot? ==> !ops[j].Pivot?
  }

  lemma {:induction false} PivotedBefore(ops: seq<Op>, n: nat)
    requires n <= |ops| && Planned(EMPTYPLAN, ops[..n]).pivoted
    ensures exists i :: 0 <= i < n && ops[i].Pivot?
  {
    if n > 0 {
      assert ops[..n][..n - 1] == ops[..n - 1];
      if !ops[n - 1].Pivot? {
        PivotedBefore(ops, n - 1);
      }
    }
  }

  /** The files a command starts with. */
  method NewAr(middle: bool, memory: nat -> Shortage) returns (ar: Ar)
    ensures fresh(ar) && fresh(ar.astart) && (ar.amiddle != null ==> fresh(ar.amiddle)) && ar.aend == null
    ensures ar.Valid() && ar.AllIdle() && ar.View() == EMPTYPLAN && ar.InCore() == NOTHING
    ensures (middle <==> ar.amiddle != null) && ar.memory == memory && ar.calls == 0
    ensures Buffers(ar.astart) == Buffers(ar.amiddle) == []
  {
    hide Arfile.Valid;
    var start := new Arfile();
    var mid: Arfile? := null;
    if middle {
      mid := new Arfile();
    }
    ar := new Ar(start, mid, memory);
  }

  /** The first i operations have been performed, or memory did not suffice for them. */
  ghost predicate AtOp(ar: Ar, middle: bool, memory: nat -> Shortage, ops: seq<Op>, i: nat, ok: bool)
    requires i <= |ops|
    reads ar, ar.astart, ar.amiddle, ar.aend
  {
    && (middle <==> ar.amiddle != null) && ar.memory == memory
    && ok == Suffices(memory, middle, ops[..i]).0
    && (ok ==>
          ar.View() == Planned(EMPTYPLAN, ops[..i])
          && Suffices(memory, middle, ops[..i]) == (true, ar.InCore(), ar.calls))
  }

  method OneOp(ar: Ar, middle: bool, memory: nat -> Shortage, ops: seq<Op>, i: nat) returns (ok: bool)
    requires Allowed(ops, middle) && i < |ops| && ar.Valid() && ar.AllIdle() && AtOp(ar, middle, memory, ops, i, true)
    modifies ar, ar.astart, ar.amiddle, ar.aend, BufferSet(ar.astart), BufferSet(ar.amiddle), BufferSet(ar.aend)
    ensures ok ==> ar.Valid() && ar.AllIdle()
    ensures AtOp(ar, middle, memory, ops, i + 1, ok)
    ensures ar.OldOrFresh() && (ar.aend == old(ar.aend) || (ar.aend != null ==> fresh(ar.aend)))
  {
    hide Arfile.Valid, TableSize, After, Suffices, Allocs, OpAllocs, Ar.Valid, Ar.AllIdle, Ar.OldOrFresh;
    NextSuffices(memory, middle, ops, i);
    assert ops[..i + 1][..i] == ops[..i];
    if ops[i].Pivot? && ar.aend != null {
      PivotedBefore(ops, i);
    }
    ok := ar.Perform(ops[i]);
  }

  /** Any sequence of members, any shortage of memory: either memory does not suffice, paging
      included, and the program ends, or the outcome is the one of the plan. */
  method Build(middle: bool, memory: nat -> Shortage, ops: seq<Op>, magic: Magic, hdr: Header)
    returns (ok: bool, written: bool, out: seq<Byte>)
    requires Allowed(ops, middle)
    ensures ok == Suffices(memory, middle, ops).0
    ensures (forall n: nat :: memory(n) == []) ==> ok
    ensures (forall n: nat :: memory(n) == []) ==> !Suffices(memory, middle, ops).1.soiled
    ensures var p := Planned(EMPTYPLAN, ops);
      && (ok ==> written == !(p.allobj && p.dupfound))
      && (ok && written ==> (out == Archive(p, magic, hdr) <==> !Suffices(memory, middle, ops).1.soiled))
  {
    hide Arfile.Valid, TableSize, After, Archive, Suffices, Allocs, OpAllocs;
    if forall n: nat :: memory(n) == [] {
      PlentySuffices(memory, middle, ops);
    }
    var ar := NewAr(middle, memory);
    ok := ar.ControlBlocks();
    written, out := false, [];
    var i := 0;
    assert ops[..0] == [];
    while i < |ops| && ok
      invariant 0 <= i <= |ops| && (ok ==> ar.Valid() && ar.AllIdle())
      invariant AtOp(ar, middle, memory, ops, i, ok)
      invariant fresh(ar) && fresh(ar.astart) && (ar.amiddle != null ==> fresh(ar.amiddle))
      invariant (ar.aend != null ==> fresh(ar.aend)) && fresh(BufferSet(ar.astart))
      invariant fresh(BufferSet(ar.amiddle)) && fresh(BufferSet(ar.aend))
    {
      ok := OneOp(ar, middle, memory, ops, i);
      i := i + 1;
    }
    FewerSuffice(memory, middle, ops, i);
    if ok {
      assert ops[..i] == ops;
      written, out := ar.Install(magic, hdr);
    }
  }

  lemma {:induction false} NextSuffices(memory: nat -> Shortage, middle: bool, ops: seq<Op>, i: nat)
    requires i < |ops|
    ensures var (ok, c, n) := Suffices(memory, middle, ops[..i]);
      var p := Planned(EMPTYPLAN, ops[..i]);
      if ok then
        var (fits, d) := Allocs(memory, n, OpAllocs(p, ops[i]), c);
        Suffices(memory, middle, ops[..i + 1]) == (fits, GrownBy(d, ops[i], p.pivoted), n + OpAllocs(p, ops[i]))
      else !Suffices(memory, middle, ops[..i + 1]).0
  {
    hide Allocs, OpAllocs, After;
    assert ops[..i + 1][..i] == ops[..i];
  }

  /** Memory that does not suffice for the first operations does not suffice for all. */
  lemma {:induction false} FewerSuffice(memory: nat -> Shortage, middle: bool, ops: seq<Op>, i: nat)
    requires i <= |ops|
    ensures Suffices(memory, middle, ops).0 ==> Suffices(memory, middle, ops[..i]).0
    decreases |ops| - i
  {
    hide Suffices;
    if i < |ops| {
      NextSuffices(memory, middle, ops, i);
      FewerSuffice(memory, middle, ops, i + 1);
    } else {
      assert ops[..i] == ops;
    }
  }

  /** One of the three steps of rl. */
  method FileTable(f: Arfile?, out: seq<Byte>, len: nat) returns (r: seq<Byte>, next: nat)
    requires Good(f) && Idle(f)
    ensures r == out + Table(Refs(EntriesOf(f)), len) && next == len + FileSize(EntriesOf(f))
  {
    hide Arfile.Valid, Table, FileSize, Refs;
    NoSymbols();
    Settled(f);
    r, next := out, len;
    if f != null {
      r := Wrsym(r, len, f.sym);
      next := len + f.size;
    }
  }

  /** A file none of whose symbols wait for a member. */
  lemma Settled(f: Arfile?)
    requires Good(f) && Idle(f)
    ensures SymOf(f) == Refs(EntriesOf(f)) && (f != null ==> f.size == FileSize(f.entries))
  {
    hide Arfile.Valid, FileSize;
    if f != null {
      f.Owned();
    }
  }

  lemma NoSymbols()
    ensures TableSize([]) == 0 && forall n: nat :: Table([], n) == []
    ensures Flat(Members([])) == []
    ensures FileSize([]) == 0 && Refs([]) == []
  {
  }

  /** wrsym. */
  method Wrsym(out: seq<Byte>, offset: nat, refs: seq<Symref>) returns (r: seq<Byte>)
    ensures r == out + Table(refs, offset)
  {
    hide Record;
    r := out;
    var rest := refs;
    while rest != []
      invariant r + Table(rest, offset) == out + Table(refs, offset)
      decreases |rest|
    {
      r := r + Record(rest[0], offset);
      rest := rest[1..];
    }
  }

  lemma OwnedBy(f: Arfile?)
    requires Good(f)
    ensures f != null ==> (forall m :: m in f.chain ==> m.owner == f) && (f.tail != null ==> f.tail in f.chain)
  {
    hide Arfile.Valid;
    if f != null {
      f.Owned();
    }
  }

  lemma {:induction false} SymAllocsGrow(syms: seq<Symbol>, i: nat, seen: set<Name>)
    requires i <= |syms|
    ensures SymAllocs(syms[..i], seen) <= SymAllocs(syms, seen)
    decreases |syms| - i
  {
    if i < |syms| {
      OneSymbol(syms, i, seen);
      SymAllocsGrow(syms, i + 1, seen);
    } else {
      assert syms[..i] == syms;
    }
  }

  lemma NoSyms(seen: set<Name>)
    ensures Accepted([], seen) == [] && Seen([], seen) == seen && !Clash([], seen) && SymAllocs([], seen) == 0
  {
  }

  lemma {:induction false} OneSymbol(syms: seq<Symbol>, i: nat, seen: set<Name>)
    requires i < |syms|
    ensures var s, front := syms[i], syms[..i];
      && Clash(syms[..i + 1], seen) == (Clash(front, seen) || (s.kind == TEXT && s.name in Seen(front, seen)))
      && Seen(syms[..i + 1], seen) == (if s.kind == TEXT then Seen(front, seen) + {s.name} else Seen(front, seen))
      && Accepted(syms[..i + 1], seen) == Accepted(front, seen)
        + (if Wanted(s) && !(s.kind == TEXT && s.name in Seen(front, seen)) then [s] else [])
      && SymAllocs(syms[..i + 1], seen) == SymAllocs(front, seen) + SymbolAllocs(s, Seen(front, seen))
  {
    assert syms[..i + 1][..i] == syms[..i];
  }

  /** One line of getspace. */
  method PageFirst(f: Arfile?, how: Outcome) returns (ok: bool)
    requires Good(f)
    modifies f
    ensures Good(f) && (f != null ==> f.Same())
    ensures ok == (old(|Buffers(f)|) > 0 && how.Works?) && |Buffers(f)| == old(|Buffers(f)|) - if ok then 1 else 0
    ensures LeftOf(f) > 0 <==> old(LeftOf(f)) > 0 || Leaves(old(|Buffers(f)|), how)
  {
    ok := false;
    if f != null && f.head != null {
      hide Arfile.Linked, Stored, Counted;
      ok := f.Page(how);
    }
  }
}
