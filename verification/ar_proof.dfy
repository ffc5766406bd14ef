/** What the symbol table of an archive says, and that it is true. */
module ArchiveProof {
  import opened ArchiveModel

  // ----- bytes and positions

  lemma {:induction false} FlatSnoc(ms: seq<Member>, m: Member)
    ensures Flat(ms + [m]) == Flat(ms) + Image(m)
  {
    assert (ms + [m])[..|ms|] == ms;
  }

  lemma {:induction false} FlatConcat(a: seq<Member>, b: seq<Member>)
    ensures Flat(a + b) == Flat(a) + Flat(b)
    decreases |b|
  {
    hide Image;
    if b == [] {
      assert a + b == a;
    } else {
      assert (a + b)[..|a + b| - 1] == a + b[..|b| - 1];
      FlatConcat(a, b[..|b| - 1]);
    }
  }

  /** A member's bytes stand at its position. */
  lemma {:induction false} FlatAt(es: seq<Entry>, k: nat)
    requires k < |es|
    ensures Position(es, k) + |Image(es[k].member)| <= |Flat(Members(es))|
    ensures Flat(Members(es))[Position(es, k)..Position(es, k) + |Image(es[k].member)|] == Image(es[k].member)
  {
    hide Flat, Image;
    var a, b := Members(es[..k]), Members(es[k + 1..]);
    FlatSnoc(a, es[k].member);
    FlatConcat(a + [es[k].member], b);
    assert Members(es) == a + [es[k].member] + b;
  }

  lemma {:induction false} PositionOver(a: seq<Entry>, b: seq<Entry>, k: nat)
    requires k <= |b|
    ensures Position(a + b, |a| + k) == FileSize(a) + Position(b, k)
  {
    hide Flat;
    assert (a + b)[..|a| + k] == a + b[..k];
    assert Members(a + b[..k]) == Members(a) + Members(b[..k]);
    FlatConcat(Members(a), Members(b[..k]));
  }

  lemma {:induction false} PositionWithin(a: seq<Entry>, b: seq<Entry>, k: nat)
    requires k <= |a|
    ensures Position(a + b, k) == Position(a, k)
  {
    hide Flat;
    assert (a + b)[..k] == a[..k];
  }

  // ----- the symbols of a chain

  lemma {:induction false} AtExact(syms: seq<Symbol>, offset: nat, r: Symref)
    ensures r in At(syms, offset) <==> r.offset == offset && r.symbol in syms
  {
    if syms != [] {
      var front := syms[..|syms| - 1];
      AtExact(front, offset, r);
      assert syms == front + [syms[|syms| - 1]];
    }
  }

  /** r is a symbol of an entry with the entry's position. */
  ghost predicate Names(es: seq<Entry>, base: nat, r: Symref) {
    exists k :: 0 <= k < |es| && r.symbol in es[k].syms && r.offset == base + Position(es, k)
  }

  lemma {:induction false} RefsExact(es: seq<Entry>, r: Symref)
    ensures r in Refs(es) <==> Names(es, 0, r)
  {
    hide Position, At;
    if es != [] {
      var front, last := es[..|es| - 1], es[|es| - 1];
      RefsExact(front, r);
      AtExact(last.syms, Position(es, |es| - 1), r);
      assert es == front + [last];
      forall k | 0 <= k < |front| ensures Position(es, k) == Position(front, k) {
        PositionWithin(front, [last], k);
      }
    }
  }

  lemma {:induction false} MovedExact(refs: seq<Symref>, d: nat, r: Symref)
    ensures r in Moved(refs, d) <==> r.offset >= d && Symref(r.symbol, r.offset - d) in refs
  {
    if refs != [] {
      MovedExact(refs[1..], d, r);
      assert refs == [refs[0]] + refs[1..];
      assert r == Symref(refs[0].symbol, refs[0].offset + d) <==>
        r.offset >= d && Symref(r.symbol, r.offset - d) == refs[0];
    }
  }

  lemma {:induction false} MovedNames(es: seq<Entry>, d: nat, r: Symref)
    ensures r in Moved(Refs(es), d) <==> Names(es, d, r)
  {
    hide Position, Moved, Refs;
    MovedExact(Refs(es), d, r);
    if r.offset >= d {
      RefsExact(es, Symref(r.symbol, r.offset - d));
    }
  }

  lemma {:induction false} NamesConcat(a: seq<Entry>, b: seq<Entry>, base: nat, r: Symref)
    ensures Names(a + b, base, r) <==> Names(a, base, r) || Names(b, base + FileSize(a), r)
  {
    hide Position;
    forall k | 0 <= k < |a| ensures Position(a + b, k) == Position(a, k) {
      PositionWithin(a, b, k);
    }
    forall k | 0 <= k < |b| ensures Position(a + b, |a| + k) == FileSize(a) + Position(b, k) {
      PositionOver(a, b, k);
    }
    if Names(b, base + FileSize(a), r) {
      var k :| 0 <= k < |b| && r.symbol in b[k].syms && r.offset == base + FileSize(a) + Position(b, k);
      assert (a + b)[|a| + k] == b[k];
    }
    if Names(a, base, r) {
      var k :| 0 <= k < |a| && r.symbol in a[k].syms && r.offset == base + Position(a, k);
      assert (a + b)[k] == a[k];
    }
    if Names(a + b, base, r) {
      var k :| 0 <= k < |a + b| && r.symbol in (a + b)[k].syms && r.offset == base + Position(a + b, k);
      if k >= |a| {
        assert (a + b)[k] == b[k - |a|];
        assert Position(a + b, |a| + (k - |a|)) == FileSize(a) + Position(b, k - |a|);
      }
    }
  }

  lemma {:induction false} TwoSizes(a: seq<Entry>, b: seq<Entry>)
    ensures FileSize(a + b) == FileSize(a) + FileSize(b)
  {
    hide Flat;
    assert Members(a + b) == Members(a) + Members(b);
    FlatConcat(Members(a), Members(b));
  }

  /** The table holds the symbols of every member with that member's position in the archive,
      and nothing else. */
  lemma {:induction false} TableExact(p: Plan, r: Symref)
    ensures r in TableRefs(p) <==> Names(Order(p), Base(p), r)
  {
    hide Names, Moved, Refs, FileSize, Base;
    MovedNames(p.start, Base(p), r);
    MovedNames(p.middle, Base(p) + FileSize(p.start), r);
    MovedNames(p.end, Base(p) + FileSize(p.start) + FileSize(p.middle), r);
    NamesConcat(p.start + p.middle, p.end, Base(p), r);
    NamesConcat(p.start, p.middle, Base(p), r);
    TwoSizes(p.start, p.middle);
  }

  // ----- the bytes of the table

  lemma {:induction false} TableLength(refs: seq<Symref>, offset: nat)
    ensures |Table(refs, offset)| == TableSize(refs)
  {
    if refs != [] {
      TableLength(refs[1..], offset);
    }
  }

  lemma {:induction false} TablesLength(p: Plan)
    ensures |Tables(p)| == SymdefSize(p)
  {
    hide Table, TableSize, Refs, Base, FileSize;
    TableLength(Refs(p.start), Base(p));
    TableLength(Refs(p.middle), Base(p) + FileSize(p.start));
    TableLength(Refs(p.end), Base(p) + FileSize(p.start) + FileSize(p.middle));
  }

  lemma Number4OfLe4(n: nat)
    requires n < 0x1_0000_0000
    ensures Number4(Le4(n)) == n
  {
    var a := n / 256;
    var b := a / 256;
    assert n / 65536 == b;
    assert n / 16777216 == b / 256;
  }

  lemma {:induction false} ZeroFound(name: Name, rest: seq<Byte>)
    ensures 0 in name + [0] + rest && Zero(name + [0] + rest) == |name|
  {
    var b := name + [0] + rest;
    assert b[|name|] == 0 && b[..|name|] == name;
    ZeroAt(b, |name|);
  }

  lemma {:induction false} ZeroAt(b: seq<Byte>, n: nat)
    requires n < |b| && b[n] == 0 && 0 !in b[..n]
    ensures Zero(b) == n
  {
    if n > 0 {
      assert b[0] == b[..n][0];
      assert b[1..][..n - 1] == b[..n][1..];
      ZeroAt(b[1..], n - 1);
    }
  }

  /** One record is read back. */
  lemma {:induction false} RecordRead(r: Symref, offset: nat, rest: seq<Byte>)
    requires r.offset + offset < 0x1_0000_0000
    ensures ReadTable(Record(r, offset) + rest) == [Symref(r.symbol, r.offset + offset)] + ReadTable(rest)
  {
    hide Le4, Number4, Zero;
    var b := Record(r, offset) + rest;
    var tail := r.symbol.name + [0] + rest;
    assert b == [r.symbol.kind] + Le4(r.offset + offset) + tail;
    Le4Length(r.offset + offset);
    assert b[5..] == tail && b[1..5] == Le4(r.offset + offset);
    ZeroFound(r.symbol.name, rest);
    Number4OfLe4(r.offset + offset);
    assert tail[..|r.symbol.name|] == r.symbol.name && tail[|r.symbol.name| + 1..] == rest;
  }

  lemma Le4Length(n: nat)
    ensures |Le4(n)| == 4
  {
  }

  /** Every position in the chain, moved by offset, fits 32 bits. */
  ghost predicate Fits(refs: seq<Symref>, offset: nat) {
    forall i :: 0 <= i < |refs| ==> refs[i].offset + offset < 0x1_0000_0000
  }

  lemma {:induction false} TableRead(refs: seq<Symref>, offset: nat, rest: seq<Byte>)
    requires Fits(refs, offset)
    ensures ReadTable(Table(refs, offset) + rest) == Moved(refs, offset) + ReadTable(rest)
  {
    hide Record, ReadTable;
    if refs == [] {
      assert Table(refs, offset) + rest == rest;
    } else {
      var more := Table(refs[1..], offset) + rest;
      assert Table(refs, offset) + rest == Record(refs[0], offset) + more;
      RecordRead(refs[0], offset, more);
      TableRead(refs[1..], offset, rest);
    }
  }

  lemma {:induction false} PositionBound(es: seq<Entry>, k: nat)
    requires k <= |es|
    ensures Position(es, k) <= FileSize(es)
  {
    hide Flat;
    assert Members(es) == Members(es[..k]) + Members(es[k..]);
    FlatConcat(Members(es[..k]), Members(es[k..]));
  }

  lemma {:induction false} RefsFit(es: seq<Entry>, offset: nat)
    requires offset + FileSize(es) < 0x1_0000_0000
    ensures Fits(Refs(es), offset)
  {
    hide Position, FileSize, Refs;
    forall i | 0 <= i < |Refs(es)| ensures Refs(es)[i].offset + offset < 0x1_0000_0000 {
      RefsExact(es, Refs(es)[i]);
      var k :| 0 <= k < |es| && Refs(es)[i].offset == 0 + Position(es, k);
      PositionBound(es, k);
    }
  }

  /** Reading the table that was written gives every symbol and its position. */
  lemma {:induction false} TablesRead(p: Plan, pad: seq<Byte>)
    requires Base(p) + FileSize(Order(p)) < 0x1_0000_0000 && |pad| <= 1
    ensures ReadTable(Tables(p) + pad) == TableRefs(p)
  {
    hide Table, Refs, Base, FileSize, ReadTable, Moved, Fits;
    TwoSizes(p.start, p.middle);
    TwoSizes(p.start + p.middle, p.end);
    var b, c := Base(p) + FileSize(p.start), Base(p) + FileSize(p.start) + FileSize(p.middle);
    RefsFit(p.start, Base(p));
    RefsFit(p.middle, b);
    RefsFit(p.end, c);
    TableRead(Refs(p.end), c, pad);
    TableRead(Refs(p.middle), b, Table(Refs(p.end), c) + pad);
    TableRead(Refs(p.start), Base(p), Table(Refs(p.middle), b) + (Table(Refs(p.end), c) + pad));
    assert Tables(p) + pad
      == Table(Refs(p.start), Base(p)) + (Table(Refs(p.middle), b) + (Table(Refs(p.end), c) + pad));
    NothingToRead(pad);
  }

  lemma {:induction false} NothingToRead(pad: seq<Byte>)
    requires |pad| <= 1
    ensures ReadTable(pad) == []
  {
  }

  lemma {:induction false} StreamsOrder(p: Plan)
    ensures Streams(p) == Flat(Members(Order(p)))
  {
    hide Flat;
    assert Members(Order(p)) == Members(p.start) + Members(p.middle) + Members(p.end);
    FlatConcat(Members(p.start) + Members(p.middle), Members(p.end));
    FlatConcat(Members(p.start), Members(p.middle));
  }

  /** The parts of an archive with a symbol table. */
  lemma {:induction false} ArchiveParts(p: Plan, magic: Magic, hdr: Header)
    requires p.allobj
    ensures var a := Archive(p, magic, hdr);
      && |a| == Base(p) + FileSize(Order(p))
      && a[..SARMAG] == magic && a[SARMAG..SARMAG + SAR_HDR] == hdr
      && a[SARMAG + SAR_HDR..Base(p)] == Tables(p) + (if SymdefSize(p) % 2 == 1 then [0] else [])
      && a[Base(p)..] == Flat(Members(Order(p)))
  {
    hide Flat, Tables, SymdefSize;
    TablesLength(p);
    StreamsOrder(p);
    var pad: seq<Byte> := if SymdefSize(p) % 2 == 1 then [0] else [];
    var front, table := magic + hdr, Tables(p) + pad;
    var a := Archive(p, magic, hdr);
    assert a == front + table + Streams(p);
    assert |front| == SARMAG + SAR_HDR && |front + table| == Base(p);
    assert a[|front|..Base(p)] == table;
  }

  /** Each symbol a reader finds in the table stands at the header of a member that it was
      taken from; and each symbol of each member is found. */
  lemma {:induction false} SymbolPoints(p: Plan, magic: Magic, hdr: Header, r: Symref)
    requires p.allobj && |Archive(p, magic, hdr)| < 0x1_0000_0000
    ensures var a := Archive(p, magic, hdr);
      && Base(p) <= |a|
      && (r in ReadTable(a[SARMAG + SAR_HDR..Base(p)]) <==> Names(Order(p), Base(p), r))
  {
    hide Archive, Names, Order, TableRefs, Tables, FileSize, SymdefSize, ReadTable;
    ArchiveParts(p, magic, hdr);
    TablesRead(p, if SymdefSize(p) % 2 == 1 then [0] else []);
    TableExact(p, r);
  }

  /** The bytes of member k, header first, stand at its position in the archive. */
  lemma {:induction false} MemberStands(p: Plan, magic: Magic, hdr: Header, k: nat)
    requires p.allobj && k < |Order(p)|
    ensures var a, e := Archive(p, magic, hdr), Order(p)[k];
      var at := Base(p) + Position(Order(p), k);
      at + |Image(e.member)| <= |a| && a[at..at + |Image(e.member)|] == Image(e.member)
  {
    hide Archive, Order, FileSize, SymdefSize, Flat, Position, Image;
    ArchiveParts(p, magic, hdr);
    FlatAt(Order(p), k);
    var a, n, q := Archive(p, magic, hdr), |Image(Order(p)[k].member)|, Position(Order(p), k);
    assert a[Base(p)..][q..q + n] == a[Base(p) + q..Base(p) + q + n];
  }

  // ----- scanning and conservation

  /** objsym meets a duplicate exactly when a text symbol was seen before, or comes twice. */
  lemma {:induction false} ClashMeans(syms: seq<Symbol>, seen: set<Name>)
    ensures Clash(syms, seen) <==>
      exists i :: 0 <= i < |syms| && syms[i].kind == 'T' as int
        && (syms[i].name in seen ||
            exists j :: 0 <= j < i && syms[j].kind == 'T' as int && syms[j].name == syms[i].name)
  {
    if syms != [] {
      var n := |syms| - 1;
      var front := syms[..n];
      ClashMeans(front, seen);
      SeenMeans(front, seen, syms[n].name);
    }
  }

  lemma {:induction false} SeenMeans(syms: seq<Symbol>, seen: set<Name>, name: Name)
    ensures name in Seen(syms, seen) <==>
      name in seen || exists j :: 0 <= j < |syms| && syms[j].kind == 'T' as int && syms[j].name == name
  {
    if syms != [] {
      SeenMeans(syms[..|syms| - 1], seen, name);
    }
  }

  /** Without a duplicate every text and data symbol is kept. */
  lemma {:induction false} AllAccepted(syms: seq<Symbol>, seen: set<Name>, s: Symbol)
    requires !Clash(syms, seen)
    ensures s in Accepted(syms, seen) <==> s in syms && (s.kind == 'T' as int || s.kind == 'D' as int)
  {
    if syms != [] {
      AllAccepted(syms[..|syms| - 1], seen, s);
    }
  }

  function Given(ops: seq<Op>): seq<Member> {
    if ops == [] then []
    else
      var front, op := Given(ops[..|ops| - 1]), ops[|ops| - 1];
      if op.Add? then front + [op.member] else front
  }

  /** Every member given is in the archive, as often as it was given. */
  lemma {:induction false} NothingLost(ops: seq<Op>)
    ensures multiset(Members(Order(Planned(EMPTYPLAN, ops)))) == multiset(Given(ops))
  {
    if ops != [] {
      var front := ops[..|ops| - 1];
      NothingLost(front);
      Kept(Planned(EMPTYPLAN, front), ops[|ops| - 1]);
    }
  }

  lemma {:induction false} Kept(p: Plan, op: Op)
    ensures multiset(Members(Order(After(p, op))))
      == multiset(Members(Order(p))) + (if op.Add? then multiset{op.member} else multiset{})
  {
    hide ScanSyms, AfterScan;
    OrderMembers(p);
    OrderMembers(After(p, op));
    if op.Add? {
      var e := Entry(op.member, ScanSyms(p, op.scan));
      var a, b, c := Members(p.start), Members(p.middle), Members(p.end);
      AfterFiles(p, op, e);
      assert Members(p.start + [e]) == a + [op.member];
      assert Members(p.middle + [e]) == b + [op.member];
      assert Members(p.end + [e]) == c + [op.member];
      OneMore(a, b, c, op.member);
    }
  }

  lemma {:induction false} AfterFiles(p: Plan, op: Op, e: Entry)
    requires op.Add? && e == Entry(op.member, ScanSyms(p, op.scan))
    ensures var q := After(p, op);
      || (q.start == p.start + [e] && q.middle == p.middle && q.end == p.end)
      || (q.start == p.start && q.middle == p.middle + [e] && q.end == p.end)
      || (q.start == p.start && q.middle == p.middle && q.end == p.end + [e])
  {
    hide ScanSyms;
  }

  lemma {:induction false} OneMore(a: seq<Member>, b: seq<Member>, c: seq<Member>, m: Member)
    ensures multiset(a + [m] + b + c) == multiset(a + b + c) + multiset{m}
    ensures multiset(a + (b + [m]) + c) == multiset(a + b + c) + multiset{m}
    ensures multiset(a + b + (c + [m])) == multiset(a + b + c) + multiset{m}
  {
  }

  lemma {:induction false} OrderMembers(p: Plan)
    ensures Members(Order(p)) == Members(p.start) + Members(p.middle) + Members(p.end)
  {
  }

  /** The entry is of this operation, with all its text and data symbols. */
  ghost predicate EntryOf(e: Entry, op: Op) {
    && op.Add? && e.member == op.member
    && forall s :: s in e.syms <==> s in op.scan.syms && (s.kind == 'T' as int || s.kind == 'D' as int)
  }

  lemma {:induction false} NewEntry(p: Plan, op: Op)
    requires op.Add? && After(p, op).allobj && !After(p, op).dupfound
    ensures p.allobj && !p.dupfound && EntryOf(Entry(op.member, ScanSyms(p, op.scan)), op)
  {
    forall s
      ensures s in ScanSyms(p, op.scan) <==> s in op.scan.syms && (s.kind == 'T' as int || s.kind == 'D' as int)
    {
      AllAccepted(op.scan.syms, p.seen, s);
    }
  }

  /** In an archive that gets a symbol table, each entry carries exactly the text and data symbols
      of the member it was made for, and each member given has such an entry. */
  lemma {:induction false} EntriesAreScanned(ops: seq<Op>)
    requires Planned(EMPTYPLAN, ops).allobj && !Planned(EMPTYPLAN, ops).dupfound
    ensures forall e :: e in Order(Planned(EMPTYPLAN, ops)) ==> exists i :: 0 <= i < |ops| && EntryOf(e, ops[i])
    ensures forall i :: 0 <= i < |ops| && ops[i].Add? ==>
      exists e :: e in Order(Planned(EMPTYPLAN, ops)) && EntryOf(e, ops[i])
  {
    hide EntryOf, After, ScanSyms;
    if ops != [] {
      var n := |ops| - 1;
      var p, q := Planned(EMPTYPLAN, ops[..n]), Planned(EMPTYPLAN, ops);
      FlagsStay(p, ops[n]);
      EntriesAreScanned(ops[..n]);
      if ops[n].Add? {
        NewEntry(p, ops[n]);
      }
      forall e | e in Order(q) ensures exists i :: 0 <= i < |ops| && EntryOf(e, ops[i]) {
        OrderAfter(p, ops[n], e);
        if e in Order(p) {
          var i :| 0 <= i < n && EntryOf(e, ops[..n][i]);
          assert EntryOf(e, ops[i]);
        }
      }
      forall i | 0 <= i < |ops| && ops[i].Add? ensures exists e :: e in Order(q) && EntryOf(e, ops[i]) {
        if i < n {
          assert ops[..n][i] == ops[i];
          var e :| e in Order(p) && EntryOf(e, ops[..n][i]);
          OrderAfter(p, ops[n], e);
        } else {
          OrderAfter(p, ops[n], Entry(ops[n].member, ScanSyms(p, ops[n].scan)));
        }
      }
    }
  }

  lemma {:induction false} FlagsStay(p: Plan, op: Op)
    ensures After(p, op).allobj ==> p.allobj
    ensures p.dupfound ==> After(p, op).dupfound
  {
  }

  lemma {:induction false} OrderAfter(p: Plan, op: Op, e: Entry)
    ensures e in Order(After(p, op)) <==> e in Order(p) || (op.Add? && e == Entry(op.member, ScanSyms(p, op.scan)))
  {
    hide ScanSyms;
    if op.Add? {
      AfterFiles(p, op, Entry(op.member, ScanSyms(p, op.scan)));
    }
  }

  /** r is a symbol of the member of op, and that member stands in archive a where r points. */
  ghost predicate PointsTo(a: seq<Byte>, r: Symref, op: Op) {
    && op.Add? && (r.symbol.kind == 'T' as int || r.symbol.kind == 'D' as int) && r.symbol in op.scan.syms
    && r.offset + |Image(op.member)| <= |a| && a[r.offset..r.offset + |Image(op.member)|] == Image(op.member)
  }

  lemma {:induction false} EntryPointsTo(p: Plan, magic: Magic, hdr: Header, k: nat, s: Symbol, op: Op)
    requires p.allobj && k < |Order(p)| && EntryOf(Order(p)[k], op) && s in Order(p)[k].syms
    ensures PointsTo(Archive(p, magic, hdr), Symref(s, Base(p) + Position(Order(p), k)), op)
  {
    hide Archive, Order, Position, Image, Base;
    MemberStands(p, magic, hdr, k);
  }

  /** In the archive of any sequence of operations, reading the symbol table gives every text and
      data symbol of every member, each with the position of the header of a member that
      defines it, and nothing else. */
  lemma {:induction false} SymbolTableTrue(ops: seq<Op>, magic: Magic, hdr: Header)
    requires var p := Planned(EMPTYPLAN, ops); p.allobj && !p.dupfound && |Archive(p, magic, hdr)| < 0x1_0000_0000
    ensures var p := Planned(EMPTYPLAN, ops);
      var a := Archive(p, magic, hdr);
      && SARMAG + SAR_HDR <= Base(p) <= |a|
      && var table := ReadTable(a[SARMAG + SAR_HDR..Base(p)]);
      && (forall r :: r in table ==> exists i :: 0 <= i < |ops| && PointsTo(a, r, ops[i]))
      && (forall i, s :: 0 <= i < |ops| && ops[i].Add? && s in ops[i].scan.syms ==>
            (s.kind == 'T' as int || s.kind == 'D' as int ==>
              exists r :: r in table && r.symbol == s && PointsTo(a, r, ops[i])))
  {
    hide Archive, Order, Position, ReadTable, SymdefSize, PointsTo, Planned, EntryOf, FileSize;
    var p := Planned(EMPTYPLAN, ops);
    var a := Archive(p, magic, hdr);
    EntriesAreScanned(ops);
    ArchiveParts(p, magic, hdr);
    var table := ReadTable(a[SARMAG + SAR_HDR..Base(p)]);
    forall r | r in table ensures exists i :: 0 <= i < |ops| && PointsTo(a, r, ops[i]) {
      SymbolPoints(p, magic, hdr, r);
      var k :| 0 <= k < |Order(p)| && r.symbol in Order(p)[k].syms && r.offset == Base(p) + Position(Order(p), k);
      assert Order(p)[k] in Order(p);
      var i :| 0 <= i < |ops| && EntryOf(Order(p)[k], ops[i]);
      EntryPointsTo(p, magic, hdr, k, r.symbol, ops[i]);
      assert r == Symref(r.symbol, Base(p) + Position(Order(p), k));
    }
    forall i, s | 0 <= i < |ops| && ops[i].Add? && s in ops[i].scan.syms
        && (s.kind == 'T' as int || s.kind == 'D' as int)
      ensures exists r :: r in table && r.symbol == s && PointsTo(a, r, ops[i])
    {
      var e :| e in Order(p) && EntryOf(e, ops[i]);
      var k :| 0 <= k < |Order(p)| && Order(p)[k] == e;
      EntrySymbol(e, ops[i], s);
      var r := Symref(s, Base(p) + Position(Order(p), k));
      EntryPointsTo(p, magic, hdr, k, s, ops[i]);
      SymbolPoints(p, magic, hdr, r);
    }
  }

  lemma EntrySymbol(e: Entry, op: Op, s: Symbol)
    requires EntryOf(e, op) && s in op.scan.syms && (s.kind == 'T' as int || s.kind == 'D' as int)
    ensures s in e.syms
  {
  }

  // ----- memory

  lemma {:induction false} AllocStep(c: Core, fails: Shortage, i: nat)
    requires i < |fails|
    ensures AllocWith(c, fails[i..]) ==
      var (ok, d) := Relieve(c, fails[i]);
      if ok then AllocWith(d, fails[i + 1..]) else (false, d)
  {
    assert fails[i..][1..] == fails[i + 1..];
  }

  lemma AllocEnds(c: Core, fails: Shortage)
    ensures fails[0..] == fails && AllocWith(c, fails[|fails|..]) == (true, c)
  {
  }

  lemma OneAlloc(memory: nat -> Shortage, n: nat, c: Core)
    ensures Allocs(memory, n, 1, c) == AllocWith(c, memory(n))
  {
    hide AllocWith;
    var (ok, d) := AllocWith(c, memory(n));
    AllocsNone(memory, n + 1, d);
  }

  lemma {:induction false} AllocsPlus(memory: nat -> Shortage, n: nat, j: nat, k: nat, c: Core)
    ensures Allocs(memory, n, j + k, c) ==
      var (ok, d) := Allocs(memory, n, j, c);
      if ok then Allocs(memory, n + j, k, d) else (false, d)
    decreases j
  {
    hide AllocWith;
    if j > 0 {
      var (ok, d) := AllocWith(c, memory(n));
      if ok {
        AllocsPlus(memory, n + 1, j - 1, k, d);
        assert n + 1 + (j - 1) == n + j && j + k - 1 == (j - 1) + k;
      }
    }
  }

  lemma AllocsNone(memory: nat -> Shortage, n: nat, c: Core)
    ensures Allocs(memory, n, 0, c) == (true, c)
  {
  }

  lemma {:induction false} PlentyAllocs(memory: nat -> Shortage, n: nat, k: nat, c: Core)
    requires forall i: nat :: memory(i) == []
    ensures Allocs(memory, n, k, c) == (true, c)
    decreases k
  {
    if k > 0 {
      PlentyAllocs(memory, n + 1, k - 1, c);
    }
  }

  /** When malloc never fails memory suffices for everything. */
  lemma {:induction false} PlentySuffices(memory: nat -> Shortage, middle: bool, ops: seq<Op>)
    requires forall i: nat :: memory(i) == []
    ensures Suffices(memory, middle, ops).0 && !Suffices(memory, middle, ops).1.soiled
  {
    hide Allocs, OpAllocs;
    if ops == [] {
      PlentyAllocs(memory, 0, if middle then 2 else 1, NOTHING);
    } else {
      var front := ops[..|ops| - 1];
      PlentySuffices(memory, middle, front);
      var (_, c, n) := Suffices(memory, middle, front);
      PlentyAllocs(memory, n, OpAllocs(Planned(EMPTYPLAN, front), ops[|ops| - 1]), c);
    }
  }

  /** No attempt to page ever stops halfway through a member. */
  ghost predicate Neat(fails: Shortage) {
    forall i :: 0 <= i < |fails| ==> !Leaves(1, fails[i].0) && !Leaves(1, fails[i].1) && !Leaves(1, fails[i].2)
  }

  lemma {:induction false} NeatAlloc(c: Core, fails: Shortage)
    requires Neat(fails)
    ensures AllocWith(c, fails).1.soiled == c.soiled
    decreases |fails|
  {
    if fails != [] {
      NeatAlloc(Relieve(c, fails[0]).1, fails[1..]);
    }
  }

  lemma {:induction false} NeatAllocs(memory: nat -> Shortage, n: nat, k: nat, c: Core)
    requires forall i: nat :: Neat(memory(i))
    ensures Allocs(memory, n, k, c).1.soiled == c.soiled
    decreases k
  {
    hide AllocWith, Neat;
    if k > 0 {
      NeatAlloc(c, memory(n));
      NeatAllocs(memory, n + 1, k - 1, AllocWith(c, memory(n)).1);
    }
  }

  /** Then nothing is left on the disks that does not belong there. */
  lemma {:induction false} NeatSuffices(memory: nat -> Shortage, middle: bool, ops: seq<Op>)
    requires forall i: nat :: Neat(memory(i))
    ensures !Suffices(memory, middle, ops).1.soiled
  {
    hide Allocs, OpAllocs, Neat;
    if ops == [] {
      NeatAllocs(memory, 0, if middle then 2 else 1, NOTHING);
    } else {
      var front := ops[..|ops| - 1];
      NeatSuffices(memory, middle, front);
      var (_, c, n) := Suffices(memory, middle, front);
      NeatAllocs(memory, n, OpAllocs(Planned(EMPTYPLAN, front), ops[|ops| - 1]), c);
    }
  }

  // ----- the flags of a whole run

  predicate ObjectOf(op: Op, k: int) {
    op.Add? ==> op.scan.kind == k && k >= 0 && op.scan.readable
  }

  /** Every member is a readable object of kind k. */
  ghost predicate AllObjects(ops: seq<Op>, k: int) {
    forall i :: 0 <= i < |ops| ==> ObjectOf(ops[i], k)
  }

  lemma {:induction false} OneMoreObject(ops: seq<Op>, k: int)
    requires ops != []
    ensures AllObjects(ops, k) == (AllObjects(ops[..|ops| - 1], k) && ObjectOf(ops[|ops| - 1], k))
  {
    assert forall i :: 0 <= i < |ops| - 1 ==> ops[..|ops| - 1][i] == ops[i];
  }

  lemma OneScan(p: Plan, op: Op, k: int)
    ensures var q := After(p, op);
      (q.allobj && (q.lastobj < 0 || q.lastobj == k))
      == (p.allobj && (p.lastobj < 0 || p.lastobj == k) && ObjectOf(op, k))
  {
  }

  /** The flag and the kind kept with it say which kind all members are of. */
  lemma {:induction false} ObjectsRun(ops: seq<Op>, k: int)
    ensures var p := Planned(EMPTYPLAN, ops); AllObjects(ops, k) == (p.allobj && (p.lastobj < 0 || p.lastobj == k))
  {
    hide AllObjects, ObjectOf, After;
    if ops == [] {
      NoObjects(k);
    } else {
      ObjectsRun(ops[..|ops| - 1], k);
      OneScan(Planned(EMPTYPLAN, ops[..|ops| - 1]), ops[|ops| - 1], k);
      OneMoreObject(ops, k);
    }
  }

  lemma NoObjects(k: int)
    ensures AllObjects([], k)
  {
  }

  /** The flag stays up exactly when all members are readable objects of one kind. */
  lemma {:induction false} ObjectsOnly(ops: seq<Op>)
    ensures Planned(EMPTYPLAN, ops).allobj <==> exists k :: AllObjects(ops, k)
  {
    hide AllObjects, Planned;
    var p := Planned(EMPTYPLAN, ops);
    ObjectsRun(ops, p.lastobj);
    forall k | AllObjects(ops, k) ensures p.allobj {
      ObjectsRun(ops, k);
    }
  }

  /** The symbols of all members, in the order in which they were scanned. */
  function AllSyms(ops: seq<Op>): seq<Symbol> {
    if ops == [] then []
    else
      var front, op := AllSyms(ops[..|ops| - 1]), ops[|ops| - 1];
      if op.Add? then front + op.scan.syms else front
  }

  lemma {:induction false} ScanConcat(a: seq<Symbol>, b: seq<Symbol>, seen: set<Name>)
    ensures Seen(a + b, seen) == Seen(b, Seen(a, seen))
    ensures Clash(a + b, seen) == (Clash(a, seen) || Clash(b, Seen(a, seen)))
    decreases |b|
  {
    if b == [] {
      assert a + b == a;
    } else {
      var n := |b| - 1;
      assert (a + b)[..|a + b| - 1] == a + b[..n];
      ScanConcat(a, b[..n], seen);
    }
  }

  lemma {:induction false} SeenInRun(ops: seq<Op>)
    ensures var p := Planned(EMPTYPLAN, ops);
      p.allobj ==> p.seen == Seen(AllSyms(ops), {}) && p.dupfound == Clash(AllSyms(ops), {})
  {
    hide Seen, Clash;
    if ops != [] {
      var front, op := ops[..|ops| - 1], ops[|ops| - 1];
      SeenInRun(front);
      if op.Add? {
        ScanConcat(AllSyms(front), op.scan.syms, {});
      }
    } else {
      NothingSeen();
    }
  }

  lemma NothingSeen()
    ensures Seen([], {}) == {} && !Clash([], {})
  {
  }

  /** In a run over objects the duplicate flag means two text symbols of one name, in one member or
      in two. */
  lemma {:induction false} Duplicates(ops: seq<Op>)
    requires Planned(EMPTYPLAN, ops).allobj
    ensures var syms := AllSyms(ops);
      Planned(EMPTYPLAN, ops).dupfound <==>
        exists i, j :: 0 <= j < i < |syms| && syms[i].kind == 'T' as int && syms[j].kind == 'T' as int
          && syms[j].name == syms[i].name
  {
    hide Seen, Clash, AllSyms, Planned;
    SeenInRun(ops);
    ClashMeans(AllSyms(ops), {});
  }

  // ----- the order of the archive

  /** The members given with these places, in order. */
  function AddedTo(ops: seq<Op>, places: set<Place>): seq<Member> {
    if ops == [] then []
    else
      var front, op := AddedTo(ops[..|ops| - 1], places), ops[|ops| - 1];
      if op.Add? && op.place in places then front + [op.member] else front
  }

  lemma {:induction false} MembersSnoc(es: seq<Entry>, e: Entry)
    ensures Members(es + [e]) == Members(es) + [e.member]
  {
  }

  /** Without a pivot all members but the moved ones are in the first file. */
  lemma {:induction false} OrderBefore(ops: seq<Op>)
    requires forall i :: 0 <= i < |ops| ==> ops[i].Add?
    ensures var p := Planned(EMPTYPLAN, ops);
      && !p.pivoted && p.end == [] && Members(p.start) == AddedTo(ops, {First, Current})
      && Members(p.middle) == AddedTo(ops, {Middle})
  {
    hide ScanSyms, AfterScan;
    if ops != [] {
      var n := |ops| - 1;
      OrderBefore(ops[..n]);
      var p := Planned(EMPTYPLAN, ops[..n]);
      KeepsFiles(p, ops[n].scan);
      var e := Entry(ops[n].member, ScanSyms(p, ops[n].scan));
      MembersSnoc(p.start, e);
      MembersSnoc(p.middle, e);
    }
  }

  lemma KeepsFiles(p: Plan, s: Scan)
    ensures var q := AfterScan(p, s);
      q.start == p.start && q.middle == p.middle && q.end == p.end && q.pivoted == p.pivoted
  {
  }

  lemma {:induction false} AddedSnoc(ops: seq<Op>, from: nat, places: set<Place>)
    requires from < |ops| && ops[|ops| - 1].Add?
    ensures var n, op := |ops| - 1, ops[|ops| - 1];
      AddedTo(ops[from..], places)
        == AddedTo(ops[..n][from..], places) + (if op.place in places then [op.member] else [])
  {
    var n := |ops| - 1;
    assert ops[from..][..n - from] == ops[..n][from..];
  }

  lemma {:induction false} AfterPivot(p: Plan, op: Op)
    requires op.Add? && p.pivoted
    ensures var q, m := After(p, op), [op.member];
      && q.pivoted
      && Members(q.start) == Members(p.start) + (if op.place == First then m else [])
      && Members(q.middle) == Members(p.middle) + (if op.place == Middle then m else [])
      && Members(q.end) == Members(p.end) + (if op.place == Current then m else [])
  {
    hide ScanSyms, AfterScan;
    KeepsFiles(p, op.scan);
    var e := Entry(op.member, ScanSyms(p, op.scan));
    MembersSnoc(p.start, e);
    MembersSnoc(p.middle, e);
    MembersSnoc(p.end, e);
  }

  /** With a pivot before member at, the members copied from there on stand last, but those named
      for the first file still go to its end. */
  lemma {:induction false} OrderAround(ops: seq<Op>, at: nat)
    requires at < |ops| && ops[at].Pivot? && forall i :: 0 <= i < |ops| && i != at ==> ops[i].Add?
    ensures var p := Planned(EMPTYPLAN, ops);
      && p.pivoted
      && Members(p.start) == AddedTo(ops[..at], {First, Current}) + AddedTo(ops[at + 1..], {First})
      && Members(p.middle) == AddedTo(ops[..at], {Middle}) + AddedTo(ops[at + 1..], {Middle})
      && Members(p.end) == AddedTo(ops[at + 1..], {Current})
    decreases |ops|
  {
    hide AddedTo, After, Members;
    var n := |ops| - 1;
    var p := Planned(EMPTYPLAN, ops[..n]);
    if at == n {
      OrderBefore(ops[..n]);
      AtPivot(p);
      assert ops[at + 1..] == [] && ops[..at] == ops[..n];
      NoneAdded();
    } else {
      OrderAround(ops[..n], at);
      assert ops[..n][..at] == ops[..at];
      AddedSnoc(ops, at + 1, {First});
      AddedSnoc(ops, at + 1, {Middle});
      AddedSnoc(ops, at + 1, {Current});
      AfterPivot(p, ops[n]);
    }
  }

  lemma AtPivot(p: Plan)
    ensures After(p, Pivot) == p.(pivoted := true)
    ensures p.end == [] ==> Members(p.end) == []
  {
  }

  lemma NoneAdded()
    ensures forall places: set<Place> :: AddedTo([], places) == []
  {
  }

  /** So the archive holds what was copied before the pivot, what was added to the first file, what
      was moved, and what was copied from the pivot on. */
  lemma {:induction false} ArchiveOrder(ops: seq<Op>, at: nat)
    requires at < |ops| && ops[at].Pivot? && forall i :: 0 <= i < |ops| && i != at ==> ops[i].Add?
    ensures Members(Order(Planned(EMPTYPLAN, ops)))
      == AddedTo(ops[..at], {First, Current}) + AddedTo(ops[at + 1..], {First})
         + (AddedTo(ops[..at], {Middle}) + AddedTo(ops[at + 1..], {Middle})) + AddedTo(ops[at + 1..], {Current})
  {
    hide Planned, AddedTo;
    OrderAround(ops, at);
    OrderMembers(Planned(EMPTYPLAN, ops));
  }
}
