/** What an archive and its symbol table are, as functions of the members in it. */
module ArchiveModel {

  type Byte = x: int | 0 <= x < 256
  type Name = s: seq<Byte> | 0 !in s

  const SARMAG: nat := 8
  const SAR_HDR: nat := 60
  const TEXT: Byte := 'T' as int
  const DATA: Byte := 'D' as int

  /** The text of an archive header, whatever is in it. */
  type Header = s: seq<Byte> | |s| == SAR_HDR witness seq(SAR_HDR, _ => 0)

  function Even(n: nat): nat {
    if n % 2 == 1 then n + 1 else n
  }

  datatype RawMember = RawMember(hdr: Header, size: nat, data: seq<Byte>)

  /** A member in core: its data is padded to an even length. */
  type Member = m: RawMember | |m.data| == Even(m.size) witness RawMember(seq(SAR_HDR, _ => 0), 0, [])

  /** The bytes arwrite writes. */
  function Image(m: Member): seq<Byte> {
    m.hdr + m.data
  }

  function Flat(ms: seq<Member>): seq<Byte> {
    if ms == [] then [] else Flat(ms[..|ms| - 1]) + Image(ms[|ms| - 1])
  }

  datatype Symbol = Symbol(kind: Byte, name: Name)

  /** A symbol and a byte position. */
  datatype Symref = Symref(symbol: Symbol, offset: nat)

  /** A member of an archive and the symbols taken from it. */
  datatype Entry = Entry(member: Member, syms: seq<Symbol>)

  function Members(es: seq<Entry>): (ms: seq<Member>)
    ensures |ms| == |es| && forall i :: 0 <= i < |es| ==> ms[i] == es[i].member
  {
    seq(|es|, i requires 0 <= i < |es| => es[i].member)
  }

  /** Where the header of entry i begins, in a file that holds nothing but these entries. */
  function Position(es: seq<Entry>, i: nat): nat
    requires i <= |es|
  {
    |Flat(Members(es[..i]))|
  }

  /** The symbols, newest first, all with one offset. */
  function At(syms: seq<Symbol>, offset: nat): seq<Symref> {
    if syms == [] then [] else [Symref(syms[|syms| - 1], offset)] + At(syms[..|syms| - 1], offset)
  }

  /** The symbol chain of a file, newest first. */
  function Refs(es: seq<Entry>): seq<Symref> {
    if es == [] then []
    else At(es[|es| - 1].syms, Position(es, |es| - 1)) + Refs(es[..|es| - 1])
  }

  // ----- scanning

  predicate Wanted(s: Symbol) {
    s.kind == TEXT || s.kind == DATA
  }

  /** The symbols objsym keeps, the text symbols it has then seen, and whether it met one twice. */
  function Accepted(syms: seq<Symbol>, seen: set<Name>): seq<Symbol> {
    if syms == [] then []
    else
      var front, s := syms[..|syms| - 1], syms[|syms| - 1];
      if Wanted(s) && !(s.kind == TEXT && s.name in Seen(front, seen)) then Accepted(front, seen) + [s]
      else Accepted(front, seen)
  }

  function Seen(syms: seq<Symbol>, seen: set<Name>): set<Name> {
    if syms == [] then seen
    else
      var front, s := syms[..|syms| - 1], syms[|syms| - 1];
      if s.kind == TEXT then Seen(front, seen) + {s.name} else Seen(front, seen)
  }

  predicate Clash(syms: seq<Symbol>, seen: set<Name>) {
    syms != [] &&
    var front, s := syms[..|syms| - 1], syms[|syms| - 1];
    Clash(front, seen) || (s.kind == TEXT && s.name in Seen(front, seen))
  }

  /** What the object library says of a file: kind is negative when it is no object. */
  datatype Scan = Scan(kind: int, readable: bool, syms: seq<Symbol>)

  /** Where a member goes: the file members are currently copied to, the first, the middle one. */
  datatype Place = Current | First | Middle

  datatype Op = Pivot | Add(place: Place, scan: Scan, member: Member)

  /** The three files and the flags. pivoted: the end file exists and takes the members copied. */
  datatype Plan = Plan(start: seq<Entry>, middle: seq<Entry>, end: seq<Entry>, pivoted: bool,
                       allobj: bool, lastobj: int, dupfound: bool, seen: set<Name>)

  const EMPTYPLAN := Plan([], [], [], false, true, -1, false, {})

  /** scanobj goes on to the symbols. */
  predicate Scannable(p: Plan, s: Scan) {
    p.allobj && s.kind >= 0 && (p.lastobj < 0 || s.kind == p.lastobj) && s.readable
  }

  function AfterScan(p: Plan, s: Scan): Plan {
    if !p.allobj then p
    else if s.kind < 0 then p.(allobj := false)
    else if p.lastobj >= 0 && s.kind != p.lastobj then p.(allobj := false)
    else if !s.readable then p.(allobj := false, lastobj := s.kind)
    else p.(lastobj := s.kind, dupfound := p.dupfound || Clash(s.syms, p.seen), seen := Seen(s.syms, p.seen))
  }

  function ScanSyms(p: Plan, s: Scan): seq<Symbol> {
    if Scannable(p, s) then Accepted(s.syms, p.seen) else []
  }

  function After(p: Plan, op: Op): Plan {
    match op
    case Pivot => p.(pivoted := true)
    case Add(place, scan, member) =>
      Inserted(AfterScan(p, scan), place, Entry(member, ScanSyms(p, scan)))
  }

  function Inserted(p: Plan, place: Place, e: Entry): Plan {
    if place == Middle then p.(middle := p.middle + [e])
    else if place == First || !p.pivoted then p.(start := p.start + [e])
    else p.(end := p.end + [e])
  }

  function Planned(p: Plan, ops: seq<Op>): Plan {
    if ops == [] then p else After(Planned(p, ops[..|ops| - 1]), ops[|ops| - 1])
  }

  // ----- memory

  /** What an attempt to page would come to: it works, the file cannot be created, or writing the
      member stops and leaves so many bytes of it behind. */
  datatype Outcome = Works | NoFile | Stops(left: nat)

  /** For each time malloc fails: how paging would go for the first, the middle and the end file. */
  type Shortage = seq<(Outcome, Outcome, Outcome)>

  /** How many buffers of each file are in core, and whether bytes of a member that was not paged
      are on a disk. */
  datatype Core = Core(start: nat, middle: nat, end: nat, soiled: bool)

  const NOTHING := Core(0, 0, 0, false)

  /** A failed attempt leaves bytes behind. */
  predicate Leaves(n: nat, o: Outcome) {
    n > 0 && o.Stops? && o.left > 0
  }

  /** getspace: one buffer goes, if one can. */
  function Relieve(c: Core, how: (Outcome, Outcome, Outcome)): (bool, Core) {
    if c.start > 0 && how.0.Works? then (true, c.(start := c.start - 1))
    else
      var d := c.(soiled := c.soiled || Leaves(c.start, how.0));
      if d.middle > 0 && how.1.Works? then (true, d.(middle := d.middle - 1))
      else
        var e := d.(soiled := d.soiled || Leaves(d.middle, how.1));
        if e.end > 0 && how.2.Works? then (true, e.(end := e.end - 1))
        else (false, e.(soiled := e.soiled || Leaves(e.end, how.2)))
  }

  /** One allocation. */
  function AllocWith(c: Core, fails: Shortage): (bool, Core)
    decreases |fails|
  {
    if fails == [] then (true, c)
    else
      var (ok, d) := Relieve(c, fails[0]);
      if ok then AllocWith(d, fails[1..]) else (false, d)
  }

  /** k allocations in a row, the first of which is number n. */
  function Allocs(memory: nat -> Shortage, n: nat, k: nat, c: Core): (bool, Core)
    decreases k
  {
    if k == 0 then (true, c)
    else
      var (ok, d) := AllocWith(c, memory(n));
      if ok then Allocs(memory, n + 1, k - 1, d) else (false, d)
  }

  /** The allocations for one symbol, and for those of a file. */
  function SymbolAllocs(s: Symbol, seen: set<Name>): nat {
    if !Wanted(s) then 0 else if s.kind == TEXT && s.name !in seen then 3 else 2
  }

  function SymAllocs(syms: seq<Symbol>, seen: set<Name>): nat {
    if syms == [] then 0
    else
      var front := syms[..|syms| - 1];
      SymAllocs(front, seen) + SymbolAllocs(syms[|syms| - 1], Seen(front, seen))
  }

  function ScanAllocs(p: Plan, s: Scan): nat {
    if Scannable(p, s) then SymAllocs(s.syms, p.seen) else 0
  }

  /** A new file needs its control block, a member its header, its symbols and its image. */
  function OpAllocs(p: Plan, op: Op): nat {
    match op
    case Pivot => 1
    case Add(_, scan, _) => 1 + ScanAllocs(p, scan) + 1
  }

  function Grown(c: Core, place: Place, pivoted: bool): Core {
    if place == Middle then c.(middle := c.middle + 1)
    else if place == First || !pivoted then c.(start := c.start + 1)
    else c.(end := c.end + 1)
  }

  function GrownBy(c: Core, op: Op, pivoted: bool): Core {
    if op.Add? then Grown(c, op.place, pivoted) else c
  }

  /** Whether memory suffices for the operations, what is in core then, and the allocations made. */
  function Suffices(memory: nat -> Shortage, middle: bool, ops: seq<Op>): (bool, Core, nat) {
    if ops == [] then
      var files := if middle then 2 else 1;
      var (ok, c) := Allocs(memory, 0, files, NOTHING);
      (ok, c, files)
    else
      var front, op := ops[..|ops| - 1], ops[|ops| - 1];
      var (ok, c, n) := Suffices(memory, middle, front);
      if !ok then (false, c, n)
      else
        var p := Planned(EMPTYPLAN, front);
        var (ok', d) := Allocs(memory, n, OpAllocs(p, op), c);
        (ok', GrownBy(d, op, p.pivoted), n + OpAllocs(p, op))
  }

  // ----- the archive

  /** A 32-bit number, least significant byte first. */
  function Le4(n: nat): seq<Byte> {
    [n % 256, n / 256 % 256, n / 65536 % 256, n / 16777216 % 256]
  }

  function Record(r: Symref, offset: nat): seq<Byte> {
    [r.symbol.kind] + Le4(r.offset + offset) + r.symbol.name + [0]
  }

  /** What wrsym writes. */
  function Table(refs: seq<Symref>, offset: nat): seq<Byte> {
    if refs == [] then [] else Record(refs[0], offset) + Table(refs[1..], offset)
  }

  /** What objsym adds up for a chain of symbols. */
  function TableSize(refs: seq<Symref>): nat {
    if refs == [] then 0 else 4 + (|refs[0].symbol.name| + 1) + 1 + TableSize(refs[1..])
  }

  function SymdefSize(p: Plan): nat {
    TableSize(Refs(p.start)) + TableSize(Refs(p.middle)) + TableSize(Refs(p.end))
  }

  function FileSize(es: seq<Entry>): nat {
    |Flat(Members(es))|
  }

  /** Where the first member begins in an archive with a symbol table. */
  function Base(p: Plan): nat {
    SARMAG + SAR_HDR + Even(SymdefSize(p))
  }

  function Tables(p: Plan): seq<Byte> {
    Table(Refs(p.start), Base(p))
    + Table(Refs(p.middle), Base(p) + FileSize(p.start))
    + Table(Refs(p.end), Base(p) + FileSize(p.start) + FileSize(p.middle))
  }

  function Symdef(p: Plan, hdr: Header): seq<Byte> {
    hdr + Tables(p) + (if SymdefSize(p) % 2 == 1 then [0] else [])
  }

  type Magic = s: seq<Byte> | |s| == SARMAG witness seq(SARMAG, _ => 0)

  function Streams(p: Plan): seq<Byte> {
    Flat(Members(p.start)) + Flat(Members(p.middle)) + Flat(Members(p.end))
  }

  /** The archive install writes. */
  function Archive(p: Plan, magic: Magic, hdr: Header): seq<Byte> {
    magic + (if p.allobj then Symdef(p, hdr) else []) + Streams(p)
  }

  /** All members in the order of the archive. */
  function Order(p: Plan): seq<Entry> {
    p.start + p.middle + p.end
  }

  // ----- reading the table back

  function Moved(refs: seq<Symref>, d: nat): seq<Symref> {
    if refs == [] then [] else [Symref(refs[0].symbol, refs[0].offset + d)] + Moved(refs[1..], d)
  }

  /** Every symbol with the position the table gives it. */
  function TableRefs(p: Plan): seq<Symref> {
    Moved(Refs(p.start), Base(p))
    + Moved(Refs(p.middle), Base(p) + FileSize(p.start))
    + Moved(Refs(p.end), Base(p) + FileSize(p.start) + FileSize(p.middle))
  }

  function Zero(b: seq<Byte>): nat
    requires 0 in b
    ensures Zero(b) < |b| && b[Zero(b)] == 0 && 0 !in b[..Zero(b)]
  {
    if b[0] == 0 then 0 else 1 + Zero(b[1..])
  }

  function Number4(b: seq<Byte>): nat
    requires |b| == 4
  {
    var first: int, second: int, third: int, fourth: int := b[0], b[1], b[2], b[3];
    first + 256 * second + 65536 * third + 16777216 * fourth
  }

  /** A symbol table taken apart, as a linker does. */
  function ReadTable(b: seq<Byte>): seq<Symref>
    decreases |b|
  {
    if |b| < 6 || 0 !in b[5..] then []
    else
      var n := Zero(b[5..]);
      [Symref(Symbol(b[0], b[5..][..n]), Number4(b[1..5]))] + ReadTable(b[5..][n + 1..])
  }
}
