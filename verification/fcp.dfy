/** The parallel file copy: workers take turns at one offset counter and copy a block each. */
module ParallelCopy {

  type Byte = x: int | 0 <= x < 256

  const DEFB: nat := 16 * 1024
  const NWORK: nat := 16

  /** Where a worker stands in its loop: before nextoff, before pread, between a pread of n
      bytes and the pwrite that follows it, gone. */
  datatype Phase = Asking | Reading | Writing(n: nat) | Exited(ok: bool)

  /** block is the number of the latest block handed to the worker, kept for the proof only. */
  datatype Loop = Loop(buf: seq<Byte>, bp: nat, len: nat, o: nat, block: nat, phase: Phase, noted: bool, reaped: bool)

  predicate Shaped(w: Loop) {
    |w.buf| == DEFB && w.bp + w.len == DEFB && w.bp <= w.o && (w.phase.Asking? ==> w.bp == 0)
      && (w.phase.Reading? ==> w.len > 0)
    && (w.phase.Writing? ==> 0 < w.phase.n <= w.len)
  }

  function Forked(garbage: seq<Byte>): Loop {
    Loop(garbage, 0, DEFB, 0, 0, Asking, false, false)
  }

  type Worker = w: Loop | Shaped(w) witness Forked(seq(DEFB, _ => 0))

  /** The worker that wrote a byte of the destination, and the place it read it at. */
  datatype Origin = Origin(worker: nat, from: nat)

  /** owner and origin are history: who was handed each block, whence each byte written came. */
  datatype State = State(src: seq<Byte>, dest: seq<Byte>, off: nat, workers: seq<Worker>, tries: nat, rv: int,
                         owner: seq<nat>, origin: map<nat, Origin>)

  datatype Event =
    | Fork(ok: bool, garbage: seq<Byte>)
    | Ask(w: nat)
    | Read(w: nat, n: int)
    | Write(w: nat, k: nat)
    | Reap(w: nat)
    | Deliver(w: nat)

  function Start(src: seq<Byte>): State {
    State(src, [], 0, [], 0, 0, [], map[])
  }

  predicate Active(w: Worker) {
    w.phase.Reading? || w.phase.Writing?
  }

  /** How many bytes a pread of len bytes at o can give. */
  function Available(src: seq<Byte>, len: nat, o: nat): nat {
    if o >= |src| then 0 else if |src| - o < len then |src| - o else len
  }

  /** pread gives -1 for an error, 0 at the end of the file only, and otherwise some bytes. */
  predicate ReadMay(src: seq<Byte>, w: Worker, n: int) {
    n == -1 || (if Available(src, w.len, w.o) == 0 then n == 0 else 1 <= n <= Available(src, w.len, w.o))
  }

  predicate Enabled(s: State, e: Event) {
    match e
    case Fork(ok, garbage) => s.tries < NWORK && |garbage| == DEFB
    case Ask(w) => w < |s.workers| && s.workers[w].phase.Asking?
    case Read(w, n) => w < |s.workers| && s.workers[w].phase.Reading? && ReadMay(s.src, s.workers[w], n)
    case Write(w, k) => w < |s.workers| && s.workers[w].phase.Writing? && k <= s.workers[w].phase.n
    case Reap(w) => s.tries == NWORK && w < |s.workers| && s.workers[w].phase.Exited? && !s.workers[w].reaped
    case Deliver(w) => w < |s.workers| && s.workers[w].noted && !s.workers[w].phase.Exited?
  }

  /** data goes into file at o; a gap before it reads as zeros. */
  function Pwrite(file: seq<Byte>, o: nat, data: seq<Byte>): (r: seq<Byte>)
    ensures |r| == if data != [] && o + |data| > |file| then o + |data| else |file|
    ensures forall p :: 0 <= p < |r| ==>
      r[p] == if o <= p < o + |data| then data[p - o] else if p < |file| then file[p] else 0
  {
    if data == [] then file
    else
      (if o <= |file| then file[..o] else file + seq(o - |file|, _ => 0)) + data
      + (if o + |data| < |file| then file[o + |data|..] else [])
  }

  /** What a pread of n > 0 bytes at bp leaves in the buffer. */
  function AfterRead(src: seq<Byte>, w: Worker, n: nat): (r: Worker)
    requires 0 < n <= w.len && w.o + n <= |src|
    ensures forall j :: 0 <= j < DEFB ==>
      r.buf[j] == if w.bp <= j < w.bp + n then src[w.o + j - w.bp] else w.buf[j]
  {
    w.(buf := w.buf[..w.bp] + src[w.o..w.o + n] + w.buf[w.bp + n..], phase := Writing(n))
  }

  /** The bookkeeping after a pwrite of all n bytes. */
  function AfterWrite(w: Worker, n: nat): Worker
    requires n <= w.len
  {
    if n == w.len then w.(len := DEFB, bp := 0, o := w.o + n, phase := Asking)
    else w.(bp := w.bp + n, o := w.o + n, len := w.len - n, phase := Reading)
  }

  function TakenAt(w: nat, o: nat, first: nat, p: nat): Origin
    requires o <= p
  {
    Origin(w, first + (p - o))
  }

  /** The origins of k bytes written at o that start at byte first of the source. */
  function Traced(origin: map<nat, Origin>, w: nat, o: nat, first: nat, k: nat): map<nat, Origin> {
    origin + (map p: nat | o <= p < o + k :: TakenAt(w, o, first, p))
  }

  function SetWorker(s: State, i: nat, w: Worker): State
    requires i < |s.workers|
  {
    s.(workers := s.workers[i := w])
  }

  function AllNoted(workers: seq<Worker>): (r: seq<Worker>)
    ensures |r| == |workers| && forall i :: 0 <= i < |r| ==> r[i] == workers[i].(noted := true)
  {
    seq(|workers|, i requires 0 <= i < |workers| => workers[i].(noted := true))
  }

  /** One step of the parent or of a worker. */
  function Step(s: State, e: Event): State
    requires Enabled(s, e)
  {
    match e
    case Fork(ok, garbage) =>
      if ok then s.(tries := s.tries + 1, workers := s.workers + [Forked(garbage)])
      else s.(tries := s.tries + 1)
    case Ask(i) =>
      var w := s.workers[i];
      SetWorker(s, i, w.(o := s.off, block := |s.owner|, phase := Reading))
        .(off := s.off + DEFB, owner := s.owner + [i])
    case Read(i, n) =>
      var w := s.workers[i];
      SetWorker(s, i, if n < 0 then w.(phase := Exited(false))
                      else if n == 0 then w.(phase := Exited(true))
                      else AfterRead(s.src, w, n))
    case Write(i, k) =>
      var w := s.workers[i];
      SetWorker(s, i, if k == w.phase.n then AfterWrite(w, k) else w.(phase := Exited(false)))
        .(dest := Pwrite(s.dest, w.o, w.buf[..k]), origin := Traced(s.origin, i, w.o, w.o - w.bp, k))
    case Reap(i) =>
      var w := s.workers[i].(reaped := true);
      if s.workers[i].phase.ok then SetWorker(s, i, w)
      else s.(rv := -1, workers := AllNoted(s.workers[i := w]))
    case Deliver(i) => SetWorker(s, i, s.workers[i].(phase := Exited(true)))
  }

  /** What copy1 returns, once there is nobody left to wait for. */
  predicate Returned(s: State, rv: int) {
    && s.tries == NWORK
    && (if s.workers == [] then rv == -1 else rv == s.rv && forall i :: 0 <= i < |s.workers| ==> s.workers[i].reaped)
  }

  /** Every pread of the run that gave bytes gave all there were, up to its length. */
  predicate WholeRead(s: State, e: Event) {
    e.Read? && Enabled(s, e) && e.n > 0 ==> e.n == Available(s.src, s.workers[e.w].len, s.workers[e.w].o)
  }

  // ----- what every run keeps

  /** How much of the buffer has been read since the block began. */
  function Fill(w: Worker): nat {
    if w.phase.Writing? then w.bp + w.phase.n else w.bp
  }

  ghost predicate Loaded(src: seq<Byte>, w: Worker) {
    Fill(w) > 0 ==>
      w.o - w.bp + Fill(w) <= |src| && w.buf[..Fill(w)] == src[w.o - w.bp..w.o - w.bp + Fill(w)]
  }

  ghost predicate WorkerOk(s: State, i: nat)
    requires i < |s.workers|
  {
    var w := s.workers[i];
    && (Active(w) ==> w.block < |s.owner| && s.owner[w.block] == i && w.o == w.block * DEFB + w.bp)
    && (Active(w) ==> Loaded(s.src, w))
    && (w.phase.Exited? && w.phase.ok && s.rv == 0 ==> |s.src| <= s.off)
    && (w.noted ==> s.rv == -1)
    && (w.reaped ==> w.phase.Exited? && (w.phase.ok || s.rv == -1))
  }

  /** p lies in a block that worker w still has before it, or will never finish. */
  ghost predicate Holds(w: Worker, p: nat) {
    (w.phase.Exited? && !w.phase.ok) || (Active(w) && w.o <= p < w.block * DEFB + DEFB)
  }

  /** Position p of the destination has been written by the worker its block was handed to. */
  ghost predicate Copied(s: State, p: nat) {
    && p in s.origin && p < |s.dest| && p < s.off && s.origin[p].from <= p
    && s.origin[p].from < |s.src| && s.dest[p] == s.src[s.origin[p].from]
    && exists b :: 0 <= b < |s.owner| && b * DEFB <= p < b * DEFB + DEFB && s.owner[b] == s.origin[p].worker
  }

  ghost predicate Covered(s: State, p: nat) {
    p in s.origin || exists i :: 0 <= i < |s.workers| && Holds(s.workers[i], p)
  }

  /** What worker w has before it is not written yet. */
  ghost predicate Ahead(s: State, w: Worker) {
    Active(w) ==> forall p :: p in s.origin && p >= w.block * DEFB && p < w.block * DEFB + DEFB ==> p < w.o
  }

  ghost predicate Inv(s: State) {
    && s.off == |s.owner| * DEFB && |s.dest| <= |s.src| && s.rv in {0, -1}
    && (forall i :: 0 <= i < |s.workers| ==> WorkerOk(s, i))
    && (forall i :: 0 <= i < |s.workers| ==> Ahead(s, s.workers[i]))
    && (forall p: nat :: p in s.origin ==> Copied(s, p))
    && (s.rv == 0 ==> forall p: nat :: p < |s.src| && p < s.off ==> Covered(s, p))
  }

  /** Nothing but complete reads so far. */
  ghost predicate Straight(s: State) {
    && (forall p: nat :: p in s.origin ==> s.origin[p].from == p)
    && (forall i :: 0 <= i < |s.workers| && Active(s.workers[i]) ==>
          s.workers[i].bp == 0 || (s.workers[i].phase.Reading? && s.workers[i].o >= |s.src|))
    && (forall i :: 0 <= i < |s.workers| && s.workers[i].phase.Writing? ==>
          s.workers[i].phase.n == Available(s.src, s.workers[i].len, s.workers[i].o))
  }

  /** What no step takes back. */
  ghost predicate Grows(s: State, r: State) {
    && r.src == s.src && |s.owner| <= |r.owner| && r.owner[..|s.owner|] == s.owner && s.off <= r.off
    && s.rv in {0, -1} && (s.rv == -1 ==> r.rv == -1) && r.rv in {0, -1} && |s.workers| <= |r.workers|
    && r.off == |r.owner| * DEFB && |r.dest| <= |r.src|
  }

  lemma {:induction false} OtherOk(s: State, r: State, i: nat)
    requires Grows(s, r) && i < |s.workers| && WorkerOk(s, i) && r.workers[i] == s.workers[i]
    ensures WorkerOk(r, i)
  {
    assert forall b :: 0 <= b < |s.owner| ==> r.owner[b] == s.owner[b];
  }

  lemma {:induction false} CopiedStill(s: State, r: State, p: nat)
    requires Grows(s, r) && Copied(s, p)
    requires p in r.origin && r.origin[p] == s.origin[p] && p < |r.dest| && r.dest[p] == s.dest[p]
    ensures Copied(r, p)
  {
    assert forall b :: 0 <= b < |s.owner| ==> r.owner[b] == s.owner[b];
  }

  /** A step that moves one worker only, and writes nothing. */
  lemma {:induction false} OneMoved(s: State, r: State, i: nat)
    requires Inv(s) && Grows(s, r) && i < |s.workers| == |r.workers|
    requires forall j :: 0 <= j < |s.workers| && j != i ==> r.workers[j] == s.workers[j]
    requires r.dest == s.dest && r.origin == s.origin
    requires WorkerOk(r, i) && Ahead(r, r.workers[i])
    requires r.rv == 0 ==> forall p: nat :: p < |r.src| && p < r.off && (p >= s.off || Holds(s.workers[i], p)) ==>
      Holds(r.workers[i], p)
    ensures Inv(r)
  {
    hide WorkerOk, Ahead, Copied, Holds, Grows;
    forall j | 0 <= j < |r.workers| ensures WorkerOk(r, j) && Ahead(r, r.workers[j]) {
      if j != i {
        OtherOk(s, r, j);
        AheadStill(s, r, s.workers[j]);
      }
    }
    forall p: nat | p in r.origin ensures Copied(r, p) {
      CopiedBounds(s, p);
      CopiedStill(s, r, p);
    }
    GrowsBounds(s, r);
    if r.rv == 0 {
      forall p: nat | p < |r.src| && p < r.off ensures Covered(r, p) {
        if p < s.off {
          assert Covered(s, p);
        }
      }
    }
  }

  lemma GrowsBounds(s: State, r: State)
    requires Grows(s, r)
    ensures r.src == s.src && r.off == |r.owner| * DEFB && |r.dest| <= |r.src| && r.rv in {0, -1}
    ensures s.rv == -1 ==> r.rv == -1
  {
  }

  lemma {:induction false} CopiedBounds(s: State, p: nat)
    requires Copied(s, p)
    ensures p in s.origin && p < |s.dest| && p < s.off
  {
  }

  lemma {:induction false} AheadStill(s: State, r: State, w: Worker)
    requires Ahead(s, w) && r.origin == s.origin
    ensures Ahead(r, w)
  {
  }

  lemma {:induction false} ForkKeeps(s: State, e: Event)
    requires Inv(s) && Enabled(s, e) && e.Fork?
    ensures Inv(Step(s, e))
  {
    hide Copied, Holds, Ahead;
    var r := Step(s, e);
    forall j | 0 <= j < |r.workers| ensures WorkerOk(r, j) && Ahead(r, r.workers[j]) {
      if j < |s.workers| {
        OtherOk(s, r, j);
        AheadStill(s, r, s.workers[j]);
      } else {
        AheadIdle(r, r.workers[j]);
      }
    }
    hide WorkerOk;
    forall p: nat | p in r.origin ensures Copied(r, p) {
      CopiedBounds(s, p);
      CopiedStill(s, r, p);
    }
    if r.rv == 0 {
      forall p: nat | p < |r.src| && p < r.off ensures Covered(r, p) {
        CoveredMore(s, r, p);
      }
    }
  }

  lemma {:induction false} CoveredMore(s: State, r: State, p: nat)
    requires Covered(s, p) && r.origin == s.origin && |s.workers| <= |r.workers|
    requires forall i :: 0 <= i < |s.workers| ==> r.workers[i] == s.workers[i]
    ensures Covered(r, p)
  {
    hide Holds;
  }

  lemma {:induction false} AheadIdle(s: State, w: Worker)
    requires !Active(w)
    ensures Ahead(s, w)
  {
  }

  lemma {:induction false} AskKeeps(s: State, e: Event)
    requires Inv(s) && Enabled(s, e) && e.Ask?
    ensures Inv(Step(s, e))
  {
    var r := Step(s, e);
    assert WorkerOk(s, e.w);
    assert r.workers[e.w] == s.workers[e.w].(o := s.off, block := |s.owner|, phase := Reading);
    forall p: nat | p in s.origin ensures p < s.off {
      CopiedBounds(s, p);
    }
    OneMoved(s, r, e.w);
  }

  lemma {:induction false} LoadedByRead(src: seq<Byte>, w: Worker, n: nat)
    requires Loaded(src, w) && w.phase.Reading? && 0 < n <= w.len && w.o + n <= |src|
    ensures Loaded(src, AfterRead(src, w, n))
  {
    var r := AfterRead(src, w, n);
    var start := w.o - w.bp;
    assert forall j :: 0 <= j < w.bp ==> w.buf[j] == w.buf[..w.bp][j];
    assert r.buf[..w.bp + n] == src[start..start + w.bp + n];
  }

  lemma {:induction false} ReadKeeps(s: State, e: Event)
    requires Inv(s) && Enabled(s, e) && e.Read?
    ensures Inv(Step(s, e))
  {
    hide Copied, Loaded;
    var r := Step(s, e);
    assert WorkerOk(s, e.w) && Ahead(s, s.workers[e.w]);
    if e.n > 0 {
      LoadedByRead(s.src, s.workers[e.w], e.n);
    }
    OneMoved(s, r, e.w);
  }

  lemma {:induction false} DeliverKeeps(s: State, e: Event)
    requires Inv(s) && Enabled(s, e) && e.Deliver?
    ensures Inv(Step(s, e))
  {
    hide Copied;
    var r := Step(s, e);
    assert WorkerOk(s, e.w);
    OneMoved(s, r, e.w);
  }

  lemma {:induction false} ReapKeeps(s: State, e: Event)
    requires Inv(s) && Enabled(s, e) && e.Reap?
    ensures Inv(Step(s, e))
  {
    hide Copied;
    var r := Step(s, e);
    assert WorkerOk(s, e.w);
    if s.workers[e.w].phase.ok {
      OneMoved(s, r, e.w);
    } else {
      forall j | 0 <= j < |r.workers| ensures WorkerOk(r, j) && Ahead(r, r.workers[j]) {
        assert WorkerOk(s, j) && Ahead(s, s.workers[j]);
      }
      forall p: nat | p in r.origin ensures Copied(r, p) {
        CopiedBounds(s, p);
        CopiedStill(s, r, p);
      }
    }
  }

  /** The worker that has just written. */
  lemma {:induction false} WriterOk(s: State, e: Event)
    requires Inv(s) && Enabled(s, e) && e.Write?
    ensures WorkerOk(Step(s, e), e.w) && Ahead(Step(s, e), Step(s, e).workers[e.w])
  {
    hide Copied, Covered;
    assert WorkerOk(s, e.w) && Ahead(s, s.workers[e.w]);
  }

  /** Two workers never stand in one block. */
  lemma {:induction false} ApartBlocks(s: State, i: nat, j: nat)
    requires Inv(s) && i < |s.workers| && j < |s.workers| && i != j
    requires Active(s.workers[i]) && Active(s.workers[j])
    ensures s.workers[i].block != s.workers[j].block
  {
    assert WorkerOk(s, i) && WorkerOk(s, j);
  }

  /** What a write does besides moving its worker. */
  lemma {:induction false} WriteEffect(s: State, e: Event)
    requires Inv(s) && Enabled(s, e) && e.Write?
    ensures Grows(s, Step(s, e))
    ensures var w, r := s.workers[e.w], Step(s, e);
      r == s.(workers := r.workers, dest := Pwrite(s.dest, w.o, w.buf[..e.k]),
        origin := Traced(s.origin, e.w, w.o, w.o - w.bp, e.k))
  {
    hide Copied, Covered, Ahead;
    assert WorkerOk(s, e.w);
  }

  lemma {:induction false} TracedAt(origin: map<nat, Origin>, w: nat, o: nat, first: nat, k: nat, p: nat)
    requires p in Traced(origin, w, o, first, k)
    ensures if o <= p < o + k then Traced(origin, w, o, first, k)[p] == Origin(w, first + (p - o))
            else p in origin && Traced(origin, w, o, first, k)[p] == origin[p]
  {
  }

  lemma {:induction false} WriteAhead(s: State, e: Event, j: nat)
    requires Inv(s) && Enabled(s, e) && e.Write? && j < |s.workers| && j != e.w
    ensures Ahead(Step(s, e), s.workers[j])
  {
    hide Copied, Covered, Step, Traced, Grows, Loaded;
    var w, v := s.workers[e.w], s.workers[j];
    assert WorkerOk(s, e.w) && WorkerOk(s, j) && Ahead(s, v);
    WriteEffect(s, e);
    if Active(v) {
      ApartBlocks(s, e.w, j);
      forall p: nat | p in Step(s, e).origin && v.block * DEFB <= p < v.block * DEFB + DEFB ensures p < v.o {
        TracedAt(s.origin, e.w, w.o, w.o - w.bp, e.k, p);
        OutsideBlock(w.block, v.block, w.o, e.k, p);
      }
    }
  }

  lemma OutsideBlock(b: nat, c: nat, o: nat, k: nat, p: nat)
    requires b != c && b * DEFB <= o && o + k <= b * DEFB + DEFB && c * DEFB <= p < c * DEFB + DEFB
    ensures !(o <= p < o + k)
  {
  }

  lemma {:induction false} LoadedAt(src: seq<Byte>, w: Worker, j: nat)
    requires Loaded(src, w) && j < Fill(w)
    ensures w.o - w.bp + j < |src| && w.buf[j] == src[w.o - w.bp + j]
  {
    assert w.buf[j] == w.buf[..Fill(w)][j];
  }

  lemma {:induction false} FreshCopied(s: State, w: Worker, r: State, i: nat, p: nat, k: nat)
    requires i < |s.workers| && WorkerOk(s, i) && s.workers[i] == w && w.phase.Writing? && k <= w.phase.n
    requires r.src == s.src && r.owner == s.owner && r.off == |s.owner| * DEFB == s.off && w.o <= p < w.o + k
    requires p in r.origin && r.origin[p] == Origin(i, w.o - w.bp + (p - w.o))
    requires p < |r.dest| && r.dest[p] == w.buf[p - w.o]
    ensures Copied(r, p)
  {
    LoadedAt(s.src, w, p - w.o);
  }

  lemma {:induction false} WriteCopied(s: State, e: Event, p: nat)
    requires Inv(s) && Enabled(s, e) && e.Write? && p in Step(s, e).origin
    ensures Copied(Step(s, e), p)
  {
    hide Covered, Ahead, Traced, Copied, Grows, Step;
    var w := s.workers[e.w];
    assert WorkerOk(s, e.w);
    hide WorkerOk;
    var r := Step(s, e);
    WriteEffect(s, e);
    TracedAt(s.origin, e.w, w.o, w.o - w.bp, e.k, p);
    if w.o <= p < w.o + e.k {
      FreshCopied(s, w, r, e.w, p, e.k);
    } else {
      CopiedBounds(s, p);
      CopiedStill(s, r, p);
    }
  }

  lemma {:induction false} WriteCovered(s: State, e: Event, p: nat)
    requires Inv(s) && Enabled(s, e) && e.Write? && s.rv == 0 && p < |s.src| && p < s.off
    ensures Covered(Step(s, e), p)
  {
    hide Copied, Ahead;
    assert WorkerOk(s, e.w);
    var r := Step(s, e);
    assert Covered(s, p);
    if p in s.origin {
    } else {
      var i :| 0 <= i < |s.workers| && Holds(s.workers[i], p);
      if i != e.w {
        assert Holds(r.workers[i], p);
      } else if p >= s.workers[i].o + e.k {
        assert Holds(r.workers[i], p);
      }
    }
  }

  lemma {:induction false} WriteKeeps(s: State, e: Event)
    requires Inv(s) && Enabled(s, e) && e.Write?
    ensures Inv(Step(s, e))
  {
    hide Copied, Covered, Ahead;
    var r := Step(s, e);
    assert WorkerOk(s, e.w);
    WriterOk(s, e);
    forall j | 0 <= j < |r.workers| ensures WorkerOk(r, j) && Ahead(r, r.workers[j]) {
      if j != e.w {
        OtherOk(s, r, j);
        WriteAhead(s, e, j);
      }
    }
    forall p: nat | p in r.origin ensures Copied(r, p) {
      WriteCopied(s, e, p);
    }
    forall p: nat | s.rv == 0 && p < |s.src| && p < s.off ensures Covered(r, p) {
      WriteCovered(s, e, p);
    }
  }

  lemma {:induction false} StepKeeps(s: State, e: Event)
    requires Inv(s) && Enabled(s, e)
    ensures Inv(Step(s, e)) && Step(s, e).src == s.src
  {
    hide Inv;
    match e
    case Fork(_, _) => ForkKeeps(s, e);
    case Ask(_) => AskKeeps(s, e);
    case Read(_, _) => ReadKeeps(s, e);
    case Write(_, _) => WriteKeeps(s, e);
    case Reap(_) => ReapKeeps(s, e);
    case Deliver(_) => DeliverKeeps(s, e);
  }

  // ----- whole runs

  /** A step; an event that is not enabled does nothing. */
  function Next(s: State, e: Event): State {
    if Enabled(s, e) then Step(s, e) else s
  }

  function Run(s: State, es: seq<Event>): State
    decreases |es|
  {
    if es == [] then s else Run(Next(s, es[0]), es[1..])
  }

  predicate AllWhole(s: State, es: seq<Event>)
    decreases |es|
  {
    es == [] || (WholeRead(s, es[0]) && AllWhole(Next(s, es[0]), es[1..]))
  }

  lemma {:induction false} RunKeeps(s: State, es: seq<Event>)
    requires Inv(s)
    ensures Inv(Run(s, es)) && Run(s, es).src == s.src
    decreases |es|
  {
    hide Inv, Step, Enabled;
    if es != [] {
      if Enabled(s, es[0]) {
        StepKeeps(s, es[0]);
      }
      RunKeeps(Next(s, es[0]), es[1..]);
    }
  }

  lemma StartKeeps(src: seq<Byte>)
    ensures Inv(Start(src)) && Straight(Start(src))
  {
  }

  lemma {:induction false} StraightStep(s: State, e: Event)
    requires Inv(s) && Straight(s) && Enabled(s, e) && WholeRead(s, e)
    ensures Straight(Step(s, e))
  {
    hide Copied, Covered, Ahead, Loaded;
    if e.Write? {
      StraightWrite(s, e);
    } else if e.Read? {
      assert WorkerOk(s, e.w);
    }
  }

  lemma {:induction false} StraightWrite(s: State, e: Event)
    requires Inv(s) && Straight(s) && Enabled(s, e) && e.Write?
    ensures Straight(Step(s, e))
  {
    hide Copied, Covered, Ahead, Loaded, Traced;
    var w := s.workers[e.w];
    assert WorkerOk(s, e.w);
    forall p: nat | p in Step(s, e).origin ensures Step(s, e).origin[p].from == p {
      TracedAt(s.origin, e.w, w.o, w.o - w.bp, e.k, p);
    }
  }

  lemma {:induction false} RunStraight(s: State, es: seq<Event>)
    requires Inv(s) && Straight(s) && AllWhole(s, es)
    ensures Straight(Run(s, es))
    decreases |es|
  {
    hide Inv, Step, Enabled, Straight, WholeRead;
    if es != [] {
      if Enabled(s, es[0]) {
        StepKeeps(s, es[0]);
        StraightStep(s, es[0]);
      }
      RunStraight(Next(s, es[0]), es[1..]);
    }
  }

  /** When the copy ends well, every byte has been written, and with a byte of its own block. */
  lemma {:induction false} AllCopied(s: State)
    requires Inv(s) && Returned(s, 0)
    ensures |s.dest| == |s.src| && forall p: nat :: p < |s.src| ==> Copied(s, p)
  {
    hide Copied, Ahead, Loaded;
    assert WorkerOk(s, 0);
    forall p: nat | p < |s.src| ensures Copied(s, p) {
      assert Covered(s, p);
      forall i | 0 <= i < |s.workers| ensures !Holds(s.workers[i], p) {
        assert WorkerOk(s, i);
      }
    }
    if |s.src| > 0 {
      CopiedBounds(s, |s.src| - 1);
    }
  }

  /** Where the bytes of a copy that returns 0 come from. */
  lemma {:induction false} CopyOrigins(src: seq<Byte>, es: seq<Event>, s: State)
    requires s == Run(Start(src), es) && Returned(s, 0)
    ensures |s.dest| == |src| && forall p: nat :: p < |src| ==>
      p in s.origin && s.origin[p].from <= p && s.dest[p] == src[s.origin[p].from]
  {
    hide Inv, Straight, Returned, Run, Copied;
    StartKeeps(src);
    RunKeeps(Start(src), es);
    AllCopied(s);
    forall p: nat | p < |src| ensures p in s.origin && s.origin[p].from <= p && s.dest[p] == src[s.origin[p].from] {
      CopiedOrigin(s, p);
    }
  }

  lemma {:induction false} CopiedOrigin(s: State, p: nat)
    requires Copied(s, p)
    ensures p in s.origin && s.origin[p].from <= p && p < |s.dest| && s.origin[p].from < |s.src|
    ensures s.dest[p] == s.src[s.origin[p].from]
  {
  }

  /** Whatever the number of workers and the interleaving, a copy whose reads were all whole
      and that returns 0 has made the destination equal to the source. */
  lemma {:induction false} CopyRight(src: seq<Byte>, es: seq<Event>, s: State)
    requires s == Run(Start(src), es) && Returned(s, 0) && AllWhole(Start(src), es)
    ensures s.dest == src
  {
    hide Inv, Returned, Run, Copied;
    StartKeeps(src);
    RunStraight(Start(src), es);
    CopyOrigins(src, es, s);
  }

  /** No two workers are handed the same block: a byte is written once only, by the one worker
      its block was handed to. */
  lemma {:induction false} OneOwner(src: seq<Byte>, es: seq<Event>, s: State, e: Event, p: nat)
    requires s == Run(Start(src), es) && e.Write? && Enabled(s, e)
    requires s.workers[e.w].o <= p < s.workers[e.w].o + e.k
    ensures p !in s.origin && p / DEFB < |s.owner| && s.owner[p / DEFB] == e.w
    ensures forall i :: 0 <= i < |s.workers| && Active(s.workers[i]) && i != e.w ==> s.workers[i].block != p / DEFB
  {
    hide Run, Straight, Copied, Covered, Loaded;
    StartKeeps(src);
    RunKeeps(Start(src), es);
    var w := s.workers[e.w];
    assert WorkerOk(s, e.w) && Ahead(s, w);
    BlockOf(w.block, p);
    forall i | 0 <= i < |s.workers| && Active(s.workers[i]) && i != e.w ensures s.workers[i].block != p / DEFB {
      ApartBlocks(s, e.w, i);
    }
  }

  lemma BlockOf(b: nat, p: nat)
    requires b * DEFB <= p < b * DEFB + DEFB
    ensures p / DEFB == b
  {
  }

  // ----- reads of any size

  /** The n bytes at the worker's place are the bytes as far into its block as its buffer is empty:
      what pwrite sends, which always starts at the front of the buffer. */
  predicate Agree(src: seq<Byte>, w: Worker, n: nat) {
    w.o + n <= |src| && src[w.o..w.o + n] == src[w.o - w.bp..w.o - w.bp + n]
  }

  predicate ReadAgrees(s: State, e: Event) {
    e.Read? && Enabled(s, e) && e.n > 0 ==> Agree(s.src, s.workers[e.w], e.n)
  }

  /** Every read of the run that gives bytes is at the front of a block, or gives bytes that equal
      those at the front. */
  predicate AllAgree(s: State, es: seq<Event>)
    decreases |es|
  {
    es == [] || (ReadAgrees(s, es[0]) && AllAgree(Next(s, es[0]), es[1..]))
  }

  /** The byte written at p is the right one. */
  ghost predicate Right(s: State, p: nat) {
    p in s.origin && p < |s.src| && s.origin[p].from < |s.src| && s.src[s.origin[p].from] == s.src[p]
  }

  ghost predicate Pending(s: State, i: nat) {
    i < |s.workers| && s.workers[i].phase.Writing? && !Agree(s.src, s.workers[i], s.workers[i].phase.n)
  }

  /** Nothing wrong has been written, nor is about to be. */
  ghost predicate Clean(s: State) {
    (forall p: nat :: p in s.origin ==> Right(s, p)) && forall i: nat :: !Pending(s, i)
  }

  /** Something wrong has been written or is about to be, or the copy has failed. */
  ghost predicate Tainted(s: State) {
    || s.rv == -1
    || (exists i: nat :: i < |s.workers| && s.workers[i].phase == Exited(false))
    || (exists i: nat :: Pending(s, i))
    || exists p: nat :: p in s.origin && !Right(s, p)
  }

  lemma {:induction false} CleanWrite(s: State, e: Event)
    requires Inv(s) && Clean(s) && Enabled(s, e) && e.Write?
    ensures Clean(Step(s, e))
  {
    hide Copied, Covered, Ahead, Loaded, Traced, Grows, Step, Inv;
    var w, r := s.workers[e.w], Step(s, e);
    WriteEffect(s, e);
    OthersWait(s, e);
    assert !Pending(s, e.w);
    forall p: nat | p in r.origin ensures Right(r, p) {
      TracedAt(s.origin, e.w, w.o, w.o - w.bp, e.k, p);
      if w.o <= p < w.o + e.k {
        AgreeAt(s.src, w, w.phase.n, p - w.o);
      } else {
        assert Right(s, p);
      }
    }
    forall i: nat ensures !Pending(r, i) {
      assert !Pending(s, i);
    }
  }

  lemma AgreeAt(src: seq<Byte>, w: Worker, n: nat, j: nat)
    requires Agree(src, w, n) && j < n
    ensures w.o + j < |src| && src[w.o - w.bp + j] == src[w.o + j]
  {
    assert src[w.o..w.o + n][j] == src[w.o - w.bp..w.o - w.bp + n][j];
  }

  /** After a write its worker has nothing to write, and the others are as they were. */
  lemma {:induction false} OthersWait(s: State, e: Event)
    requires Enabled(s, e) && e.Write?
    ensures var r := Step(s, e);
      && |r.workers| == |s.workers| && !r.workers[e.w].phase.Writing?
      && (e.k < s.workers[e.w].phase.n ==> r.workers[e.w].phase == Exited(false))
      && forall i :: 0 <= i < |s.workers| && i != e.w ==> r.workers[i] == s.workers[i]
  {
    hide Traced, Pwrite;
  }

  /** What the other steps leave: nothing is written, and whoever is about to write was so before,
      unless he has just read. */
  lemma {:induction false} NoWrite(s: State, e: Event)
    requires Enabled(s, e) && !e.Write?
    ensures var r := Step(s, e);
      && r.src == s.src && r.origin == s.origin && |s.workers| <= |r.workers|
      && forall i :: 0 <= i < |r.workers| && r.workers[i].phase.Writing? ==> i < |s.workers| && SameWrite(s, r, e, i)
  {
    hide AfterRead;
    if e.Read? {
      if e.n > 0 {
        AfterReadParts(s.src, s.workers[e.w], e.n);
      }
    }
  }

  predicate SameWrite(s: State, r: State, e: Event, i: nat)
    requires i < |s.workers| && i < |r.workers|
  {
    && r.workers[i].o == s.workers[i].o && r.workers[i].bp == s.workers[i].bp
    && r.workers[i].phase == if e.Read? && i == e.w && e.n > 0 then Writing(e.n) else s.workers[i].phase
  }

  lemma AfterReadParts(src: seq<Byte>, w: Worker, n: nat)
    requires 0 < n <= w.len && w.o + n <= |src|
    ensures var r := AfterRead(src, w, n); r.o == w.o && r.bp == w.bp && r.phase == Writing(n) && r.reaped == w.reaped
  {
  }

  lemma {:induction false} NotPending(s: State, r: State, e: Event, i: nat)
    requires r.src == s.src && i < |s.workers| && i < |r.workers| && SameWrite(s, r, e, i) && !Pending(s, i)
    requires e.Read? && i == e.w && e.n > 0 ==> Agree(s.src, s.workers[i], e.n)
    ensures !Pending(r, i)
  {
  }

  lemma {:induction false} CleanStep(s: State, e: Event)
    requires Inv(s) && Clean(s) && Enabled(s, e) && ReadAgrees(s, e)
    ensures Clean(Step(s, e))
  {
    hide Inv, Step, Agree;
    if e.Write? {
      CleanWrite(s, e);
    } else {
      var r := Step(s, e);
      NoWrite(s, e);
      hide Enabled, SameWrite;
      forall p: nat | p in r.origin ensures Right(r, p) {
        assert Right(s, p);
      }
      forall i: nat ensures !Pending(r, i) {
        if i < |r.workers| && r.workers[i].phase.Writing? {
          assert SameWrite(s, r, e, i) && !Pending(s, i);
          NotPending(s, r, e, i);
        }
      }
    }
  }

  lemma {:induction false} TracedIn(origin: map<nat, Origin>, w: nat, o: nat, first: nat, k: nat, p: nat)
    ensures o <= p < o + k || p in origin ==>
      p in Traced(origin, w, o, first, k)
        && Traced(origin, w, o, first, k)[p] == if o <= p < o + k then Origin(w, first + (p - o)) else origin[p]
  {
  }

  lemma Disagree(src: seq<Byte>, w: Worker, n: nat) returns (j: nat)
    requires w.o + n <= |src| && !Agree(src, w, n)
    ensures j < n && src[w.o - w.bp + j] != src[w.o + j]
  {
    j :| j < n && src[w.o..w.o + n][j] != src[w.o - w.bp..w.o - w.bp + n][j];
  }

  lemma {:induction false} TaintWrite(s: State, e: Event)
    requires Inv(s) && Tainted(s) && Enabled(s, e) && e.Write?
    ensures Tainted(Step(s, e))
  {
    hide Copied, Covered, Loaded, Traced, Grows, Step;
    var w, r := s.workers[e.w], Step(s, e);
    assert WorkerOk(s, e.w) && Ahead(s, w);
    LoadedFits(s.src, w);
    hide Inv, WorkerOk;
    WriteEffect(s, e);
    OthersWait(s, e);
    if i: nat :| i < |s.workers| && s.workers[i].phase == Exited(false) {
      assert r.workers[i].phase == Exited(false);
    } else if e.k < w.phase.n {
      assert r.workers[e.w].phase == Exited(false);
    } else if Pending(s, e.w) {
      var j := Disagree(s.src, w, w.phase.n);
      TracedIn(s.origin, e.w, w.o, w.o - w.bp, e.k, w.o + j);
      assert !Right(r, w.o + j);
    } else if i: nat :| Pending(s, i) {
      assert Pending(r, i);
    } else if p: nat :| p in s.origin && !Right(s, p) {
      TracedIn(s.origin, e.w, w.o, w.o - w.bp, e.k, p);
      assert !Right(r, p);
    }
  }

  lemma {:induction false} LoadedFits(src: seq<Byte>, w: Worker)
    requires Loaded(src, w) && w.phase.Writing?
    ensures w.o + w.phase.n <= |src|
  {
  }

  lemma {:induction false} TaintStep(s: State, e: Event)
    requires Inv(s) && Tainted(s) && Enabled(s, e)
    ensures Tainted(Step(s, e))
  {
    hide Copied, Covered, Loaded, Traced, Agree;
    if e.Write? {
      TaintWrite(s, e);
    } else {
      var r := Step(s, e);
      if i: nat :| i < |s.workers| && s.workers[i].phase == Exited(false) {
        assert r.rv == -1 || r.workers[i].phase == Exited(false);
      } else if i: nat :| Pending(s, i) {
        assert WorkerOk(s, i);
        assert r.rv == -1 || Pending(r, i);
      } else if p: nat :| p in s.origin && !Right(s, p) {
        assert !Right(r, p);
      }
    }
  }

  /** A read that does not agree taints the copy. */
  lemma {:induction false} TaintRead(s: State, e: Event)
    requires Enabled(s, e) && !ReadAgrees(s, e)
    ensures Tainted(Step(s, e))
  {
    hide AfterRead;
    AfterReadParts(s.src, s.workers[e.w], e.n);
    assert Pending(Step(s, e), e.w);
  }

  lemma {:induction false} RunTainted(s: State, es: seq<Event>)
    requires Inv(s) && (Tainted(s) || !AllAgree(s, es))
    ensures Tainted(Run(s, es))
    decreases |es|
  {
    hide Inv, Step, Enabled, Tainted, ReadAgrees;
    if es != [] {
      if Enabled(s, es[0]) {
        StepKeeps(s, es[0]);
        if Tainted(s) {
          TaintStep(s, es[0]);
        } else if !ReadAgrees(s, es[0]) {
          TaintRead(s, es[0]);
        }
      } else {
        DisabledAgrees(s, es[0]);
      }
      RunTainted(Next(s, es[0]), es[1..]);
    }
  }

  lemma DisabledAgrees(s: State, e: Event)
    requires !Enabled(s, e)
    ensures ReadAgrees(s, e)
  {
  }

  lemma {:induction false} RunClean(s: State, es: seq<Event>)
    requires Inv(s) && Clean(s) && AllAgree(s, es)
    ensures Clean(Run(s, es))
    decreases |es|
  {
    hide Inv, Step, Enabled, Clean, ReadAgrees;
    if es != [] {
      if Enabled(s, es[0]) {
        StepKeeps(s, es[0]);
        CleanStep(s, es[0]);
      }
      RunClean(Next(s, es[0]), es[1..]);
    }
  }

  /** When everybody has left in order, a taint is a wrong byte. */
  lemma {:induction false} TaintShows(s: State) returns (p: nat)
    requires Inv(s) && Returned(s, 0) && Tainted(s)
    ensures p in s.origin && p < |s.src| && s.origin[p].from < |s.src| && s.src[s.origin[p].from] != s.src[p]
  {
    hide Covered, Ahead, Loaded;
    forall i: nat | i < |s.workers| ensures s.workers[i].phase != Exited(false) && !Pending(s, i) {
      assert WorkerOk(s, i);
    }
    p :| p in s.origin && !Right(s, p);
    assert Copied(s, p);
  }

  /** A copy that returns 0, its reads of whatever sizes, has made the destination equal to the
      source exactly when every read inside a block gave the bytes at the front of that block. */
  lemma {:induction false} CopyExact(src: seq<Byte>, es: seq<Event>, s: State)
    requires s == Run(Start(src), es) && Returned(s, 0)
    ensures s.dest == src <==> AllAgree(Start(src), es)
  {
    hide Inv, Straight, Returned, Run, Tainted, Clean, Copied;
    StartKeeps(src);
    RunKeeps(Start(src), es);
    CopyOrigins(src, es, s);
    if AllAgree(Start(src), es) {
      StartClean(src);
      RunClean(Start(src), es);
      forall p: nat | p < |src| ensures s.dest[p] == src[p] {
        CleanAt(s, p);
      }
    } else {
      RunTainted(Start(src), es);
      var p := TaintShows(s);
    }
  }

  lemma StartClean(src: seq<Byte>)
    ensures Clean(Start(src))
  {
  }

  lemma CleanAt(s: State, p: nat)
    requires Clean(s) && p in s.origin
    ensures p < |s.src| && s.origin[p].from < |s.src| && s.src[s.origin[p].from] == s.src[p]
  {
    assert Right(s, p);
  }

  // ----- a short read

  lemma {:induction false} RunFirst(s: State, e: Event, es: seq<Event>)
    ensures Run(s, [e] + es) == Run(Next(s, e), es)
  {
    assert ([e] + es)[1..] == es;
  }

  function FailedForks(n: nat, garbage: seq<Byte>): seq<Event> {
    seq(n, _ => Fork(false, garbage))
  }

  lemma {:induction false} RunFailedForks(s: State, n: nat, garbage: seq<Byte>, es: seq<Event>)
    requires s.tries + n <= NWORK && |garbage| == DEFB
    ensures Run(s, FailedForks(n, garbage) + es) == Run(s.(tries := s.tries + n), es)
    decreases n
  {
    if n == 0 {
      assert FailedForks(n, garbage) + es == es;
    } else {
      assert FailedForks(n, garbage) + es == [Fork(false, garbage)] + (FailedForks(n - 1, garbage) + es);
      RunFirst(s, Fork(false, garbage), FailedForks(n - 1, garbage) + es);
      RunFailedForks(s.(tries := s.tries + 1), n - 1, garbage, es);
    }
  }

  /** The lone worker of a two-byte copy, its reads giving one byte at a time. */
  lemma {:induction false} OneByteReads(s: State, garbage: seq<Byte>)
    requires |garbage| == DEFB && s.src == [1, 2] && s.dest == [] && s.off == 0 && s.rv == 0 && s.tries == NWORK
    requires s.workers == [Forked(garbage)]
    ensures var r := Run(s, [Ask(0), Read(0, 1), Write(0, 1)]);
      && r.src == s.src && r.tries == NWORK && r.rv == 0 && r.dest == [1] && |r.workers| == 1
      && r.workers[0].phase == Reading && r.workers[0].bp == 1 && r.workers[0].o == 1
      && r.workers[0].buf[0] == 1 && !r.workers[0].reaped
  {
    hide Run;
    var es := [Ask(0), Read(0, 1), Write(0, 1)];
    RunThree(s, es);
    var s1 := Next(s, es[0]);
    assert s1.workers[0].phase == Reading && s1.workers[0].o == 0 && s1.workers[0].bp == 0;
    var s2 := Next(s1, es[1]);
    assert s2.workers[0].phase == Writing(1) && s2.workers[0].buf[0] == 1;
    assert s2.workers[0].buf[..1] == [1];
  }

  lemma {:induction false} RunThree(s: State, es: seq<Event>)
    requires |es| == 3
    ensures Run(s, es) == Next(Next(Next(s, es[0]), es[1]), es[2])
  {
    hide Next;
    var s1 := Next(s, es[0]);
    assert Run(s1, es[1..]) == Run(Next(s1, es[1]), es[1..][1..]);
    assert Run(Next(s1, es[1]), es[1..][1..]) == Run(Next(Next(s1, es[1]), es[2]), es[1..][1..][1..]);
  }

  /** Two bytes, one worker, read one at a time: the first byte is written twice. */
  lemma {:induction false} ShortReadWrong(garbage: seq<Byte>) returns (es: seq<Event>, s: State)
    requires |garbage| == DEFB
    ensures s == Run(Start([1, 2]), es) && Returned(s, 0) && s.dest == [1, 1]
  {
    hide Run;
    var first, last := [Ask(0), Read(0, 1), Write(0, 1)], [Read(0, 1), Write(0, 1), Read(0, 0), Reap(0)];
    es := [Fork(true, garbage)] + (FailedForks(15, garbage) + (first + last));
    s := Run(Start([1, 2]), es);
    RunFirst(Start([1, 2]), Fork(true, garbage), FailedForks(15, garbage) + (first + last));
    var s1 := Next(Start([1, 2]), Fork(true, garbage));
    RunFailedForks(s1, 15, garbage, first + last);
    var s2 := s1.(tries := NWORK);
    RunInTwo(s2, first, last);
    OneByteReads(s2, garbage);
    SecondByte(Run(s2, first));
  }

  lemma {:induction false} RunInTwo(s: State, first: seq<Event>, last: seq<Event>)
    ensures Run(s, first + last) == Run(Run(s, first), last)
    decreases |first|
  {
    if first == [] {
      assert first + last == last;
    } else {
      assert first + last == [first[0]] + (first[1..] + last);
      RunFirst(s, first[0], first[1..] + last);
      RunInTwo(Next(s, first[0]), first[1..], last);
    }
  }

  lemma {:induction false} SecondByte(s: State)
    requires s.src == [1, 2] && s.dest == [1] && s.rv == 0 && s.tries == NWORK && |s.workers| == 1
    requires var w := s.workers[0]; w.phase == Reading && w.bp == 1 && w.o == 1 && w.buf[0] == 1 && !w.reaped
    ensures var r := Run(s, [Read(0, 1), Write(0, 1), Read(0, 0), Reap(0)]); Returned(r, 0) && r.dest == [1, 1]
  {
    hide Run;
    var es := [Read(0, 1), Write(0, 1), Read(0, 0), Reap(0)];
    assert es == [es[0]] + [Write(0, 1), Read(0, 0), Reap(0)];
    RunFirst(s, es[0], [Write(0, 1), Read(0, 0), Reap(0)]);
    var s1 := Next(s, es[0]);
    RunThree(s1, [Write(0, 1), Read(0, 0), Reap(0)]);
    assert s1.workers[0].phase == Writing(1) && s1.workers[0].buf[0] == 1;
    assert s1.workers[0].buf[..1] == [1];
    var s2 := Next(s1, es[1]);
    assert s2.dest == [1, 1] && s2.workers[0].phase == Reading && s2.workers[0].o == 2;
    var s3 := Next(s2, es[2]);
    assert s3.workers[0].phase == Exited(true) && !s3.workers[0].reaped;
  }

  // ----- the worker's loop

  /** What the workers share. */
  class Shared {
    const src: seq<Byte>
    var dest: seq<Byte>
    var off: nat

    constructor (s: seq<Byte>)
      ensures src == s && dest == [] && off == 0
    {
      src := s;
      dest, off := [], 0;
    }

    method NextOff() returns (o: nat)
      modifies this`off
      ensures o == old(off) && off == old(off) + DEFB
    {
      o := off;
      off := off + DEFB;
    }

    /** pread of n bytes and the pwrite after it. */
    method Transfer(w: Worker, n: nat) returns (r: Worker)
      requires w.phase.Reading? && w.bp == 0 && 0 < n <= w.len && w.o + n <= |src|
      modifies this`dest
      ensures r == AfterWrite(AfterRead(src, w, n), n)
      ensures r.o == w.o + n && r.bp == (if n == w.len then 0 else n)
        && r.phase == if n == w.len then Asking else Reading
      ensures dest == Pwrite(old(dest), w.o, src[w.o..w.o + n])
    {
      r := AfterRead(src, w, n);
      assert r.buf[..n] == src[w.o..w.o + n];
      dest := Pwrite(dest, r.o, r.buf[..n]);
      r := AfterWrite(r, n);
    }

    /** A worker while nobody else moves, each of its reads whole: it copies all that is left. */
    method Work(garbage: seq<Byte>)
      requires |garbage| == DEFB && off <= |dest| <= |src|
      modifies this
      ensures off > |src|
      ensures dest == Pwrite(old(dest), old(off), src[old(off)..])
    {
      hide Pwrite, AfterRead;
      var w: Worker := Forked(garbage);
      var o := NextOff();
      w := w.(o := o, phase := Reading);
      ghost var first := o;
      NothingWritten(dest, first);
      var n := Available(src, w.len, w.o);
      while n != 0
        invariant n == Available(src, w.len, w.o) && w.phase.Reading? && off == w.o - w.bp + DEFB
        invariant first <= w.o && (w.bp == 0 || w.o >= |src|) && (w.bp > 0 ==> w.o == |src|)
        invariant dest == Pwrite(old(dest), first, src[first..if w.o <= |src| then w.o else |src|])
        decreases if w.o < |src| then |src| - w.o else 0
      {
        WrittenOn(old(dest), src, first, w.o, n);
        w := Transfer(w, n);
        if w.phase.Asking? {
          o := NextOff();
          w := w.(o := o, phase := Reading);
        }
        n := Available(src, w.len, w.o);
      }
    }
  }

  lemma {:induction false} NothingWritten(file: seq<Byte>, o: nat)
    ensures Pwrite(file, o, []) == file
  {
  }

  /** Writing on where the last write ended. */
  lemma {:induction false} WrittenOn(file: seq<Byte>, src: seq<Byte>, first: nat, o: nat, n: nat)
    requires first <= o && o + n <= |src| && first <= |file|
    ensures Pwrite(Pwrite(file, first, src[first..o]), o, src[o..o + n]) == Pwrite(file, first, src[first..o + n])
  {
  }
}
