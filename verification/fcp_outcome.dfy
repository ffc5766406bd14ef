/** What the parallel copy returns, and that every run of it can be brought to its end. */
module CopyOutcome {
  import opened ParallelCopy

  // ----- what is returned

  /** No pread of the run gives -1, and every pwrite takes all the bytes. */
  predicate Fine(s: State, e: Event) {
    && (e.Read? && Enabled(s, e) ==> e.n >= 0)
    && (e.Write? && Enabled(s, e) ==> e.k == s.workers[e.w].phase.n)
  }

  predicate AllFine(s: State, es: seq<Event>)
    decreases |es|
  {
    es == [] || (Fine(s, es[0]) && AllFine(Next(s, es[0]), es[1..]))
  }

  /** Some rfork of the run works. */
  predicate SomeFork(s: State, es: seq<Event>)
    decreases |es|
  {
    es != [] && ((es[0].Fork? && es[0].ok && Enabled(s, es[0])) || SomeFork(Next(s, es[0]), es[1..]))
  }

  /** A worker has left with an error, or was found to have. */
  ghost predicate Failed(s: State) {
    s.rv != 0 || exists i: nat :: i < |s.workers| && s.workers[i].phase == Exited(false)
  }

  lemma {:induction false} FineStep(s: State, e: Event)
    requires Inv(s) && Enabled(s, e)
    ensures Failed(Step(s, e)) == (Failed(s) || !Fine(s, e))
  {
    hide Inv, Traced, Pwrite;
    var r := Step(s, e);
    match e
    case Fork(ok, garbage) => FailedFork(s, e);
    case Reap(i) => FailedReap(s, e);
    case Deliver(i) => FailedDeliver(s, e);
    case Ask(i) => FailedMove(s, r, i);
    case Read(i, n) => FailedRead(s, e);
    case Write(i, k) => FailedMove(s, r, i);
  }

  lemma {:induction false} FailedRead(s: State, e: Event)
    requires Enabled(s, e) && e.Read?
    ensures Failed(Step(s, e)) == (Failed(s) || !Fine(s, e))
  {
    hide AfterRead, Failed;
    if e.n > 0 {
      AfterReadParts(s.src, s.workers[e.w], e.n);
    }
    FailedMove(s, Step(s, e), e.w);
  }

  /** A step of worker i, which has not left before. */
  lemma {:induction false} FailedMove(s: State, r: State, i: nat)
    requires r.rv == s.rv && i < |s.workers| == |r.workers| && !s.workers[i].phase.Exited?
    requires r.workers == s.workers[i := r.workers[i]]
    ensures Failed(r) == (Failed(s) || r.workers[i].phase == Exited(false))
  {
    assert forall j :: 0 <= j < |s.workers| && j != i ==> r.workers[j] == s.workers[j];
  }

  lemma {:induction false} FailedFork(s: State, e: Event)
    requires Enabled(s, e) && e.Fork?
    ensures Failed(Step(s, e)) == Failed(s)
  {
    var r := Step(s, e);
    assert forall j :: 0 <= j < |s.workers| ==> r.workers[j] == s.workers[j];
  }

  lemma {:induction false} FailedReap(s: State, e: Event)
    requires Enabled(s, e) && e.Reap?
    ensures Failed(Step(s, e)) == Failed(s)
  {
    var r := Step(s, e);
    if s.workers[e.w].phase.ok {
      assert forall j :: 0 <= j < |s.workers| ==> r.workers[j].phase == s.workers[j].phase;
    }
  }

  lemma {:induction false} FailedDeliver(s: State, e: Event)
    requires Inv(s) && Enabled(s, e) && e.Deliver?
    ensures Failed(s) && Failed(Step(s, e))
  {
    hide Copied, Covered, Ahead;
    assert WorkerOk(s, e.w);
  }

  lemma {:induction false} RunFailed(s: State, es: seq<Event>)
    requires Inv(s)
    ensures Failed(Run(s, es)) == (Failed(s) || !AllFine(s, es))
    decreases |es|
  {
    hide Inv, Step, Enabled, Failed, Fine;
    if es != [] {
      if Enabled(s, es[0]) {
        StepKeeps(s, es[0]);
        FineStep(s, es[0]);
      } else {
        DisabledFine(s, es[0]);
      }
      RunFailed(Next(s, es[0]), es[1..]);
    }
  }

  lemma DisabledFine(s: State, e: Event)
    requires !Enabled(s, e)
    ensures Fine(s, e)
  {
  }

  lemma {:induction false} RunForks(s: State, es: seq<Event>)
    ensures |Run(s, es).workers| > 0 <==> |s.workers| > 0 || SomeFork(s, es)
    decreases |es|
  {
    if es != [] {
      hide AfterRead, AfterWrite, Traced, Pwrite;
      RunForks(Next(s, es[0]), es[1..]);
    }
  }

  /** A copy returns 0 exactly when no read failed, no write was short and some worker was made,
      and -1 otherwise. */
  lemma {:induction false} ReturnsZero(src: seq<Byte>, es: seq<Event>, s: State, rv: int)
    requires s == Run(Start(src), es) && Returned(s, rv)
    ensures rv == 0 <==> AllFine(Start(src), es) && SomeFork(Start(src), es)
    ensures rv != 0 ==> rv == -1
  {
    hide Run, Failed, AllFine, SomeFork;
    StartKeeps(src);
    RunKeeps(Start(src), es);
    RunFailed(Start(src), es);
    RunForks(Start(src), es);
    StartSound(src);
    if s.workers != [] {
      EndSound(s);
    }
  }

  lemma StartSound(src: seq<Byte>)
    ensures !Failed(Start(src)) && Start(src).workers == []
  {
  }

  lemma {:induction false} EndSound(s: State)
    requires Inv(s) && forall i :: 0 <= i < |s.workers| ==> s.workers[i].reaped
    ensures s.rv in {0, -1} && (Failed(s) <==> s.rv == -1)
  {
    hide Copied, Covered, Ahead;
    forall i: nat | i < |s.workers| ensures s.workers[i].phase == Exited(false) ==> s.rv == -1 {
      assert WorkerOk(s, i);
    }
  }

  /** So a copy with whole reads, complete writes and a worker, once it has returned, is right. */
  lemma {:induction false} FineCopy(src: seq<Byte>, es: seq<Event>, s: State, rv: int)
    requires s == Run(Start(src), es) && Returned(s, rv)
    requires AllWhole(Start(src), es) && AllFine(Start(src), es) && SomeFork(Start(src), es)
    ensures rv == 0 && s.dest == src
  {
    hide Run, AllWhole, AllFine, SomeFork, Returned;
    ReturnsZero(src, es, s, rv);
    CopyRight(src, es, s);
  }

  // ----- every run can be brought to its end

  /** The run ends in r without an error, and its reads are whole. */
  ghost predicate Leads(s: State, es: seq<Event>, r: State) {
    Run(s, es) == r && AllFine(s, es) && AllWhole(s, es)
  }

  lemma {:induction false} LeadsFirst(s: State, e: Event, es: seq<Event>, r: State)
    requires Enabled(s, e) && Fine(s, e) && WholeRead(s, e) && Leads(Step(s, e), es, r)
    ensures Leads(s, [e] + es, r)
  {
    hide Step, Enabled, Fine, WholeRead;
    assert ([e] + es)[0] == e && ([e] + es)[1..] == es;
    assert Next(s, e) == Step(s, e);
  }

  lemma {:induction false} LeadsOn(s: State, es: seq<Event>, mid: State, more: seq<Event>, r: State)
    requires Leads(s, es, mid) && Leads(mid, more, r)
    ensures Leads(s, es + more, r)
    decreases |es|
  {
    hide Next, Fine, WholeRead;
    if es == [] {
      assert es + more == more;
    } else {
      LeadsOn(Next(s, es[0]), es[1..], mid, more, r);
      assert (es + more)[0] == es[0] && (es + more)[1..] == es[1..] + more;
    }
  }

  lemma LeadsNowhere(s: State)
    ensures Leads(s, [], s)
  {
  }

  /** Makes one worker if there is none, and no more. */
  lemma {:induction false} ForkOn(s: State, garbage: seq<Byte>) returns (es: seq<Event>, r: State)
    requires s.tries <= NWORK && |garbage| == DEFB
    ensures Leads(s, es, r) && r.tries == NWORK && r.rv == s.rv
    ensures |r.workers| == if s.workers == [] && s.tries < NWORK then 1 else |s.workers|
    decreases NWORK - s.tries
  {
    hide Leads;
    if s.tries == NWORK {
      LeadsNowhere(s);
      es, r := [], s;
    } else {
      var e := Fork(s.workers == [], garbage);
      es, r := ForkOn(Step(s, e), garbage);
      LeadsFirst(s, e, es, r);
      es := [e] + es;
    }
  }

  /** What worker w does next when all goes well. */
  function NextMove(s: State, i: nat): (e: Event)
    requires i < |s.workers| && !s.workers[i].phase.Exited?
    ensures Enabled(s, e) && Fine(s, e) && WholeRead(s, e)
  {
    var w := s.workers[i];
    match w.phase
    case Asking => Ask(i)
    case Reading => Read(i, Available(s.src, w.len, w.o))
    case Writing(n) => Write(i, n)
  }

  /** How much of the file nobody has been handed. */
  function Unasked(s: State): nat {
    if s.off >= |s.src| then 0 else |s.src| - s.off
  }

  /** How far a worker is from the end of its block. */
  function Left(src: seq<Byte>, w: Worker): nat {
    match w.phase
    case Asking => 2
    case Reading => if Available(src, w.len, w.o) == 0 then 1 else 2 * w.len + 2
    case Writing(_) => 2 * w.len + 1
    case Exited(_) => 0
  }

  lemma {:induction false} NextMoveLeft(s: State, i: nat)
    requires i < |s.workers| && !s.workers[i].phase.Exited?
    ensures var r := Step(s, NextMove(s, i));
      && |r.workers| == |s.workers| && r.src == s.src && r.tries == s.tries && r.rv == s.rv
      && (forall j :: 0 <= j < |s.workers| && j != i ==> r.workers[j] == s.workers[j])
      && (Unasked(r) < Unasked(s)
          || (Unasked(r) == Unasked(s) && Left(r.src, r.workers[i]) < Left(s.src, s.workers[i])))
  {
    hide Traced, Pwrite, AfterRead;
    var w := s.workers[i];
    if w.phase.Reading? && Available(s.src, w.len, w.o) > 0 {
      AfterReadParts(s.src, w, Available(s.src, w.len, w.o));
    }
  }

  /** Worker i goes on until it leaves, while the others wait. */
  lemma {:induction false} FinishOne(s: State, i: nat) returns (es: seq<Event>, r: State)
    requires i < |s.workers|
    ensures Leads(s, es, r) && r.tries == s.tries && r.rv == s.rv && |r.workers| == |s.workers|
    ensures r.workers[i].phase.Exited?
    ensures forall j :: 0 <= j < |s.workers| && j != i ==> r.workers[j] == s.workers[j]
    decreases Unasked(s), Left(s.src, s.workers[i])
  {
    hide Leads, Step, Enabled, Fine, WholeRead;
    if s.workers[i].phase.Exited? {
      LeadsNowhere(s);
      es, r := [], s;
    } else {
      var e := NextMove(s, i);
      NextMoveLeft(s, i);
      hide NextMove, Left, Unasked;
      es, r := FinishOne(Step(s, e), i);
      LeadsFirst(s, e, es, r);
      es := [e] + es;
    }
  }

  /** All workers from k on leave, one after the other. */
  lemma {:induction false} FinishAll(s: State, k: nat) returns (es: seq<Event>, r: State)
    requires k <= |s.workers| && forall j :: 0 <= j < k ==> s.workers[j].phase.Exited?
    ensures Leads(s, es, r) && r.tries == s.tries && r.rv == s.rv && |r.workers| == |s.workers|
    ensures forall j :: 0 <= j < |r.workers| ==> r.workers[j].phase.Exited?
    decreases |s.workers| - k
  {
    hide Leads;
    if k == |s.workers| {
      LeadsNowhere(s);
      es, r := [], s;
    } else {
      var first, mid := FinishOne(s, k);
      var rest;
      rest, r := FinishAll(mid, k + 1);
      LeadsOn(s, first, mid, rest, r);
      es := first + rest;
    }
  }

  /** The parent waits for the workers from k on. */
  lemma {:induction false} ReapAll(s: State, k: nat) returns (es: seq<Event>, r: State)
    requires s.tries == NWORK && k <= |s.workers| && forall j :: 0 <= j < |s.workers| ==> s.workers[j].phase.Exited?
    requires forall j :: 0 <= j < k ==> s.workers[j].reaped
    ensures Leads(s, es, r) && |r.workers| == |s.workers| && r.tries == NWORK
    ensures forall j :: 0 <= j < |r.workers| ==> r.workers[j].reaped
    decreases |s.workers| - k
  {
    hide Leads;
    if k == |s.workers| {
      LeadsNowhere(s);
      es, r := [], s;
    } else if s.workers[k].reaped {
      es, r := ReapAll(s, k + 1);
    } else {
      es, r := ReapAll(Step(s, Reap(k)), k + 1);
      LeadsFirst(s, Reap(k), es, r);
      es := [Reap(k)] + es;
    }
  }

  lemma {:induction false} FinishRun(s: State) returns (es: seq<Event>, r: State)
    requires s.tries <= NWORK
    ensures Leads(s, es, r) && Returned(r, if r.workers == [] then -1 else r.rv)
    ensures r.workers == [] <==> s.workers == [] && s.tries == NWORK
  {
    hide Leads;
    var forks, s1 := ForkOn(s, seq(DEFB, _ => 0));
    var ends, s2 := FinishAll(s1, 0);
    var waits;
    waits, r := ReapAll(s2, 0);
    LeadsOn(s1, ends, s2, waits, r);
    LeadsOn(s, forks, s1, ends + waits, r);
    es := forks + (ends + waits);
  }

  lemma {:induction false} FewTries(s: State, es: seq<Event>)
    requires s.tries <= NWORK
    ensures Run(s, es).tries <= NWORK
    decreases |es|
  {
    if es != [] {
      FewTries(Next(s, es[0]), es[1..]);
    }
  }

  lemma {:induction false} RunsOn(s: State, es: seq<Event>, more: seq<Event>)
    ensures Run(s, es + more) == Run(Run(s, es), more)
    ensures AllFine(s, es + more) == (AllFine(s, es) && AllFine(Run(s, es), more))
    ensures AllWhole(s, es + more) == (AllWhole(s, es) && AllWhole(Run(s, es), more))
    decreases |es|
  {
    hide Next, Fine, WholeRead;
    if es == [] {
      assert es + more == more;
    } else {
      assert (es + more)[0] == es[0] && (es + more)[1..] == es[1..] + more;
      RunsOn(Next(s, es[0]), es[1..], more);
    }
  }

  /** Every run, wherever it stands, can go on to the end of the copy. If nothing has failed so far
      and every read was whole, and there is a worker or one can still be made, it can go on so that
      0 is returned and the destination is the source. */
  lemma {:induction false} CanFinish(src: seq<Byte>, es: seq<Event>) returns (more: seq<Event>, r: State, rv: int)
    ensures r == Run(Start(src), es + more) && Returned(r, rv)
    ensures var s := Run(Start(src), es);
      AllFine(Start(src), es) && AllWhole(Start(src), es) && (s.workers != [] || s.tries < NWORK) ==>
        rv == 0 && r.dest == src
  {
    hide Run, AllFine, AllWhole, Returned, SomeFork;
    var s := Run(Start(src), es);
    FewTries(Start(src), es);
    more, r := FinishRun(s);
    RunsOn(Start(src), es, more);
    rv := if r.workers == [] then -1 else r.rv;
    RunForks(Start(src), es + more);
    ReturnsZero(src, es + more, r, rv);
    if rv == 0 && AllWhole(Start(src), es) {
      CopyRight(src, es + more, r);
    }
  }
}
