/** Safety of the reconnecting transport, over every run. */
module AanProof {
  import opened AanModel

  // ----- streams

  lemma {:induction false} StreamExtend(f: seq<Msg>, h: nat, hist: seq<seq<Byte>>, acks: seq<nat>,
      hist': seq<seq<Byte>>, acks': seq<nat>)
    requires Stream(f, h, hist, acks) && hist <= hist' && acks <= acks'
    ensures Stream(f, h, hist', acks')
    decreases |f|
  {
    if f != [] {
      StreamExtend(f[1..], if f[0].msg < 0 then h else h + 1, hist, acks, hist', acks');
    }
  }

  lemma {:induction false} StreamCount(f: seq<Msg>, h: nat, hist: seq<seq<Byte>>, acks: seq<nat>)
    requires Stream(f, h, hist, acks) && h <= |acks|
    ensures h + Count(f) <= |acks|
    decreases |f|
  {
    if f != [] {
      StreamCount(f[1..], if f[0].msg < 0 then h else h + 1, hist, acks);
    }
  }

  /** Appending the next message, or a synchronization message, keeps a stream. */
  lemma {:induction false} StreamAppend(f: seq<Msg>, h: nat, hist: seq<seq<Byte>>, acks: seq<nat>, m: Msg)
    requires Stream(f, h, hist, acks)
    requires var n := h + Count(f);
      || (m.msg < 0 && m.data == [])
      || (n < |acks| && n < |hist| && m == Msg(n, acks[n], hist[n]))
    ensures Stream(f + [m], h, hist, acks)
    ensures Count(f + [m]) == Count(f) + if m.msg < 0 then 0 else 1
    decreases |f|
  {
    if f == [] {
      assert (f + [m])[1..] == [];
    } else {
      StreamAppend(f[1..], if f[0].msg < 0 then h else h + 1, hist, acks, m);
      assert (f + [m])[1..] == f[1..] + [m];
    }
  }

  lemma {:induction false} StreamPrefix(f: seq<Msg>, h: nat, hist: seq<seq<Byte>>, acks: seq<nat>, n: nat)
    requires Stream(f, h, hist, acks) && n <= |f|
    ensures Stream(f[..n], h, hist, acks)
    decreases |f|
  {
    if n > 0 {
      StreamPrefix(f[1..], if f[0].msg < 0 then h else h + 1, hist, acks, n - 1);
      assert f[..n][1..] == f[1..][..n - 1];
    }
  }

  /** Resending consecutive messages from where the pipe stands keeps it a stream. */
  lemma {:induction false} StreamWriteAll(p: Pipe, ms: seq<Msg>, hist: seq<seq<Byte>>, acks: seq<nat>)
    requires Stream(p.frames, p.head, hist, acks)
    requires !p.cut ==> Numbered(ms, p.head + Count(p.frames), hist, acks)
    ensures var q := WriteAll(p, ms);
      && Stream(q.frames, q.head, hist, acks) && q.head == p.head && q.cut == p.cut
      && (!q.cut ==> Count(q.frames) == Count(p.frames) + |ms|)
    decreases |ms|
  {
    if ms != [] {
      var q := Write(p, ms[0]);
      if !p.cut {
        StreamAppend(p.frames, p.head, hist, acks, ms[0]);
        NumberedTail(ms, p.head + Count(p.frames), hist, acks);
      }
      StreamWriteAll(q, ms[1..], hist, acks);
    }
  }

  lemma {:induction false} NumberedTail(ms: seq<Msg>, n: nat, hist: seq<seq<Byte>>, acks: seq<nat>)
    requires Numbered(ms, n, hist, acks) && ms != []
    ensures Numbered(ms[1..], n + 1, hist, acks)
  {
  }

  // ----- one lemma per step: e acts, r is the other end

  ghost predicate Both(e: End, r: End, out: seq<Pipe>, inn: seq<Pipe>) {
    |out| == |inn| && Direction(e, r, out) && Direction(r, e, inn)
  }

  lemma {:induction false} KeepsTakeBuffer(e: End, r: End, out: seq<Pipe>, inn: seq<Pipe>)
    requires Both(e, r, out, inn) && Enabled(e, out, inn, TakeBuffer)
    ensures Both(e.(empty := e.empty - 1, holding := true), r, out, inn)
  {
    hide Stream, Count;
    var e' := e.(empty := e.empty - 1, holding := true);
    assert forall c :: 0 <= c < |out| ==> PipeOk(e, r, out[c], c) ==> PipeOk(e', r, out[c], c);
    assert forall c :: 0 <= c < |inn| ==> PipeOk(r, e, inn[c], c) ==> PipeOk(r, e', inn[c], c);
  }

  lemma {:induction false} FlattenPrefix(h: seq<seq<Byte>>, h': seq<seq<Byte>>, n: nat)
    requires n <= |h| && h <= h'
    ensures h'[..n] == h[..n]
  {
  }

  lemma {:induction false} KeepsClientRead(e: End, r: End, out: seq<Pipe>, inn: seq<Pipe>, chunk: seq<Byte>)
    requires Both(e, r, out, inn) && Enabled(e, out, inn, ClientRead(chunk))
    ensures Both(AfterRead(e, chunk), r, out, inn)
  {
    hide Stream, Count, Flatten;
    var e' := AfterRead(e, chunk);
    FlattenPrefix(e.hist, e'.hist, r.inmsg);
    assert Queues(e');
    assert Progress(e', r);
    forall c | 0 <= c < |out| ensures PipeOk(e', r, out[c], c) {
      assert PipeOk(e, r, out[c], c);
      StreamExtend(out[c].frames, out[c].head, e.hist, e.acks, e'.hist, e'.acks);
    }
    forall c | 0 <= c < |inn| ensures PipeOk(r, e', inn[c], c) {
      assert PipeOk(r, e, inn[c], c);
    }
  }

  lemma {:induction false} SendQueues(e: End)
    requires Queues(e) && e.unsent != []
    ensures Queues(AfterSend(e))
    ensures Stamped(e) == Msg(|e.acks|, e.inmsg, e.hist[|e.acks|])
  {
    var e' := AfterSend(e);
    assert e.unsent[0].msg == |e.acks| + 0;
    forall i | 0 <= i < |e'.unsent|
      ensures e'.unsent[i].msg == |e'.acks| + i && e'.unsent[i].data == e'.hist[|e'.acks| + i]
    {
      assert e'.unsent[i] == e.unsent[i + 1];
    }
  }

  lemma {:induction false} KeepsSend(e: End, r: End, out: seq<Pipe>, inn: seq<Pipe>)
    requires Both(e, r, out, inn) && Enabled(e, out, inn, Send)
    ensures var (e', out', inn') := Act(e, out, inn, Send); Both(e', r, out', inn')
  {
    hide Stream, Count, Flatten, Queues;
    var (e', out', inn') := Act(e, out, inn, Send);
    SendQueues(e);
    QueueParts(e);
    QueueParts(e');
    assert Progress(e', r);
    forall c | 0 <= c < |out| ensures PipeOk(e', r, out'[c], c) {
      assert PipeOk(e, r, out[c], c);
      var p := out[c];
      StreamExtend(p.frames, p.head, e.hist, e.acks, e'.hist, e'.acks);
      if c == e.conn && !p.cut {
        StreamAppend(p.frames, p.head, e'.hist, e'.acks, Stamped(e));
      }
    }
    forall c | 0 <= c < |inn| ensures PipeOk(r, e', inn'[c], c) {
      assert PipeOk(r, e, inn[c], c);
    }
  }

  lemma {:induction false} QueueParts(e: End)
    requires Queues(e)
    ensures |e.acks| == e.lastacked + |e.unacked| && |e.hist| == |e.acks| + |e.unsent|
    ensures (e.conn == -1 || e.conn == e.last) && -1 <= e.last
    ensures forall i :: 0 <= i < |e.hist| ==> (e.hist[i] == [] <==> e.closed && i == |e.hist| - 1)
  {
  }

  lemma {:induction false} KeepsTimer(e: End, r: End, out: seq<Pipe>, inn: seq<Pipe>)
    requires Both(e, r, out, inn) && Enabled(e, out, inn, Timer)
    ensures var (e', out', inn') := Act(e, out, inn, Timer); Both(e', r, out', inn')
  {
    hide Stream, Count, Flatten, Queues;
    var (e', out', inn') := Act(e, out, inn, Timer);
    forall c | 0 <= c < |out| ensures PipeOk(e, r, out'[c], c) {
      assert PipeOk(e, r, out[c], c);
      if c == e.conn && !out[c].cut {
        StreamAppend(out[c].frames, out[c].head, e.hist, e.acks, Msg(-1, e.inmsg, []));
        QueueParts(e);
      }
    }
  }

  lemma {:induction false} KeepsLinkDown(e: End, r: End, out: seq<Pipe>, inn: seq<Pipe>)
    requires Both(e, r, out, inn)
    ensures Both(e.(conn := -1), r, out, inn)
  {
    hide Stream, Count, Flatten;
    var e' := e.(conn := -1);
    forall c | 0 <= c < |out| ensures PipeOk(e', r, out[c], c) {
      assert PipeOk(e, r, out[c], c);
    }
    forall c | 0 <= c < |inn| ensures PipeOk(r, e', inn[c], c) {
      assert PipeOk(r, e, inn[c], c);
    }
  }

  lemma {:induction false} KeepsCut(e: End, r: End, out: seq<Pipe>, inn: seq<Pipe>, c: nat, keep: nat)
    requires Both(e, r, out, inn) && Enabled(e, out, inn, Cut(c, keep))
    ensures var (e', out', inn') := Act(e, out, inn, Cut(c, keep)); Both(e', r, out', inn')
  {
    hide Stream, Count, Flatten, Queues;
    var (e', out', inn') := Act(e, out, inn, Cut(c, keep));
    forall d | 0 <= d < |out| ensures PipeOk(e, r, out'[d], d) {
      assert PipeOk(e, r, out[d], d);
      if d == c {
        StreamPrefix(out[c].frames, out[c].head, e.hist, e.acks, keep);
      }
    }
  }

  lemma {:induction false} EmptyPipe(e: End, r: End, c: nat)
    requires c > e.last || c > r.last
    ensures c > e.last ==> PipeOk(e, r, FRESHPIPE, c) || c == e.conn
    ensures Stream([], 0, e.hist, e.acks) && Count([]) == 0
  {
  }

  lemma {:induction false} KeepsConnect(e: End, r: End, out: seq<Pipe>, inn: seq<Pipe>, c: nat)
    requires Both(e, r, out, inn) && Enabled(e, out, inn, Connect(c))
    ensures var (e', out', inn') := Act(e, out, inn, Connect(c)); Both(e', r, out', inn')
  {
    hide Flatten, Stream, Count, WriteAll, Queues;
    QueueParts(e);
    QueueParts(r);
    var (e', out', inn') := Act(e, out, inn, Connect(c));
    var p := if c == |out| then FRESHPIPE else out[c];
    assert c < |out| ==> PipeOk(e, r, out[c], c);
    ConnectPipe(e, p);
    forall d | 0 <= d < |out'| ensures PipeOk(e', r, out'[d], d) {
      if d < |out| {
        assert PipeOk(e, r, out[d], d);
      }
    }
    forall d | 0 <= d < |inn'| ensures PipeOk(r, e', inn'[d], d) {
      if d < |inn| {
        assert PipeOk(r, e, inn[d], d);
      } else {
        EmptyPipe(r, e, d);
      }
    }
    ConnectQueues(e, c);
    assert Progress(e', r);
  }

  lemma {:induction false} ConnectQueues(e: End, c: nat)
    requires Queues(e)
    ensures Queues(AfterConnect(e, c))
  {
  }

  lemma {:induction false} ConnectPipe(e: End, p: Pipe)
    requires Queues(e) && p.frames == []
    ensures var q := Resent(e, p);
      && Stream(q.frames, e.lastacked, e.hist, e.acks) && q.head == e.lastacked && q.cut == p.cut
      && (!q.cut ==> q.head + Count(q.frames) == |e.acks|)
  {
    StreamWriteAll(p.(head := e.lastacked), e.unacked, e.hist, e.acks);
  }

  // ----- receiving

  /** The message e reads next from r: in sequence or already seen, as r first sent it. */
  lemma {:induction false} NextMessage(e: End, r: End, p: Pipe, c: nat)
    requires PipeOk(r, e, p, c) && p.frames != [] && c == e.conn && !e.peerClosed
    ensures var m := p.frames[0];
      && (m.msg < 0 ==> m.data == [] && Stream(p.frames[1..], p.head, r.hist, r.acks))
      && (m.msg >= 0 ==>
            && p.head <= e.inmsg && p.head < |r.acks| && p.head < |r.hist|
            && m == Msg(p.head, r.acks[p.head], r.hist[p.head])
            && Stream(p.frames[1..], p.head + 1, r.hist, r.acks))
    ensures AfterPop(p).head + Count(AfterPop(p).frames) == p.head + Count(p.frames)
  {
  }

  /** The check before assert(0) in fromnet never fails. */
  lemma {:induction false} AckCheckHolds(e: End, r: End, out: seq<Pipe>, inn: seq<Pipe>)
    requires Both(e, r, out, inn) && Enabled(e, out, inn, Receive)
    ensures var m := inn[e.conn].frames[0]; m.msg <= e.inmsg && (m.data != [] && m.msg >= e.inmsg ==> AcksFit(e, m))
  {
    hide Stream, Count, Flatten;
    var p, m := inn[e.conn], inn[e.conn].frames[0];
    assert PipeOk(r, e, p, e.conn);
    NextMessage(e, r, p, e.conn);
    if m.msg >= 0 && m.msg == e.inmsg {
      assert e.inmsg > 0 ==> r.acks[e.inmsg - 1] <= r.acks[e.inmsg];
      assert r.acks[e.inmsg] <= r.inmsg;
    }
  }

  lemma {:induction false} AckedQueues(e: End, m: Msg)
    requires Queues(e) && AcksFit(e, m) && m.data != [] && m.msg >= e.inmsg
    ensures Queues(AfterReceive(e, m))
  {
    hide Numbered;
    NumberedDrop(e.unacked, e.lastacked, e.hist, e.acks, m.acked - e.lastacked);
  }

  lemma {:induction false} NumberedDrop(ms: seq<Msg>, n: nat, hist: seq<seq<Byte>>, acks: seq<nat>, k: nat)
    requires Numbered(ms, n, hist, acks) && k <= |ms|
    ensures Numbered(ms[k..], n + k, hist, acks)
  {
  }

  lemma {:induction false} FlattenNext(h: seq<seq<Byte>>, n: nat)
    requires n < |h|
    ensures Flatten(h[..n + 1]) == Flatten(h[..n]) + h[n]
  {
    assert h[..n + 1][..n] == h[..n];
  }

  lemma {:induction false} ReceivedProgress(e: End, r: End, m: Msg)
    requires Progress(e, r) && Progress(r, e) && Queues(e) && Queues(r)
    requires m.msg >= 0 && m.msg <= e.inmsg && m.msg < |r.acks| && m == Msg(m.msg, r.acks[m.msg], r.hist[m.msg])
    requires m.data != [] && m.msg >= e.inmsg ==> AcksFit(e, m)
    ensures var e' := AfterReceive(e, m); Progress(e', r) && Progress(r, e') && Queues(e')
  {
    hide Flatten;
    var e' := AfterReceive(e, m);
    if m.data == [] {
      assert m.msg == |r.hist| - 1;
    } else if m.msg == e.inmsg {
      FlattenNext(r.hist, e.inmsg);
      AckedQueues(e, m);
      assert r.acks[e.inmsg] <= r.inmsg;
    }
  }

  lemma {:induction false} KeepsReceive(e: End, r: End, out: seq<Pipe>, inn: seq<Pipe>)
    requires Both(e, r, out, inn) && Enabled(e, out, inn, Receive)
    ensures var (e', out', inn') := Act(e, out, inn, Receive); Both(e', r, out', inn')
  {
    hide Stream, Count, Flatten, Queues, Progress, AcksFit;
    var (e', out', inn') := Act(e, out, inn, Receive);
    var p, m := inn[e.conn], inn[e.conn].frames[0];
    assert PipeOk(r, e, p, e.conn);
    NextMessage(e, r, p, e.conn);
    AckCheckHolds(e, r, out, inn);
    if m.msg >= 0 {
      ReceivedProgress(e, r, m);
    }
    SameHistory(e, m);
    forall c | 0 <= c < |out| ensures PipeOk(e', r, out[c], c) {
      assert PipeOk(e, r, out[c], c);
    }
    forall c | 0 <= c < |inn| ensures PipeOk(r, e', inn'[c], c) {
      assert PipeOk(r, e, inn[c], c);
    }
  }

  lemma SameHistory(e: End, m: Msg)
    ensures var e' := AfterReceive(e, m);
      && e'.hist == e.hist && e'.acks == e.acks && e'.conn == e.conn && e'.last == e.last
      && e'.inmsg == (if m.data != [] && m.msg >= e.inmsg && AcksFit(e, m) then e.inmsg + 1 else e.inmsg)
      && (e'.peerClosed <==> e.peerClosed || (m.data == [] && m.msg >= 0))
  {
  }

  // ----- all steps, all runs

  lemma {:induction false} KeepsAct(e: End, r: End, out: seq<Pipe>, inn: seq<Pipe>, a: Action)
    requires Both(e, r, out, inn) && Enabled(e, out, inn, a)
    ensures var (e', out', inn') := Act(e, out, inn, a); Both(e', r, out', inn')
  {
    hide Direction;
    match a
    case TakeBuffer => KeepsTakeBuffer(e, r, out, inn);
    case ClientRead(chunk) => KeepsClientRead(e, r, out, inn, chunk);
    case Send => KeepsSend(e, r, out, inn);
    case Timer => KeepsTimer(e, r, out, inn);
    case Receive => KeepsReceive(e, r, out, inn);
    case LinkDown => KeepsLinkDown(e, r, out, inn);
    case Connect(c) => KeepsConnect(e, r, out, inn, c);
    case Cut(c, keep) => KeepsCut(e, r, out, inn, c, keep);
  }

  lemma {:induction false} KeepsInv(s: System, left: bool, act: Action)
    requires Inv(s)
    ensures Inv(Step(s, left, act))
  {
    hide Direction, Act, Enabled;
    if left && Enabled(s.a, s.ab, s.ba, act) {
      KeepsAct(s.a, s.b, s.ab, s.ba, act);
    }
    if !left && Enabled(s.b, s.ba, s.ab, act) {
      KeepsAct(s.b, s.a, s.ba, s.ab, act);
    }
  }

  lemma {:induction false} RunKeepsInv(s: System, steps: seq<(bool, Action)>)
    requires Inv(s)
    ensures Inv(Run(s, steps))
    decreases |steps|
  {
    hide Inv, Step;
    if steps != [] {
      KeepsInv(s, steps[0].0, steps[0].1);
      RunKeepsInv(Step(s, steps[0].0, steps[0].1), steps[1..]);
    }
  }

  lemma StartInv()
    ensures Inv(START)
  {
    assert Queues(FRESHEND) && Progress(FRESHEND, FRESHEND);
  }

  lemma {:induction false} FlattenGrows(h: seq<seq<Byte>>, n: nat)
    requires n <= |h|
    ensures Flatten(h[..n]) <= Flatten(h)
    decreases |h| - n
  {
    if n < |h| {
      FlattenNext(h, n);
      FlattenGrows(h, n + 1);
    } else {
      assert h[..n] == h;
    }
  }

  /** Whatever happens to the connections, what either client has been given is a prefix of
      what the other has written: nothing lost, repeated or out of order. */
  lemma {:induction false} Delivery(steps: seq<(bool, Action)>)
    ensures var s := Run(START, steps);
      && s.b.inmsg <= |s.a.hist| && s.b.written == Flatten(s.a.hist[..s.b.inmsg]) <= Flatten(s.a.hist)
      && s.a.inmsg <= |s.b.hist| && s.a.written == Flatten(s.b.hist[..s.a.inmsg]) <= Flatten(s.b.hist)
  {
    hide Flatten, Stream, Count, Queues, Run;
    StartInv();
    RunKeepsInv(START, steps);
    var s := Run(START, steps);
    FlattenGrows(s.a.hist, s.b.inmsg);
    FlattenGrows(s.b.hist, s.a.inmsg);
  }

  lemma {:induction false} FlattenLastEmpty(h: seq<seq<Byte>>)
    requires h != [] && h[|h| - 1] == []
    ensures Flatten(h) == Flatten(h[..|h| - 1])
  {
  }

  /** An end that has seen the close has everything. */
  lemma {:induction false} CloseMeansAll(steps: seq<(bool, Action)>)
    ensures var s := Run(START, steps);
      && (s.b.peerClosed ==> s.a.closed && s.b.written == Flatten(s.a.hist))
      && (s.a.peerClosed ==> s.b.closed && s.a.written == Flatten(s.b.hist))
  {
    hide Flatten, Stream, Count, Run;
    StartInv();
    RunKeepsInv(START, steps);
    var s := Run(START, steps);
    if s.b.peerClosed {
      FlattenLastEmpty(s.a.hist);
    }
    if s.a.peerClosed {
      FlattenLastEmpty(s.b.hist);
    }
  }

  /** Queue discipline in every reachable state, for the end e and its peer r. */
  ghost predicate Discipline(e: End, r: End) {
    && (forall i :: 0 <= i < |e.unacked| ==> e.unacked[i].msg == e.lastacked + i)
    && e.lastacked <= r.inmsg <= e.lastacked + |e.unacked|
    && (forall i, j :: 0 <= i <= j < |e.unacked| ==> e.unacked[i].acked <= e.unacked[j].acked)
    && e.empty + |e.unsent| + |e.unacked| <= NBUF
  }

  lemma {:induction false} QueueDiscipline(e: End, r: End)
    requires Queues(e) && Progress(e, r)
    ensures Discipline(e, r)
  {
    hide Flatten;
    forall i, j | 0 <= i <= j < |e.unacked| ensures e.unacked[i].acked <= e.unacked[j].acked {
      assert e.acks[e.lastacked + i] <= e.acks[e.lastacked + j];
    }
  }

  /** In every reachable state the queues are in order, no message arrives above the next
      number, and the check before assert(0) holds. */
  lemma {:induction false} ReachableDiscipline(steps: seq<(bool, Action)>)
    ensures var s := Run(START, steps);
      && Discipline(s.a, s.b) && Discipline(s.b, s.a)
      && (Enabled(s.a, s.ab, s.ba, Receive) ==> var m := s.ba[s.a.conn].frames[0];
            m.msg <= s.a.inmsg && (m.data != [] && m.msg >= s.a.inmsg ==> AcksFit(s.a, m)))
      && (Enabled(s.b, s.ba, s.ab, Receive) ==> var m := s.ab[s.b.conn].frames[0];
            m.msg <= s.b.inmsg && (m.data != [] && m.msg >= s.b.inmsg ==> AcksFit(s.b, m)))
  {
    hide Flatten, Stream, Count, Queues, Run, Progress, AcksFit;
    StartInv();
    RunKeepsInv(START, steps);
    var s := Run(START, steps);
    QueueDiscipline(s.a, s.b);
    QueueDiscipline(s.b, s.a);
    if Enabled(s.a, s.ab, s.ba, Receive) {
      AckCheckHolds(s.a, s.b, s.ab, s.ba);
    }
    if Enabled(s.b, s.ba, s.ab, Receive) {
      AckCheckHolds(s.b, s.a, s.ba, s.ab);
    }
  }
}
