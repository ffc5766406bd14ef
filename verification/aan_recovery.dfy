/** What a working connection brings: everything arrives, and the buffers come back. */
module AanRecovery {
  import opened AanModel
  import opened AanProof

  /** n steps of one kind, by the left end or the right one. */
  function Repeat(n: nat, left: bool, act: Action): seq<(bool, Action)> {
    seq(n, _ => (left, act))
  }

  /** Both ends drop what they have and meet on connection c. */
  function Reconnect(c: nat): seq<(bool, Action)> {
    [(true, LinkDown), (false, LinkDown), (true, Connect(c)), (false, Connect(c))]
  }

  lemma {:induction false} RunConcat(s: System, p: seq<(bool, Action)>, q: seq<(bool, Action)>)
    ensures Run(s, p + q) == Run(Run(s, p), q)
    decreases |p|
  {
    hide Step;
    if p == [] {
      assert p + q == q;
    } else {
      assert (p + q)[1..] == p[1..] + q;
      RunConcat(Step(s, p[0].0, p[0].1), p[1..], q);
    }
  }

  lemma RunNothing(s: System)
    ensures Run(s, []) == s
  {
  }

  lemma {:induction false} RunRepeat(s: System, n: nat, left: bool, act: Action)
    requires n > 0
    ensures Run(s, Repeat(n, left, act)) == Run(Step(s, left, act), Repeat(n - 1, left, act))
  {
    hide Step;
    assert Repeat(n, left, act)[1..] == Repeat(n - 1, left, act);
  }

  // ----- a fresh connection

  /** Both ends are on connection c, which has not been cut. */
  ghost predicate Meet(s: System, c: nat) {
    c < |s.ab| && c < |s.ba| && s.a.conn == c && s.b.conn == c && !s.ab[c].cut && !s.ba[c].cut
  }

  /** What the clients have given and been given, and what is still to be sent, is the same. */
  predicate SameTraffic(e: End, f: End) {
    && f.hist == e.hist && f.acks == e.acks && f.closed == e.closed && f.unsent == e.unsent
    && f.inmsg == e.inmsg && f.written == e.written && f.peerClosed == e.peerClosed
  }

  lemma {:induction false} AfterReconnect(s: System)
    requires Inv(s)
    ensures var c := |s.ab|; var t := Run(s, Reconnect(c));
      Inv(t) && Meet(t, c) && SameTraffic(s.a, t.a) && SameTraffic(s.b, t.b)
  {
    hide Stream, Count, Flatten, Queues, Progress, PipeOk, Run, WriteAll;
    var c := |s.ab|;
    InvShape(s);
    RunKeepsInv(s, Reconnect(c));
    var s1 := Step(s, true, LinkDown);
    var s2 := Step(s1, false, LinkDown);
    var s3 := Step(s2, true, Connect(c));
    var s4 := Step(s3, false, Connect(c));
    RunFour(s, Reconnect(c));
    assert s3.ab[c] == Resent(s2.a, FRESHPIPE);
    Uncut(FRESHPIPE.(head := s2.a.lastacked), s2.a.unacked);
    Uncut(FRESHPIPE.(head := s3.b.lastacked), s3.b.unacked);
  }

  lemma {:induction false} RunFour(s: System, steps: seq<(bool, Action)>)
    requires |steps| == 4
    ensures Run(s, steps) == Step(Step(Step(Step(s, steps[0].0, steps[0].1), steps[1].0, steps[1].1),
                                       steps[2].0, steps[2].1), steps[3].0, steps[3].1)
  {
    hide Step;
    var s1 := Step(s, steps[0].0, steps[0].1);
    var s2 := Step(s1, steps[1].0, steps[1].1);
    var s3 := Step(s2, steps[2].0, steps[2].1);
    assert Run(s, steps) == Run(s1, steps[1..]);
    assert Run(s1, steps[1..]) == Run(s2, steps[1..][1..]);
    assert Run(s2, steps[1..][1..]) == Run(s3, steps[1..][1..][1..]);
    assert Run(s3, steps[1..][1..][1..]) == Run(Step(s3, steps[3].0, steps[3].1), steps[1..][1..][1..][1..]);
  }

  lemma {:induction false} Uncut(p: Pipe, ms: seq<Msg>)
    requires !p.cut
    ensures !WriteAll(p, ms).cut
    decreases |ms|
  {
    if ms != [] {
      Uncut(Write(p, ms[0]), ms[1..]);
    }
  }

  // ----- everything is sent

  lemma {:induction false} SendAll(s: System, c: nat)
    requires Inv(s) && Meet(s, c)
    ensures var n := |s.a.unsent|; var t := Run(s, Repeat(n, true, Send));
      && Inv(t) && Meet(t, c) && t.a.unsent == [] && t.a.hist == s.a.hist && t.a.closed == s.a.closed && t.b == s.b
      && t.a.inmsg == s.a.inmsg && t.a.peerClosed == s.a.peerClosed
      && |t.a.acks| == |s.a.acks| + n && t.a.acks[..|s.a.acks|] == s.a.acks
      && forall i :: |s.a.acks| <= i < |t.a.acks| ==> t.a.acks[i] == s.a.inmsg
    decreases |s.a.unsent|
  {
    hide Stream, Count, Flatten, Queues, Progress, PipeOk, Run, Inv;
    var n := |s.a.unsent|;
    if n == 0 {
      assert Repeat(0, true, Send) == [];
      RunNothing(s);
    } else {
      InvShape(s);
      var u := Step(s, true, Send);
      KeepsInv(s, true, Send);
      RunRepeat(s, n, true, Send);
      SendAll(u, c);
    }
  }

  lemma InvShape(s: System)
    requires Inv(s)
    ensures |s.ab| == |s.ba| && s.a.last < |s.ab| && s.b.last < |s.ab| && s.a.conn < |s.ab| && s.b.conn < |s.ab|
  {
  }

  // ----- everything is received

  lemma {:induction false} ReceiveAll(s: System, c: nat)
    requires Inv(s) && Meet(s, c)
    ensures var n := |s.ab[c].frames|; var t := Run(s, Repeat(n, false, Receive));
      && Inv(t) && Meet(t, c) && t.a == s.a && (t.ab[c].frames == [] || t.b.peerClosed)
      && t.b.unsent == s.b.unsent && t.b.hist == s.b.hist && t.b.acks == s.b.acks && t.b.closed == s.b.closed
      && t.ba == s.ba
    decreases |s.ab[c].frames|
  {
    hide Stream, Count, Flatten, Queues, Progress, PipeOk, Run, Inv, AcksFit;
    var n := |s.ab[c].frames|;
    if n == 0 {
      assert Repeat(0, false, Receive) == [];
      RunNothing(s);
    } else {
      InvShape(s);
      KeepsInv(s, false, Receive);
      RunRepeat(s, n, false, Receive);
      var u := Step(s, false, Receive);
      if s.b.peerClosed {
        assert u == s;
        StaysClosed(s, n - 1);
      } else {
        assert |u.ab[c].frames| == n - 1;
        ReceiveAll(u, c);
      }
    }
  }

  lemma {:induction false} StaysClosed(s: System, n: nat)
    requires s.b.peerClosed
    ensures Run(s, Repeat(n, false, Receive)) == s
  {
    hide Run;
    if n == 0 {
      assert Repeat(0, false, Receive) == [];
      RunNothing(s);
    } else {
      RunRepeat(s, n, false, Receive);
      StaysClosed(s, n - 1);
    }
  }

  /** Nothing unsent, nothing on the way: everything has arrived. */
  lemma {:induction false} Arrived(s: System, c: nat)
    requires Inv(s) && Meet(s, c) && s.a.unsent == [] && (s.ab[c].frames == [] || s.b.peerClosed)
    ensures s.b.written == Flatten(s.a.hist) && (s.b.peerClosed <==> s.a.closed)
    ensures s.b.inmsg == |s.a.hist| - if s.a.closed then 1 else 0
  {
    hide Flatten, Stream;
    assert PipeOk(s.a, s.b, s.ab[c], c);
    assert Queues(s.a) && Progress(s.a, s.b);
    var h := s.a.hist;
    assert s.a.closed ==> h != [] && h[|h| - 1] == [];
    if s.b.peerClosed {
      assert h[|h| - 1] == [] && h == h[..|h| - 1] + [[]];
      FlattenLastEmpty(h);
    } else {
      assert s.b.inmsg == |h|;
      assert h[..|h|] == h;
    }
  }

  // ----- recovery

  /** The steps from s on: meet on a new connection, a sends all it has, b reads all there is. */
  function Forward(s: System): seq<(bool, Action)> {
    var r := Reconnect(|s.ab|) + Repeat(|s.a.unsent|, true, Send);
    var t := Run(s, r);
    r + Repeat(if |s.ab| < |t.ab| then |t.ab[|s.ab|].frames| else 0, false, Receive)
  }

  lemma {:induction false} ForwardArrives(s: System)
    requires Inv(s)
    ensures var t := Run(s, Forward(s)); var c := |s.ab|;
      && Inv(t) && Meet(t, c) && t.b.written == Flatten(s.a.hist) && (t.b.peerClosed <==> s.a.closed)
      && t.a.hist == s.a.hist && t.b.hist == s.b.hist && t.b.inmsg == |s.a.hist| - (if s.a.closed then 1 else 0)
      && t.b.unsent == s.b.unsent && t.a.closed == s.a.closed && t.a.peerClosed == s.a.peerClosed
      && t.b.closed == s.b.closed && t.b.acks == s.b.acks && t.a.unsent == []
  {
    hide Inv, Run, Step, Flatten;
    var c := |s.ab|;
    AfterReconnect(s);
    var s1 := Run(s, Reconnect(c));
    SendAll(s1, c);
    var s2 := Run(s1, Repeat(|s.a.unsent|, true, Send));
    RunConcat(s, Reconnect(c), Repeat(|s.a.unsent|, true, Send));
    ReceiveAll(s2, c);
    var s3 := Run(s2, Repeat(|s2.ab[c].frames|, false, Receive));
    RunConcat(s, Reconnect(c) + Repeat(|s.a.unsent|, true, Send), Repeat(|s2.ab[c].frames|, false, Receive));
    Arrived(s3, c);
  }

  // ----- the other way round

  function Swap(s: System): System {
    System(s.b, s.a, s.ba, s.ab)
  }

  function Mirrored(steps: seq<(bool, Action)>): (r: seq<(bool, Action)>)
    ensures |r| == |steps| && forall i :: 0 <= i < |r| ==> r[i] == (!steps[i].0, steps[i].1)
  {
    seq(|steps|, i requires 0 <= i < |steps| => (!steps[i].0, steps[i].1))
  }

  lemma {:induction false} RunMirrored(s: System, steps: seq<(bool, Action)>)
    ensures Run(Swap(s), Mirrored(steps)) == Swap(Run(s, steps))
    decreases |steps|
  {
    hide Act, Enabled;
    if steps != [] {
      assert Mirrored(steps)[1..] == Mirrored(steps[1..]);
      assert Step(Swap(s), !steps[0].0, steps[0].1) == Swap(Step(s, steps[0].0, steps[0].1));
      RunMirrored(Step(s, steps[0].0, steps[0].1), steps[1..]);
    }
  }

  /** The same with the ends in each other's place. */
  function Backward(s: System): seq<(bool, Action)> {
    Mirrored(Forward(Swap(s)))
  }

  lemma {:induction false} BackwardArrives(s: System)
    requires Inv(s)
    ensures var t := Run(s, Backward(s)); var c := |s.ba|;
      && Inv(t) && t.a.written == Flatten(s.b.hist) && (t.a.peerClosed <==> s.b.closed)
      && t.a.inmsg == |s.b.hist| - (if s.b.closed then 1 else 0)
  {
    hide Run, Forward, Flatten, Direction, Mirrored;
    ForwardArrives(Swap(s));
    RunMirrored(Swap(s), Forward(Swap(s)));
  }

  /** From every state a run can reach, however many messages and connections were lost on the way:
      once the ends have met again, sending and reading what there is brings every byte either
      client has given, and the close where there was one. */
  lemma {:induction false} Recovery(steps: seq<(bool, Action)>)
    ensures var s := Run(START, steps);
      && (var t := Run(s, Forward(s)); t.b.written == Flatten(s.a.hist) && (t.b.peerClosed <==> s.a.closed))
      && (var t := Run(s, Backward(s)); t.a.written == Flatten(s.b.hist) && (t.a.peerClosed <==> s.b.closed))
  {
    hide Run, Forward, Backward, Flatten, Inv;
    StartInv();
    RunKeepsInv(START, steps);
    ForwardArrives(Run(START, steps));
    BackwardArrives(Run(START, steps));
  }

  // ----- acknowledgements

  /** The buffers an end has in use for messages not acknowledged. */
  lemma {:induction false} InUse(s: System)
    requires Inv(s)
    ensures |s.a.hist| == s.a.lastacked + |s.a.unacked| + |s.a.unsent|
    ensures |s.a.unacked| + |s.a.unsent| <= NBUF
    ensures s.a.lastacked == if s.a.inmsg == 0 then 0 else s.b.acks[s.a.inmsg - 1]
    ensures s.a.inmsg <= |s.b.acks| <= |s.b.hist|
  {
    hide Flatten, Stream;
    assert Queues(s.a) && Progress(s.b, s.a);
  }

  /** The steps of Forward, then the same from b to a on the connection they have. */
  function Exchange(s: System): seq<(bool, Action)> {
    var t := Run(s, Forward(s));
    var u := Run(t, Repeat(|t.b.unsent|, false, Send));
    Forward(s) + Repeat(|t.b.unsent|, false, Send)
    + Repeat(if |s.ab| < |u.ba| then |u.ba[|s.ab|].frames| else 0, true, Receive)
  }

  /** Once b has all of a's messages, a message from b takes the buffers of all of them back to a:
      only the close stays unacknowledged. */
  lemma {:induction false} BuffersReturn(s: System)
    requires Inv(s) && s.b.unsent != [] && s.b.unsent[0].data != []
    ensures var t := Run(s, Exchange(s)); |t.a.unacked| == (if s.a.closed then 1 else 0) && t.a.unsent == []
  {
    hide Inv, Run, Step, Flatten, Forward, Swap;
    var c := |s.ab|;
    ForwardArrives(s);
    var t := Run(s, Forward(s));
    var k, n := |t.b.unsent|, |t.b.acks|;
    SendBack(t, c);
    var p := Repeat(k, false, Send);
    var u := Run(t, p);
    RunConcat(s, Forward(s), p);
    ReceiveBack(u, c);
    var q := Repeat(|u.ba[c].frames|, true, Receive);
    var v := Run(u, q);
    RunConcat(s, Forward(s) + p, q);
    InUse(v);
    FirstUnsent(t);
    BackArrived(v, c);
  }

  lemma {:induction false} FirstUnsent(s: System)
    requires Inv(s) && s.b.unsent != []
    ensures s.b.unsent[0].data != [] ==> |s.b.hist| - (if s.b.closed then 1 else 0) > |s.b.acks|
    ensures |s.b.hist| == |s.b.acks| + |s.b.unsent|
  {
    hide Flatten, Stream;
    assert Queues(s.b);
  }

  lemma {:induction false} SwapInv(s: System)
    requires Inv(s)
    ensures Inv(Swap(s))
  {
    hide Direction;
  }

  lemma {:induction false} SendBack(s: System, c: nat)
    requires Inv(s) && Meet(s, c)
    ensures var n := |s.b.unsent|; var t := Run(s, Repeat(n, false, Send));
      && Inv(t) && Meet(t, c) && t.b.unsent == [] && t.b.hist == s.b.hist && t.b.closed == s.b.closed && t.a == s.a
      && t.b.inmsg == s.b.inmsg && |t.b.acks| == |s.b.acks| + n
      && forall i :: |s.b.acks| <= i < |t.b.acks| ==> t.b.acks[i] == s.b.inmsg
  {
    hide Inv, Run, Step, Flatten;
    var z, p := Swap(s), Repeat(|s.b.unsent|, true, Send);
    SwapInv(s);
    SendAll(z, c);
    RunMirrored(z, p);
    SwapInv(Run(z, p));
    assert Mirrored(p) == Repeat(|s.b.unsent|, false, Send) && Swap(z) == s;
  }

  lemma {:induction false} ReceiveBack(s: System, c: nat)
    requires Inv(s) && Meet(s, c)
    ensures var n := |s.ba[c].frames|; var t := Run(s, Repeat(n, true, Receive));
      && Inv(t) && Meet(t, c) && t.b == s.b && (t.ba[c].frames == [] || t.a.peerClosed)
      && t.a.unsent == s.a.unsent && t.a.hist == s.a.hist && t.a.closed == s.a.closed && t.a.acks == s.a.acks
  {
    hide Inv, Run, Step, Flatten;
    var z, p := Swap(s), Repeat(|s.ba[c].frames|, false, Receive);
    SwapInv(s);
    ReceiveAll(z, c);
    RunMirrored(z, p);
    SwapInv(Run(z, p));
    assert Mirrored(p) == Repeat(|s.ba[c].frames|, true, Receive) && Swap(z) == s;
  }

  lemma {:induction false} BackArrived(s: System, c: nat)
    requires Inv(s) && Meet(s, c) && s.b.unsent == [] && (s.ba[c].frames == [] || s.a.peerClosed)
    ensures s.a.inmsg == |s.b.hist| - if s.b.closed then 1 else 0
  {
    hide Inv, Flatten;
    SwapInv(s);
    Arrived(Swap(s), c);
  }

  /** As long as one client gives nothing the other can give no more than there are buffers: what
      acknowledges them comes with data only. */
  lemma {:induction false} OneWayStalls(steps: seq<(bool, Action)>)
    requires Run(START, steps).b.hist == []
    ensures |Run(START, steps).a.hist| <= NBUF
  {
    hide Run, Inv;
    StartInv();
    RunKeepsInv(START, steps);
    InUse(Run(START, steps));
  }

  /** The client of a gives these chunks, one after the other. */
  function Given(chunks: seq<seq<Byte>>): seq<(bool, Action)> {
    if chunks == [] then []
    else Given(chunks[..|chunks| - 1]) + [(true, TakeBuffer), (true, ClientRead(chunks[|chunks| - 1]))]
  }

  /** What is not more than the buffers hold can be given, and reaches the other client. */
  lemma {:induction false} FewArrive(chunks: seq<seq<Byte>>)
    requires |chunks| <= NBUF && forall i :: 0 <= i < |chunks| ==> chunks[i] != []
    ensures var s := Run(START, Given(chunks));
      s.a.hist == chunks && Run(s, Forward(s)).b.written == Flatten(chunks)
  {
    hide Run, Inv, Forward, Flatten;
    StartInv();
    RunKeepsInv(START, Given(chunks));
    GivenHist(chunks);
    ForwardArrives(Run(START, Given(chunks)));
  }

  lemma {:induction false} GivenHist(chunks: seq<seq<Byte>>)
    requires |chunks| <= NBUF && forall i :: 0 <= i < |chunks| ==> chunks[i] != []
    ensures var s := Run(START, Given(chunks));
      && s.a.hist == chunks && !s.a.closed && !s.a.holding && s.a.empty == NBUF - |chunks|
      && s.ab == [] && s.ba == [] && s.a.conn == -1
  {
    hide Run;
    if chunks == [] {
      RunNothing(START);
    } else {
      var n := |chunks| - 1;
      var front, two := chunks[..n], [(true, TakeBuffer), (true, ClientRead(chunks[n]))];
      GivenHist(front);
      var s := Run(START, Given(front));
      RunConcat(START, Given(front), two);
      RunTwo(s, two);
      assert front + [chunks[n]] == chunks;
    }
  }

  lemma {:induction false} RunTwo(s: System, steps: seq<(bool, Action)>)
    requires |steps| == 2
    ensures Run(s, steps) == Step(Step(s, steps[0].0, steps[0].1), steps[1].0, steps[1].1)
  {
    hide Step;
    var s1 := Step(s, steps[0].0, steps[0].1);
    assert Run(s, steps) == Run(s1, steps[1..]);
    assert Run(s1, steps[1..]) == Run(Step(s1, steps[1].0, steps[1].1), steps[1..][1..]);
  }
}
