/** The reconnecting transport, as a system of two ends and the connections they make.

    A connection is a pair of one-way pipes that keep order until they are cut; a cut loses
    any suffix of what is in flight and all that is written later. Each end counts the
    connections it has been on, and never returns to an older one. */
module AanModel {

  const NBUF := 10

  type Byte = x: int | 0 <= x < 256

  /** A message as it travels: its number (-1 for a synchronization message), the number of
      messages its sender had received, and its bytes. No bytes under a number closes. */
  datatype Msg = Msg(msg: int, acked: int, data: seq<Byte>)

  /** head counts the numbered messages this pipe has started from and delivered. */
  datatype Pipe = Pipe(frames: seq<Msg>, cut: bool, head: nat)

  /** One end. hist is every chunk read from the client, by message number; acks the ack
      each message first left with. Neither is known to the program. */
  datatype End = End(
    hist: seq<seq<Byte>>, acks: seq<nat>, closed: bool, holding: bool,
    empty: nat, unsent: seq<Msg>, unacked: seq<Msg>,
    inmsg: nat, lastacked: nat, written: seq<Byte>, peerClosed: bool,
    conn: int, last: int)

  const FRESHPIPE := Pipe([], false, 0)
  const FRESHEND := End([], [], false, false, NBUF, [], [], 0, 0, [], false, -1, -1)

  datatype Action =
    | TakeBuffer
    | ClientRead(chunk: seq<Byte>)
    | Send
    | Timer
    | Receive
    | LinkDown
    | Connect(c: nat)
    | Cut(c: nat, keep: nat)

  // ----- what each step does

  function Write(p: Pipe, m: Msg): Pipe {
    if p.cut then p else p.(frames := p.frames + [m])
  }

  function WriteAll(p: Pipe, ms: seq<Msg>): Pipe
    decreases |ms|
  {
    if ms == [] then p else WriteAll(Write(p, ms[0]), ms[1..])
  }

  /** fromclient: the buffer read into gets the next number; an empty one ends the input. */
  function AfterRead(e: End, chunk: seq<Byte>): End {
    e.(hist := e.hist + [chunk], closed := chunk == [], holding := false,
       unsent := e.unsent + [Msg(|e.hist|, 0, chunk)])
  }

  /** The message main sends next, with the ack of the moment. */
  function Stamped(e: End): Msg
    requires e.unsent != []
  {
    e.unsent[0].(acked := e.inmsg)
  }

  function AfterSend(e: End): End
    requires e.unsent != []
  {
    e.(unsent := e.unsent[1..], unacked := e.unacked + [Stamped(e)], acks := e.acks + [e.inmsg])
  }

  /** The acks of m are ones fromnet can process without failing its check. */
  predicate AcksFit(e: End, m: Msg) {
    && e.lastacked <= m.acked <= e.lastacked + |e.unacked|
    && forall i :: 0 <= i < m.acked - e.lastacked ==> e.unacked[i].msg == e.lastacked + i
  }

  /** fromnet: what a message does to the end it arrives at. */
  function AfterReceive(e: End, m: Msg): End {
    if m.data == [] then
      if m.msg >= 0 then e.(peerClosed := true) else e
    else if m.msg < e.inmsg then e
    else if AcksFit(e, m) then
      var n := m.acked - e.lastacked;
      e.(unacked := e.unacked[n..], empty := e.empty + n, lastacked := m.acked,
         inmsg := e.inmsg + 1, written := e.written + m.data)
    else e
  }

  function AfterPop(p: Pipe): Pipe
    requires p.frames != []
  {
    p.(frames := p.frames[1..], head := if p.frames[0].msg >= 0 then p.head + 1 else p.head)
  }

  /** reconnect and synchronize, as one step: the unacknowledged messages go out again with
      the headers they had. */
  function AfterConnect(e: End, c: nat): End {
    e.(conn := c, last := c)
  }

  function Resent(e: End, p: Pipe): Pipe {
    WriteAll(p.(head := e.lastacked), e.unacked)
  }

  predicate Enabled(e: End, out: seq<Pipe>, inn: seq<Pipe>, a: Action) {
    |out| == |inn| && e.conn < |out| &&
    match a
    case TakeBuffer => !e.closed && !e.holding && e.empty > 0
    case ClientRead(chunk) => e.holding && !e.closed
    case Send => e.unsent != []
    case Timer => true
    case Receive => 0 <= e.conn && !e.peerClosed && inn[e.conn].frames != []
    case LinkDown => true
    case Connect(c) => e.conn < 0 && e.last < c <= |out|
    case Cut(c, keep) => c < |out| && keep <= |out[c].frames|
  }

  /** One step of an end, with the pipes it writes to and those it reads from. */
  function Act(e: End, out: seq<Pipe>, inn: seq<Pipe>, a: Action): (End, seq<Pipe>, seq<Pipe>)
    requires Enabled(e, out, inn, a)
  {
    match a
    case TakeBuffer => (e.(empty := e.empty - 1, holding := true), out, inn)
    case ClientRead(chunk) => (AfterRead(e, chunk), out, inn)
    case Send =>
      (AfterSend(e), if e.conn < 0 then out else out[e.conn := Write(out[e.conn], Stamped(e))], inn)
    case Timer =>
      (e, if e.conn < 0 then out else out[e.conn := Write(out[e.conn], Msg(-1, e.inmsg, []))], inn)
    case Receive =>
      (AfterReceive(e, inn[e.conn].frames[0]), out, inn[e.conn := AfterPop(inn[e.conn])])
    case LinkDown => (e.(conn := -1), out, inn)
    case Connect(c) =>
      var out1, inn1 := if c == |out| then out + [FRESHPIPE] else out, if c == |inn| then inn + [FRESHPIPE] else inn;
      (AfterConnect(e, c), out1[c := Resent(e, out1[c])], inn1)
    case Cut(c, keep) =>
      (e, out[c := out[c].(frames := out[c].frames[..keep], cut := true)], inn)
  }

  /** Two ends; ab holds what a has written on each connection and b not yet read. */
  datatype System = System(a: End, b: End, ab: seq<Pipe>, ba: seq<Pipe>)

  const START := System(FRESHEND, FRESHEND, [], [])

  /** A step of either end; one that is not enabled does nothing. */
  function Step(s: System, left: bool, act: Action): System {
    if left then
      if Enabled(s.a, s.ab, s.ba, act) then var (e, o, i) := Act(s.a, s.ab, s.ba, act); s.(a := e, ab := o, ba := i)
        else s
    else
      if Enabled(s.b, s.ba, s.ab, act) then var (e, o, i) := Act(s.b, s.ba, s.ab, act); s.(b := e, ba := o, ab := i)
        else s
  }

  function Run(s: System, steps: seq<(bool, Action)>): System
    decreases |steps|
  {
    if steps == [] then s else Run(Step(s, steps[0].0, steps[0].1), steps[1..])
  }

  // ----- what every run keeps

  function Flatten(chunks: seq<seq<Byte>>): seq<Byte> {
    if chunks == [] then [] else Flatten(chunks[..|chunks| - 1]) + chunks[|chunks| - 1]
  }

  /** The frames are messages head, head + 1, ... of the sender's history, as first sent,
      with synchronization messages anywhere among them. */
  ghost predicate Stream(frames: seq<Msg>, head: nat, hist: seq<seq<Byte>>, acks: seq<nat>) {
    frames == [] ||
    (if frames[0].msg < 0 then
       frames[0].data == [] && Stream(frames[1..], head, hist, acks)
     else
       && head < |acks| && head < |hist|
       && frames[0] == Msg(head, acks[head], hist[head])
       && Stream(frames[1..], head + 1, hist, acks))
  }

  function Count(frames: seq<Msg>): nat {
    if frames == [] then 0 else (if frames[0].msg < 0 then 0 else 1) + Count(frames[1..])
  }

  /** Consecutive messages of the history from number n on, as first sent. */
  ghost predicate Numbered(ms: seq<Msg>, n: nat, hist: seq<seq<Byte>>, acks: seq<nat>) {
    && n + |ms| <= |acks| && n + |ms| <= |hist|
    && forall i :: 0 <= i < |ms| ==> ms[i] == Msg(n + i, acks[n + i], hist[n + i])
  }

  /** Queues, numbers and buffers of one end. */
  ghost predicate Queues(e: End) {
    && |e.acks| == e.lastacked + |e.unacked|
    && |e.hist| == |e.acks| + |e.unsent|
    && Numbered(e.unacked, e.lastacked, e.hist, e.acks)
    && (forall i :: 0 <= i < |e.unsent| ==>
          e.unsent[i].msg == |e.acks| + i && e.unsent[i].data == e.hist[|e.acks| + i])
    && (forall i, j :: 0 <= i <= j < |e.acks| ==> e.acks[i] <= e.acks[j])
    && (forall i :: 0 <= i < |e.acks| ==> e.acks[i] <= e.inmsg)
    && (forall i :: 0 <= i < |e.hist| ==> (e.hist[i] == [] <==> e.closed && i == |e.hist| - 1))
    && (e.closed ==> e.hist != [])
    && e.empty + |e.unsent| + |e.unacked| + (if e.holding then 1 else 0) == NBUF
    && (e.conn == -1 || e.conn == e.last) && -1 <= e.last && (e.holding ==> !e.closed)
  }

  /** What the receiver has taken of the sender's messages. */
  ghost predicate Progress(s: End, r: End) {
    && s.lastacked <= r.inmsg <= |s.acks| <= |s.hist|
    && r.lastacked == (if r.inmsg == 0 then 0 else s.acks[r.inmsg - 1])
    && r.written == Flatten(s.hist[..r.inmsg])
    && (forall i :: 0 <= i < r.inmsg ==> s.hist[i] != [])
    && (r.peerClosed ==> s.closed && r.inmsg == |s.hist| - 1)
  }

  /** A pipe from s to r on connection c. */
  ghost predicate PipeOk(s: End, r: End, p: Pipe, c: nat) {
    && Stream(p.frames, p.head, s.hist, s.acks)
    && (c > s.last ==> p.frames == [] && p.head == 0)
    && (c == s.conn && !p.cut ==> p.head + Count(p.frames) == |s.acks|)
    && (c <= s.last && (c > r.last || c == r.conn) && !r.peerClosed ==> p.head <= r.inmsg)
  }

  ghost predicate Direction(s: End, r: End, out: seq<Pipe>) {
    && Queues(s) && Progress(s, r)
    && s.last < |out| && r.last < |out|
    && forall c :: 0 <= c < |out| ==> PipeOk(s, r, out[c], c)
  }

  ghost predicate Inv(s: System) {
    |s.ab| == |s.ba| && Direction(s.a, s.b, s.ab) && Direction(s.b, s.a, s.ba)
  }
}
