/** One end of the transport as the program keeps it, its processes as methods. */
module AanPeer {
  import opened AanModel

  class Peer {
    var closed: bool
    var holding: bool
    var empty: nat
    var unsent: seq<Msg>
    var unacked: seq<Msg>
    var outmsg: nat
    var inmsg: nat
    var lastacked: nat
    /** What fromnet has written to the client. */
    var output: seq<Byte>
    var peerClosed: bool
    /** The connection netfd stands for, -1 when there is none, and the latest one there was. */
    var conn: int
    var last: int
    ghost var hist: seq<seq<Byte>>
    ghost var acks: seq<nat>

    ghost predicate Valid()
      reads this
    {
      outmsg == |hist|
    }

    ghost function View(): End
      reads this
    {
      End(hist, acks, closed, holding, empty, unsent, unacked, inmsg, lastacked, output, peerClosed, conn, last)
    }

    constructor ()
      ensures Valid() && View() == FRESHEND
    {
      closed, holding, empty, unsent, unacked := false, false, NBUF, [], [];
      outmsg, inmsg, lastacked, output, peerClosed := 0, 0, 0, [], false;
      conn, last, hist, acks := -1, -1, [], [];
    }

    /** fromclient takes a buffer. */
    method TakeBuffer()
      requires Valid() && !closed && !holding && empty > 0
      modifies this
      ensures Valid() && View() == old(View()).(empty := old(empty) - 1, holding := true)
    {
      empty := empty - 1;
      holding := true;
    }

    /** fromclient has read chunk, nothing at all at the end of input or on an error. */
    method FromClient(chunk: seq<Byte>)
      requires Valid() && holding && !closed
      modifies this
      ensures Valid() && View() == AfterRead(old(View()), chunk)
    {
      unsent := unsent + [Msg(outmsg, 0, chunk)];
      outmsg := outmsg + 1;
      hist := hist + [chunk];
      holding := false;
      closed := chunk == [];
    }

    /** main sends the first unsent message; p is the pipe it writes to, if connected. */
    method SendUnsent(p: Pipe) returns (q: Pipe)
      requires Valid() && unsent != []
      modifies this
      ensures Valid() && View() == AfterSend(old(View())) && q == Write(p, Stamped(old(View())))
    {
      var b := unsent[0];
      unsent := unsent[1..];
      b := b.(acked := inmsg);
      unacked := unacked + [b];
      acks := acks + [inmsg];
      q := Write(p, b);
    }

    lemma WriteAllStep(p: Pipe, tmp: seq<Msg>, b: Msg)
      ensures WriteAll(p, tmp + [b]) == Write(WriteAll(p, tmp), b)
      decreases |tmp|
    {
      if tmp == [] {
        assert ([] + [b])[1..] == [];
      } else {
        WriteAllStep(Write(p, tmp[0]), tmp[1..], b);
        assert (tmp + [b])[1..] == tmp[1..] + [b];
      }
    }

    /** reconnect and synchronize: every unacknowledged message is written again, with its
        old header, and kept. */
    method Synchronize(c: nat, p: Pipe) returns (q: Pipe)
      requires Valid() && conn < 0
      modifies this
      ensures Valid() && View() == AfterConnect(old(View()), c) && q == Resent(old(View()), p)
    {
      conn, last := c, c;
      var start := p.(head := lastacked);
      q := start;
      var tmp: seq<Msg> := [];
      while unacked != []
        invariant tmp + unacked == old(unacked)
        invariant q == WriteAll(start, tmp)
        invariant View() == AfterConnect(old(View()), c).(unacked := unacked) && Valid()
        decreases |unacked|
      {
        var b := unacked[0];
        unacked := unacked[1..];
        q := Write(q, b);
        WriteAllStep(start, tmp, b);
        tmp := tmp + [b];
      }
      unacked := tmp;
    }

    /** The loop of fromnet over the acknowledged messages, with its check. */
    method ReleaseAcked(acked: int)
      requires Valid() && lastacked <= acked <= lastacked + |unacked|
      requires forall i :: 0 <= i < acked - lastacked ==> unacked[i].msg == lastacked + i
      modifies this`unacked, this`empty
      ensures unacked == old(unacked)[acked - lastacked..] && empty == old(empty) + (acked - lastacked)
    {
      var n := acked - lastacked;
      var i := 0;
      while i != n
        invariant 0 <= i <= n
        invariant unacked == old(unacked)[i..] && empty == old(empty) + i
        decreases n - i
      {
        var rb := unacked[0];
        unacked := unacked[1..];
        if rb.msg != lastacked + i {
          assert false;
        }
        empty := empty + 1;
        i := i + 1;
      }
    }

    /** fromnet handles a whole message. */
    method FromNet(m: Msg)
      requires Valid() && !peerClosed
      requires m.data != [] && m.msg >= inmsg ==> AcksFit(View(), m)
      modifies this
      ensures Valid() && View() == AfterReceive(old(View()), m)
    {
      if m.data == [] {
        if m.msg >= 0 {
          peerClosed := true;
        }
        return;
      }
      if m.msg < inmsg {
        return;
      }
      ReleaseAcked(m.acked);
      lastacked := m.acked;
      inmsg := inmsg + 1;
      output := output + m.data;
    }
  }
}
