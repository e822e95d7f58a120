/**
 Progress: one round trip without loss.  In every reachable state, a segment that is due is sent by the next flush, in
 a datagram that makes the peer take it in and acknowledge it; and the datagram with the acknowledgement makes the
 sender let it go.
 */
module KcpProgress {
  import opened Word
  import opened KcpWire
  import opened KcpSpec
  import opened KcpInvariant
  import opened KcpDirection
  import opened KcpCalls
  import opened KcpSystem
  import A = KcpArrived
  import F = KcpFlushed

  lemma {:induction false} JoinFrom<T>(groups: seq<seq<T>>, x: T) returns (i: nat)
    requires x in Join(groups)
    ensures i < |groups| && x in groups[i]
    decreases |groups|
  {
    i := |groups| - 1;
    if x !in groups[i] { i := JoinFrom(groups[..i], x); }
  }

  /** Every segment of a flush is in one of its datagrams. */
  lemma InDatagram(k: Kcp, p: Packet) returns (d: seq<byte>)
    requires EndpointOk(k) && p in Flush(k).packets
    ensures d in Datagrams(k.cfg.mtu, Flush(k).packets) && p in Parse(k.cfg.conv, d).packets
  {
    var conv, ds := k.cfg.conv, Datagrams(k.cfg.mtu, Flush(k).packets);
    FlushDatagrams(k);
    var groups := seq(|ds|, i requires 0 <= i < |ds| => Parse(conv, ds[i]).packets);
    var i := JoinFrom(groups, p);
    d := ds[i];
  }

  /** The sender: the segment goes out. */
  lemma Sends(k: Kcp, i: nat) returns (d: seq<byte>, p: Packet)
    requires EndpointOk(k) && k.clock.updated && i < |Flush(k).k.snd.buf| && F.DueAt(k, i)
    ensures d in Datagrams(k.cfg.mtu, Flush(k).packets) && p in Parse(k.cfg.conv, d).packets
    ensures p.cmd == CMD_PUSH && p.sn == Flush(k).k.snd.buf[i].sn
  {
    var ps, s := Flush(k).packets, Flush(k).k.snd.buf[i];
    var j := PushFor(k, i);
    p := ps[j];
    d := InDatagram(k, p);
  }

  lemma PushFor(k: Kcp, i: nat) returns (j: nat)
    requires EndpointOk(k) && k.clock.updated && i < |Flush(k).k.snd.buf| && F.DueAt(k, i)
    ensures j < |Flush(k).packets| && F.PushOf(k, Flush(k).packets[j], Flush(k).k.snd.buf[i])
  {
    F.FlushSends(k);
    var ps, s := Flush(k).packets, Flush(k).k.snd.buf[i];
    j :| 0 <= j < |ps| && F.PushOf(k, ps[j], s);
  }

  lemma ListedAt(ps: seq<Packet>, acks: seq<Ack>, acks': seq<Ack>, at: seq<nat>, i: nat) returns (j: nat)
    requires A.Listed(ps, acks, acks', at) && i in at
    ensures j < |acks'| && i < |ps| && acks'[j].sn == ps[i].sn
  {
    var l :| 0 <= l < |at| && at[l] == i;
    j := |acks| + l;
  }

  /** The receiver: data that arrives below the end of the window is listed for acknowledgement. */
  lemma Lists(k: Kcp, d: seq<byte>, ps: seq<Packet>, i: nat) returns (j: nat)
    requires EndpointOk(k) && ps == Parse(k.cfg.conv, d).packets && i < |ps| && A.Answers(A.After(k, ps, i), ps[i])
    ensures j < |InputDatagram(k, d).k.acks| && InputDatagram(k, d).k.acks[j].sn == ps[i].sn
  {
    var at := A.InputAnswers(k, d);
    j := ListedAt(ps, k.acks, InputDatagram(k, d).k.acks, at, i);
  }

  /** In every reachable state a number that the sender still counts as out, and that the receiver's window allows,
      lies below the end of the window whatever came before in the datagram. */
  lemma StillBelow(x: Side, y: Side, ps: seq<Packet>, i: nat)
    requires Direction(x, y) && i < |ps| && (forall p | p in ps :: GoodForward(p, x.hist)) && ps[i].cmd == CMD_PUSH
    requires x.k.snd.una <= ps[i].sn < y.k.rcv.nxt + y.k.cfg.rcvWnd && x.k.cfg.sndWnd + y.k.cfg.rcvWnd <= HALF
    ensures A.Answers(A.After(y.k, ps, i), ps[i])
  {
    var k := A.After(y.k, ps, i);
    ProcessAllReceiver(y.k, x.hist, y.consumed, ps[..i]);
    ProcessAllConfig(y.k, ps[..i]);
    BelowEnd(x.k.snd, x.k.cfg.sndWnd, x.hist, y.k.rcv.nxt, k.rcv.nxt, y.k.cfg.rcvWnd, ps[i].sn);
  }

  lemma BelowEnd(s: Snd, wnd: u32, hist: seq<Frag>, nxt: u32, nxt': u32, rcvWnd: u32, sn: u32)
    requires SndOk(s, wnd) && SndPart(s, hist) && nxt <= nxt' <= |hist| && wnd + rcvWnd <= HALF
    requires s.una <= sn < nxt + rcvWnd
    ensures TimeDiff(sn, Wrap(nxt' + rcvWnd)) < 0
  {
  }

  /** The receiver: the acknowledgement goes out. */
  lemma Answers(k: Kcp, j: nat) returns (d: seq<byte>, p: Packet)
    requires EndpointOk(k) && k.clock.updated && j < |k.acks|
    ensures d in Datagrams(k.cfg.mtu, Flush(k).packets) && p in Parse(k.cfg.conv, d).packets
    ensures p.cmd == CMD_ACK && p.sn == k.acks[j].sn
  {
    F.FlushAnswers(k);
    assert F.AckOf(k, Flush(k).packets[j], k.acks[j]);
    p := Flush(k).packets[j];
    d := InDatagram(k, p);
  }

  /** The sender: the segment goes. */
  lemma Releases(k: Kcp, d: seq<byte>, p: Packet)
    requires EndpointOk(k) && p in Parse(k.cfg.conv, d).packets && p.cmd == CMD_ACK
    ensures !Buffered(InputDatagram(k, d).k.snd.buf, p.sn)
  {
    A.InputDrops(k, d);
    var buf := InputDatagram(k, d).k.snd.buf;
    forall i | 0 <= i < |buf| ensures buf[i].sn != p.sn { assert !A.Acknowledges(p, k.snd.una, buf[i].sn); }
  }

  // ---------------------------------------------------------------- the round trip

  /** A datagram with data that is out and allowed arrives: the data is listed. */
  lemma Lands(x: Side, y: Side, d: seq<byte>, p: Packet) returns (j: nat)
    requires Direction(x, y) && d in x.net && p in Parse(x.k.cfg.conv, d).packets && p.cmd == CMD_PUSH
    requires x.k.snd.una <= p.sn < y.k.rcv.nxt + y.k.cfg.rcvWnd && x.k.cfg.sndWnd + y.k.cfg.rcvWnd <= HALF
    ensures j < |InputDatagram(y.k, d).k.acks| && InputDatagram(y.k, d).k.acks[j].sn == p.sn
  {
    var ps := Parse(x.k.cfg.conv, d).packets;
    var l :| 0 <= l < |ps| && ps[l] == p;
    StillBelow(x, y, ps, l);
    j := Lists(y.k, d, ps, l);
  }

  /** First half: the segment is sent and the peer lists it. */
  lemma There(x: Side, y: Side, x1: Side, i: nat) returns (d: seq<byte>, j: nat)
    requires Direction(x, y) && x.k.clock.updated && x1 == Act(x, y.net, DoFlush)
    requires i < |x1.k.snd.buf| && F.DueAt(x.k, i)
    requires x1.k.snd.buf[i].sn < y.k.rcv.nxt + y.k.cfg.rcvWnd && x.k.cfg.sndWnd + y.k.cfg.rcvWnd <= HALF
    ensures d in x1.net && j < |InputDatagram(y.k, d).k.acks| && InputDatagram(y.k, d).k.acks[j].sn == x1.k.snd.buf[i].sn
  {
    var p;
    d, p := Sends(x.k, i);
    Flushes(x, y, x1);
    OutIn(x1, y, i);
    j := Lands(x1, y, d, p);
  }

  lemma Flushes(x: Side, y: Side, x1: Side)
    requires Direction(x, y) && x1 == Act(x, y.net, DoFlush)
    ensures Direction(x1, y) && x1.k == Flush(x.k).k
    ensures forall d | d in Datagrams(x.k.cfg.mtu, Flush(x.k).packets) :: d in x1.net
  {
    FlushedDirection(x, y);
  }

  lemma FlushedDirection(x: Side, y: Side)
    requires Direction(x, y)
    ensures Direction(Act(x, y.net, DoFlush), y)
  {
    FlushAtSender(x, y, x.k);
    FlushOk(x.k);
  }

  lemma OutAt(s: Snd, wnd: u32, hist: seq<Frag>, i: nat)
    requires SndOk(s, wnd) && SndPart(s, hist) && i < |s.buf|
    ensures s.una <= s.buf[i].sn
  {
  }

  lemma OutIn(x: Side, y: Side, i: nat)
    requires Direction(x, y) && i < |x.k.snd.buf|
    ensures x.k.snd.una <= x.k.snd.buf[i].sn
  {
    OutAt(x.k.snd, x.k.cfg.sndWnd, x.hist, i);
  }

  /** Second half: the acknowledgement is sent, and the segment is let go. */
  lemma Back(y: Side, x: Side, j: nat) returns (e: seq<byte>)
    requires EndpointOk(y.k) && EndpointOk(x.k) && x.k.cfg.conv == y.k.cfg.conv && y.k.clock.updated && j < |y.k.acks|
    requires AcksGot(y.k.acks, y.k.rcv)
    ensures var y1 := Act(y, x.net, DoFlush);
      && e in y1.net && Got(y1.k.rcv, y.k.acks[j].sn)
      && !Buffered(Act(x, y1.net, DoInput(e)).k.snd.buf, y.k.acks[j].sn)
  {
    var p;
    e, p := Answers(y.k, j);
    Releases(x.k, e, p);
  }

  /** A flush, its datagram, the peer's flush and its datagram: afterwards the peer has the segment, and the sender has
      let it go. */
  lemma RoundTrip(x: Side, y: Side, i: nat) returns (d: seq<byte>, e: seq<byte>)
    requires Direction(x, y) && x.k.clock.updated && y.k.clock.updated
    requires i < |Flush(x.k).k.snd.buf| && F.DueAt(x.k, i)
    requires Flush(x.k).k.snd.buf[i].sn < y.k.rcv.nxt + y.k.cfg.rcvWnd && x.k.cfg.sndWnd + y.k.cfg.rcvWnd <= HALF
    ensures var sn, x1 := Flush(x.k).k.snd.buf[i].sn, Act(x, y.net, DoFlush);
      var y1 := Act(y, x1.net, DoInput(d));
      var y2 := Act(y1, x1.net, DoFlush);
      && d in x1.net && e in y2.net
      && Got(y2.k.rcv, sn) && !Buffered(Act(x1, y2.net, DoInput(e)).k.snd.buf, sn)
  {
    var x1 := Act(x, y.net, DoFlush);
    Flushes(x, y, x1);
    d, e := Exchanged(x, y, x1, i);
  }

  lemma Exchanged(x: Side, y: Side, x1: Side, i: nat) returns (d: seq<byte>, e: seq<byte>)
    requires Direction(x, y) && Direction(x1, y) && x1 == Act(x, y.net, DoFlush) && x.k.clock.updated && y.k.clock.updated
    requires i < |x1.k.snd.buf| && F.DueAt(x.k, i)
    requires x1.k.snd.buf[i].sn < y.k.rcv.nxt + y.k.cfg.rcvWnd && x.k.cfg.sndWnd + y.k.cfg.rcvWnd <= HALF
    ensures var y1 := Act(y, x1.net, DoInput(d));
      var y2 := Act(y1, x1.net, DoFlush);
      && d in x1.net && e in y2.net && Got(y2.k.rcv, x1.k.snd.buf[i].sn)
      && !Buffered(Act(x1, y2.net, DoInput(e)).k.snd.buf, x1.k.snd.buf[i].sn)
  {
    var j;
    d, j := There(x, y, x1, i);
    InputKeeps(x1, y, d);
    e := Back(Act(y, x1.net, DoInput(d)), x1, j);
  }

  lemma InputKeeps(x: Side, y: Side, d: seq<byte>)
    requires Direction(x, y)
    ensures var y1 := Act(y, x.net, DoInput(d));
      && EndpointOk(y1.k) && AcksGot(y1.k.acks, y1.k.rcv) && y1.k.clock == y.k.clock && y1.k.cfg == y.k.cfg
  {
    if d in x.net { InputAtReceiver(x, y, d); }
    InputOk(y.k, d);
    A.InputTells(y.k, d);
  }

  /** After any run, four more calls without loss do this for each segment at `a` that is due and that the peer's window
      allows. */
  lemma Progress(ca: Config, cb: Config, events: seq<Event>, i: nat) returns (d: seq<byte>, e: seq<byte>)
    requires Configured(ca) && Configured(cb) && ca.conv == cb.conv && ca.sndWnd + cb.rcvWnd <= HALF
    requires var s := Run(ca, cb, events);
      && Total(s.a) < HALF && Total(s.b) < HALF && s.a.k.clock.updated && s.b.k.clock.updated
      && i < |Flush(s.a.k).k.snd.buf| && F.DueAt(s.a.k, i)
      && Flush(s.a.k).k.snd.buf[i].sn < s.b.k.rcv.nxt + cb.rcvWnd
    ensures var sn := Flush(Run(ca, cb, events).a.k).k.snd.buf[i].sn;
      var s' := Run(ca, cb, events + Exchange(d, e));
      Got(s'.b.k.rcv, sn) && !Buffered(s'.a.k.snd.buf, sn)
  {
    var s := Run(ca, cb, events);
    RunInvariant(ca, cb, events);
    d, e := RoundTrip(s.a, s.b, i);
    RunMore(ca, cb, events, d, e);
  }

  /** A flush at `a`, its datagram `d` at `b`, a flush at `b`, its datagram `e` at `a`. */
  function Exchange(d: seq<byte>, e: seq<byte>): seq<Event> {
    [Event(true, DoFlush), Event(false, DoInput(d)), Event(false, DoFlush), Event(true, DoInput(e))]
  }

  lemma RunOne(ca: Config, cb: Config, events: seq<Event>, e: Event)
    requires Configured(ca) && Configured(cb)
    ensures Run(ca, cb, events + [e]) == Step(Run(ca, cb, events), e)
  {
    assert (events + [e])[..|events|] == events;
  }

  lemma RunFour(ca: Config, cb: Config, events: seq<Event>, e0: Event, e1: Event, e2: Event, e3: Event)
    requires Configured(ca) && Configured(cb)
    ensures var s := Run(ca, cb, events); Run(ca, cb, events + [e0, e1, e2, e3]) == Step(Step(Step(Step(s, e0), e1), e2), e3)
  {
    var one, two := events + [e0], events + [e0] + [e1];
    RunOne(ca, cb, events, e0);
    RunOne(ca, cb, one, e1);
    RunOne(ca, cb, two, e2);
    RunOne(ca, cb, two + [e2], e3);
    assert events + [e0, e1, e2, e3] == two + [e2] + [e3];
  }

  lemma RunMore(ca: Config, cb: Config, events: seq<Event>, d: seq<byte>, e: seq<byte>)
    requires Configured(ca) && Configured(cb)
    ensures var s, s' := Run(ca, cb, events), Run(ca, cb, events + Exchange(d, e));
      var a1 := Act(s.a, s.b.net, DoFlush);
      var b2 := Act(Act(s.b, a1.net, DoInput(d)), a1.net, DoFlush);
      s' == System(Act(a1, b2.net, DoInput(e)), b2)
  {
    RunFour(ca, cb, events, Event(true, DoFlush), Event(false, DoInput(d)), Event(false, DoFlush), Event(true, DoInput(e)));
  }

  // ---------------------------------------------------------------- the first message

  /** A new endpoint with a short message waiting. */
  function Waiting(c: Config, data: Payload, cong: Cong, clock: Clock): Kcp {
    var k := Create(c);
    k.(snd := k.snd.(queue := [Frag(0, data)]), cong := cong, clock := clock)
  }

  /** The segment that carries it. */
  function First(c: Config, data: Payload, t: u32): Packet {
    Packet(c.conv, CMD_PUSH, 0, Low16(c.rcvWnd), t, 0, 0, data)
  }

  /** A flush sends the message if the congestion window is open or does not count; otherwise it opens it. */
  lemma FirstFlush(c: Config, data: Payload, cong: Cong, clock: Clock)
    requires Configured(c) && clock.updated
    ensures var r := Flush(Waiting(c, data, cong, clock));
      if c.nocwnd != 0 || cong.cwnd > 0 then r.packets == [First(c, data, clock.current)]
      else r.packets == [] && r.k == Waiting(c, data, Cong(1, c.mss, cong.ssthresh), clock)
  {
    var k := Waiting(c, data, cong, clock);
    var s, w := k.snd, SendWindow(k);
    if c.nocwnd != 0 || cong.cwnd > 0 {
      var g := NewSeg(k, s.queue[0], 0);
      assert MoveData(k, s, w) == Snd(0, 1, [], [g]);
      assert ResendFirst(k, [g], 1).packets == [PushPacket(c, Retime(k, g))];
    } else {
      assert MoveData(k, s, w) == s;
      assert ResendFirst(k, [], 0).packets == [];
    }
  }

  /** A short message given to a new endpoint is sent by its first update; under congestion control by its second flush,
      because the window opens only then. */
  lemma FreshMessage(c: Config, data: Payload, t: u32, t': u32)
    requires Configured(c) && |data| <= c.mss && !c.stream
    ensures var k, q := Create(c), Send(c, [], data);
      var r := Update(k.(snd := k.snd.(queue := q.queue)), t);
      && q.code == 0
      && (if c.nocwnd != 0 then r.packets == [First(c, data, t)]
          else r.packets == [] && (TimeDiff(t', r.k.clock.flush) >= 0 ==> Update(r.k, t').packets == [First(c, data, t')]))
  {
    var k, q := Create(c), Send(c, [], data);
    assert q.queue == [Frag(0, data)] by {
      assert data[..|data|] == data && Fragment(data[|data|..], c.mss, 0, false) == [];
      assert Fragment(data, c.mss, 1, false) == [Frag(0, data)];
    }
    var k1 := k.(snd := k.snd.(queue := q.queue));
    forall clock: Clock, cong: Cong | clock.updated
      ensures var r := Flush(Waiting(c, data, cong, clock));
        if c.nocwnd != 0 || cong.cwnd > 0 then r.packets == [First(c, data, clock.current)]
        else r.packets == [] && r.k == Waiting(c, data, Cong(1, c.mss, cong.ssthresh), clock)
    {
      FirstFlush(c, data, cong, clock);
    }
    var clock := Update(k1, t).k.clock;
    assert k1.(clock := clock) == Waiting(c, data, k.cong, clock);
    if c.nocwnd == 0 && TimeDiff(t', clock.flush) >= 0 {
      var k2 := Update(k1, t).k;
      assert k2 == Waiting(c, data, Cong(1, c.mss, 2), clock);
      var clock2 := Update(k2, t').k.clock;
      assert k2.(clock := clock2) == Waiting(c, data, Cong(1, c.mss, 2), clock2);
    }
  }
}
