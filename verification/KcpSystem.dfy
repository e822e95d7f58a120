/**
 Two KCP endpoints and the network between them.  A network holds every datagram its side ever put
 out, and any of them may be handed to the other side at any time, any number of times or never:
 datagrams are lost, duplicated and reordered without limit.
 */
module KcpSystem {
  import opened Word
  import opened KcpWire
  import opened KcpSpec
  import opened KcpInvariant
  import opened KcpDirection
  import opened KcpMessages
  import opened KcpCalls

  /** One endpoint with its history: fragments numbered so far, messages and bytes that `ikcp_send`
      took and `ikcp_recv` returned, fragments consumed by `ikcp_recv`, datagrams put out. */
  datatype Side = Side(k: Kcp, hist: seq<Frag>, accepted: seq<seq<byte>>, sent: seq<byte>,
                       delivered: seq<seq<byte>>, got: seq<byte>, consumed: nat, net: set<seq<byte>>)

  /** A call made by the application or the network at one endpoint. */
  datatype Action =
    | DoSend(data: seq<byte>)
    | DoRecv(len: int)
    | DoInput(d: seq<byte>)
    | DoUpdate(current: u32)
    | DoFlush

  function Start(c: Config): Side {
    Side(Create(c), [], [], [], [], [], 0, {})
  }

  /** How many bytes of the buffer `ikcp_send` put into `snd_queue`.  In stream mode a call that
      fails with -2 has already filled up the last waiting fragment. */
  function Taken(c: Config, queue: seq<Frag>, data: seq<byte>): (n: nat)
    requires Configured(c)
    ensures n <= |data|
  {
    if Send(c, queue, data).code == 0 then |data|
    else if c.stream then |data| - |Extend(queue, data, c.mss).1|
    else 0
  }

  function AfterSend(x: Side, data: seq<byte>): Side
    requires Configured(x.k.cfg)
  {
    var r := Send(x.k.cfg, x.k.snd.queue, data);
    x.(k := x.k.(snd := x.k.snd.(queue := r.queue)),
       accepted := if r.code == 0 then x.accepted + [data] else x.accepted,
       sent := x.sent + data[..Taken(x.k.cfg, x.k.snd.queue, data)])
  }

  function AfterRecv(x: Side, len: int): Side {
    var r := Recv(x.k, len);
    if r.code >= 0 && len >= 0 then
      x.(k := r.k, delivered := x.delivered + [r.data], got := x.got + r.data,
         consumed := x.consumed + FirstLen(x.k.rcv.queue))
    else x.(k := r.k)
  }

  function AfterFlush(x: Side, r: Flushed): Side
    requires |r.k.snd.queue| <= |x.k.snd.queue|
  {
    var moved := x.k.snd.queue[..|x.k.snd.queue| - |r.k.snd.queue|];
    x.(k := r.k, hist := x.hist + moved, net := x.net + (set d | d in Datagrams(x.k.cfg.mtu, r.packets)))
  }

  /** One call at an endpoint; `arriving` is what the other side has put out. */
  function Act(x: Side, arriving: set<seq<byte>>, a: Action): (x': Side)
    requires Configured(x.k.cfg)
    ensures x'.k.cfg == x.k.cfg
  {
    match a
    case DoSend(data) => AfterSend(x, data)
    case DoRecv(len) => AfterRecv(x, len)
    case DoInput(d) =>
      if d in arriving then
        ProcessAllConfig(x.k, Parse(x.k.cfg.conv, d).packets);
        x.(k := InputDatagram(x.k, d).k)
      else x
    case DoUpdate(current) => AfterFlush(x, Update(x.k, current))
    case DoFlush => AfterFlush(x, Flush(x.k))
  }

  datatype System = System(a: Side, b: Side)

  datatype Event = Event(atA: bool, action: Action)

  function Step(s: System, e: Event): System
    requires Configured(s.a.k.cfg) && Configured(s.b.k.cfg)
  {
    if e.atA then s.(a := Act(s.a, s.b.net, e.action)) else s.(b := Act(s.b, s.a.net, e.action))
  }

  /** A run: any sequence of calls at the two endpoints. */
  function Run(ca: Config, cb: Config, events: seq<Event>): (s: System)
    requires Configured(ca) && Configured(cb)
    ensures s.a.k.cfg == ca && s.b.k.cfg == cb
  {
    if events == [] then System(Start(ca), Start(cb))
    else Step(Run(ca, cb, events[..|events| - 1]), events[|events| - 1])
  }

  /** The fragments an endpoint has taken from its application. */
  function Total(x: Side): nat {
    |x.hist| + |x.k.snd.queue|
  }

  // ---------------------------------------------------------------- the invariant of one direction

  ghost predicate NetForward(net: set<seq<byte>>, conv: u32, hist: seq<Frag>) {
    forall d | d in net :: forall p | p in Parse(conv, d).packets :: GoodForward(p, hist)
  }

  ghost predicate NetBack(net: set<seq<byte>>, conv: u32, r: Rcv) {
    forall d | d in net :: forall p | p in Parse(conv, d).packets :: GoodBack(p, r)
  }

  /** From `x` to `y`: numbers, segments and acknowledgements. */
  ghost predicate Link(x: Side, y: Side) {
    && x.k.cfg.conv == y.k.cfg.conv
    && Total(x) < HALF
    && SenderOk(x.k, x.hist, y.k.rcv)
    && ReceiverOk(y.k, x.hist, y.consumed)
    && NetForward(x.net, x.k.cfg.conv, x.hist)
    && NetBack(y.net, x.k.cfg.conv, y.k.rcv)
  }

  /** From `x` to `y`: bytes in either mode, messages in message mode. */
  ghost predicate Content(x: Side, y: Side) {
    && BytesMatch(x.hist, x.k.snd.queue, x.sent, y.got, y.consumed)
    && (!x.k.cfg.stream ==> MsgPart(x.k.cfg.mss, x.accepted, x.hist, x.k.snd.queue, y.delivered, y.consumed))
  }

  ghost predicate BytesMatch(hist: seq<Frag>, queue: seq<Frag>, sent: seq<byte>, got: seq<byte>, consumed: nat) {
    && consumed <= |hist|
    && Flat(FragData, hist + queue) == sent
    && Flat(FragData, hist[..consumed]) == got
  }

  ghost predicate Direction(x: Side, y: Side) {
    EndpointOk(x.k) && EndpointOk(y.k) && Link(x, y) && Content(x, y)
  }

  lemma StartDirection(cx: Config, cy: Config)
    requires Configured(cx) && Configured(cy) && cx.conv == cy.conv
    ensures Direction(Start(cx), Start(cy))
  {
    CreateOk(cx);
    CreateOk(cy);
    StartLink(cx, cy);
  }

  lemma StartLink(cx: Config, cy: Config)
    requires Configured(cx) && Configured(cy) && cx.conv == cy.conv
    ensures Link(Start(cx), Start(cy))
  {
  }

  // ---------------------------------------------------------------- every call keeps the endpoint in order

  lemma ActOk(x: Side, arriving: set<seq<byte>>, a: Action)
    requires EndpointOk(x.k)
    ensures EndpointOk(Act(x, arriving, a).k)
  {
    match a
    case DoSend(data) => SendOk(x.k, data);
    case DoRecv(len) => RecvOk(x.k, len);
    case DoInput(d) => InputOk(x.k, d);
    case DoUpdate(current) => UpdateOk(x.k, current);
    case DoFlush => FlushOk(x.k);
  }

  // ---------------------------------------------------------------- calls at the sender

  lemma SendStep(x: Side, y: Side, data: seq<byte>)
    requires Direction(x, y) && Total(AfterSend(x, data)) < HALF
    ensures Link(AfterSend(x, data), y)
  {
  }

  lemma {:induction false} ExtendBytes(queue: seq<Frag>, data: seq<byte>, mss: nat)
    requires mss < HALF
    ensures var (queue', rest) := Extend(queue, data, mss);
      && |rest| <= |data| && rest == data[|data| - |rest|..]
      && Flat(FragData, queue') == Flat(FragData, queue) + data[..|data| - |rest|]
  {
    if queue != [] && |queue[|queue| - 1].data| < mss {
      var last := queue[|queue| - 1];
      var extend := Min(|data|, mss - |last.data|);
      var front := queue[..|queue| - 1];
      var queue' := front + [Frag(0, last.data + data[..extend])];
      assert queue'[..|queue'| - 1] == front;
    }
  }

  lemma EnqueueBytes(queue: seq<Frag>, data: seq<byte>, mss: nat, stream: bool)
    requires 0 < mss < HALF
    ensures var r := Enqueue(queue, data, mss, stream);
      Flat(FragData, r.queue) == if r.code == 0 then Flat(FragData, queue) + data else Flat(FragData, queue)
  {
    var count := FragCount(|data|, mss);
    FragCountCovers(|data|, mss);
    if count < WND_RCV {
      CountedJoins(data, mss, stream);
      FlatAppend(FragData, queue, Fragment(data, mss, count, stream));
    }
  }

  /** `snd_queue` gains exactly the bytes taken. */
  lemma SendBytes(c: Config, queue: seq<Frag>, data: seq<byte>)
    requires Configured(c)
    ensures Flat(FragData, Send(c, queue, data).queue) == Flat(FragData, queue) + data[..Taken(c, queue, data)]
  {
    if c.stream {
      ExtendBytes(queue, data, c.mss);
      var (queue', rest) := Extend(queue, data, c.mss);
      var n := |data| - |rest|;
      assert data[..n] + rest == data;
      EnqueueBytes(queue', rest, c.mss, true);
    } else {
      EnqueueBytes(queue, data, c.mss, false);
    }
  }

  lemma SendBytesMatch(c: Config, hist: seq<Frag>, queue: seq<Frag>, sent: seq<byte>, got: seq<byte>, consumed: nat, data: seq<byte>)
    requires Configured(c) && BytesMatch(hist, queue, sent, got, consumed)
    ensures BytesMatch(hist, Send(c, queue, data).queue, sent + data[..Taken(c, queue, data)], got, consumed)
  {
    SendBytes(c, queue, data);
    FlatAppend(FragData, hist, queue);
    FlatAppend(FragData, hist, Send(c, queue, data).queue);
  }

  lemma SendContent(x: Side, y: Side, data: seq<byte>)
    requires EndpointOk(x.k) && Content(x, y)
    ensures Content(AfterSend(x, data), y)
  {
    SendBytesMatch(x.k.cfg, x.hist, x.k.snd.queue, x.sent, y.got, y.consumed, data);
    if !x.k.cfg.stream && Acceptable(x.k.cfg.mss, data) {
      SendPart(x.k.cfg.mss, x.accepted, x.hist, x.k.snd.queue, y.delivered, y.consumed, data);
    }
  }

  lemma InputAtSender(x: Side, y: Side, d: seq<byte>)
    requires Direction(x, y) && d in y.net
    ensures Link(x.(k := InputDatagram(x.k, d).k), y)
    ensures Content(x.(k := InputDatagram(x.k, d).k), y)
  {
    InputSender(x.k, x.hist, y.k.rcv, d);
    ProcessAllConfig(x.k, Parse(x.k.cfg.conv, d).packets);
  }

  lemma PrefixStays(hist: seq<Frag>, hist': seq<Frag>, p: Packet)
    requires hist <= hist' && GoodForward(p, hist)
    ensures GoodForward(p, hist')
  {
  }

  /** A flush at the sender, whatever the clock was set to first. */
  lemma FlushAtSender(x: Side, y: Side, k: Kcp)
    requires Direction(x, y) && k == x.k.(clock := k.clock)
    ensures Link(AfterFlush(x, Flush(k)), y) && Content(AfterFlush(x, Flush(k)), y)
  {
    var x' := AfterFlush(x, Flush(k));
    var h := FlushSender(k, x.hist, y.k.rcv);
    var q, q' := x.k.snd.queue, x'.k.snd.queue;
    assert x'.hist == h && x'.hist + q' == x.hist + q by { SplitQueue(x.hist, q, h, q'); }
    RcvPartExtends(y.k.rcv, x.hist, x'.hist[|x.hist|..], y.consumed);
    FlushDatagrams(k);
    NetForwardGrows(x.net, x.k.cfg.conv, x.hist, x'.hist, Datagrams(x.k.cfg.mtu, Flush(k).packets));
    assert x'.hist[..y.consumed] == x.hist[..y.consumed];
  }

  lemma SplitQueue(h: seq<Frag>, q: seq<Frag>, h': seq<Frag>, q': seq<Frag>)
    requires h <= h' && h' + q' == h + q && |q'| <= |q|
    ensures h' == h + q[..|q| - |q'|]
  {
    assert (h' + q')[..|h'|] == h';
    assert (h + q)[..|h'|] == h + q[..|q| - |q'|];
  }

  lemma NetForwardGrows(net: set<seq<byte>>, conv: u32, hist: seq<Frag>, hist': seq<Frag>, ds: seq<seq<byte>>)
    requires NetForward(net, conv, hist) && hist <= hist'
    requires forall d | d in ds :: forall p | p in Parse(conv, d).packets :: GoodForward(p, hist')
    ensures NetForward(net + (set d | d in ds), conv, hist')
  {
    forall d | d in net ensures forall p | p in Parse(conv, d).packets :: GoodForward(p, hist') {
      forall p | p in Parse(conv, d).packets ensures GoodForward(p, hist') { PrefixStays(hist, hist', p); }
    }
  }

  // ---------------------------------------------------------------- calls at the receiver

  lemma NetBackGrows(net: set<seq<byte>>, conv: u32, r: Rcv, r': Rcv)
    requires NetBack(net, conv, r) && Grown(r, r')
    ensures NetBack(net, conv, r')
  {
    forall d | d in net ensures forall p | p in Parse(conv, d).packets :: GoodBack(p, r') {
      forall p | p in Parse(conv, d).packets ensures GoodBack(p, r') { GrownBack(p, r, r'); }
    }
  }

  lemma InputAtReceiver(x: Side, y: Side, d: seq<byte>)
    requires Direction(x, y) && d in x.net
    ensures Link(x, y.(k := InputDatagram(y.k, d).k))
    ensures Content(x, y.(k := InputDatagram(y.k, d).k))
  {
    var k' := InputDatagram(y.k, d).k;
    ProcessAllConfig(y.k, Parse(y.k.cfg.conv, d).packets);
    InputReceiver(y.k, x.hist, y.consumed, d);
    GrownKept(x.k.snd, y.k.rcv, k'.rcv, |x.hist|);
    NetBackGrows(y.net, x.k.cfg.conv, y.k.rcv, k'.rcv);
  }

  lemma FlushAtReceiver(x: Side, y: Side, k: Kcp)
    requires Direction(x, y) && k == y.k.(clock := k.clock)
    ensures Link(x, AfterFlush(y, Flush(k))) && Content(x, AfterFlush(y, Flush(k)))
  {
    FlushReceiver(k);
    FlushDatagrams(k);
  }

  /** Taking `n` segments off the queue consumes `n` fragments. */
  lemma TakePart(r: Rcv, hist: seq<Frag>, consumed: nat, n: nat, wnd: u32)
    requires RcvPart(r, hist, consumed) && RcvOk(r, wnd) && n <= |r.queue|
    ensures var r' := r.(queue := r.queue[n..]); RcvPart(r', hist, consumed + n) && RcvOk(r', wnd)
  {
    var r' := r.(queue := r.queue[n..]);
    forall i | 0 <= i < |r'.queue|
      ensures Genuine(hist, consumed + n + i, r'.queue[i].frg, r'.queue[i].data)
      ensures r'.queue[i].sn == Sub(r'.nxt, |r'.queue| - i)
    {
      assert r'.queue[i] == r.queue[n + i];
      assert Genuine(hist, consumed + (n + i), r.queue[n + i].frg, r.queue[n + i].data);
    }
  }

  /** What `ikcp_recv` leaves on the receiving side. */
  lemma RecvRcv(k: Kcp, hist: seq<Frag>, consumed: nat, len: int)
    requires ReceiverOk(k, hist, consumed) && Recv(k, len).code >= 0
    ensures var n := if len < 0 then 0 else FirstLen(k.rcv.queue);
      && ReceiverOk(Recv(k, len).k, hist, consumed + n)
      && Grown(k.rcv, Recv(k, len).k.rcv)
  {
    var r, wnd := k.rcv, k.cfg.rcvWnd;
    var n := if len < 0 then 0 else FirstLen(r.queue);
    var taken := r.(queue := r.queue[n..]);
    assert r.queue[0..] == r.queue;
    TakePart(r, hist, consumed, n, wnd);
    DrainPart(taken, hist, consumed + n, wnd);
    DrainOk(taken, wnd);
    forall sn: u32 | Got(r, sn) ensures Got(taken, sn) {}
  }

  lemma RecvLink(x: Side, y: Side, len: int)
    requires Link(x, y)
    ensures Link(x, AfterRecv(y, len))
  {
    if Recv(y.k, len).code >= 0 {
      RecvRcv(y.k, x.hist, y.consumed, len);
      var r' := Recv(y.k, len).k.rcv;
      GrownKept(x.k.snd, y.k.rcv, r', |x.hist|);
      NetBackGrows(y.net, x.k.cfg.conv, y.k.rcv, r');
    }
  }

  /** `ikcp_recv` returns the bytes of the fragments it consumes. */
  lemma RecvBytes(r: Rcv, hist: seq<Frag>, consumed: nat, n: nat)
    requires RcvPart(r, hist, consumed) && n <= |r.queue|
    ensures Flat(FragData, hist[..consumed + n]) == Flat(FragData, hist[..consumed]) + Bytes(r.queue[..n])
  {
    var taken := hist[consumed..consumed + n];
    FlatAppend(FragData, hist[..consumed], taken);
    assert hist[..consumed] + taken == hist[..consumed + n];
    forall i | 0 <= i < n ensures PacketData(r.queue[..n][i]) == FragData(taken[i]) {
      assert Genuine(hist, consumed + i, r.queue[i].frg, r.queue[i].data);
    }
    FlatSame(PacketData, FragData, r.queue[..n], taken);
  }

  /** A successful `ikcp_recv` in message mode returns the next accepted message. */
  lemma RecvMessage(x: Side, y: Side, len: int)
    requires Direction(x, y) && !x.k.cfg.stream
    requires Recv(y.k, len).code >= 0
    ensures |y.delivered| < |x.accepted|
    ensures Recv(y.k, len).data == x.accepted[|y.delivered|]
    ensures y.consumed + FirstLen(y.k.rcv.queue) == |Stream(x.k.cfg.mss, x.accepted[..|y.delivered| + 1])|
  {
    FirstMessage(x.k.cfg.mss, x.accepted, x.hist, x.k.snd.queue, y.delivered, y.consumed, y.k.rcv);
  }

  lemma RecvContent(x: Side, y: Side, len: int)
    requires Direction(x, y)
    ensures Content(x, AfterRecv(y, len))
  {
    if Recv(y.k, len).code >= 0 && len >= 0 {
      var n, data := FirstLen(y.k.rcv.queue), Recv(y.k, len).data;
      RecvBytesMatch(x, y, len);
      if !x.k.cfg.stream { RecvMsgPart(x, y, len); }
      ContentFrom(x, y, AfterRecv(y, len), data, n);
    } else {
      ContentAlike(x, y, AfterRecv(y, len));
    }
  }

  lemma ContentAlike(x: Side, y: Side, y': Side)
    requires Content(x, y) && y'.got == y.got && y'.consumed == y.consumed && y'.delivered == y.delivered
    ensures Content(x, y')
  {
  }

  lemma ContentFrom(x: Side, y: Side, y': Side, data: seq<byte>, n: nat)
    requires y'.got == y.got + data && y'.consumed == y.consumed + n
    requires BytesMatch(x.hist, x.k.snd.queue, x.sent, y.got + data, y.consumed + n)
    requires !x.k.cfg.stream ==> MsgPart(x.k.cfg.mss, x.accepted, x.hist, x.k.snd.queue, y'.delivered, y.consumed + n)
    ensures Content(x, y')
  {
  }

  lemma RecvBytesMatch(x: Side, y: Side, len: int)
    requires Direction(x, y) && Recv(y.k, len).code >= 0
    ensures BytesMatch(x.hist, x.k.snd.queue, x.sent, y.got + Recv(y.k, len).data, y.consumed + FirstLen(y.k.rcv.queue))
  {
    var n := FirstLen(y.k.rcv.queue);
    RecvBytes(y.k.rcv, x.hist, y.consumed, n);
    assert Recv(y.k, len).data == Bytes(y.k.rcv.queue[..n]);
  }

  lemma RecvMsgPart(x: Side, y: Side, len: int)
    requires Direction(x, y) && !x.k.cfg.stream
    requires Recv(y.k, len).code >= 0
    ensures MsgPart(x.k.cfg.mss, x.accepted, x.hist, x.k.snd.queue, y.delivered + [Recv(y.k, len).data],
                    y.consumed + FirstLen(y.k.rcv.queue))
  {
    RecvMessage(x, y, len);
    assert x.accepted[..|y.delivered| + 1] == y.delivered + [Recv(y.k, len).data];
  }

  // ---------------------------------------------------------------- runs

  /** `ikcp_update` is a flush under a new clock, or only sets the clock. */
  lemma UpdateIsFlush(k: Kcp, current: u32) returns (k1: Kcp)
    requires Configured(k.cfg)
    ensures k1 == k.(clock := k1.clock) && Configured(k1.cfg)
    ensures Update(k, current) == Flush(k1) || Update(k, current) == Flushed(k1, [])
  {
    k1 := k.(clock := Update(k, current).k.clock);
  }

  lemma ClockAlone(x: Side, y: Side, k: Kcp)
    requires k.cfg == x.k.cfg && k.snd == x.k.snd && k.rcv == x.k.rcv && k.acks == x.k.acks
    ensures AfterFlush(x, Flushed(k, [])) == x.(k := k)
  {
    assert Datagrams(x.k.cfg.mtu, []) == [];
    assert x.k.snd.queue[..0] == [];
  }

  lemma UpdateAtSender(x: Side, y: Side, current: u32)
    requires Direction(x, y)
    ensures Link(AfterFlush(x, Update(x.k, current)), y) && Content(AfterFlush(x, Update(x.k, current)), y)
  {
    var k1 := UpdateIsFlush(x.k, current);
    FlushAtSender(x, y, k1);
    ClockAlone(x, y, k1);
  }

  lemma SenderAct(x: Side, y: Side, a: Action)
    requires Direction(x, y) && Total(Act(x, y.net, a)) < HALF
    ensures Link(Act(x, y.net, a), y) && Content(Act(x, y.net, a), y)
  {
    match a
    case DoSend(data) => SendStep(x, y, data); SendContent(x, y, data);
    case DoRecv(len) => RecvAtSender(x, y, len);
    case DoInput(d) => if d in y.net { InputAtSender(x, y, d); }
    case DoUpdate(current) => UpdateAtSender(x, y, current);
    case DoFlush => FlushAtSender(x, y, x.k);
  }

  /** `ikcp_recv` does not touch the sending side. */
  lemma RecvAtSender(x: Side, y: Side, len: int)
    requires Direction(x, y)
    ensures Link(AfterRecv(x, len), y) && Content(AfterRecv(x, len), y)
  {
    SameSender(x, AfterRecv(x, len), y);
  }

  lemma SameSender(x: Side, x': Side, y: Side)
    requires Link(x, y) && Content(x, y)
    requires x'.k.snd == x.k.snd && x'.k.cfg == x.k.cfg && x'.hist == x.hist && x'.net == x.net
    requires x'.accepted == x.accepted && x'.sent == x.sent
    ensures Link(x', y) && Content(x', y)
  {
  }

  lemma UpdateAtReceiver(x: Side, y: Side, current: u32)
    requires Direction(x, y)
    ensures Link(x, AfterFlush(y, Update(y.k, current))) && Content(x, AfterFlush(y, Update(y.k, current)))
  {
    var k1 := UpdateIsFlush(y.k, current);
    FlushAtReceiver(x, y, k1);
    ClockAlone(y, x, k1);
  }

  lemma ReceiverAct(x: Side, y: Side, a: Action)
    requires Direction(x, y)
    ensures Link(x, Act(y, x.net, a)) && Content(x, Act(y, x.net, a))
  {
    match a
    case DoSend(data) =>
    case DoRecv(len) => RecvLink(x, y, len); RecvContent(x, y, len);
    case DoInput(d) => if d in x.net { InputAtReceiver(x, y, d); }
    case DoUpdate(current) => UpdateAtReceiver(x, y, current);
    case DoFlush => FlushAtReceiver(x, y, y.k);
  }

  /** Fragments are never taken back. */
  lemma TotalGrows(x: Side, arriving: set<seq<byte>>, a: Action)
    requires Configured(x.k.cfg)
    ensures Total(x) <= Total(Act(x, arriving, a))
  {
    if a.DoInput? { ProcessAllQueue(x.k, Parse(x.k.cfg.conv, a.d).packets); }
  }

  lemma {:induction false} ProcessAllQueue(k: Kcp, ps: seq<Packet>)
    ensures ProcessAll(k, ps).k.snd.queue == k.snd.queue
    decreases |ps|
  {
    if ps != [] { ProcessAllQueue(k, ps[..|ps| - 1]); }
  }

  /** Both directions hold in every reachable state. */
  lemma {:induction false} RunInvariant(ca: Config, cb: Config, events: seq<Event>)
    requires Configured(ca) && Configured(cb) && ca.conv == cb.conv
    requires var s := Run(ca, cb, events); Total(s.a) < HALF && Total(s.b) < HALF
    ensures var s := Run(ca, cb, events); Direction(s.a, s.b) && Direction(s.b, s.a)
    decreases |events|
  {
    if events == [] {
      StartDirection(ca, cb);
      StartDirection(cb, ca);
    } else {
      var s, e := Run(ca, cb, events[..|events| - 1]), events[|events| - 1];
      if e.atA {
        TotalGrows(s.a, s.b.net, e.action);
        RunInvariant(ca, cb, events[..|events| - 1]);
        ActOk(s.a, s.b.net, e.action);
        SenderAct(s.a, s.b, e.action);
        ReceiverAct(s.b, s.a, e.action);
      } else {
        TotalGrows(s.b, s.a.net, e.action);
        RunInvariant(ca, cb, events[..|events| - 1]);
        ActOk(s.b, s.a.net, e.action);
        SenderAct(s.b, s.a, e.action);
        ReceiverAct(s.a, s.b, e.action);
      }
    }
  }

  /** End-to-end safety: over any run, what one side's `ikcp_recv` returned is a prefix, in order
      and exactly once, of what the other side's `ikcp_send` accepted: whole messages in message
      mode, and bytes in either mode. */
  lemma DeliveredInOrder(ca: Config, cb: Config, events: seq<Event>)
    requires Configured(ca) && Configured(cb) && ca.conv == cb.conv
    requires var s := Run(ca, cb, events); Total(s.a) < HALF && Total(s.b) < HALF
    ensures var s := Run(ca, cb, events);
      && (!ca.stream ==> s.b.delivered <= s.a.accepted)
      && (!cb.stream ==> s.a.delivered <= s.b.accepted)
      && s.b.got <= s.a.sent && s.a.got <= s.b.sent
  {
    RunInvariant(ca, cb, events);
    var s := Run(ca, cb, events);
    GotPrefix(s.a, s.b);
    GotPrefix(s.b, s.a);
  }

  lemma GotPrefix(x: Side, y: Side)
    requires Content(x, y)
    ensures y.got <= x.sent
  {
    var all := x.hist + x.k.snd.queue;
    FlatAppend(FragData, all[..y.consumed], all[y.consumed..]);
    assert all[..y.consumed] + all[y.consumed..] == all;
    assert all[..y.consumed] == x.hist[..y.consumed];
  }

  /** Nothing is forgotten: over any run, every number one side has used is still in its `snd_buf`,
      or below the other side's `rcv_nxt`, or in the other side's `rcv_buf`. */
  lemma NothingForgotten(ca: Config, cb: Config, events: seq<Event>, sn: u32)
    requires Configured(ca) && Configured(cb) && ca.conv == cb.conv
    requires var s := Run(ca, cb, events); Total(s.a) < HALF && Total(s.b) < HALF
    ensures var s := Run(ca, cb, events);
      && (sn < s.a.k.snd.nxt ==> Buffered(s.a.k.snd.buf, sn) || Got(s.b.k.rcv, sn))
      && (sn < s.b.k.snd.nxt ==> Buffered(s.b.k.snd.buf, sn) || Got(s.a.k.rcv, sn))
  {
    RunInvariant(ca, cb, events);
  }
}
