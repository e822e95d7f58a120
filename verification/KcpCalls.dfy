/**
 What whole calls do to one direction of a connection: the caller is the sender in one direction
 and the receiver in the other, so each call is looked at from both sides.
 */
module KcpCalls {
  import opened Word
  import opened KcpWire
  import opened KcpSpec
  import opened KcpShape
  import opened KcpInvariant
  import opened KcpDirection

  ghost predicate AcksGot(acks: seq<Ack>, r: Rcv) {
    forall i | 0 <= i < |acks| :: Got(r, acks[i].sn)
  }

  // ---------------------------------------------------------------- ikcp_input, at the sender

  /** What input keeps at the sender, whose peer holds `r`. */
  ghost predicate SenderOk(k: Kcp, hist: seq<Frag>, r: Rcv) {
    SndPart(k.snd, hist) && Kept(k.snd, r, |hist|) && r.nxt < HALF
  }

  lemma OnUnaSender(k: Kcp, hist: seq<Frag>, r: Rcv, p: Packet)
    requires SenderOk(k, hist, r) && GoodBack(p, r)
    ensures SenderOk(OnUna(k, p), hist, r)
  {
    DropUnaPart(k.snd, hist, r, p.una);
    SubsetPart(k.snd, hist, DropUna(k.snd.buf, p.una));
  }

  lemma OnAckSender(k: Kcp, hist: seq<Frag>, r: Rcv, p: Packet)
    requires SenderOk(k, hist, r) && Got(r, p.sn)
    ensures SenderOk(OnAck(k, p), hist, r)
  {
    ParseAckPart(k.snd, hist, r, p.sn);
    SubsetPart(k.snd, hist, ParseAck(k.snd, p.sn).buf);
  }

  lemma ProcessSender(i: Scanned, hist: seq<Frag>, r: Rcv, p: Packet)
    requires SenderOk(i.k, hist, r) && GoodBack(p, r)
    ensures SenderOk(Process(i, p).k, hist, r)
    ensures Process(i, p).k.snd.queue == i.k.snd.queue
  {
    OnUnaSender(i.k, hist, r, p);
    if p.cmd == CMD_ACK { OnAckSender(OnUna(i.k, p), hist, r, p); }
  }

  lemma {:induction false} ProcessAllSender(k: Kcp, hist: seq<Frag>, r: Rcv, ps: seq<Packet>)
    requires SenderOk(k, hist, r) && forall p | p in ps :: GoodBack(p, r)
    ensures SenderOk(ProcessAll(k, ps).k, hist, r)
    ensures ProcessAll(k, ps).k.snd.queue == k.snd.queue
    decreases |ps|
  {
    if ps != [] {
      ProcessAllSender(k, hist, r, ps[..|ps| - 1]);
      ProcessSender(ProcessAll(k, ps[..|ps| - 1]), hist, r, ps[|ps| - 1]);
    }
  }

  lemma FinishSender(i: Scanned, hist: seq<Frag>, r: Rcv, prevUna: u32)
    requires SenderOk(i.k, hist, r) && Configured(i.k.cfg)
    ensures SenderOk(FinishInput(i, prevUna), hist, r)
    ensures FinishInput(i, prevUna).snd.queue == i.k.snd.queue
  {
    if i.maxack.Some? {
      BumpSkippedShape(i.k.snd.buf, i.maxack.value);
      SameContentsPart(i.k.snd, hist, BumpSkipped(i.k.snd.buf, i.maxack.value), r);
    }
  }

  /** Acknowledgements of what the peer really got never make the sender drop anything else. */
  lemma InputSender(k: Kcp, hist: seq<Frag>, r: Rcv, d: seq<byte>)
    requires SenderOk(k, hist, r) && Configured(k.cfg)
    requires forall p | p in Parse(k.cfg.conv, d).packets :: GoodBack(p, r)
    ensures SenderOk(InputDatagram(k, d).k, hist, r)
    ensures InputDatagram(k, d).k.snd.queue == k.snd.queue
  {
    if |d| >= OVERHEAD {
      var ps := Parse(k.cfg.conv, d).packets;
      ProcessAllConfig(k, ps);
      ProcessAllSender(k, hist, r, ps);
      FinishSender(ProcessAll(k, ps), hist, r, k.snd.una);
    }
  }

  // ---------------------------------------------------------------- ikcp_input, at the receiver

  ghost predicate ReceiverOk(k: Kcp, hist: seq<Frag>, consumed: nat) {
    && RcvPart(k.rcv, hist, consumed) && RcvOk(k.rcv, k.cfg.rcvWnd) && AcksGot(k.acks, k.rcv)
  }

  lemma OnPushReceiver(k: Kcp, hist: seq<Frag>, consumed: nat, p: Packet)
    requires ReceiverOk(k, hist, consumed) && Settled(k.rcv, k.cfg.rcvWnd) && Genuine(hist, p.sn, p.frg, p.data)
    ensures ReceiverOk(OnPush(k, p), hist, consumed)
    ensures Grown(k.rcv, OnPush(k, p).rcv)
  {
    if TimeDiff(p.sn, Add(k.rcv.nxt, k.cfg.rcvWnd)) < 0 {
      ParseDataPart(k.rcv, hist, consumed, k.cfg.rcvWnd, p);
      ParseDataOk(k.rcv, k.cfg.rcvWnd, p);
      TimeDiffSmall(p.sn, k.rcv.nxt);
    }
  }

  lemma ProcessReceiver(i: Scanned, hist: seq<Frag>, consumed: nat, p: Packet)
    requires ReceiverOk(i.k, hist, consumed) && Settled(i.k.rcv, i.k.cfg.rcvWnd) && GoodForward(p, hist)
    ensures ReceiverOk(Process(i, p).k, hist, consumed)
    ensures Grown(i.k.rcv, Process(i, p).k.rcv)
  {
    if p.cmd == CMD_PUSH { OnPushReceiver(OnUna(i.k, p), hist, consumed, p); }
  }

  lemma {:induction false} ProcessAllReceiver(k: Kcp, hist: seq<Frag>, consumed: nat, ps: seq<Packet>)
    requires EndpointOk(k)
    requires ReceiverOk(k, hist, consumed) && forall p | p in ps :: GoodForward(p, hist)
    ensures ReceiverOk(ProcessAll(k, ps).k, hist, consumed)
    ensures Grown(k.rcv, ProcessAll(k, ps).k.rcv)
    decreases |ps|
  {
    if ps != [] {
      var front := ps[..|ps| - 1];
      ProcessAllOk(k, front);
      ProcessAllReceiver(k, hist, consumed, front);
      ProcessReceiver(ProcessAll(k, front), hist, consumed, ps[|ps| - 1]);
    }
  }

  /** Genuine segments, in any order and any number of copies, are taken in at their places. */
  lemma InputReceiver(k: Kcp, hist: seq<Frag>, consumed: nat, d: seq<byte>)
    requires EndpointOk(k) && ReceiverOk(k, hist, consumed)
    requires forall p | p in Parse(k.cfg.conv, d).packets :: GoodForward(p, hist)
    ensures ReceiverOk(InputDatagram(k, d).k, hist, consumed)
    ensures Grown(k.rcv, InputDatagram(k, d).k.rcv)
  {
    if |d| >= OVERHEAD {
      var ps := Parse(k.cfg.conv, d).packets;
      ProcessAllConfig(k, ps);
      ProcessAllReceiver(k, hist, consumed, ps);
    }
  }

  // ---------------------------------------------------------------- ikcp_flush

  /** At the sender: fragments get numbers and genuine segments go out. */
  lemma FlushSender(k: Kcp, hist: seq<Frag>, r: Rcv) returns (hist': seq<Frag>)
    requires SenderOk(k, hist, r) && Configured(k.cfg) && |hist| + |k.snd.queue| < HALF
    ensures SenderOk(Flush(k).k, hist', r)
    ensures hist <= hist' && hist' + Flush(k).k.snd.queue == hist + k.snd.queue
    ensures forall p | p in Flush(k).packets :: GoodForward(p, hist')
  {
    if !k.clock.updated {
      hist' := hist;
    } else {
      var cwnd := SendWindow(k);
      var moved := MoveData(k, k.snd, cwnd);
      hist' := MoveDataPart(k, k.snd, cwnd, hist, r);
      var n := |moved.buf|;
      RestampShape(k, moved.buf, n);
      SameContentsPart(moved, hist', RestampFirst(k, moved.buf, n), r);
      forall p | p in Flush(k).packets ensures GoodForward(p, hist') {
        if p in ResendFirst(k, moved.buf, n).packets { ResendShape(k, moved.buf, n, p); }
        else { ControlsOnly(k, p); }
      }
    }
  }

  lemma {:induction false} AckPacketsShape(k: Kcp, n: nat, p: Packet)
    requires n <= |k.acks| && p in AckPackets(k, n)
    ensures p.cmd == CMD_ACK && p.una == k.rcv.nxt && p.conv == k.cfg.conv && |p.data| == 0
    ensures exists i | 0 <= i < |k.acks| :: p.sn == k.acks[i].sn
    decreases n
  {
    if p in AckPackets(k, n - 1) { AckPacketsShape(k, n - 1, p); }
  }

  lemma ControlsOnly(k: Kcp, p: Packet)
    requires Configured(k.cfg) && k.clock.updated
    requires p in AckPackets(k, |k.acks|) + ProbePackets(k, ProbeTimer(k.prober, k.rmtWnd, k.clock.current))
    ensures p.cmd == CMD_ACK || p.cmd == CMD_WASK || p.cmd == CMD_WINS
    ensures p.una == k.rcv.nxt && p.conv == k.cfg.conv && |p.data| == 0
    ensures p.cmd == CMD_ACK ==> exists i | 0 <= i < |k.acks| :: p.sn == k.acks[i].sn
  {
    if p in AckPackets(k, |k.acks|) { AckPacketsShape(k, |k.acks|, p); }
  }

  /** At the receiver: what goes out acknowledges only what came in. */
  lemma FlushReceiver(k: Kcp)
    requires Configured(k.cfg) && AcksGot(k.acks, k.rcv)
    ensures forall p | p in Flush(k).packets :: GoodBack(p, k.rcv)
    ensures AcksGot(Flush(k).k.acks, k.rcv)
  {
    if k.clock.updated {
      var moved := MoveData(k, k.snd, SendWindow(k));
      var n := |moved.buf|;
      forall p | p in Flush(k).packets ensures GoodBack(p, k.rcv) {
        if p in ResendFirst(k, moved.buf, n).packets { ResendShape(k, moved.buf, n, p); }
        else { ControlsOnly(k, p); }
      }
    }
  }

  /** Every segment of a flush can be sent: it is of this conversation and fits a datagram. */
  lemma FlushFits(k: Kcp)
    requires EndpointOk(k)
    ensures forall p | p in Flush(k).packets :: Sendable(k.cfg.conv, p) && OVERHEAD + |p.data| <= k.cfg.mtu
  {
    if k.clock.updated {
      var moved := MoveData(k, k.snd, SendWindow(k));
      MoveDataFits(k, k.snd, SendWindow(k));
      var n := |moved.buf|;
      forall p | p in Flush(k).packets ensures Sendable(k.cfg.conv, p) && OVERHEAD + |p.data| <= k.cfg.mtu {
        if p in ResendFirst(k, moved.buf, n).packets {
          ResendShape(k, moved.buf, n, p);
          var i :| 0 <= i < |moved.buf| && p.sn == moved.buf[i].sn && p.frg == moved.buf[i].frg && p.data == moved.buf[i].data;
          assert moved.buf[i] in moved.buf;
        } else {
          ControlsOnly(k, p);
        }
      }
    }
  }

  /** Every datagram of a flush is non-empty, at most `mtu` bytes, and parses back, whole, into the segments written;
      nothing else is on the wire, and none is sent while the next segment fits. */
  lemma FlushDatagrams(k: Kcp)
    requires EndpointOk(k)
    ensures var ds, ps := Datagrams(k.cfg.mtu, Flush(k).packets), Flush(k).packets;
      && (forall d | d in ds :: 0 < |d| <= k.cfg.mtu && Parse(k.cfg.conv, d).code == 0)
      && Carried(k.cfg.conv, ds) == ps && Filled(k.cfg.conv, k.cfg.mtu, ds)
      && (forall d | d in ds :: forall p | p in Parse(k.cfg.conv, d).packets :: p in ps)
  {
    FlushFits(k);
    var ps := Flush(k).packets;
    var ds := Datagrams(k.cfg.mtu, ps);
    PackingRoundTrip(k.cfg.conv, k.cfg.mtu, ps);
    forall d, p | d in ds && p in Parse(k.cfg.conv, d).packets ensures p in ps {
      var i :| 0 <= i < |ds| && ds[i] == d;
      CarriedFrom(k.cfg.conv, ds, i, p);
    }
  }
}
