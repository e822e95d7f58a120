/**
 The control block of KCP, updated in place as kcp_learn/ikcp.c does it.  Every method is proved
 against the functions of KcpSpec on the value of the control block, and every call of the public
 interface keeps `Valid()`.
 */
module KcpEndpoint {
  import opened Options
  import opened Word
  import opened KcpWire
  import opened KcpSpec
  import KcpTimer
  import opened KcpInvariant

  /** The acknowledgements in an ack list that stores number and time alternately. */
  function Pairs(a: seq<u32>, n: nat): (r: seq<Ack>)
    requires 2 * n <= |a|
    ensures |r| == n
  {
    seq(n, i requires 0 <= i < n => Ack(a[2 * i], a[2 * i + 1]))
  }

  lemma FragmentStep(queue: seq<Frag>, data: seq<byte>, mss: nat, count: nat, stream: bool, seg: Frag)
    requires 0 < mss < HALF && 0 < count <= 256
    requires seg == Frag(if stream then 0 else count - 1, data[..Min(|data|, mss)])
    ensures queue + Fragment(data, mss, count, stream) ==
            queue + [seg] + Fragment(data[Min(|data|, mss)..], mss, count - 1, stream)
  {
    assert Fragment(data, mss, count, stream) == [seg] + Fragment(data[Min(|data|, mss)..], mss, count - 1, stream);
  }

  lemma PackSnoc<T>(enc: T -> seq<byte>, mtu: nat, ps: seq<T>, p: T)
    ensures PackAll(enc, mtu, ps + [p]) == PackOne(enc, mtu, PackAll(enc, mtu, ps), p)
  {
    assert (ps + [p])[..|ps|] == ps;
  }

  lemma ProbeSplit(k: Kcp, p: Prober, written: seq<Packet>)
    ensures written + ProbePackets(k, p) ==
      var w := if p.askSend then written + [Control(k, CMD_WASK, LastAck(k))] else written;
      if p.askTell then w + [Control(k, CMD_WINS, LastAck(k))] else w
  {
  }

  lemma RestampNext(k: Kcp, buf: seq<Seg>, i: nat)
    requires i < |buf|
    ensures RestampFirst(k, buf, i)[i] == buf[i]
    ensures RestampFirst(k, buf, i)[i := Retime(k, buf[i])] == RestampFirst(k, buf, i + 1)
  {
  }

  lemma AckNext(k: Kcp, i: nat, p: Packet)
    requires i < |k.acks|
    requires p == Packet(k.cfg.conv, CMD_ACK, 0, Low16(WndUnused(k)), k.acks[i].ts, k.acks[i].sn, k.rcv.nxt, [])
    ensures AckPackets(k, i + 1) == AckPackets(k, i) + [p]
  {
  }

  lemma ParseFront(conv: u32, d: seq<byte>, done: seq<Packet>)
    requires |d| >= OVERHEAD && LengthAt(d) <= |d| - OVERHEAD && LengthAt(d) < HALF
    requires Sendable(conv, DecodePacket(d))
    ensures var p, rest := DecodePacket(d), Parse(conv, d[OVERHEAD + LengthAt(d)..]);
      && |p.data| == LengthAt(d)
      && done + Parse(conv, d).packets == done + [p] + rest.packets
      && Parse(conv, d).code == rest.code
  {
    var p, rest := DecodePacket(d), Parse(conv, d[OVERHEAD + LengthAt(d)..]);
    assert Parse(conv, d) == Parsed([p] + rest.packets, rest.code);
  }

  lemma ProcessSnoc(k: Kcp, done: seq<Packet>, p: Packet)
    ensures ProcessAll(k, done + [p]) == Process(ProcessAll(k, done), p)
  {
    assert (done + [p])[..|done|] == done;
  }

  class Endpoint {
    const cfg: Config
    const enc: Packet -> seq<byte>  // ikcp_encode_seg followed by the payload
    var sndUna: u32
    var sndNxt: u32
    var rcvNxt: u32
    var rmtWnd: u32
    var sndQueue: seq<Frag>
    var sndBuf: seq<Seg>
    var rcvBuf: seq<Packet>
    var rcvQueue: seq<Packet>
    var nSndQue: int
    var nSndBuf: int
    var nRcvBuf: int
    var nRcvQue: int
    var acklist: array<u32>
    var ackcount: nat
    var ackblock: nat
    var rtt: Rtt
    var cong: Cong
    var prober: Prober
    var clock: Clock
    var xmit: u32
    var dead: bool

    /** Counters are queue lengths, and the ack list has room for its entries. */
    ghost predicate Counted()
      reads this
    {
      && nSndQue == |sndQueue| && nSndBuf == |sndBuf| && nRcvBuf == |rcvBuf| && nRcvQue == |rcvQueue|
      && ackcount <= ackblock && 2 * ackblock <= acklist.Length
      && Configured(cfg)
    }

    /** The encoder writes a header and the payload. */
    ghost predicate Encodes() {
      forall p :: |enc(p)| == OVERHEAD + |p.data|
    }

    ghost function State(): Kcp
      requires Counted()
      reads this, acklist
    {
      Kcp(cfg, Snd(sndUna, sndNxt, sndQueue, sndBuf), Rcv(rcvNxt, rcvBuf, rcvQueue), rmtWnd,
          Pairs(acklist[..], ackcount), rtt, cong, prober, clock, xmit, dead)
    }

    ghost predicate Valid()
      reads this, acklist
    {
      Counted() && EndpointOk(State())
    }

    constructor (c: Config)
      requires Configured(c)
      ensures Valid() && Encodes() && State() == Create(c) && enc == EncodePacket && fresh(acklist)
    {
      cfg, enc := c, EncodePacket;
      sndUna, sndNxt, rcvNxt, rmtWnd := 0, 0, 0, WND_RCV;
      sndQueue, sndBuf, rcvBuf, rcvQueue := [], [], [], [];
      nSndQue, nSndBuf, nRcvBuf, nRcvQue := 0, 0, 0, 0;
      acklist, ackcount, ackblock := new u32[0], 0, 0;
      rtt, cong, prober := Rtt(0, 0, 200), Cong(0, 0, 2), Prober(false, false, 0, 0);
      clock, xmit, dead := Clock(0, 100, false), 0, false;
    }

    // -------------------------------------------------------------- acknowledgements

    /** `ikcp_update_ack` */
    method UpdateAck(sample: nat)
      requires Counted()
      modifies `rtt
      ensures rtt == UpdateRtt(old(rtt), sample, cfg)
    {
      var srtt, rttval := rtt.srtt, rtt.rttval;
      if srtt == 0 {
        srtt := sample;
        rttval := sample / 2;
      } else {
        var delta := sample - srtt;
        if delta < 0 { delta := -delta; }
        rttval := (3 * rttval + delta) / 4;
        srtt := (7 * srtt + sample) / 8;
        if srtt < 1 { srtt := 1; }
      }
      var rto := srtt + Max(cfg.interval, 4 * rttval);
      rtt := Rtt(srtt, rttval, Bound(cfg.minrto, rto, RTO_MAX));
    }

    /** `ikcp_shrink_buf` */
    method ShrinkBuf()
      requires Counted()
      modifies `sndUna
      ensures Snd(sndUna, sndNxt, sndQueue, sndBuf) == Shrink(old(Snd(sndUna, sndNxt, sndQueue, sndBuf)))
    {
      if |sndBuf| > 0 { sndUna := sndBuf[0].sn; } else { sndUna := sndNxt; }
    }

    /** `ikcp_parse_una` */
    method ParseUna(una: u32)
      requires Counted()
      modifies `sndBuf, `nSndBuf
      ensures Counted() && sndBuf == DropUna(old(sndBuf), una)
    {
      while |sndBuf| > 0
        invariant Counted() && DropUna(sndBuf, una) == DropUna(old(sndBuf), una)
        decreases |sndBuf|
      {
        if TimeDiff(una, sndBuf[0].sn) > 0 {
          sndBuf := sndBuf[1..];
          nSndBuf := nSndBuf - 1;
        } else {
          break;
        }
      }
    }

    /** `ikcp_parse_ack` */
    method ParseAcked(sn: u32)
      requires Counted()
      modifies `sndBuf, `nSndBuf
      ensures Counted()
      ensures sndBuf == ParseAck(old(Snd(sndUna, sndNxt, sndQueue, sndBuf)), sn).buf
    {
      if TimeDiff(sn, sndUna) < 0 || TimeDiff(sn, sndNxt) >= 0 { return; }
      var i := 0;
      while i < |sndBuf|
        modifies {}
        invariant 0 <= i <= |sndBuf|
        invariant AckIndex(sndBuf, sn, 0) == AckIndex(sndBuf, sn, i)
      {
        if sn == sndBuf[i].sn {
          break;
        }
        if TimeDiff(sn, sndBuf[i].sn) < 0 { return; }
        i := i + 1;
      }
      if i < |sndBuf| {
        sndBuf := sndBuf[..i] + sndBuf[i + 1..];
        nSndBuf := nSndBuf - 1;
      }
    }

    /** `ikcp_parse_fastack` */
    method ParseSkipped(sn: u32)
      requires Counted()
      modifies `sndBuf
      ensures Counted()
      ensures sndBuf == ParseFastack(old(Snd(sndUna, sndNxt, sndQueue, sndBuf)), sn).buf
    {
      if TimeDiff(sn, sndUna) < 0 || TimeDiff(sn, sndNxt) >= 0 { return; }
      ghost var was := sndBuf;
      var i := 0;
      while i < |sndBuf|
        invariant i <= |was| && sndBuf == BumpFirst(was, sn, i)
        invariant SkipEnd(was, sn, 0) == SkipEnd(was, sn, i)
      {
        var seg := sndBuf[i];
        assert seg == was[i];
        if TimeDiff(sn, seg.sn) < 0 { break; }
        if sn != seg.sn { sndBuf := sndBuf[i := seg.(fastack := Add(seg.fastack, 1))]; }
        i := i + 1;
      }
    }

    /** `ikcp_ack_push`: the list doubles, from 8, when it is full. */
    method AckPush(sn: u32, ts: u32)
      requires Counted()
      modifies `acklist, `ackcount, `ackblock, acklist
      ensures Counted() && (acklist == old(acklist) || fresh(acklist))
      ensures Pairs(acklist[..], ackcount) == old(Pairs(acklist[..], ackcount)) + [Ack(sn, ts)]
    {
      ghost var was := Pairs(acklist[..], ackcount);
      var newsize := ackcount + 1;
      if newsize > ackblock {
        var newblock := 8;
        while newblock < newsize
          invariant newblock >= 8
        {
          newblock := newblock * 2;
        }
        var list := new u32[2 * newblock](_ => 0);
        for x := 0 to ackcount
          modifies list
          invariant forall i | 0 <= i < 2 * x :: list[i] == acklist[i]
        {
          list[x * 2] := acklist[x * 2];
          list[x * 2 + 1] := acklist[x * 2 + 1];
        }
        acklist := list;
        ackblock := newblock;
      }
      assert Pairs(acklist[..], ackcount) == was;
      acklist[ackcount * 2] := sn;
      acklist[ackcount * 2 + 1] := ts;
      ackcount := ackcount + 1;
    }

    // -------------------------------------------------------------- data

    /** Moves segments that are next in order from `rcv_buf` to `rcv_queue`. */
    method DrainBuf()
      requires Counted()
      modifies `rcvBuf, `nRcvBuf, `rcvQueue, `nRcvQue, `rcvNxt
      ensures Counted()
      ensures Rcv(rcvNxt, rcvBuf, rcvQueue) == Drain(old(Rcv(rcvNxt, rcvBuf, rcvQueue)), cfg.rcvWnd)
    {
      while |rcvBuf| > 0
        invariant Counted()
        invariant Drain(Rcv(rcvNxt, rcvBuf, rcvQueue), cfg.rcvWnd) == Drain(old(Rcv(rcvNxt, rcvBuf, rcvQueue)), cfg.rcvWnd)
        decreases |rcvBuf|
      {
        var seg := rcvBuf[0];
        if seg.sn == rcvNxt && nRcvQue < cfg.rcvWnd {
          rcvBuf := rcvBuf[1..];
          nRcvBuf := nRcvBuf - 1;
          rcvQueue := rcvQueue + [seg];
          nRcvQue := nRcvQue + 1;
          rcvNxt := Add(rcvNxt, 1);
        } else {
          break;
        }
      }
    }

    /** `ikcp_parse_data` */
    method ParsePush(p: Packet)
      requires Counted()
      modifies `rcvBuf, `nRcvBuf, `rcvQueue, `nRcvQue, `rcvNxt
      ensures Counted()
      ensures Rcv(rcvNxt, rcvBuf, rcvQueue) == ParseData(old(Rcv(rcvNxt, rcvBuf, rcvQueue)), cfg.rcvWnd, p)
    {
      if TimeDiff(p.sn, Add(rcvNxt, cfg.rcvWnd)) >= 0 || TimeDiff(p.sn, rcvNxt) < 0 { return; }
      var i := |rcvBuf|;
      var repeated := false;
      while i > 0
        modifies {}
        invariant 0 <= i <= |rcvBuf| && !repeated
        invariant Slot(rcvBuf, p.sn, |rcvBuf|) == Slot(rcvBuf, p.sn, i)
        decreases i
      {
        var seg := rcvBuf[i - 1];
        if seg.sn == p.sn {
          repeated := true;
          break;
        }
        if TimeDiff(p.sn, seg.sn) > 0 { break; }
        i := i - 1;
      }
      if !repeated {
        rcvBuf := rcvBuf[..i] + [p] + rcvBuf[i..];
        nRcvBuf := nRcvBuf + 1;
      }
      DrainBuf();
    }

    // -------------------------------------------------------------- ikcp_input

    method Acked(p: Packet)
      requires Counted()
      modifies `rtt, `sndBuf, `nSndBuf, `sndUna
      ensures Counted() && State() == OnAck(old(State()), p)
    {
      if TimeDiff(clock.current, p.ts) >= 0 { UpdateAck(TimeDiff(clock.current, p.ts)); }
      ParseAcked(p.sn);
      ShrinkBuf();
    }

    method Pushed(p: Packet)
      requires Counted()
      modifies `acklist, `ackcount, `ackblock, acklist, `rcvBuf, `nRcvBuf, `rcvQueue, `nRcvQue, `rcvNxt
      ensures Counted() && State() == OnPush(old(State()), p)
      ensures acklist == old(acklist) || fresh(acklist)
    {
      if TimeDiff(p.sn, Add(rcvNxt, cfg.rcvWnd)) < 0 {
        Acknowledge(p);
        if TimeDiff(p.sn, rcvNxt) >= 0 { TakeIn(p); }
      }
    }

    method Acknowledge(p: Packet)
      requires Counted()
      modifies `acklist, `ackcount, `ackblock, acklist
      ensures Counted() && State() == old(State()).(acks := old(State()).acks + [Ack(p.sn, p.ts)])
      ensures acklist == old(acklist) || fresh(acklist)
    {
      AckPush(p.sn, p.ts);
    }

    method TakeIn(p: Packet)
      requires Counted()
      modifies `rcvBuf, `nRcvBuf, `rcvQueue, `nRcvQue, `rcvNxt
      ensures Counted() && State() == old(State()).(rcv := ParseData(old(State()).rcv, cfg.rcvWnd, p))
    {
      ParsePush(p);
    }

    method Noted(p: Packet)
      requires Counted()
      modifies `rmtWnd, `sndBuf, `nSndBuf, `sndUna
      ensures Counted() && State() == OnUna(old(State()), p)
    {
      rmtWnd := p.wnd;
      ParseUna(p.una);
      ShrinkBuf();
    }

    /** One turn of the loop of `ikcp_input`. */
    method Receive(p: Packet, maxack: Option<u32>) returns (maxack': Option<u32>)
      requires Counted()
      modifies this, acklist
      ensures Counted() && (acklist == old(acklist) || fresh(acklist))
      ensures Scanned(State(), maxack') == Process(Scanned(old(State()), maxack), p)
    {
      maxack' := maxack;
      Noted(p);
      if p.cmd == CMD_ACK {
        Acked(p);
        if maxack.None? || TimeDiff(p.sn, maxack.value) > 0 { maxack' := Some(p.sn); }
      } else if p.cmd == CMD_PUSH {
        Pushed(p);
      } else if p.cmd == CMD_WASK {
        prober := prober.(askTell := true);
      }
    }

    /** The window growth at the end of `ikcp_input`. */
    method Grow()
      requires Counted()
      modifies `cong
      ensures cong == GrowWindow(old(cong), rmtWnd, cfg.mss)
    {
      if cong.cwnd < rmtWnd {
        var cwnd, incr := cong.cwnd, cong.incr;
        if cwnd < cong.ssthresh {
          cwnd := cwnd + 1;
          incr := Add(incr, cfg.mss);
        } else {
          if incr < cfg.mss { incr := cfg.mss; }
          incr := Wrap(incr + DivWord(MulWrap(cfg.mss, cfg.mss), incr) + cfg.mss / 16);
          if MulWrap(cwnd + 1, cfg.mss) <= incr { cwnd := DivWord(Wrap(incr + cfg.mss - 1), cfg.mss); }
        }
        if cwnd > rmtWnd {
          cwnd := rmtWnd;
          incr := MulWrap(rmtWnd, cfg.mss);
        }
        cong := cong.(cwnd := cwnd, incr := incr);
      }
    }

    /** The loop of `ikcp_input`. */
    method Scan(data: seq<byte>) returns (code: int, maxack: Option<u32>)
      requires Counted()
      modifies this, acklist
      ensures Counted() && (acklist == old(acklist) || fresh(acklist))
      ensures code == Parse(cfg.conv, data).code
      ensures Scanned(State(), maxack) == ProcessAll(old(State()), Parse(cfg.conv, data).packets)
    {
      ghost var k, parsed := State(), Parse(cfg.conv, data);
      ghost var done: seq<Packet> := [];
      var d := data;
      maxack := None;
      code := 0;
      while |d| >= OVERHEAD
        invariant Counted() && (acklist == old(acklist) || fresh(acklist))
        invariant parsed == Parsed(done + Parse(cfg.conv, d).packets, Parse(cfg.conv, d).code)
        invariant Scanned(State(), maxack) == ProcessAll(k, done)
        invariant code == 0
        decreases |d|
      {
        var len := LengthAt(d);
        if Decode32(d[0], d[1], d[2], d[3]) != cfg.conv { code := -1; break; }
        if |d| - OVERHEAD < len || len >= HALF { code := -2; break; }
        var p := DecodePacket(d);
        if p.cmd != CMD_PUSH && p.cmd != CMD_ACK && p.cmd != CMD_WASK && p.cmd != CMD_WINS { code := -3; break; }
        ParseFront(cfg.conv, d, done);
        ProcessSnoc(k, done, p);
        maxack := Receive(p, maxack);
        d := d[OVERHEAD + len..];
        done := done + [p];
      }
      assert Parse(cfg.conv, d) == Parsed([], code);
      assert done + [] == done;
    }

    method Finish(maxack: Option<u32>, prevUna: u32)
      requires Counted()
      modifies `sndBuf, `cong
      ensures Counted() && State() == FinishInput(Scanned(old(State()), maxack), prevUna)
    {
      if maxack.Some? { ParseSkipped(maxack.value); }
      if TimeDiff(sndUna, prevUna) > 0 { Grow(); }
    }

    /** `ikcp_input` */
    method Input(data: seq<byte>) returns (code: int)
      requires Counted()
      modifies this, acklist
      ensures Counted() && (acklist == old(acklist) || fresh(acklist))
      ensures InputResult(State(), code) == InputDatagram(old(State()), data)
      ensures old(Valid()) ==> Valid()
    {
      if Valid() { InputOk(State(), data); }
      var prevUna := sndUna;
      if |data| < OVERHEAD { return -1; }
      var maxack;
      code, maxack := Scan(data);
      if code == 0 { Finish(maxack, prevUna); }
    }

    // -------------------------------------------------------------- ikcp_send

    /** Stream mode: fills up the last fragment in `snd_queue`. */
    method FillLast(buffer: seq<byte>) returns (rest: seq<byte>)
      requires Counted()
      modifies `sndQueue
      ensures Counted() && (sndQueue, rest) == Extend(old(sndQueue), buffer, cfg.mss)
    {
      rest := buffer;
      if |sndQueue| > 0 {
        var last := sndQueue[|sndQueue| - 1];
        if |last.data| < cfg.mss {
          var capacity := cfg.mss - |last.data|;
          var extend := if |buffer| < capacity then |buffer| else capacity;
          sndQueue := sndQueue[..|sndQueue| - 1] + [Frag(0, last.data + buffer[..extend])];
          rest := buffer[extend..];
        }
      }
    }

    /** Cuts the data into fragments and queues them. */
    method Queue(buffer: seq<byte>) returns (code: int)
      requires Counted()
      modifies `sndQueue, `nSndQue
      ensures Counted() && Sent(sndQueue, code) == Enqueue(old(sndQueue), buffer, cfg.mss, cfg.stream)
    {
      var data := buffer;
      var count := FragCount(|data|, cfg.mss);
      FragCountCovers(|data|, cfg.mss);
      if count >= WND_RCV { return -2; }
      for i := 0 to count
        invariant Counted()
        invariant old(sndQueue) + Fragment(buffer, cfg.mss, count, cfg.stream) ==
                  sndQueue + Fragment(data, cfg.mss, count - i, cfg.stream)
      {
        var size := if |data| > cfg.mss then cfg.mss else |data|;
        var seg := Frag(if cfg.stream then 0 else count - i - 1, data[..size]);
        FragmentStep(sndQueue, data, cfg.mss, count - i, cfg.stream, seg);
        sndQueue := sndQueue + [seg];
        nSndQue := nSndQue + 1;
        data := data[size..];
      }
      code := 0;
    }

    /** `ikcp_send` */
    method Send(buffer: seq<byte>, len: int) returns (code: int)
      requires Counted() && len <= |buffer|
      modifies `sndQueue, `nSndQue
      ensures Counted()
      ensures len < 0 ==> code == -1 && sndQueue == old(sndQueue)
      ensures len >= 0 ==> Sent(sndQueue, code) == KcpSpec.Send(cfg, old(sndQueue), buffer[..len])
      ensures old(Valid()) ==> Valid()
    {
      if len < 0 { return -1; }
      var data := buffer[..len];
      if Valid() { SendOk(State(), data); }
      if cfg.stream {
        data := FillLast(data);
        if |data| <= 0 { return 0; }
      }
      code := Queue(data);
    }

    // -------------------------------------------------------------- ikcp_recv

    /** `ikcp_peeksize` */
    method Peek() returns (size: int)
      requires Counted()
      ensures size == PeekSize(rcvQueue)
    {
      if |rcvQueue| == 0 { return -1; }
      if rcvQueue[0].frg == 0 { return |rcvQueue[0].data|; }
      if nRcvQue < rcvQueue[0].frg + 1 { return -1; }
      var data, n := Merge();
      size := |data|;
    }

    /** The loop that merges the fragments of the first message. */
    method Merge() returns (data: seq<byte>, n: nat)
      requires Counted()
      ensures n == FirstLen(rcvQueue) && data == Bytes(rcvQueue[..n])
    {
      data, n := [], 0;
      assert rcvQueue[0..] == rcvQueue;
      while n < |rcvQueue|
        invariant n <= |rcvQueue|
        invariant FirstLen(rcvQueue) == n + FirstLen(rcvQueue[n..])
        invariant data == Bytes(rcvQueue[..n])
      {
        var seg := rcvQueue[n];
        assert rcvQueue[n..][1..] == rcvQueue[n + 1..];
        assert rcvQueue[..n + 1][..n] == rcvQueue[..n];
        data := data + seg.data;
        n := n + 1;
        if seg.frg == 0 { return; }
      }
    }

    /** `ikcp_recv` */
    method Recv(len: int) returns (code: int, data: seq<byte>)
      requires Counted()
      modifies `rcvBuf, `nRcvBuf, `rcvQueue, `nRcvQue, `rcvNxt, `prober
      ensures Counted()
      ensures Received(State(), code, data) == KcpSpec.Recv(old(State()), len)
      ensures old(Valid()) ==> Valid()
    {
      if Valid() { RecvOk(State(), len); }
      code, data := RecvFirst(len);
    }

    /** The assertion of the source, that the merged length is the peeked one, holds because `code` is both. */
    method RecvFirst(len: int) returns (code: int, data: seq<byte>)
      requires Counted()
      modifies `rcvBuf, `nRcvBuf, `rcvQueue, `nRcvQue, `rcvNxt, `prober
      ensures Counted()
      ensures Received(State(), code, data) == KcpSpec.Recv(old(State()), len)
    {
      if |rcvQueue| == 0 { return -1, []; }
      var peeksize := Peek();
      if peeksize < 0 { return -2, []; }
      if peeksize > (if len < 0 then -len else len) { return -3, []; }
      var n;
      data, n := Merge();
      Deliver(if len < 0 then 0 else n);
      code := |data|;
    }

    method Deliver(n: nat)
      requires Counted() && n <= |rcvQueue|
      modifies `rcvBuf, `nRcvBuf, `rcvQueue, `nRcvQue, `rcvNxt, `prober
      ensures Counted()
      ensures var k := old(State()); var rcv := Drain(k.rcv.(queue := k.rcv.queue[n..]), cfg.rcvWnd);
        State() == k.(rcv := rcv, prober := k.prober.(askTell := k.prober.askTell ||
                                                       (|k.rcv.queue| >= cfg.rcvWnd && |rcv.queue| < cfg.rcvWnd)))
    {
      Take(n);
    }

    /** Takes `n` segments off `rcv_queue` and fills it up from `rcv_buf`. */
    method Take(n: nat)
      requires Counted() && n <= |rcvQueue|
      modifies `rcvBuf, `nRcvBuf, `rcvQueue, `nRcvQue, `rcvNxt, `prober
      ensures Counted()
      ensures Rcv(rcvNxt, rcvBuf, rcvQueue) == Drain(old(Rcv(rcvNxt, rcvBuf, rcvQueue[n..])), cfg.rcvWnd)
      ensures prober == old(prober).(askTell := old(prober).askTell ||
                          (|old(rcvQueue)| >= cfg.rcvWnd && |rcvQueue| < cfg.rcvWnd))
    {
      var recover := nRcvQue >= cfg.rcvWnd;
      rcvQueue := rcvQueue[n..];
      nRcvQue := nRcvQue - n;
      DrainBuf();
      if nRcvQue < cfg.rcvWnd && recover { prober := prober.(askTell := true); }
    }

    // -------------------------------------------------------------- ikcp_flush

    /** Writes one segment to the output buffer, sending the buffer first if the segment does not fit. */
    method Write(p: Packet, out: seq<seq<byte>>, buffer: seq<byte>, ghost written: seq<Packet>)
      returns (out': seq<seq<byte>>, buffer': seq<byte>)
      requires Counted() && Encodes() && Packing(out, buffer) == PackAll(enc, cfg.mtu, written)
      ensures Packing(out', buffer') == PackAll(enc, cfg.mtu, written + [p])
    {
      PackSnoc(enc, cfg.mtu, written, p);
      out', buffer' := out, buffer;
      var size := |buffer|;
      if size + OVERHEAD + |p.data| > cfg.mtu {
        if size != 0 { out' := out + [buffer]; }
        buffer' := [];
      }
      buffer' := buffer' + enc(p);
    }

    /** `ikcp_wnd_unused` */
    method Unused() returns (r: u32)
      requires Counted()
      ensures r == Room(|rcvQueue|, cfg.rcvWnd)
    {
      if nRcvQue < cfg.rcvWnd { return cfg.rcvWnd - nRcvQue; }
      return 0;
    }

    /** Writes the pending acknowledgements and empties the ack list. */
    method FlushAcks() returns (out: seq<seq<byte>>, buffer: seq<byte>, last: Ack)
      requires Counted() && Encodes()
      modifies `ackcount
      ensures Counted() && ackcount == 0
      ensures var k := old(State());
        Packing(out, buffer) == PackAll(enc, cfg.mtu, AckPackets(k, |k.acks|)) && last == LastAck(k)
    {
      ghost var k := State();
      out, buffer, last := [], [], Ack(0, 0);
      for i := 0 to ackcount
        modifies {}
        invariant Packing(out, buffer) == PackAll(enc, cfg.mtu, AckPackets(k, i))
        invariant last == if i == 0 then Ack(0, 0) else k.acks[i - 1]
      {
        out, buffer, last := WriteAck(i, out, buffer, k);
      }
      ackcount := 0;
    }

    method WriteAck(i: nat, out: seq<seq<byte>>, buffer: seq<byte>, ghost k: Kcp)
      returns (out': seq<seq<byte>>, buffer': seq<byte>, last: Ack)
      requires Counted() && Encodes() && k == State() && i < ackcount
      requires Packing(out, buffer) == PackAll(enc, cfg.mtu, AckPackets(k, i))
      ensures last == k.acks[i]
      ensures Packing(out', buffer') == PackAll(enc, cfg.mtu, AckPackets(k, i + 1))
    {
      var wnd := Unused();
      last := AckGet(i);
      var p := Packet(cfg.conv, CMD_ACK, 0, Low16(wnd), last.ts, last.sn, rcvNxt, []);
      AckNext(k, i, p);
      out', buffer' := Write(p, out, buffer, AckPackets(k, i));
    }

    /** `ikcp_ack_get` */
    method AckGet(i: nat) returns (a: Ack)
      requires Counted() && i < ackcount
      ensures a == State().acks[i]
    {
      a := Ack(acklist[i * 2], acklist[i * 2 + 1]);
    }

    /** The window probe timer. */
    method Probe()
      requires Counted()
      modifies `prober
      ensures prober == ProbeTimer(old(prober), rmtWnd, clock.current)
    {
      if rmtWnd == 0 {
        if prober.wait == 0 {
          prober := prober.(wait := PROBE_INIT, ts := Add(clock.current, PROBE_INIT));
        } else if TimeDiff(clock.current, prober.ts) >= 0 {
          var wait: u32 := prober.wait;
          if wait < PROBE_INIT { wait := PROBE_INIT; }
          wait := Add(wait, wait / 2);
          if wait > PROBE_LIMIT { wait := PROBE_LIMIT; }
          prober := prober.(wait := wait, ts := Add(clock.current, wait), askSend := true);
        }
      } else {
        prober := prober.(ts := 0, wait := 0);
      }
    }

    /** Writes the window probe and the window size, if asked for. */
    method FlushProbes(out: seq<seq<byte>>, buffer: seq<byte>, last: Ack, ghost k: Kcp, ghost written: seq<Packet>)
      returns (out': seq<seq<byte>>, buffer': seq<byte>)
      requires Counted() && Encodes() && k.cfg == cfg && k.rcv == Rcv(rcvNxt, rcvBuf, rcvQueue) && last == LastAck(k)
      requires Packing(out, buffer) == PackAll(enc, cfg.mtu, written)
      modifies `prober
      ensures prober == old(prober).(askSend := false, askTell := false)
      ensures Packing(out', buffer') == PackAll(enc, cfg.mtu, written + ProbePackets(k, old(prober)))
    {
      var wnd := Unused();
      out', buffer' := out, buffer;
      ProbeSplit(k, prober, written);
      ghost var done := written;
      if prober.askSend {
        var p := Packet(cfg.conv, CMD_WASK, 0, Low16(wnd), last.ts, last.sn, rcvNxt, []);
        out', buffer' := Write(p, out', buffer', done);
        assert p == Control(k, CMD_WASK, LastAck(k));
        done := done + [p];
      }
      if prober.askTell {
        var p := Packet(cfg.conv, CMD_WINS, 0, Low16(wnd), last.ts, last.sn, rcvNxt, []);
        out', buffer' := Write(p, out', buffer', done);
        assert p == Control(k, CMD_WINS, LastAck(k));
        done := done + [p];
      }
      prober := prober.(askSend := false, askTell := false);
    }

    /** Moves fragments from `snd_queue` to `snd_buf` while the window has room. */
    method MoveQueue(cwnd: u32, ghost k: Kcp)
      requires Counted() && k.cfg == cfg && k.clock == clock && k.rtt == rtt && k.rcv == Rcv(rcvNxt, rcvBuf, rcvQueue)
      modifies `sndQueue, `nSndQue, `sndBuf, `nSndBuf, `sndNxt
      ensures Counted()
      ensures Snd(sndUna, sndNxt, sndQueue, sndBuf) == MoveData(k, old(Snd(sndUna, sndNxt, sndQueue, sndBuf)), cwnd)
    {
      var wnd := Unused();
      while TimeDiff(sndNxt, Add(sndUna, cwnd)) < 0
        invariant Counted()
        invariant MoveData(k, Snd(sndUna, sndNxt, sndQueue, sndBuf), cwnd) ==
                  MoveData(k, old(Snd(sndUna, sndNxt, sndQueue, sndBuf)), cwnd)
        decreases |sndQueue|
      {
        if |sndQueue| == 0 { break; }
        var f := sndQueue[0];
        var seg := Seg(f.frg, wnd, clock.current, sndNxt, rcvNxt, f.data, clock.current, rtt.rto, 0, 0);
        sndQueue := sndQueue[1..];
        sndBuf := sndBuf + [seg];
        nSndQue := nSndQue - 1;
        nSndBuf := nSndBuf + 1;
        sndNxt := Add(sndNxt, 1);
      }
    }

    /** Decides about one segment of `snd_buf`, as the body of the last loop of `ikcp_flush`. */
    method Restamp(s: Seg, wnd: u32, ghost k: Kcp) returns (s': Seg, why: Reason)
      requires k.cfg == cfg && k.clock == clock && k.rtt == rtt && k.rcv.nxt == rcvNxt && wnd == WndUnused(k)
      ensures why == Decide(k, s) && s' == Retime(k, s)
    {
      var rtomin := if cfg.nodelay == 0 then rtt.rto / 8 else 0;
      s', why := s, NotNow;
      if s.xmit == 0 {
        why := First;
        s' := s.(xmit := Add(s.xmit, 1), rto := rtt.rto, resendts := Add(Add(clock.current, rtt.rto), rtomin));
      } else if TimeDiff(clock.current, s.resendts) >= 0 {
        why := Timeout;
        var rto: u32;
        if cfg.nodelay == 0 {
          rto := Add(s.rto, Max(s.rto, rtt.rto));
        } else {
          var step := if cfg.nodelay < 2 then Signed(s.rto) else Signed(rtt.rto);
          rto := Add(s.rto, Unsigned(HalfTowardZero(step)));
        }
        s' := s.(xmit := Add(s.xmit, 1), rto := rto, resendts := Add(clock.current, rto));
      } else if s.fastack >= Resent(cfg) {
        if Signed(s.xmit) <= cfg.fastlimit || cfg.fastlimit <= 0 {
          why := Fast;
          s' := s.(xmit := Add(s.xmit, 1), fastack := 0, resendts := Add(clock.current, s.rto));
        }
      }
      if why != NotNow { s' := s'.(ts := clock.current, wnd := wnd, una := rcvNxt); }
    }

    /** The last loop of `ikcp_flush`: restamps `snd_buf` in place and writes what is due. */
    method FlushData(out: seq<seq<byte>>, buffer: seq<byte>, ghost k: Kcp, ghost written: seq<Packet>)
      returns (out': seq<seq<byte>>, buffer': seq<byte>, lost: bool, change: bool)
      requires Counted() && Encodes() && k.cfg == cfg && k.clock == clock && k.rtt == rtt && k.rcv == Rcv(rcvNxt, rcvBuf, rcvQueue)
      requires k.xmit == xmit && k.dead == dead
      requires Packing(out, buffer) == PackAll(enc, cfg.mtu, written)
      modifies `sndBuf, `xmit, `dead
      ensures Counted()
      ensures var n, r := |old(sndBuf)|, ResendFirst(k, old(sndBuf), |old(sndBuf)|);
        && sndBuf == RestampFirst(k, old(sndBuf), n)
        && xmit == r.xmit && dead == r.dead && lost == r.lost && change == r.fast
        && Packing(out', buffer') == PackAll(enc, cfg.mtu, written + r.packets)
    {
      ghost var was := sndBuf;
      out', buffer', lost, change := out, buffer, false, false;
      assert written + [] == written && RestampFirst(k, was, 0) == was;
      var wnd := Unused();
      for i := 0 to |sndBuf|
        invariant nSndBuf == |was| && Flushing(i, out', buffer', lost, change, k, was, written)
      {
        out', buffer', lost, change := FlushOne(i, wnd, out', buffer', lost, change, k, was, written);
      }
    }

    /** The first `i` segments of `snd_buf`, which was `was`, are done. */
    ghost predicate Flushing(i: nat, out: seq<seq<byte>>, buffer: seq<byte>, lost: bool, change: bool,
                             k: Kcp, was: seq<Seg>, written: seq<Packet>)
      reads this
    {
      && i <= |was| && sndBuf == RestampFirst(k, was, i)
      && var r := ResendFirst(k, was, i);
      && xmit == r.xmit && dead == r.dead && lost == r.lost && change == r.fast
      && Packing(out, buffer) == PackAll(enc, cfg.mtu, written + r.packets)
    }

    /** The body of the last loop of `ikcp_flush`. */
    method FlushOne(i: nat, wnd: u32, out: seq<seq<byte>>, buffer: seq<byte>, lost: bool, change: bool,
                    ghost k: Kcp, ghost was: seq<Seg>, ghost written: seq<Packet>)
      returns (out': seq<seq<byte>>, buffer': seq<byte>, lost': bool, change': bool)
      requires Counted() && Encodes() && k.cfg == cfg && k.clock == clock && k.rtt == rtt && k.rcv.nxt == rcvNxt && wnd == WndUnused(k)
      requires i < |was| && Flushing(i, out, buffer, lost, change, k, was, written)
      modifies `sndBuf, `xmit, `dead
      ensures Flushing(i + 1, out', buffer', lost', change', k, was, written)
    {
      RestampNext(k, was, i);
      var seg, why := Restamp(sndBuf[i], wnd, k);
      out', buffer', lost', change' := Store(i, seg, why, out, buffer, lost, change, ResendFirst(k, was, i), written);
    }

    /** Stores a restamped segment and writes it if it is due. */
    method Store(i: nat, seg: Seg, why: Reason, out: seq<seq<byte>>, buffer: seq<byte>, lost: bool, change: bool,
                 ghost r: Resend, ghost written: seq<Packet>)
      returns (out': seq<seq<byte>>, buffer': seq<byte>, lost': bool, change': bool)
      requires Counted() && Encodes() && i < |sndBuf| && xmit == r.xmit && dead == r.dead && lost == r.lost && change == r.fast
      requires Packing(out, buffer) == PackAll(enc, cfg.mtu, written + r.packets)
      modifies `sndBuf, `xmit, `dead
      ensures sndBuf == old(sndBuf)[i := seg]
      ensures var r' := Note(r, cfg, seg, why);
        && xmit == r'.xmit && dead == r'.dead && lost' == r'.lost && change' == r'.fast
        && Packing(out', buffer') == PackAll(enc, cfg.mtu, written + r'.packets)
    {
      out', buffer', lost', change' := out, buffer, lost, change;
      sndBuf := sndBuf[i := seg];
      if why == Timeout { xmit := Add(xmit, 1); lost' := true; }
      if why == Fast { change' := true; }
      if why != NotNow {
        var p := PushPacket(cfg, seg);
        out', buffer' := Write(p, out, buffer, written + r.packets);
        assert written + r.packets + [p] == written + (r.packets + [p]);
        if seg.xmit >= cfg.deadLink { dead := true; }
      }
    }

    /** Congestion control at the end of `ikcp_flush`. */
    method Regulate(cwnd: u32, lost: bool, change: bool)
      requires Counted()
      modifies `cong
      ensures cong == Congest(old(cong), cfg, State().snd, cwnd, change, lost)
    {
      if change {
        var ssthresh := Sub(sndNxt, sndUna) / 2;
        if ssthresh < THRESH_MIN { ssthresh := THRESH_MIN; }
        var w := Add(ssthresh, Resent(cfg));
        cong := Cong(w, MulWrap(w, cfg.mss), ssthresh);
      }
      if lost {
        var ssthresh := cwnd / 2;
        if ssthresh < THRESH_MIN { ssthresh := THRESH_MIN; }
        cong := Cong(1, cfg.mss, ssthresh);
      }
      if cong.cwnd < 1 { cong := cong.(cwnd := 1, incr := cfg.mss); }
    }

    /** The segments without payload: acknowledgements, window probe, window size. */
    method FlushControl() returns (out: seq<seq<byte>>, buffer: seq<byte>)
      requires Counted() && Encodes()
      modifies `ackcount, `prober
      ensures Counted() && ackcount == 0
      ensures var k := old(State()); var p := ProbeTimer(k.prober, k.rmtWnd, k.clock.current);
        && State() == k.(acks := [], prober := p.(askSend := false, askTell := false))
        && Packing(out, buffer) == PackAll(enc, cfg.mtu, AckPackets(k, |k.acks|) + ProbePackets(k, p))
    {
      ghost var k := State();
      var last;
      out, buffer, last := FlushAcks();
      Probe();
      ghost var p := prober;
      assert p == ProbeTimer(k.prober, k.rmtWnd, k.clock.current);
      out, buffer := FlushProbes(out, buffer, last, k, AckPackets(k, |k.acks|));
    }

    /** The window for new segments. */
    method Window() returns (cwnd: u32)
      requires Counted()
      ensures cwnd == SendWindow(State())
    {
      cwnd := Min(cfg.sndWnd, rmtWnd);
      if cfg.nocwnd == 0 { cwnd := Min(cong.cwnd, cwnd); }
    }

    /** The segments with payload: new ones as the window allows, old ones as they are due; then the
        rest of the buffer goes out. */
    method FlushPush(out: seq<seq<byte>>, buffer: seq<byte>, ghost k: Kcp, ghost written: seq<Packet>)
      returns (out': seq<seq<byte>>)
      requires Counted() && Encodes() && k == State().(acks := k.acks, prober := k.prober)
      requires Packing(out, buffer) == PackAll(enc, cfg.mtu, written)
      modifies `sndQueue, `nSndQue, `sndBuf, `nSndBuf, `sndNxt, `xmit, `dead, `cong
      ensures Counted()
      ensures var pass := FlushPass(k);
        && State() == old(State()).(snd := pass.snd, cong := pass.cong, xmit := pass.resend.xmit, dead := pass.resend.dead)
        && out' == PackedBy(enc, cfg.mtu, written + pass.resend.packets)
    {
      out' := FlushSegments(out, buffer, k, written);
    }

    method FlushSegments(out: seq<seq<byte>>, buffer: seq<byte>, ghost k: Kcp, ghost written: seq<Packet>)
      returns (out': seq<seq<byte>>)
      requires Counted() && Encodes() && k == State().(acks := k.acks, prober := k.prober)
      requires Packing(out, buffer) == PackAll(enc, cfg.mtu, written)
      modifies `sndQueue, `nSndQue, `sndBuf, `nSndBuf, `sndNxt, `xmit, `dead, `cong
      ensures Counted()
      ensures var pass := FlushPass(k);
        && Snd(sndUna, sndNxt, sndQueue, sndBuf) == pass.snd && cong == pass.cong
        && xmit == pass.resend.xmit && dead == pass.resend.dead
        && out' == PackedBy(enc, cfg.mtu, written + pass.resend.packets)
    {
      var buffer', lost, change;
      var cwnd := Window();
      MoveQueue(cwnd, k);
      out', buffer', lost, change := FlushData(out, buffer, k, written);
      if |buffer'| > 0 { out' := out' + [buffer']; }
      Regulate(cwnd, lost, change);
    }

    /** `ikcp_flush`: returns the datagrams handed to the output callback, in order. */
    method Flush() returns (out: seq<seq<byte>>)
      requires Counted() && Encodes()
      modifies `ackcount, `prober, `sndQueue, `nSndQue, `sndBuf, `nSndBuf, `sndNxt, `xmit, `dead, `cong
      ensures Counted()
      ensures State() == KcpSpec.Flush(old(State())).k
      ensures out == PackedBy(enc, cfg.mtu, KcpSpec.Flush(old(State())).packets)
      ensures old(Valid()) ==> Valid()
    {
      if Valid() { FlushOk(State()); }
      out := FlushAll();
    }

    method FlushAll() returns (out: seq<seq<byte>>)
      requires Counted() && Encodes()
      modifies `ackcount, `prober, `sndQueue, `nSndQue, `sndBuf, `nSndBuf, `sndNxt, `xmit, `dead, `cong
      ensures Counted()
      ensures State() == KcpSpec.Flush(old(State())).k
      ensures out == PackedBy(enc, cfg.mtu, KcpSpec.Flush(old(State())).packets)
    {
      ghost var k := State();
      if !clock.updated { return []; }
      var buffer;
      ghost var p := ProbeTimer(k.prober, k.rmtWnd, k.clock.current);
      out, buffer := FlushControl();
      out := FlushPush(out, buffer, k, AckPackets(k, |k.acks|) + ProbePackets(k, p));
    }

    /** `ikcp_update` */
    method Update(current: u32) returns (out: seq<seq<byte>>)
      requires Counted() && Encodes()
      modifies `clock, `ackcount, `prober, `sndQueue, `nSndQue, `sndBuf, `nSndBuf, `sndNxt, `xmit, `dead, `cong
      ensures Counted()
      ensures State() == KcpSpec.Update(old(State()), current).k
      ensures out == PackedBy(enc, cfg.mtu, KcpSpec.Update(old(State()), current).packets)
      ensures old(Valid()) ==> Valid()
    {
      if Valid() { UpdateOk(State(), current); }
      out := [];
      var flush := clock.flush;
      if !clock.updated { flush := current; }
      var slap := TimeDiff(current, flush);
      if slap >= 10000 || slap < -10000 {
        flush := current;
        slap := 0;
      }
      clock := Clock(current, flush, true);
      if slap >= 0 {
        flush := Add(flush, cfg.interval);
        if TimeDiff(current, flush) >= 0 { flush := Add(current, cfg.interval); }
        clock := clock.(flush := flush);
        out := Flush();
      }
    }

    /** `ikcp_check` */
    method Check(current: u32) returns (r: u32)
      requires Counted()
      ensures r == KcpTimer.Check(State(), current)
    {
      if !clock.updated { return current; }
      var flush := clock.flush;
      if TimeDiff(current, flush) >= 10000 || TimeDiff(current, flush) < -10000 { flush := current; }
      if TimeDiff(current, flush) >= 0 { return current; }
      var tmFlush := TimeDiff(flush, current);
      var tmPacket := 0x7fff_ffff;
      for i := 0 to |sndBuf|
        invariant 0 < tmPacket == KcpTimer.Nearest(sndBuf, i, current, 0x7fff_ffff)
      {
        var diff := TimeDiff(sndBuf[i].resendts, current);
        if diff <= 0 { return current; }
        if diff < tmPacket { tmPacket := diff; }
      }
      var minimal := if tmPacket < tmFlush then tmPacket else tmFlush;
      if minimal >= cfg.interval { minimal := cfg.interval; }
      return Add(current, minimal);
    }
  }
}
