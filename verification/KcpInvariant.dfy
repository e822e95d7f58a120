/**
 The invariant of one KCP endpoint.  It is kept by every call, whatever bytes arrive, across the
 wrap-around of 32-bit sequence numbers.
 */
module KcpInvariant {
  import opened Sequences
  import opened Word
  import opened KcpWire
  import opened KcpSpec
  import opened KcpShape

  /** Strictly ascending numbers, counted from `base`, all within `lim` of it. */
  ghost predicate SegsAscend(buf: seq<Seg>, base: u32, lim: u32) {
    && (forall i | 0 <= i < |buf| :: Sub(buf[i].sn, base) < lim)
    && (forall i, j | 0 <= i < j < |buf| :: Sub(buf[i].sn, base) < Sub(buf[j].sn, base))
  }

  ghost predicate PacketsAscend(buf: seq<Packet>, base: u32, lim: u32) {
    && (forall i | 0 <= i < |buf| :: Sub(buf[i].sn, base) < lim)
    && (forall i, j | 0 <= i < j < |buf| :: Sub(buf[i].sn, base) < Sub(buf[j].sn, base))
  }

  /** `snd_buf` ascends within [snd_una, snd_nxt), `snd_una` is the first number in it or `snd_nxt`,
      and no more than `snd_wnd` numbers are out. */
  ghost predicate SndOk(s: Snd, wnd: u32) {
    && Sub(s.nxt, s.una) <= wnd < HALF
    && s.una == (if s.buf == [] then s.nxt else s.buf[0].sn)
    && SegsAscend(s.buf, s.una, Sub(s.nxt, s.una))
  }

  /** `rcv_buf` ascends within [rcv_nxt, rcv_nxt + rcv_wnd); `rcv_queue` is contiguous, ends just
      below `rcv_nxt` and is no longer than `rcv_wnd`. */
  ghost predicate RcvOk(r: Rcv, wnd: u32) {
    && |r.queue| <= wnd < HALF
    && PacketsAscend(r.buf, r.nxt, wnd)
    && (forall i | 0 <= i < |r.queue| :: r.queue[i].sn == Sub(r.nxt, |r.queue| - i))
  }

  /** Nothing that could be delivered is left in `rcv_buf`. */
  predicate Settled(r: Rcv, wnd: u32) {
    r.buf == [] || r.buf[0].sn != r.nxt || |r.queue| >= wnd
  }

  /** Payloads fit one datagram. */
  ghost predicate Fits(k: Kcp) {
    && (forall f | f in k.snd.queue :: |f.data| <= k.cfg.mss)
    && (forall s | s in k.snd.buf :: |s.data| <= k.cfg.mss)
  }

  /** The window probe waits between its initial and its longest time, or not at all. */
  predicate Paced(p: Prober) {
    p.wait == 0 || PROBE_INIT <= p.wait <= PROBE_LIMIT
  }

  ghost predicate EndpointOk(k: Kcp) {
    && Configured(k.cfg)
    && SndOk(k.snd, k.cfg.sndWnd)
    && RcvOk(k.rcv, k.cfg.rcvWnd) && Settled(k.rcv, k.cfg.rcvWnd)
    && Fits(k)
    && Paced(k.prober) && k.cong.ssthresh >= THRESH_MIN
  }

  lemma CreateOk(c: Config)
    requires Configured(c)
    ensures EndpointOk(Create(c))
  {
  }

  // ---------------------------------------------------------------- the sending side

  /** Removing segments and shrinking keeps the sending side in order. */
  lemma ShrinkOk(s: Snd, buf: seq<Seg>, wnd: u32)
    requires SndOk(s, wnd)
    requires SegsAscend(buf, s.una, Sub(s.nxt, s.una))
    ensures SndOk(Shrink(s.(buf := buf)), wnd)
  {
    if buf != [] {
      var una := buf[0].sn;
      forall i | 0 <= i < |buf| ensures Sub(buf[i].sn, una) == Sub(buf[i].sn, s.una) - Sub(una, s.una) {}
      assert Sub(s.nxt, una) == Sub(s.nxt, s.una) - Sub(una, s.una);
    }
  }

  lemma DropUnaOk(s: Snd, wnd: u32, una: u32)
    requires SndOk(s, wnd)
    ensures SndOk(Shrink(s.(buf := DropUna(s.buf, una))), wnd)
  {
    var n := DropUnaShape(s.buf, una);
    ShrinkOk(s, s.buf[n..], wnd);
  }

  lemma ParseAckOk(s: Snd, wnd: u32, sn: u32)
    requires SndOk(s, wnd)
    ensures SndOk(Shrink(ParseAck(s, sn)), wnd)
  {
    var i := AckIndex(s.buf, sn, 0);
    if i < |s.buf| && InFlight(s, sn) {
      WithoutAscends(s.buf, i, s.una, Sub(s.nxt, s.una));
      ShrinkOk(s, RemoveAt(s.buf, i), wnd);
    }
  }

  lemma WithoutAscends(buf: seq<Seg>, n: nat, base: u32, lim: u32)
    requires SegsAscend(buf, base, lim) && n < |buf|
    ensures SegsAscend(RemoveAt(buf, n), base, lim)
  {
    var w := RemoveAt(buf, n);
    forall i | 0 <= i < |w| ensures w[i] == buf[if i < n then i else i + 1] {}
  }

  lemma SameContentsOk(s: Snd, wnd: u32, buf: seq<Seg>)
    requires SndOk(s, wnd) && SameContents(buf, s.buf)
    ensures SndOk(s.(buf := buf), wnd)
  {
    forall i | 0 <= i < |buf| ensures buf[i].sn == s.buf[i].sn { assert SameContent(buf[i], s.buf[i]); }
  }

  lemma AppendOk(s: Snd, wnd: u32, f: Seg)
    requires SndOk(s, wnd) && Sub(s.nxt, s.una) < wnd && f.sn == s.nxt
    ensures SndOk(s.(nxt := Add(s.nxt, 1), buf := s.buf + [f]), wnd)
  {
  }

  lemma {:induction false} MoveDataOk(k: Kcp, s: Snd, cwnd: u32, wnd: u32)
    requires SndOk(s, wnd) && cwnd <= wnd
    ensures SndOk(MoveData(k, s, cwnd), wnd)
    decreases |s.queue|
  {
    if TimeDiff(s.nxt, Add(s.una, cwnd)) < 0 && s.queue != [] {
      var f := NewSeg(k, s.queue[0], s.nxt);
      TimeDiffFrom(s.nxt, Add(s.una, cwnd), s.una);
      AppendOk(s, wnd, f);
      MoveDataOk(k, Snd(s.una, Add(s.nxt, 1), s.queue[1..], s.buf + [f]), cwnd, wnd);
    }
  }

  // ---------------------------------------------------------------- the receiving side

  lemma InsertAscends(buf: seq<Packet>, p: Packet, i: nat, base: u32, lim: u32)
    requires PacketsAscend(buf, base, lim) && lim < HALF && Sub(p.sn, base) < lim && i <= |buf|
    requires i > 0 ==> TimeDiff(p.sn, buf[i - 1].sn) > 0
    requires i < |buf| ==> TimeDiff(p.sn, buf[i].sn) <= 0 && p.sn != buf[i].sn
    ensures PacketsAscend(InsertAt(buf, i, p), base, lim)
  {
    var f := (q: Packet) => Sub(q.sn, base) as int;
    if i > 0 { TimeDiffFrom(p.sn, buf[i - 1].sn, base); }
    if i < |buf| { TimeDiffFrom(p.sn, buf[i].sn, base); }
    InsertAtAscends(f, buf, i, p);
    var r := InsertAt(buf, i, p);
    forall j | 0 <= j < |r| ensures Sub(r[j].sn, base) < lim {}
    forall j, l | 0 <= j < l < |r| ensures Sub(r[j].sn, base) < Sub(r[l].sn, base) { assert f(r[j]) < f(r[l]); }
  }

  lemma InsertSortedOk(r: Rcv, wnd: u32, p: Packet)
    requires RcvOk(r, wnd)
    requires TimeDiff(p.sn, Add(r.nxt, wnd)) < 0 && TimeDiff(p.sn, r.nxt) >= 0
    ensures RcvOk(r.(buf := InsertSorted(r.buf, p)), wnd)
  {
    TimeDiffFrom(p.sn, Add(r.nxt, wnd), r.nxt);
    SlotShape(r.buf, p.sn, |r.buf|);
    var i := Slot(r.buf, p.sn, |r.buf|);
    if i.Some? { InsertAscends(r.buf, p, i.value, r.nxt, wnd); }
  }

  lemma DrainOneOk(r: Rcv, wnd: u32)
    requires RcvOk(r, wnd) && r.buf != [] && r.buf[0].sn == r.nxt && |r.queue| < wnd
    ensures RcvOk(Rcv(Add(r.nxt, 1), r.buf[1..], r.queue + [r.buf[0]]), wnd)
  {
    var r' := Rcv(Add(r.nxt, 1), r.buf[1..], r.queue + [r.buf[0]]);
    forall i | 0 <= i < |r'.buf| ensures Sub(r'.buf[i].sn, r'.nxt) == Sub(r.buf[i + 1].sn, r.nxt) - 1 {
      assert Sub(r.buf[0].sn, r.nxt) < Sub(r.buf[i + 1].sn, r.nxt);
    }
  }

  lemma {:induction false} DrainOk(r: Rcv, wnd: u32)
    requires RcvOk(r, wnd)
    ensures RcvOk(Drain(r, wnd), wnd) && Settled(Drain(r, wnd), wnd)
    decreases |r.buf|
  {
    if r.buf != [] && r.buf[0].sn == r.nxt && |r.queue| < wnd {
      DrainOneOk(r, wnd);
      DrainOk(Rcv(Add(r.nxt, 1), r.buf[1..], r.queue + [r.buf[0]]), wnd);
    }
  }

  lemma ParseDataOk(r: Rcv, wnd: u32, p: Packet)
    requires RcvOk(r, wnd) && Settled(r, wnd)
    ensures RcvOk(ParseData(r, wnd, p), wnd) && Settled(ParseData(r, wnd, p), wnd)
  {
    if TimeDiff(p.sn, Add(r.nxt, wnd)) < 0 && TimeDiff(p.sn, r.nxt) >= 0 {
      InsertSortedOk(r, wnd, p);
      DrainOk(r.(buf := InsertSorted(r.buf, p)), wnd);
    }
  }

  // ---------------------------------------------------------------- calls

  lemma OnUnaOk(k: Kcp, p: Packet)
    requires EndpointOk(k)
    ensures EndpointOk(OnUna(k, p))
  {
    DropUnaOk(k.snd, k.cfg.sndWnd, p.una);
    var n := DropUnaShape(k.snd.buf, p.una);
  }

  lemma OnAckOk(k: Kcp, p: Packet)
    requires EndpointOk(k)
    ensures EndpointOk(OnAck(k, p))
  {
    ParseAckOk(k.snd, k.cfg.sndWnd, p.sn);
  }

  lemma OnPushOk(k: Kcp, p: Packet)
    requires EndpointOk(k)
    ensures EndpointOk(OnPush(k, p))
  {
    ParseDataOk(k.rcv, k.cfg.rcvWnd, p);
  }

  lemma ProcessOk(i: Scanned, p: Packet)
    requires EndpointOk(i.k)
    ensures EndpointOk(Process(i, p).k)
  {
    OnUnaOk(i.k, p);
    var k := OnUna(i.k, p);
    if p.cmd == CMD_ACK { OnAckOk(k, p); }
    else if p.cmd == CMD_PUSH { OnPushOk(k, p); }
  }

  lemma {:induction false} ProcessAllOk(k: Kcp, ps: seq<Packet>)
    requires EndpointOk(k)
    ensures EndpointOk(ProcessAll(k, ps).k)
    decreases |ps|
  {
    if ps != [] {
      ProcessAllOk(k, ps[..|ps| - 1]);
      ProcessOk(ProcessAll(k, ps[..|ps| - 1]), ps[|ps| - 1]);
    }
  }

  lemma FinishInputOk(i: Scanned, prevUna: u32)
    requires EndpointOk(i.k)
    ensures EndpointOk(FinishInput(i, prevUna))
  {
    if i.maxack.Some? {
      BumpSkippedShape(i.k.snd.buf, i.maxack.value);
      SameContentsOk(i.k.snd, i.k.cfg.sndWnd, BumpSkipped(i.k.snd.buf, i.maxack.value));
      SameContentsFit(i.k, BumpSkipped(i.k.snd.buf, i.maxack.value));
    }
  }

  lemma SameContentsFit(k: Kcp, buf: seq<Seg>)
    requires Fits(k) && SameContents(buf, k.snd.buf)
    ensures forall s | s in buf :: |s.data| <= k.cfg.mss
  {
    forall s | s in buf ensures |s.data| <= k.cfg.mss {
      var i :| 0 <= i < |buf| && buf[i] == s;
      assert SameContent(buf[i], k.snd.buf[i]);
    }
  }

  /** Any datagram at all, well-formed or not, keeps the endpoint in order. */
  lemma InputOk(k: Kcp, d: seq<byte>)
    requires EndpointOk(k)
    ensures EndpointOk(InputDatagram(k, d).k)
  {
    if |d| >= OVERHEAD {
      var parsed := Parse(k.cfg.conv, d);
      ProcessAllConfig(k, parsed.packets);
      ProcessAllOk(k, parsed.packets);
      FinishInputOk(ProcessAll(k, parsed.packets), k.snd.una);
    }
  }

  lemma {:induction false} FragmentFits(data: seq<byte>, mss: nat, count: nat, stream: bool)
    requires 0 < mss < HALF && count <= 256
    ensures forall f | f in Fragment(data, mss, count, stream) :: |f.data| <= mss
    decreases count
  {
    if count > 0 { FragmentFits(data[Min(|data|, mss)..], mss, count - 1, stream); }
  }

  /** What `ikcp_send` queues fits the datagram. */
  lemma SendOk(k: Kcp, data: seq<byte>)
    requires EndpointOk(k)
    ensures EndpointOk(k.(snd := k.snd.(queue := Send(k.cfg, k.snd.queue, data).queue)))
  {
    var (queue, rest) := if k.cfg.stream then Extend(k.snd.queue, data, k.cfg.mss) else (k.snd.queue, data);
    var count := FragCount(|rest|, k.cfg.mss);
    FragCountCovers(|rest|, k.cfg.mss);
    if count < WND_RCV { FragmentFits(rest, k.cfg.mss, count, k.cfg.stream); }
  }

  lemma RecvOk(k: Kcp, len: int)
    requires EndpointOk(k)
    ensures EndpointOk(Recv(k, len).k)
  {
    var q, n := k.rcv.queue, FirstLen(k.rcv.queue);
    var r := k.rcv.(queue := q[n..]);
    forall i | 0 <= i < |r.queue| ensures r.queue[i].sn == Sub(r.nxt, |r.queue| - i) {
      assert r.queue[i] == q[n + i];
    }
    DrainOk(r, k.cfg.rcvWnd);
    DrainOk(k.rcv, k.cfg.rcvWnd);
  }

  lemma {:induction false} MoveDataFits(k: Kcp, s: Snd, cwnd: u32)
    requires forall f | f in s.queue :: |f.data| <= k.cfg.mss
    requires forall f | f in s.buf :: |f.data| <= k.cfg.mss
    ensures forall f | f in MoveData(k, s, cwnd).queue :: |f.data| <= k.cfg.mss
    ensures forall f | f in MoveData(k, s, cwnd).buf :: |f.data| <= k.cfg.mss
    decreases |s.queue|
  {
    if TimeDiff(s.nxt, Add(s.una, cwnd)) < 0 && s.queue != [] {
      MoveDataFits(k, Snd(s.una, Add(s.nxt, 1), s.queue[1..], s.buf + [NewSeg(k, s.queue[0], s.nxt)]), cwnd);
    }
  }

  lemma FlushOk(k: Kcp)
    requires EndpointOk(k)
    ensures EndpointOk(Flush(k).k)
  {
    var cwnd := SendWindow(k);
    var moved := MoveData(k, k.snd, cwnd);
    MoveDataOk(k, k.snd, cwnd, k.cfg.sndWnd);
    MoveDataFits(k, k.snd, cwnd);
    var buf := RestampFirst(k, moved.buf, |moved.buf|);
    RestampShape(k, moved.buf, |moved.buf|);
    SameContentsOk(moved, k.cfg.sndWnd, buf);
    SameContentsFit(k.(snd := moved), buf);
  }

  lemma UpdateOk(k: Kcp, current: u32)
    requires EndpointOk(k)
    ensures EndpointOk(Update(k, current).k)
  {
    forall c: Clock ensures EndpointOk(Flush(k.(clock := c)).k) { FlushOk(k.(clock := c)); }
  }

  // ---------------------------------------------------------------- windows

  /** Growth ends at the peer's window and does not touch a window that is there already. */
  lemma GrowBounded(g: Cong, rmtWnd: u32, mss: nat)
    requires 0 < mss < HALF
    ensures var r := GrowWindow(g, rmtWnd, mss);
      && r.ssthresh == g.ssthresh && (if g.cwnd < rmtWnd then r.cwnd <= rmtWnd else r == g)
      && (g.cwnd < g.ssthresh && g.cwnd < rmtWnd ==> r.cwnd == g.cwnd + 1)
  {
  }

  /** Beyond the threshold the window grows with the bytes counted in `incr`: these by at most seventeen sixteenths of
      a segment, and the window to as many segments as they fill, if that is more. */
  lemma GrowAvoids(g: Cong, rmtWnd: u32, mss: nat)
    requires 0 < mss < 0x1_0000 && rmtWnd < 0x1_0000 && g.ssthresh <= g.cwnd < rmtWnd && g.incr + 4 * mss < M32
    ensures var r := GrowWindow(g, rmtWnd, mss);
      r.cwnd < rmtWnd ==>
        && Max(g.incr, mss) <= r.incr <= Max(g.incr, mss) + mss + mss / 16
        && g.cwnd <= r.cwnd && (g.cwnd < r.cwnd <==> (g.cwnd + 1) * mss <= r.incr)
        && (g.cwnd < r.cwnd ==> (r.cwnd - 1) * mss < r.incr <= r.cwnd * mss)
  {
    var base: u32 := Max(g.incr, mss);
    ProductBelow(mss, mss, 0x1_0000);
    ProductBelow(g.cwnd + 1, mss, 0x1_0001);
    var square, next := mss * mss, (g.cwnd + 1) * mss;
    QuotientAtMost(base, square / base, square % base, mss);
    var incr := base + square / base + mss / 16;
    MulExact(mss, mss, square);
    MulExact(g.cwnd + 1, mss, next);
    NextIncrExact(g.incr, mss, base, square, incr);
    SegmentsExact(incr, mss);
    GrowExact(g, rmtWnd, mss, incr, next, Segments(incr, mss));
    RoundUp(incr, mss, (incr + mss - 1) / mss);
    MoreThan(g.cwnd, (incr + mss - 1) / mss, mss, incr);
  }

  lemma Monotone(a: int, b: int, m: nat)
    requires a <= b
    ensures a * m <= b * m
  {
    assert 0 <= (b - a) * m == b * m - a * m;
  }

  lemma MulExact(a: u32, b: u32, product: int)
    requires product == a * b && 0 <= product < M32
    ensures MulWrap(a, b) == product
  {
  }

  lemma NextIncrExact(incr: u32, mss: nat, base: u32, square: u32, incr': u32)
    requires 0 < mss < HALF && base == Max(incr, mss) && MulWrap(mss, mss) == square
    requires incr' == base + square / base + mss / 16
    ensures NextIncr(incr, mss) == incr'
  {
  }

  lemma SegmentsExact(incr: u32, mss: nat)
    requires 0 < mss && incr + mss < M32 && mss < HALF
    ensures Segments(incr, mss) == (incr + mss - 1) / mss
  {
  }

  lemma GrowExact(g: Cong, rmtWnd: u32, mss: nat, incr: u32, next: u32, q: u32)
    requires 0 < mss < HALF && g.ssthresh <= g.cwnd < rmtWnd
    requires NextIncr(g.incr, mss) == incr && MulWrap(g.cwnd + 1, mss) == next && Segments(incr, mss) == q
    ensures var r := GrowWindow(g, rmtWnd, mss);
      if next <= incr then (q <= rmtWnd ==> r.incr == incr && r.cwnd == q) && (q > rmtWnd ==> r.cwnd == rmtWnd)
      else r.incr == incr && r.cwnd == g.cwnd
  {
  }

  lemma QuotientAtMost(b: nat, q: int, r: nat, m: nat)
    requires 0 < m <= b && m * m == b * q + r && r < b
    ensures 0 <= q <= m
  {
    assert b * (q - m) == b * q - b * m;
    Monotone(m, b, m);
  }

  lemma ProductBelow(a: nat, b: nat, lim: nat)
    requires a < lim && b < 0x1_0000 && lim <= 0x1_0001
    ensures a * b < M32
  {
    Monotone(a, 0x1_0000, b);
  }

  lemma RoundUp(x: nat, m: nat, q: int)
    requires m > 0 && q == (x + m - 1) / m
    ensures (q - 1) * m < x <= q * m
  {
    assert x + m - 1 == m * q + (x + m - 1) % m;
  }

  lemma MoreThan(c: nat, q: int, m: nat, x: nat)
    requires m > 0 && x <= q * m
    ensures (c + 1) * m <= x ==> q > c
  {
    if q <= c { Monotone(q, c, m); }
  }

  /** A flush leaves a window of at least one segment; after a timeout it is exactly one. */
  lemma FlushOpens(k: Kcp)
    requires Configured(k.cfg) && k.clock.updated
    ensures Flush(k).k.cong.cwnd >= 1
    ensures FlushPass(k).resend.lost ==> Flush(k).k.cong.cwnd == 1
  {
  }
}
