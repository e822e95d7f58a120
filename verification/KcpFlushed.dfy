/**
 What one `ikcp_flush` sends, schedules and regulates (kcp_learn/ikcp.c:948-1164), by position in `snd_buf` and in
 the list of written segments, without the functions that compute it.
 */
module KcpFlushed {
  import opened Word
  import opened KcpWire
  import opened KcpSpec
  import opened KcpShape
  import opened KcpInvariant

  // ---------------------------------------------------------------- numbering

  /** The least of the windows that apply. */
  function LeastWindow(k: Kcp): u32 {
    Min(k.cfg.sndWnd, Min(k.rmtWnd, if k.cfg.nocwnd == 0 then k.cong.cwnd else M32))
  }

  /** How many waiting fragments it allows to be sent. */
  function Allowed(k: Kcp): nat {
    Min(|k.snd.queue|, Max(0, LeastWindow(k) - Sub(k.snd.nxt, k.snd.una)))
  }

  /** `g` is fragment `f` under the number `sn`. */
  predicate Numbered(g: Seg, f: Frag, sn: u32) {
    g.sn == sn && g.frg == f.frg && g.data == f.data
  }

  /** The first `m` fragments went from the queue of `s` to the end of its buffer. */
  ghost predicate Moved(s: Snd, s': Snd, m: nat) {
    && m <= |s.queue| && s'.queue == s.queue[m..] && s'.una == s.una && s'.nxt == Wrap(s.nxt + m)
    && |s'.buf| == |s.buf| + m && s'.buf[..|s.buf|] == s.buf
    && forall j | 0 <= j < m :: Numbered(s'.buf[|s.buf| + j], s.queue[j], Wrap(s.nxt + j)) && s'.buf[|s.buf| + j].xmit == 0
  }

  lemma MoveOne(s: Snd, g: Seg, s1: Snd, s': Snd, m: nat)
    requires s.queue != [] && Numbered(g, s.queue[0], s.nxt) && g.xmit == 0
    requires s1 == Snd(s.una, Add(s.nxt, 1), s.queue[1..], s.buf + [g]) && Moved(s1, s', m)
    ensures Moved(s, s', m + 1)
  {
    assert s.queue[1..][m..] == s.queue[m + 1..];
    assert s'.buf[..|s.buf|] == s1.buf[..|s.buf|] == s.buf;
    forall j | 0 <= j < m + 1
      ensures Numbered(s'.buf[|s.buf| + j], s.queue[j], Wrap(s.nxt + j)) && s'.buf[|s.buf| + j].xmit == 0
    {
      if j == 0 {
        assert s'.buf[..|s1.buf|][|s.buf|] == g;
      } else {
        assert Numbered(s'.buf[|s1.buf| + (j - 1)], s1.queue[j - 1], Wrap(s1.nxt + (j - 1)));
        assert Wrap(s1.nxt + (j - 1)) == Wrap(s.nxt + j);
      }
    }
    assert Wrap(s1.nxt + m) == Wrap(s.nxt + (m + 1));
  }

  lemma {:induction false} MoveShape(k: Kcp, s: Snd, cwnd: u32)
    requires Sub(s.nxt, s.una) < HALF && cwnd < HALF
    ensures Moved(s, MoveData(k, s, cwnd), Min(|s.queue|, Max(0, cwnd - Sub(s.nxt, s.una))))
    decreases |s.queue|
  {
    TimeDiffFrom(s.nxt, Add(s.una, cwnd), s.una);
    if Sub(s.nxt, s.una) < cwnd && s.queue != [] {
      var g := NewSeg(k, s.queue[0], s.nxt);
      var s1 := Snd(s.una, Add(s.nxt, 1), s.queue[1..], s.buf + [g]);
      MoveShape(k, s1, cwnd);
      MoveOne(s, g, s1, MoveData(k, s, cwnd), Min(|s1.queue|, Max(0, cwnd - Sub(s1.nxt, s1.una))));
    } else {
      assert s.queue[0..] == s.queue && s.buf[..|s.buf|] == s.buf;
    }
  }

  lemma MovesAllowed(k: Kcp)
    requires EndpointOk(k)
    ensures Moved(k.snd, MoveData(k, k.snd, SendWindow(k)), Allowed(k))
  {
    assert SendWindow(k) == LeastWindow(k);
    MoveShape(k, k.snd, SendWindow(k));
  }

  /** `s'` after moving `m` fragments, up to what restamping changes. */
  ghost predicate Numbers(s: Snd, s': Snd, m: nat) {
    && m <= |s.queue| && s'.queue == s.queue[m..] && s'.una == s.una && s'.nxt == Wrap(s.nxt + m)
    && |s'.buf| == |s.buf| + m
    && (forall i | 0 <= i < |s.buf| :: SameContent(s'.buf[i], s.buf[i]))
    && (forall j | 0 <= j < m :: Numbered(s'.buf[|s.buf| + j], s.queue[j], Wrap(s.nxt + j)))
  }

  lemma NumbersFrom(s: Snd, moved: Snd, m: nat, buf: seq<Seg>)
    requires Moved(s, moved, m) && SameContents(buf, moved.buf)
    ensures Numbers(s, moved.(buf := buf), m)
  {
    forall i | 0 <= i < |s.buf| ensures SameContent(buf[i], s.buf[i]) {
      assert SameContent(buf[i], moved.buf[i]) && moved.buf[..|s.buf|][i] == moved.buf[i];
    }
    forall j | 0 <= j < m ensures Numbered(buf[|s.buf| + j], s.queue[j], Wrap(s.nxt + j)) {
      assert SameContent(buf[|s.buf| + j], moved.buf[|s.buf| + j]);
      assert Numbered(moved.buf[|s.buf| + j], s.queue[j], Wrap(s.nxt + j));
    }
  }

  /** A flush numbers, in order, as many waiting fragments as the windows allow; what was buffered keeps its number
      and contents. */
  lemma FlushNumbers(k: Kcp)
    requires EndpointOk(k) && k.clock.updated
    ensures Numbers(k.snd, Flush(k).k.snd, Allowed(k))
  {
    var moved := MoveData(k, k.snd, SendWindow(k));
    MovesAllowed(k);
    RestampShape(k, moved.buf, |moved.buf|);
    NumbersFrom(k.snd, moved, Allowed(k), RestampFirst(k, moved.buf, |moved.buf|));
    FlushedSnd(k, moved);
  }

  lemma FlushedSnd(k: Kcp, moved: Snd)
    requires Configured(k.cfg) && k.clock.updated && moved == MoveData(k, k.snd, SendWindow(k))
    ensures Flush(k).k.snd == moved.(buf := RestampFirst(k, moved.buf, |moved.buf|))
  {
  }

  // ---------------------------------------------------------------- sending

  predicate TimedOut(k: Kcp, s: Seg) {
    s.xmit != 0 && TimeDiff(k.clock.current, s.resendts) >= 0
  }

  /** How many later acknowledgements make a fast retransmission; without it, more than can be counted. */
  function Threshold(c: Config): u32 {
    if 0 < c.fastresend < M32 then c.fastresend else M32 - 1
  }

  /** Later segments were acknowledged often enough, and it was not sent too often. */
  predicate Skipped(k: Kcp, s: Seg) {
    && s.fastack >= Threshold(k.cfg)
    && (k.cfg.fastlimit <= 0 || Signed(s.xmit) <= k.cfg.fastlimit)
  }

  predicate SkippedOnly(k: Kcp, s: Seg) {
    s.xmit != 0 && !TimedOut(k, s) && Skipped(k, s)
  }

  predicate Due(k: Kcp, s: Seg) {
    s.xmit == 0 || TimedOut(k, s) || Skipped(k, s)
  }

  /** Segment `i` of the new `snd_buf` is due: it is new, or was never sent, or timed out, or was skipped. */
  predicate DueAt(k: Kcp, i: nat) {
    i < |k.snd.buf| ==> Due(k, k.snd.buf[i])
  }

  /** The packet carries the segment, with the present time, window and cumulative acknowledgement. */
  predicate PushOf(k: Kcp, p: Packet, s: Seg) {
    && p.cmd == CMD_PUSH && p.conv == k.cfg.conv && p.sn == s.sn && p.frg == s.frg && p.data == s.data
    && Stamped(k, p) && p.ts == k.clock.current
  }

  predicate Stamped(k: Kcp, p: Packet) {
    p.una == k.rcv.nxt && p.wnd == Max(0, k.cfg.rcvWnd - |k.rcv.queue|) % 0x1_0000
  }

  /** The packets of the pass over `snd_buf` are those of the segments at the places `at`. */
  ghost predicate Written(k: Kcp, buf: seq<Seg>, n: nat, ps: seq<Packet>, at: seq<nat>)
    requires n <= |buf|
  {
    && |at| == |ps| && (forall j | 0 <= j < |at| :: at[j] < n && PushOf(k, ps[j], buf[at[j]]))
    && (forall j, l | 0 <= j < l < |at| :: at[j] < at[l])
    && (forall i: nat | i < n :: i in at <==> Decide(k, buf[i]) != NotNow)
  }

  lemma WrittenNext(k: Kcp, buf: seq<Seg>, n: nat, ps: seq<Packet>, at: seq<nat>, p: Packet)
    requires n < |buf| && Written(k, buf, n, ps, at)
    ensures Decide(k, buf[n]) == NotNow ==> Written(k, buf, n + 1, ps, at)
    ensures Decide(k, buf[n]) != NotNow && PushOf(k, p, buf[n]) ==> Written(k, buf, n + 1, ps + [p], at + [n])
  {
  }

  lemma PushOfRetimed(k: Kcp, s: Seg)
    requires Decide(k, s) != NotNow
    ensures PushOf(k, PushPacket(k.cfg, Retime(k, s)), s)
  {
  }

  lemma {:induction false} WrittenBy(k: Kcp, buf: seq<Seg>, n: nat) returns (at: seq<nat>)
    requires n <= |buf|
    ensures Written(k, buf, n, ResendFirst(k, buf, n).packets, at)
    decreases n
  {
    if n == 0 {
      at := [];
    } else {
      at := WrittenBy(k, buf, n - 1);
      var s := buf[n - 1];
      WrittenNext(k, buf, n - 1, ResendFirst(k, buf, n - 1).packets, at, PushPacket(k.cfg, Retime(k, s)));
      if Decide(k, s) != NotNow {
        PushOfRetimed(k, s);
        at := at + [n - 1];
      }
    }
  }

  lemma MovedAt(s: Snd, s': Snd, m: nat, i: nat)
    requires Moved(s, s', m) && i < |s'.buf|
    ensures if i < |s.buf| then s'.buf[i] == s.buf[i] else s'.buf[i].xmit == 0
  {
    if i < |s.buf| {
      assert s'.buf[..|s.buf|][i] == s'.buf[i];
    } else {
      var j := i - |s.buf|;
      assert Numbered(s'.buf[|s.buf| + j], s.queue[j], Wrap(s.nxt + j));
    }
  }

  /** What moving leaves: the old buffer and segments that were not sent yet. */
  lemma MovedBuffer(k: Kcp)
    requires EndpointOk(k)
    ensures var buf := MoveData(k, k.snd, SendWindow(k)).buf;
      && |buf| == |k.snd.buf| + Allowed(k)
      && forall i | 0 <= i < |buf| :: if i < |k.snd.buf| then buf[i] == k.snd.buf[i] else buf[i].xmit == 0
  {
    var s, s' := k.snd, MoveData(k, k.snd, SendWindow(k));
    MovesAllowed(k);
    MovedAll(s, s', Allowed(k));
  }

  lemma MovedAll(s: Snd, s': Snd, m: nat)
    requires Moved(s, s', m)
    ensures forall i | 0 <= i < |s'.buf| :: if i < |s.buf| then s'.buf[i] == s.buf[i] else s'.buf[i].xmit == 0
  {
    forall i | 0 <= i < |s'.buf| ensures if i < |s.buf| then s'.buf[i] == s.buf[i] else s'.buf[i].xmit == 0 {
      MovedAt(s, s', m, i);
    }
  }

  /** Acknowledgements and probes come before data: `a` of them. */
  function Controls(k: Kcp): nat
    requires k.clock.updated
  {
    |k.acks| + |ProbePackets(k, ProbeTimer(k.prober, k.rmtWnd, k.clock.current))|
  }

  ghost predicate Apart(k: Kcp, ps: seq<Packet>, buf: seq<Seg>, a: nat, at: seq<nat>) {
    && |at| == |ps| - a && (forall j | 0 <= j < a :: ps[j].cmd != CMD_PUSH)
    && (forall j | 0 <= j < |at| :: at[j] < |buf| && PushOf(k, ps[a + j], buf[at[j]]))
    && (forall j, l | 0 <= j < l < |at| :: at[j] < at[l])
    && (forall i: nat | i < |buf| :: i in at <==> DueAt(k, i))
  }

  lemma PartsFrom(k: Kcp, front: seq<Packet>, data: seq<Packet>, moved: seq<Seg>, buf: seq<Seg>, at: seq<nat>)
    requires Written(k, moved, |moved|, data, at) && SameContents(buf, moved)
    requires forall j | 0 <= j < |front| :: front[j].cmd != CMD_PUSH
    requires forall i: nat | i < |moved| :: Decide(k, moved[i]) != NotNow <==> DueAt(k, i)
    ensures Apart(k, front + data, buf, |front|, at)
  {
    var ps := front + data;
    forall j | 0 <= j < |at| ensures PushOf(k, ps[|front| + j], buf[at[j]]) {
      assert SameContent(buf[at[j]], moved[at[j]]);
      assert ps[|front| + j] == data[j];
    }
  }

  lemma FlushParts(k: Kcp) returns (at: seq<nat>)
    requires EndpointOk(k) && k.clock.updated
    ensures Apart(k, Flush(k).packets, Flush(k).k.snd.buf, Controls(k), at)
  {
    var moved := MoveData(k, k.snd, SendWindow(k)).buf;
    MovedBuffer(k);
    at := WrittenBy(k, moved, |moved|);
    RestampShape(k, moved, |moved|);
    var front := AckPackets(k, |k.acks|) + ProbePackets(k, ProbeTimer(k.prober, k.rmtWnd, k.clock.current));
    forall j | 0 <= j < |front| ensures front[j].cmd != CMD_PUSH { FrontOnly(k, j); }
    PartsFrom(k, front, ResendFirst(k, moved, |moved|).packets, moved, RestampFirst(k, moved, |moved|), at);
  }

  lemma {:induction false} AckAt(k: Kcp, n: nat, j: nat)
    requires j < n <= |k.acks|
    ensures AckPackets(k, n)[j] == Control(k, CMD_ACK, k.acks[j])
  {
    if j < n - 1 { AckAt(k, n - 1, j); }
  }

  lemma FrontOnly(k: Kcp, j: nat)
    requires k.clock.updated && j < Controls(k)
    ensures (AckPackets(k, |k.acks|) + ProbePackets(k, ProbeTimer(k.prober, k.rmtWnd, k.clock.current)))[j].cmd != CMD_PUSH
  {
    if j < |k.acks| { AckAt(k, |k.acks|, j); }
  }

  /** A segment of the new `snd_buf` is written if and only if it is due; every data segment written is one of them;
      and they come in the order of `snd_buf`, so none comes twice. */
  lemma FlushSends(k: Kcp)
    requires EndpointOk(k) && k.clock.updated
    ensures var ps, buf := Flush(k).packets, Flush(k).k.snd.buf;
      && (forall i | 0 <= i < |buf| :: DueAt(k, i) <==> exists j | 0 <= j < |ps| :: PushOf(k, ps[j], buf[i]))
      && (forall j | 0 <= j < |ps| && ps[j].cmd == CMD_PUSH :: exists i | 0 <= i < |buf| :: PushOf(k, ps[j], buf[i]))
      && (forall i, j, i', j' | 0 <= i < |buf| && 0 <= i' < |buf| && 0 <= j < j' < |ps|
            && PushOf(k, ps[j], buf[i]) && PushOf(k, ps[j'], buf[i']) :: i < i')
  {
    var at := FlushParts(k);
    FlushOk(k);
    SendsFrom(k, Flush(k).packets, Flush(k).k.snd.buf, Controls(k), at);
  }

  lemma SendsFrom(k: Kcp, ps: seq<Packet>, buf: seq<Seg>, a: nat, at: seq<nat>)
    requires Apart(k, ps, buf, a, at)
    requires exists base: u32, lim: u32 :: SegsAscend(buf, base, lim)
    ensures forall i | 0 <= i < |buf| :: DueAt(k, i) <==> exists j | 0 <= j < |ps| :: PushOf(k, ps[j], buf[i])
    ensures forall j | 0 <= j < |ps| && ps[j].cmd == CMD_PUSH :: exists i | 0 <= i < |buf| :: PushOf(k, ps[j], buf[i])
    ensures forall i, j, i', j' | 0 <= i < |buf| && 0 <= i' < |buf| && 0 <= j < j' < |ps|
              && PushOf(k, ps[j], buf[i]) && PushOf(k, ps[j'], buf[i']) :: i < i'
  {
    forall i, j | 0 <= i < |buf| && 0 <= j < |ps| && PushOf(k, ps[j], buf[i]) ensures j >= a && at[j - a] == i {
      Same(k, ps, buf, a, at, i, j);
    }
    forall i | 0 <= i < |buf| ensures DueAt(k, i) <==> exists j | 0 <= j < |ps| :: PushOf(k, ps[j], buf[i]) {
      if DueAt(k, i) {
        var j :| 0 <= j < |at| && at[j] == i;
        assert PushOf(k, ps[a + j], buf[i]);
      }
    }
    forall j | 0 <= j < |ps| && ps[j].cmd == CMD_PUSH ensures exists i | 0 <= i < |buf| :: PushOf(k, ps[j], buf[i]) {
      assert PushOf(k, ps[a + (j - a)], buf[at[j - a]]);
    }
  }

  lemma Same(k: Kcp, ps: seq<Packet>, buf: seq<Seg>, a: nat, at: seq<nat>, i: nat, j: nat)
    requires Apart(k, ps, buf, a, at) && i < |buf| && j < |ps| && PushOf(k, ps[j], buf[i])
    requires exists base: u32, lim: u32 :: SegsAscend(buf, base, lim)
    ensures j >= a && at[j - a] == i
  {
    var l := j - a;
    assert PushOf(k, ps[a + l], buf[at[l]]);
  }

  // ---------------------------------------------------------------- acknowledging and probing

  /** The acknowledgement of `a`. */
  predicate AckOf(k: Kcp, p: Packet, a: Ack) {
    p.cmd == CMD_ACK && p.conv == k.cfg.conv && p.sn == a.sn && p.ts == a.ts && p.data == [] && Stamped(k, p)
  }

  /** The probe asks when it was told to, or its time has come while the peer's window is closed. */
  predicate Asks(k: Kcp) {
    k.prober.askSend || (k.rmtWnd == 0 && k.prober.wait != 0 && TimeDiff(k.clock.current, k.prober.ts) >= 0)
  }

  /** Each pending acknowledgement is written exactly once, first of all and in order, and then forgotten. */
  lemma FlushAnswers(k: Kcp)
    requires Configured(k.cfg) && k.clock.updated
    ensures var ps := Flush(k).packets;
      && |k.acks| <= |ps| && (forall i | 0 <= i < |k.acks| :: AckOf(k, ps[i], k.acks[i]))
      && (forall j | |k.acks| <= j < |ps| :: ps[j].cmd != CMD_ACK)
      && Flush(k).k.acks == []
  {
    var moved, ps := MoveData(k, k.snd, SendWindow(k)).buf, Flush(k).packets;
    forall i | 0 <= i < |k.acks| ensures AckOf(k, ps[i], k.acks[i]) { AckAt(k, |k.acks|, i); }
    var data := ResendFirst(k, moved, |moved|).packets;
    var probes := ProbePackets(k, ProbeTimer(k.prober, k.rmtWnd, k.clock.current));
    forall j | |k.acks| <= j < |ps| ensures ps[j].cmd != CMD_ACK {
      if j < |k.acks| + |probes| {
        assert ps[j] == probes[j - |k.acks|];
      } else {
        assert ps[j] == data[j - |k.acks| - |probes|];
        ResendShape(k, moved, |moved|, ps[j]);
      }
    }
  }

  ghost predicate Has(ps: seq<Packet>, cmd: byte) {
    exists p | p in ps :: p.cmd == cmd
  }

  /** The probe timer: off while the peer's window is open; else first after 7 seconds, then each time after half as
      long again, up to two minutes. */
  predicate Timed(k: Kcp, p: Prober, p': Prober) {
    && !p'.askSend && !p'.askTell
    && (if k.rmtWnd != 0 then p'.wait == 0
        else if p.wait == 0 then p'.wait == 7000 && p'.ts == Wrap(k.clock.current + 7000)
        else if TimeDiff(k.clock.current, p.ts) >= 0 then
          && (Paced(p) ==> p'.wait == Min(p.wait + p.wait / 2, 120000))
          && p'.ts == Wrap(k.clock.current + p'.wait)
        else p'.wait == p.wait && p'.ts == p.ts)
  }

  lemma TimerTimed(k: Kcp)
    ensures Timed(k, k.prober, ProbeTimer(k.prober, k.rmtWnd, k.clock.current).(askSend := false, askTell := false))
  {
  }

  /** The window is asked for exactly when the probe says so and told exactly when it was asked for. */
  lemma FlushProbes(k: Kcp)
    requires Configured(k.cfg) && k.clock.updated
    ensures Has(Flush(k).packets, CMD_WASK) <==> Asks(k)
    ensures Has(Flush(k).packets, CMD_WINS) <==> k.prober.askTell
    ensures Timed(k, k.prober, Flush(k).k.prober)
  {
    var moved := MoveData(k, k.snd, SendWindow(k)).buf;
    var data, acks := ResendFirst(k, moved, |moved|).packets, AckPackets(k, |k.acks|);
    var probes := ProbePackets(k, ProbeTimer(k.prober, k.rmtWnd, k.clock.current));
    forall p | p in data ensures p.cmd == CMD_PUSH { ResendShape(k, moved, |moved|, p); }
    forall p | p in acks ensures p.cmd == CMD_ACK {
      var j :| 0 <= j < |acks| && acks[j] == p;
      AckAt(k, |k.acks|, j);
    }
    TimerTimed(k);
    ProbesOnly(k, probes);
    HasOnly(Flush(k).packets, acks, probes, data, CMD_WASK);
    HasOnly(Flush(k).packets, acks, probes, data, CMD_WINS);
  }

  lemma HasOnly(ps: seq<Packet>, acks: seq<Packet>, probes: seq<Packet>, data: seq<Packet>, cmd: byte)
    requires ps == acks + probes + data && cmd != CMD_PUSH && cmd != CMD_ACK
    requires (forall p | p in data :: p.cmd == CMD_PUSH) && forall p | p in acks :: p.cmd == CMD_ACK
    ensures Has(ps, cmd) <==> Has(probes, cmd)
  {
    assert forall p :: p in ps <==> p in acks || p in probes || p in data;
  }

  lemma ProbesOnly(k: Kcp, probes: seq<Packet>)
    requires k.clock.updated && probes == ProbePackets(k, ProbeTimer(k.prober, k.rmtWnd, k.clock.current))
    ensures Has(probes, CMD_WASK) <==> Asks(k)
    ensures Has(probes, CMD_WINS) <==> k.prober.askTell
  {
    var p := ProbeTimer(k.prober, k.rmtWnd, k.clock.current);
    if p.askSend { assert probes[0].cmd == CMD_WASK; }
    if p.askTell { assert probes[|probes| - 1].cmd == CMD_WINS; }
  }

  // ---------------------------------------------------------------- scheduling

  /** What a timeout adds to the time until the next one. */
  function Longer(k: Kcp, rto: u32): nat {
    if k.cfg.nodelay == 0 then Max(rto, k.rtt.rto) else if k.cfg.nodelay < 2 then rto / 2 else k.rtt.rto / 2
  }

  /** `s'` is `s` after it was sent: counted, and scheduled for the time that it then carries. */
  predicate Rescheduled(k: Kcp, s: Seg, s': Seg) {
    && s'.xmit == Wrap(s.xmit + 1) && s'.ts == k.clock.current && s'.una == k.rcv.nxt
    && s'.wnd == Max(0, k.cfg.rcvWnd - |k.rcv.queue|)
    && s'.resendts == Wrap(k.clock.current + s'.rto + (if s.xmit == 0 && k.cfg.nodelay == 0 then s'.rto / 8 else 0))
    && (s.xmit == 0 ==> s'.rto == k.rtt.rto)
    && (TimedOut(k, s) && s.rto < HALF && k.rtt.rto < HALF ==> s'.rto == s.rto + Longer(k, s.rto))
    && (SkippedOnly(k, s) ==> s'.rto == s.rto)
    && s'.fastack == if SkippedOnly(k, s) then 0 else s.fastack
  }

  lemma BackoffMeans(k: Kcp, rto: u32)
    requires rto < HALF && k.rtt.rto < HALF
    ensures Backoff(k, rto) == rto + Longer(k, rto)
  {
  }

  lemma LateTimes(k: Kcp, s: Seg, rto: u32)
    requires TimedOut(k, s) && rto == Backoff(k, s.rto)
    ensures var s' := Retime(k, s); s'.rto == rto && s'.resendts == Wrap(k.clock.current + rto)
  {
  }

  lemma RetimeLate(k: Kcp, s: Seg)
    requires TimedOut(k, s)
    ensures Rescheduled(k, s, Retime(k, s))
  {
    if s.rto < HALF && k.rtt.rto < HALF { BackoffMeans(k, s.rto); }
    LateTimes(k, s, Backoff(k, s.rto));
  }

  lemma RetimeOther(k: Kcp, s: Seg)
    requires !TimedOut(k, s)
    ensures if Due(k, s) then Rescheduled(k, s, Retime(k, s)) else Retime(k, s) == s
  {
  }

  lemma RetimeShape(k: Kcp, s: Seg)
    ensures if Due(k, s) then Rescheduled(k, s, Retime(k, s)) else Retime(k, s) == s
  {
    if TimedOut(k, s) { RetimeLate(k, s); } else { RetimeOther(k, s); }
  }

  /** Segments that are due are counted and scheduled anew; new ones were sent once; the others stay as they are. */
  lemma FlushReschedules(k: Kcp)
    requires EndpointOk(k) && k.clock.updated
    ensures var buf, buf' := k.snd.buf, Flush(k).k.snd.buf;
      && |buf| <= |buf'|
      && (forall i | 0 <= i < |buf| :: if DueAt(k, i) then Rescheduled(k, buf[i], buf'[i]) else buf'[i] == buf[i])
      && (forall i | |buf| <= i < |buf'| :: exists s: Seg :: s.xmit == 0 && s.fastack == 0 && Rescheduled(k, s, buf'[i]))
  {
    var moved := MoveData(k, k.snd, SendWindow(k)).buf;
    MovedBuffer(k);
    MovedFresh(k, k.snd, SendWindow(k));
    var buf, buf' := k.snd.buf, Flush(k).k.snd.buf;
    forall i | 0 <= i < |buf| ensures if DueAt(k, i) then Rescheduled(k, buf[i], buf'[i]) else buf'[i] == buf[i] {
      RetimeShape(k, buf[i]);
    }
    forall i | |buf| <= i < |buf'| ensures exists s: Seg :: s.xmit == 0 && s.fastack == 0 && Rescheduled(k, s, buf'[i]) {
      RetimeShape(k, moved[i]);
    }
  }

  lemma {:induction false} MovedFresh(k: Kcp, s: Snd, cwnd: u32)
    ensures var r := MoveData(k, s, cwnd).buf;
      |s.buf| <= |r| && r[..|s.buf|] == s.buf && forall i | |s.buf| <= i < |r| :: r[i].xmit == 0 && r[i].fastack == 0
    decreases |s.queue|
  {
    if TimeDiff(s.nxt, Add(s.una, cwnd)) < 0 && s.queue != [] {
      var s1 := Snd(s.una, Add(s.nxt, 1), s.queue[1..], s.buf + [NewSeg(k, s.queue[0], s.nxt)]);
      MovedFresh(k, s1, cwnd);
      var r := MoveData(k, s, cwnd).buf;
      assert r[..|s.buf|] == r[..|s1.buf|][..|s.buf|];
      assert r[..|s1.buf|][|s.buf|] == r[|s.buf|];
    }
  }

  // ---------------------------------------------------------------- regulating

  /** The places of the first `n` segments that `f` holds of. */
  ghost function Places(f: Seg -> bool, buf: seq<Seg>, n: nat): set<nat>
    requires n <= |buf|
  {
    set i: nat | i < n && f(buf[i])
  }

  lemma PlacesNext(f: Seg -> bool, buf: seq<Seg>, n: nat)
    requires n < |buf|
    ensures |Places(f, buf, n + 1)| == |Places(f, buf, n)| + if f(buf[n]) then 1 else 0
  {
    assert Places(f, buf, n + 1) == if f(buf[n]) then Places(f, buf, n) + {n} else Places(f, buf, n);
  }

  /** The segments that timed out, and those sent only because later ones were acknowledged. */
  ghost function Timeouts(k: Kcp, buf: seq<Seg>, n: nat): nat
    requires n <= |buf|
  {
    |Places(s => TimedOut(k, s), buf, n)|
  }

  ghost function Skips(k: Kcp, buf: seq<Seg>, n: nat): nat
    requires n <= |buf|
  {
    |Places(s => SkippedOnly(k, s), buf, n)|
  }

  /** Those sent as often as the connection allows. */
  ghost function Deaths(k: Kcp, buf: seq<Seg>, n: nat): nat
    requires n <= |buf|
  {
    |Places(s => Due(k, s) && Wrap(s.xmit + 1) >= k.cfg.deadLink, buf, n)|
  }

  lemma NoteShape(k: Kcp, r: Resend, s: Seg)
    ensures var r' := Note(r, k.cfg, Retime(k, s), Decide(k, s));
      && r'.xmit == (if TimedOut(k, s) then Wrap(r.xmit + 1) else r.xmit)
      && r'.lost == (r.lost || TimedOut(k, s)) && r'.fast == (r.fast || SkippedOnly(k, s))
      && r'.dead == (r.dead || (Due(k, s) && Wrap(s.xmit + 1) >= k.cfg.deadLink))
  {
  }

  ghost predicate Counted(k: Kcp, buf: seq<Seg>, n: nat, r: Resend)
    requires n <= |buf|
  {
    && r.xmit == Wrap(k.xmit + Timeouts(k, buf, n))
    && (r.lost <==> Timeouts(k, buf, n) > 0) && (r.fast <==> Skips(k, buf, n) > 0)
    && (r.dead <==> k.dead || Deaths(k, buf, n) > 0)
  }

  lemma CountedNext(k: Kcp, buf: seq<Seg>, n: nat, r: Resend, r': Resend)
    requires n < |buf| && Counted(k, buf, n, r) && r' == Note(r, k.cfg, Retime(k, buf[n]), Decide(k, buf[n]))
    ensures Counted(k, buf, n + 1, r')
  {
    var s := buf[n];
    NoteShape(k, r, s);
    PlacesNext(s => TimedOut(k, s), buf, n);
    PlacesNext(s => SkippedOnly(k, s), buf, n);
    PlacesNext(s => Due(k, s) && Wrap(s.xmit + 1) >= k.cfg.deadLink, buf, n);
    WrapNext(k.xmit + Timeouts(k, buf, n));
  }

  lemma {:induction false} ResendCounts(k: Kcp, buf: seq<Seg>, n: nat)
    requires n <= |buf|
    ensures Counted(k, buf, n, ResendFirst(k, buf, n))
    decreases n
  {
    if n > 0 {
      ResendCounts(k, buf, n - 1);
      CountedNext(k, buf, n - 1, ResendFirst(k, buf, n - 1), ResendFirst(k, buf, n));
    }
  }

  lemma WrapNext(x: int)
    ensures Wrap(x + 1) == Wrap(Wrap(x) + 1)
  {
  }

  /** Moving fragments adds none that timed out or was skipped. */
  lemma {:induction false} PlacesMoved(f: Seg -> bool, buf: seq<Seg>, more: seq<Seg>, n: nat)
    requires |buf| <= n <= |more| && more[..|buf|] == buf && forall i | |buf| <= i < n :: !f(more[i])
    ensures Places(f, more, n) == Places(f, buf, |buf|)
  {
    forall i: nat | i < |buf| ensures more[i] == buf[i] { assert more[..|buf|][i] == more[i]; }
  }

  /** Timeouts are counted.  One of them closes the window to a single segment and halves the threshold; otherwise a
      fast retransmission halves the flight; otherwise the window stays, but at one segment at least. */
  lemma FlushRegulates(k: Kcp)
    requires EndpointOk(k) && k.clock.updated
    ensures var buf, k' := k.snd.buf, Flush(k).k;
      var lost, fast := Timeouts(k, buf, |buf|), Skips(k, buf, |buf|);
      && k'.xmit == Wrap(k.xmit + lost)
      && (if lost > 0 then k'.cong == Cong(1, k.cfg.mss, Max(LeastWindow(k) / 2, 2))
          else if fast > 0 then
            && k'.cong.ssthresh == Max(Sub(k'.snd.nxt, k'.snd.una) / 2, 2)
            && k'.cong.cwnd == Max(1, Wrap(k'.cong.ssthresh + Threshold(k.cfg)))
          else k'.cong.ssthresh == k.cong.ssthresh && k'.cong.cwnd == Max(1, k.cong.cwnd))
  {
    var moved, buf := MoveData(k, k.snd, SendWindow(k)).buf, k.snd.buf;
    MovedFresh(k, k.snd, SendWindow(k));
    ResendCounts(k, moved, |moved|);
    PlacesMoved(s => TimedOut(k, s), buf, moved, |moved|);
    PlacesMoved(s => SkippedOnly(k, s), buf, moved, |moved|);
    CongestShape(k, FlushPass(k));
  }

  lemma CongestMeans(g: Cong, c: Config, s: Snd, cwnd: u32, fast: bool, lost: bool)
    requires 0 < c.mss < HALF
    ensures var r := Congest(g, c, s, cwnd, fast, lost);
      && (lost ==> r == Cong(1, c.mss, Max(cwnd / 2, 2)))
      && (!lost && fast ==>
            r.ssthresh == Max(Sub(s.nxt, s.una) / 2, 2) && r.cwnd == Max(1, Wrap(r.ssthresh + Threshold(c))))
      && (!lost && !fast ==> r.ssthresh == g.ssthresh && r.cwnd == Max(1, g.cwnd))
  {
    if fast && !lost {
      var thresh := Max(Sub(s.nxt, s.una) / 2, 2);
      assert Add(thresh, Resent(c)) == Wrap(thresh + Threshold(c));
    }
  }

  lemma CongestShape(k: Kcp, pass: DataPass)
    requires Configured(k.cfg) && k.clock.updated && pass == FlushPass(k)
    ensures var lost, fast, k' := pass.resend.lost, pass.resend.fast, Flush(k).k;
      && (lost ==> k'.cong == Cong(1, k.cfg.mss, Max(LeastWindow(k) / 2, 2)))
      && (!lost && fast ==>
            && k'.cong.ssthresh == Max(Sub(k'.snd.nxt, k'.snd.una) / 2, 2)
            && k'.cong.cwnd == Max(1, Wrap(k'.cong.ssthresh + Threshold(k.cfg))))
      && (!lost && !fast ==> k'.cong.ssthresh == k.cong.ssthresh && k'.cong.cwnd == Max(1, k.cong.cwnd))
  {
    var moved := MoveData(k, k.snd, SendWindow(k));
    CongestMeans(k.cong, k.cfg, moved, SendWindow(k), pass.resend.fast, pass.resend.lost);
  }

  /** The connection is given up exactly when a segment that is sent has been sent too often. */
  lemma FlushDies(k: Kcp)
    requires EndpointOk(k) && k.clock.updated
    ensures var buf' := Flush(k).k.snd.buf;
      Flush(k).k.dead <==> k.dead || exists i | 0 <= i < |buf'| :: DueAt(k, i) && buf'[i].xmit >= k.cfg.deadLink
  {
    var moved := MoveData(k, k.snd, SendWindow(k)).buf;
    MovedBuffer(k);
    ResendCounts(k, moved, |moved|);
    DeathAt(k, moved, Flush(k).k.snd.buf);
  }

  lemma DeathAt(k: Kcp, moved: seq<Seg>, buf': seq<Seg>)
    requires buf' == RestampFirst(k, moved, |moved|)
    requires forall i | 0 <= i < |moved| :: if i < |k.snd.buf| then moved[i] == k.snd.buf[i] else moved[i].xmit == 0
    ensures Deaths(k, moved, |moved|) > 0 <==> exists i | 0 <= i < |buf'| :: DueAt(k, i) && buf'[i].xmit >= k.cfg.deadLink
  {
    var f := (s: Seg) => Due(k, s) && Wrap(s.xmit + 1) >= k.cfg.deadLink;
    var places := Places(f, moved, |moved|);
    forall i | 0 <= i < |moved| ensures i in places <==> DueAt(k, i) && buf'[i].xmit >= k.cfg.deadLink {
      RetimeShape(k, moved[i]);
    }
    if places != {} { var i :| i in places; }
  }
}
