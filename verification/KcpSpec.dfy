/**
 One KCP endpoint as a value: the control block, and what each call makes of it.  The queues are
 sequences, front first.  The class in KcpEndpoint.dfy works on the same state in place and is
 proved against these functions (kcp_learn/ikcp.c, kcp_learn/ikcp.h:266-315).
 */
module KcpSpec {
  import opened Options
  import opened Sequences
  import opened Word
  import opened KcpWire

  const RTO_MAX: nat := 60000
  const WND_RCV: nat := 128
  const THRESH_MIN: nat := 2
  const PROBE_INIT: nat := 7000
  const PROBE_LIMIT: nat := 120000

  // ---------------------------------------------------------------- data

  /** A fragment of user data waiting in `snd_queue`: it has no sequence number yet. */
  datatype Frag = Frag(frg: byte, data: Payload)

  /** A segment in `snd_buf`.  Its `conv` and `cmd` are those of the connection and PUSH. */
  datatype Seg = Seg(frg: byte, wnd: u32, ts: u32, sn: u32, una: u32, data: Payload,
                     resendts: u32, rto: u32, fastack: u32, xmit: u32)

  /** Parameters; `mss` is the room for payload in one datagram. */
  datatype Config = Config(conv: u32, mtu: nat, mss: nat, sndWnd: u32, rcvWnd: u32, minrto: nat, interval: u32,
                           nodelay: u32, fastresend: int, fastlimit: int, nocwnd: int, stream: bool, deadLink: u32)

  datatype Snd = Snd(una: u32, nxt: u32, queue: seq<Frag>, buf: seq<Seg>)

  datatype Rcv = Rcv(nxt: u32, buf: seq<Packet>, queue: seq<Packet>)

  datatype Ack = Ack(sn: u32, ts: u32)

  datatype Rtt = Rtt(srtt: nat, rttval: nat, rto: u32)

  datatype Cong = Cong(cwnd: u32, incr: u32, ssthresh: u32)

  datatype Prober = Prober(askSend: bool, askTell: bool, ts: u32, wait: u32)

  datatype Clock = Clock(current: u32, flush: u32, updated: bool)

  datatype Kcp = Kcp(cfg: Config, snd: Snd, rcv: Rcv, rmtWnd: u32, acks: seq<Ack>, rtt: Rtt, cong: Cong,
                     prober: Prober, clock: Clock, xmit: u32, dead: bool)

  /** What `ikcp_create`, `ikcp_setmtu` and `ikcp_wndsize` leave in the parameters. */
  predicate Configured(c: Config) {
    && 50 <= c.mtu < HALF && c.mss == c.mtu - OVERHEAD
    && 0 < c.sndWnd < HALF && WND_RCV <= c.rcvWnd < HALF
  }

  /** `ikcp_create`, with the parameters chosen before the first call. */
  function Create(c: Config): Kcp {
    Kcp(c, Snd(0, 0, [], []), Rcv(0, [], []), WND_RCV, [], Rtt(0, 0, 200), Cong(0, 0, 2),
        Prober(false, false, 0, 0), Clock(0, 100, false), 0, false)
  }

  // ---------------------------------------------------------------- sending

  function FragCount(len: nat, mss: nat): int
    requires mss > 0
  {
    if len <= mss then 1 else (len + mss - 1) / mss
  }

  /** The fragments are enough for the message, and one less would not be. */
  lemma FragCountCovers(len: nat, mss: nat)
    requires mss > 0
    ensures FragCount(len, mss) >= 1 && len <= FragCount(len, mss) * mss
    ensures FragCount(len, mss) == 1 || (FragCount(len, mss) - 1) * mss < len
  {
    if len > mss {
      var q, r := (len + mss - 1) / mss, (len + mss - 1) % mss;
      assert len + mss - 1 == q * mss + r;
    }
  }

  /** The fragments of a message, numbered down to 0; in stream mode all are numbered 0. */
  function Fragment(data: seq<byte>, mss: nat, count: nat, stream: bool): seq<Frag>
    requires 0 < mss < HALF && count <= 256
    decreases count
  {
    if count == 0 then [] else
      var size := Min(|data|, mss);
      [Frag(if stream then 0 else count - 1, data[..size])] + Fragment(data[size..], mss, count - 1, stream)
  }

  datatype Sent = Sent(queue: seq<Frag>, code: int)

  /** Stream mode first fills up the last waiting fragment. */
  function Extend(queue: seq<Frag>, data: seq<byte>, mss: nat): (r: (seq<Frag>, seq<byte>))
    requires mss < HALF
  {
    if queue == [] || |queue[|queue| - 1].data| >= mss then (queue, data)
    else
      var last := queue[|queue| - 1];
      var extend := Min(|data|, mss - |last.data|);
      (queue[..|queue| - 1] + [Frag(0, last.data + data[..extend])], data[extend..])
  }

  function Enqueue(queue: seq<Frag>, data: seq<byte>, mss: nat, stream: bool): Sent
    requires 0 < mss < HALF
  {
    var count := FragCount(|data|, mss);
    FragCountCovers(|data|, mss);
    if count >= WND_RCV then Sent(queue, -2)
    else Sent(queue + Fragment(data, mss, count, stream), 0)
  }

  /** `ikcp_send` of a buffer of non-negative length. */
  function Send(c: Config, queue: seq<Frag>, data: seq<byte>): Sent
    requires Configured(c)
  {
    if c.stream then
      var (queue', rest) := Extend(queue, data, c.mss);
      if rest == [] then Sent(queue', 0) else Enqueue(queue', rest, c.mss, true)
    else Enqueue(queue, data, c.mss, false)
  }

  // ---------------------------------------------------------------- receiving

  /** The number of segments up to and including the first one numbered 0. */
  function FirstLen(q: seq<Packet>): (n: nat)
    ensures n <= |q|
  {
    if q == [] then 0 else if q[0].frg == 0 then 1 else 1 + FirstLen(q[1..])
  }

  function PacketData(p: Packet): seq<byte> { p.data }

  function FragData(f: Frag): seq<byte> { f.data }

  function Bytes(q: seq<Packet>): seq<byte> {
    Flat(PacketData, q)
  }

  /** `ikcp_peeksize` */
  function PeekSize(q: seq<Packet>): int {
    if q == [] then -1
    else if q[0].frg == 0 then |q[0].data|
    else if |q| < q[0].frg + 1 then -1
    else |Bytes(q[..FirstLen(q)])|
  }

  /** Moves the segments that are next in order from `rcv_buf` to `rcv_queue`, while it has room. */
  function Drain(r: Rcv, wnd: u32): Rcv
    decreases |r.buf|
  {
    if r.buf != [] && r.buf[0].sn == r.nxt && |r.queue| < wnd
    then Drain(Rcv(Add(r.nxt, 1), r.buf[1..], r.queue + [r.buf[0]]), wnd)
    else r
  }

  datatype Received = Received(k: Kcp, code: int, data: seq<byte>)

  /** `ikcp_recv`; a negative length asks to look without taking. */
  function Recv(k: Kcp, len: int): Received {
    var q := k.rcv.queue;
    if q == [] then Received(k, -1, [])
    else if PeekSize(q) < 0 then Received(k, -2, [])
    else if PeekSize(q) > (if len < 0 then -len else len) then Received(k, -3, [])
    else
      var n := FirstLen(q);
      var taken := k.rcv.(queue := if len < 0 then q else q[n..]);
      var rcv := Drain(taken, k.cfg.rcvWnd);
      var tell := |q| >= k.cfg.rcvWnd && |rcv.queue| < k.cfg.rcvWnd;
      Received(k.(rcv := rcv, prober := k.prober.(askTell := k.prober.askTell || tell)),
               |Bytes(q[..n])|, Bytes(q[..n]))
  }

  // ---------------------------------------------------------------- input

  /** `ikcp_parse_una`: drops the front segments that the peer has received in order. */
  function DropUna(buf: seq<Seg>, una: u32): seq<Seg> {
    if buf != [] && TimeDiff(una, buf[0].sn) > 0 then DropUna(buf[1..], una) else buf
  }

  /** The search of `ikcp_parse_ack`, which stops at the first segment sent later. */
  function AckIndex(buf: seq<Seg>, sn: u32, i: nat): (r: nat)
    requires i <= |buf|
    ensures r <= |buf|
    decreases |buf| - i
  {
    if i == |buf| || sn == buf[i].sn then i
    else if TimeDiff(sn, buf[i].sn) < 0 then |buf|
    else AckIndex(buf, sn, i + 1)
  }

  function RemoveAcked(buf: seq<Seg>, sn: u32): seq<Seg> {
    var i := AckIndex(buf, sn, 0);
    if i < |buf| then RemoveAt(buf, i) else buf
  }

  /** `ikcp_shrink_buf` */
  function Shrink(s: Snd): Snd {
    s.(una := if s.buf == [] then s.nxt else s.buf[0].sn)
  }

  predicate InFlight(s: Snd, sn: u32) {
    TimeDiff(sn, s.una) >= 0 && TimeDiff(sn, s.nxt) < 0
  }

  function ParseAck(s: Snd, sn: u32): Snd {
    if InFlight(s, sn) then s.(buf := RemoveAcked(s.buf, sn)) else s
  }

  /** Where the loop of `ikcp_parse_fastack` stops. */
  function SkipEnd(buf: seq<Seg>, sn: u32, i: nat): (r: nat)
    requires i <= |buf|
    ensures r <= |buf|
    decreases |buf| - i
  {
    if i == |buf| || TimeDiff(sn, buf[i].sn) < 0 then i else SkipEnd(buf, sn, i + 1)
  }

  function Bump(s: Seg, sn: u32): Seg {
    if sn != s.sn then s.(fastack := Add(s.fastack, 1)) else s
  }

  /** The first `n` segments were sent before the highest acknowledged one and skipped by it. */
  function BumpFirst(buf: seq<Seg>, sn: u32, n: nat): seq<Seg>
    requires n <= |buf|
  {
    seq(|buf|, i requires 0 <= i < |buf| => if i < n then Bump(buf[i], sn) else buf[i])
  }

  function BumpSkipped(buf: seq<Seg>, sn: u32): seq<Seg> {
    BumpFirst(buf, sn, SkipEnd(buf, sn, 0))
  }

  function ParseFastack(s: Snd, sn: u32): Snd {
    if InFlight(s, sn) then s.(buf := BumpSkipped(s.buf, sn)) else s
  }

  /** `ikcp_update_ack` */
  function UpdateRtt(r: Rtt, rtt: nat, c: Config): (r': Rtt)
    ensures r'.rto <= RTO_MAX
    ensures c.minrto <= RTO_MAX ==> c.minrto <= r'.rto
  {
    var delta := if rtt < r.srtt then r.srtt - rtt else rtt - r.srtt;
    var rttval := if r.srtt == 0 then rtt / 2 else (3 * r.rttval + delta) / 4;
    var srtt := if r.srtt == 0 then rtt else Max(1, (7 * r.srtt + rtt) / 8);
    Rtt(srtt, rttval, Bound(c.minrto, srtt + Max(c.interval, 4 * rttval), RTO_MAX))
  }

  /** The search of `ikcp_parse_data` from the back of `rcv_buf`: a place, or none for a number that
      is there already. */
  function Slot(buf: seq<Packet>, sn: u32, i: nat): (r: Option<nat>)
    requires i <= |buf|
    ensures r.Some? ==> r.value <= i
    decreases i
  {
    if i == 0 then Some(0)
    else if buf[i - 1].sn == sn then None
    else if TimeDiff(sn, buf[i - 1].sn) > 0 then Some(i)
    else Slot(buf, sn, i - 1)
  }

  function InsertSorted(buf: seq<Packet>, p: Packet): seq<Packet> {
    match Slot(buf, p.sn, |buf|)
    case None => buf
    case Some(i) => InsertAt(buf, i, p)
  }

  /** `ikcp_parse_data` */
  function ParseData(r: Rcv, wnd: u32, p: Packet): Rcv {
    if TimeDiff(p.sn, Add(r.nxt, wnd)) >= 0 || TimeDiff(p.sn, r.nxt) < 0 then r
    else Drain(r.(buf := InsertSorted(r.buf, p)), wnd)
  }

  /** The endpoint and the highest number acknowledged by this datagram so far. */
  datatype Scanned = Scanned(k: Kcp, maxack: Option<u32>)

  /** Every accepted segment carries the peer's window and cumulative acknowledgement. */
  function OnUna(k: Kcp, p: Packet): Kcp {
    k.(rmtWnd := p.wnd, snd := Shrink(k.snd.(buf := DropUna(k.snd.buf, p.una))))
  }

  function OnAck(k: Kcp, p: Packet): Kcp {
    var rtt := TimeDiff(k.clock.current, p.ts);
    k.(rtt := if rtt >= 0 then UpdateRtt(k.rtt, rtt, k.cfg) else k.rtt, snd := Shrink(ParseAck(k.snd, p.sn)))
  }

  /** A segment below the window's end is acknowledged, again if it was received before. */
  function OnPush(k: Kcp, p: Packet): Kcp {
    if TimeDiff(p.sn, Add(k.rcv.nxt, k.cfg.rcvWnd)) >= 0 then k
    else k.(acks := k.acks + [Ack(p.sn, p.ts)],
            rcv := if TimeDiff(p.sn, k.rcv.nxt) >= 0 then ParseData(k.rcv, k.cfg.rcvWnd, p) else k.rcv)
  }

  function NewMax(maxack: Option<u32>, sn: u32): Option<u32> {
    if maxack.None? || TimeDiff(sn, maxack.value) > 0 then Some(sn) else maxack
  }

  /** One turn of the loop of `ikcp_input`: what an accepted segment does. */
  function Process(i: Scanned, p: Packet): Scanned {
    var k := OnUna(i.k, p);
    if p.cmd == CMD_ACK then Scanned(OnAck(k, p), NewMax(i.maxack, p.sn))
    else if p.cmd == CMD_PUSH then Scanned(OnPush(k, p), i.maxack)
    else if p.cmd == CMD_WASK then Scanned(k.(prober := k.prober.(askTell := true)), i.maxack)
    else Scanned(k, i.maxack)
  }

  function ProcessAll(k: Kcp, ps: seq<Packet>): Scanned {
    if ps == [] then Scanned(k, None) else Process(ProcessAll(k, ps[..|ps| - 1]), ps[|ps| - 1])
  }

  /** The bytes counted towards the window beyond the threshold. */
  function NextIncr(incr: u32, mss: nat): u32
    requires 0 < mss < HALF
  {
    var base: u32 := if incr < mss then mss else incr;
    Wrap(base + DivWord(MulWrap(mss, mss), base) + mss / 16)
  }

  /** The segments that they fill, the last perhaps in part. */
  function Segments(incr: u32, mss: nat): u32
    requires 0 < mss < HALF
  {
    DivWord(Wrap(incr + mss - 1), mss)
  }

  /** Window growth after `snd_una` moved forward. */
  function GrowWindow(g: Cong, rmtWnd: u32, mss: nat): Cong
    requires 0 < mss < HALF
  {
    if g.cwnd >= rmtWnd then g else
      var g1 :=
        if g.cwnd < g.ssthresh then g.(cwnd := g.cwnd + 1, incr := Add(g.incr, mss))
        else
          var incr := NextIncr(g.incr, mss);
          if MulWrap(g.cwnd + 1, mss) <= incr then g.(incr := incr, cwnd := Segments(incr, mss))
          else g.(incr := incr);
      if g1.cwnd > rmtWnd then g1.(cwnd := rmtWnd, incr := MulWrap(rmtWnd, mss)) else g1
  }

  /** What `ikcp_input` does after a datagram that it read to the end. */
  function FinishInput(i: Scanned, prevUna: u32): Kcp
    requires Configured(i.k.cfg)
  {
    var k := if i.maxack.Some? then i.k.(snd := ParseFastack(i.k.snd, i.maxack.value)) else i.k;
    if TimeDiff(k.snd.una, prevUna) > 0 then k.(cong := GrowWindow(k.cong, k.rmtWnd, k.cfg.mss)) else k
  }

  /** The configuration is not touched by input. */
  lemma {:induction false} ProcessAllConfig(k: Kcp, ps: seq<Packet>)
    ensures ProcessAll(k, ps).k.cfg == k.cfg
    decreases |ps|
  {
    if ps != [] { ProcessAllConfig(k, ps[..|ps| - 1]); }
  }

  datatype InputResult = InputResult(k: Kcp, code: int)

  /** `ikcp_input`: segments before a malformed one have already taken effect. */
  function InputDatagram(k: Kcp, d: seq<byte>): InputResult
    requires Configured(k.cfg)
  {
    if |d| < OVERHEAD then InputResult(k, -1) else
      var parsed := Parse(k.cfg.conv, d);
      var i := ProcessAll(k, parsed.packets);
      ProcessAllConfig(k, parsed.packets);
      if parsed.code != 0 then InputResult(i.k, parsed.code)
      else InputResult(FinishInput(i, k.snd.una), 0)
  }

  // ---------------------------------------------------------------- flushing

  /** `ikcp_wnd_unused` */
  function Room(queued: nat, wnd: u32): u32 {
    if queued < wnd then wnd - queued else 0
  }

  function WndUnused(k: Kcp): u32 {
    Room(|k.rcv.queue|, k.cfg.rcvWnd)
  }

  /** The cast to 16 bits when a window is encoded. */
  function Low16(x: u32): u16 {
    x % 0x1_0000
  }

  /** A segment without payload, as `ikcp_flush` fills its template. */
  function Control(k: Kcp, cmd: byte, a: Ack): Packet {
    Packet(k.cfg.conv, cmd, 0, Low16(WndUnused(k)), a.ts, a.sn, k.rcv.nxt, [])
  }

  function AckPackets(k: Kcp, n: nat): (r: seq<Packet>)
    requires n <= |k.acks|
    ensures |r| == n
  {
    if n == 0 then [] else AckPackets(k, n - 1) + [Control(k, CMD_ACK, k.acks[n - 1])]
  }

  /** The window probe timer. */
  function ProbeTimer(p: Prober, rmtWnd: u32, current: u32): Prober {
    if rmtWnd != 0 then p.(ts := 0, wait := 0)
    else if p.wait == 0 then p.(wait := PROBE_INIT, ts := Add(current, PROBE_INIT))
    else if TimeDiff(current, p.ts) >= 0 then
      var w := if p.wait < PROBE_INIT then PROBE_INIT else p.wait;
      var w' := if Add(w, w / 2) > PROBE_LIMIT then PROBE_LIMIT else Add(w, w / 2);
      p.(wait := w', ts := Add(current, w'), askSend := true)
    else p
  }

  /** The template keeps the number and time of the last acknowledgement. */
  function LastAck(k: Kcp): Ack {
    if k.acks == [] then Ack(0, 0) else k.acks[|k.acks| - 1]
  }

  function ProbePackets(k: Kcp, p: Prober): seq<Packet> {
    (if p.askSend then [Control(k, CMD_WASK, LastAck(k))] else [])
    + (if p.askTell then [Control(k, CMD_WINS, LastAck(k))] else [])
  }

  function SendWindow(k: Kcp): (r: u32)
    ensures r <= k.cfg.sndWnd
  {
    var w := Min(k.cfg.sndWnd, k.rmtWnd);
    if k.cfg.nocwnd == 0 then Min(k.cong.cwnd, w) else w
  }

  /** What a fragment becomes when it gets its sequence number. */
  function NewSeg(k: Kcp, f: Frag, sn: u32): Seg {
    Seg(f.frg, WndUnused(k), k.clock.current, sn, k.rcv.nxt, f.data, k.clock.current, k.rtt.rto, 0, 0)
  }

  /** Moves fragments from `snd_queue` to `snd_buf` while the window has room. */
  function MoveData(k: Kcp, s: Snd, cwnd: u32): (r: Snd)
    ensures r.una == s.una && |r.queue| <= |s.queue|
    decreases |s.queue|
  {
    if TimeDiff(s.nxt, Add(s.una, cwnd)) < 0 && s.queue != []
    then MoveData(k, Snd(s.una, Add(s.nxt, 1), s.queue[1..], s.buf + [NewSeg(k, s.queue[0], s.nxt)]), cwnd)
    else s
  }

  /** Why a segment in `snd_buf` is sent now. */
  datatype Reason = First | Timeout | Fast | NotNow

  function Resent(c: Config): u32 {
    if 0 < c.fastresend < M32 then c.fastresend else 0xffff_ffff
  }

  function Decide(k: Kcp, s: Seg): Reason {
    if s.xmit == 0 then First
    else if TimeDiff(k.clock.current, s.resendts) >= 0 then Timeout
    else if s.fastack >= Resent(k.cfg) && (Signed(s.xmit) <= k.cfg.fastlimit || k.cfg.fastlimit <= 0) then Fast
    else NotNow
  }

  /** Half, rounded toward zero as in C. */
  function HalfTowardZero(x: int): (r: int)
    ensures -HALF <= x < HALF ==> -HALF <= r < HALF
  {
    if x >= 0 then x / 2 else -(-x / 2)
  }

  function Backoff(k: Kcp, rto: u32): u32 {
    if k.cfg.nodelay == 0 then Add(rto, Max(rto, k.rtt.rto))
    else Add(rto, Unsigned(HalfTowardZero(if k.cfg.nodelay < 2 then Signed(rto) else Signed(k.rtt.rto))))
  }

  /** The segment after the decision; a segment that is sent is stamped anew. */
  function Retime(k: Kcp, s: Seg): Seg {
    match Decide(k, s)
    case First =>
      var rtomin := if k.cfg.nodelay == 0 then k.rtt.rto / 8 else 0;
      s.(xmit := Add(s.xmit, 1), rto := k.rtt.rto, resendts := Add(Add(k.clock.current, k.rtt.rto), rtomin),
         ts := k.clock.current, wnd := WndUnused(k), una := k.rcv.nxt)
    case Timeout =>
      s.(xmit := Add(s.xmit, 1), rto := Backoff(k, s.rto), resendts := Add(k.clock.current, Backoff(k, s.rto)),
         ts := k.clock.current, wnd := WndUnused(k), una := k.rcv.nxt)
    case Fast =>
      s.(xmit := Add(s.xmit, 1), fastack := 0, resendts := Add(k.clock.current, s.rto),
         ts := k.clock.current, wnd := WndUnused(k), una := k.rcv.nxt)
    case NotNow => s
  }

  function PushPacket(c: Config, s: Seg): Packet {
    Packet(c.conv, CMD_PUSH, s.frg, Low16(s.wnd), s.ts, s.sn, s.una, s.data)
  }

  /** `snd_buf` with its first `n` segments restamped. */
  function RestampFirst(k: Kcp, buf: seq<Seg>, n: nat): seq<Seg>
    requires n <= |buf|
  {
    seq(|buf|, i requires 0 <= i < |buf| => if i < n then Retime(k, buf[i]) else buf[i])
  }

  /** The pass over `snd_buf`: the packets sent, and what was noticed. */
  datatype Resend = Resend(packets: seq<Packet>, xmit: u32, lost: bool, fast: bool, dead: bool)

  /** Adds one segment, restamped for the given reason. */
  function Note(r: Resend, c: Config, s: Seg, why: Reason): Resend {
    if why == NotNow then r
    else Resend(r.packets + [PushPacket(c, s)], if why == Timeout then Add(r.xmit, 1) else r.xmit,
                r.lost || why == Timeout, r.fast || why == Fast, r.dead || s.xmit >= c.deadLink)
  }

  function ResendFirst(k: Kcp, buf: seq<Seg>, n: nat): Resend
    requires n <= |buf|
  {
    if n == 0 then Resend([], k.xmit, false, false, k.dead)
    else Note(ResendFirst(k, buf, n - 1), k.cfg, Retime(k, buf[n - 1]), Decide(k, buf[n - 1]))
  }

  /** Congestion control at the end of a flush. */
  function Congest(g: Cong, c: Config, s: Snd, cwnd: u32, fast: bool, lost: bool): Cong
    requires 0 < c.mss < HALF
  {
    var g1 :=
      if !fast then g else
        var thresh := Max(Sub(s.nxt, s.una) / 2, THRESH_MIN);
        var w := Add(thresh, Resent(c));
        Cong(w, MulWrap(w, c.mss), thresh);
    var g2 := if lost then Cong(1, c.mss, Max(cwnd / 2, THRESH_MIN)) else g1;
    if g2.cwnd < 1 then g2.(cwnd := 1, incr := c.mss) else g2
  }

  /** The part of a flush that sends data: the sending side after it, what was sent, the windows. */
  datatype DataPass = DataPass(snd: Snd, resend: Resend, cong: Cong)

  function FlushPass(k: Kcp): (r: DataPass)
    requires Configured(k.cfg)
    ensures |r.snd.queue| <= |k.snd.queue|
  {
    var cwnd := SendWindow(k);
    var moved := MoveData(k, k.snd, cwnd);
    var n := |moved.buf|;
    var r := ResendFirst(k, moved.buf, n);
    DataPass(moved.(buf := RestampFirst(k, moved.buf, n)), r, Congest(k.cong, k.cfg, moved, cwnd, r.fast, r.lost))
  }

  datatype Flushed = Flushed(k: Kcp, packets: seq<Packet>)

  /** `ikcp_flush`: the new state and, in order, the segments it writes to the output buffer. */
  function Flush(k: Kcp): (r: Flushed)
    requires Configured(k.cfg)
    ensures |r.k.snd.queue| <= |k.snd.queue| && r.k.cfg == k.cfg && r.k.rcv == k.rcv
  {
    if !k.clock.updated then Flushed(k, []) else
      var prober := ProbeTimer(k.prober, k.rmtWnd, k.clock.current);
      var pass := FlushPass(k);
      Flushed(
        k.(acks := [], prober := prober.(askSend := false, askTell := false), snd := pass.snd,
           xmit := pass.resend.xmit, dead := pass.resend.dead, cong := pass.cong),
        AckPackets(k, |k.acks|) + ProbePackets(k, prober) + pass.resend.packets)
  }

  /** `ikcp_update` */
  function Update(k: Kcp, current: u32): (r: Flushed)
    requires Configured(k.cfg)
    ensures |r.k.snd.queue| <= |k.snd.queue| && r.k.cfg == k.cfg && r.k.rcv == k.rcv
  {
    var flush := if k.clock.updated then k.clock.flush else current;
    var slap := TimeDiff(current, flush);
    var reset := slap >= 10000 || slap < -10000;
    var flush1 := if reset then current else flush;
    if reset || slap >= 0 then
      var next := Add(flush1, k.cfg.interval);
      var next' := if TimeDiff(current, next) >= 0 then Add(current, k.cfg.interval) else next;
      Flush(k.(clock := Clock(current, next', true)))
    else Flushed(k.(clock := Clock(current, flush1, true)), [])
  }
}
