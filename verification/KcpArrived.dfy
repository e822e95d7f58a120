/**
 What one datagram does to an endpoint (kcp_learn/ikcp.c:768-926): which segments leave `snd_buf`, which packets are
 taken in, and what is acknowledged; said by the segments of the datagram, without the functions that process them.
 Then what `ikcp_recv` returns of it (kcp_learn/ikcp.c:360-470).
 `After(k, ps, i)` is the endpoint when the first `i` segments have been processed.
 */
module KcpArrived {
  import opened Options
  import opened Sequences
  import opened Word
  import opened KcpWire
  import opened KcpSpec
  import opened KcpShape
  import opened KcpInvariant
  import opened KcpDirection

  function After(k: Kcp, ps: seq<Packet>, i: nat): Kcp
    requires i <= |ps|
  {
    ProcessAll(k, ps[..i]).k
  }

  lemma AfterNext(k: Kcp, ps: seq<Packet>, i: nat)
    requires EndpointOk(k) && i < |ps|
    ensures ProcessAll(k, ps[..i + 1]) == Process(ProcessAll(k, ps[..i]), ps[i])
    ensures EndpointOk(After(k, ps, i)) && After(k, ps, i).cfg == k.cfg
  {
    assert ps[..i + 1][..i] == ps[..i];
    ProcessAllOk(k, ps[..i]);
    ProcessAllConfig(k, ps[..i]);
  }

  // ---------------------------------------------------------------- what the sender lets go

  /** `una` is ahead of `from`, the first number out, and `sn` lies below it. */
  predicate Below(una: u32, from: u32, sn: u32) {
    TimeDiff(una, from) > 0 && Sub(sn, from) < TimeDiff(una, from)
  }

  /** The packet acknowledges `sn`, singly or with all numbers below its `una`. */
  predicate Acknowledges(p: Packet, from: u32, sn: u32) {
    Below(p.una, from, sn) || (p.cmd == CMD_ACK && p.sn == sn)
  }

  lemma UnaReleases(s: Snd, wnd: u32, una: u32)
    requires SndOk(s, wnd)
    ensures forall x :: x in DropUna(s.buf, una) <==> x in s.buf && !Below(una, s.una, x.sn)
  {
    var n := DropUnaShape(s.buf, una);
    forall i | 0 <= i < |s.buf| ensures i < n <==> Below(una, s.una, s.buf[i].sn) { UnaAt(s, wnd, una, n, i); }
    forall x ensures x in s.buf[n..] <==> x in s.buf && !Below(una, s.una, x.sn) {
      if x in s.buf && !Below(una, s.una, x.sn) {
        var i :| 0 <= i < |s.buf| && s.buf[i] == x;
        assert s.buf[n..][i - n] == x;
      }
      if x in s.buf[n..] {
        var i :| 0 <= i < |s.buf| - n && s.buf[n..][i] == x;
        assert s.buf[n + i] == x;
      }
    }
  }

  lemma UnaAt(s: Snd, wnd: u32, una: u32, n: nat, i: nat)
    requires SndOk(s, wnd) && i < |s.buf| && n <= |s.buf|
    requires forall i | 0 <= i < n :: TimeDiff(una, s.buf[i].sn) > 0
    requires n < |s.buf| ==> TimeDiff(una, s.buf[n].sn) <= 0
    ensures i < n <==> Below(una, s.una, s.buf[i].sn)
  {
    if TimeDiff(una, s.una) > 0 {
      TimeDiffFrom(una, s.buf[i].sn, s.una);
      if n < |s.buf| { TimeDiffFrom(una, s.buf[n].sn, s.una); }
    }
  }

  lemma {:induction false} AckFinds(s: Snd, wnd: u32, i: nat, j: nat)
    requires SndOk(s, wnd) && i <= j < |s.buf|
    ensures AckIndex(s.buf, s.buf[j].sn, i) == j
    decreases j - i
  {
    if i < j {
      TimeDiffFrom(s.buf[j].sn, s.buf[i].sn, s.una);
      AckFinds(s, wnd, i + 1, j);
    }
  }

  lemma AckReleases(s: Snd, wnd: u32, sn: u32)
    requires SndOk(s, wnd)
    ensures forall x :: x in ParseAck(s, sn).buf <==> x in s.buf && x.sn != sn
  {
    if j :| 0 <= j < |s.buf| && s.buf[j].sn == sn {
      AckFinds(s, wnd, 0, j);
      TimeDiffFrom(sn, s.una, s.una);
      TimeDiffFrom(sn, s.nxt, s.una);
      assert ParseAck(s, sn).buf == RemoveAt(s.buf, j);
      RemovedOnly(s.buf, j, sn);
    } else {
      AckIndexShape(s.buf, sn, 0);
      assert ParseAck(s, sn).buf == s.buf;
      forall x | x in s.buf ensures x.sn != sn { var j :| 0 <= j < |s.buf| && s.buf[j] == x; }
    }
  }

  lemma RemovedOnly(buf: seq<Seg>, j: nat, sn: u32)
    requires j < |buf| && forall i | 0 <= i < |buf| :: buf[i].sn == sn <==> i == j
    ensures forall x :: x in RemoveAt(buf, j) <==> x in buf && x.sn != sn
  {
    var w := RemoveAt(buf, j);
    forall x ensures x in w <==> x in buf && x.sn != sn {
      if x in buf && x.sn != sn {
        var i :| 0 <= i < |buf| && buf[i] == x;
        assert w[if i < j then i else i - 1] == x;
      }
      if x in w {
        var i :| 0 <= i < |w| && w[i] == x;
        assert buf[if i < j then i else i + 1] == x;
      }
    }
  }

  lemma ProcessReleases(i: Scanned, p: Packet)
    requires EndpointOk(i.k)
    ensures forall x :: x in Process(i, p).k.snd.buf <==> x in i.k.snd.buf && !Acknowledges(p, i.k.snd.una, x.sn)
  {
    UnaReleases(i.k.snd, i.k.cfg.sndWnd, p.una);
    OnUnaOk(i.k, p);
    if p.cmd == CMD_ACK { AckReleases(OnUna(i.k, p).snd, i.k.cfg.sndWnd, p.sn); }
  }

  /** One of the first `n` segments acknowledges `sn`, when it is its turn. */
  ghost predicate Acknowledged(k: Kcp, ps: seq<Packet>, n: nat, sn: u32)
    requires n <= |ps|
  {
    exists i | 0 <= i < n :: Acknowledges(ps[i], After(k, ps, i).snd.una, sn)
  }

  lemma {:induction false} AllReleases(k: Kcp, ps: seq<Packet>, n: nat)
    requires EndpointOk(k) && n <= |ps|
    ensures forall x :: x in After(k, ps, n).snd.buf <==> x in k.snd.buf && !Acknowledged(k, ps, n, x.sn)
    decreases n
  {
    if n > 0 {
      AllReleases(k, ps, n - 1);
      AfterNext(k, ps, n - 1);
      ProcessReleases(ProcessAll(k, ps[..n - 1]), ps[n - 1]);
    }
  }

  // ---------------------------------------------------------------- what it counts as skipped

  /** `m` is in flight and was sent after `sn`. */
  predicate Passes(s: Snd, m: Option<u32>, sn: u32) {
    m.Some? && Sub(m.value, s.una) < Sub(s.nxt, s.una) && Sub(sn, s.una) < Sub(m.value, s.una)
  }

  function Passed(s: Snd, m: Option<u32>, x: Seg): Seg {
    if Passes(s, m, x.sn) then x.(fastack := Wrap(x.fastack + 1)) else x
  }

  lemma {:induction false} SkipEndFinds(s: Snd, wnd: u32, sn: u32, i: nat)
    requires SndOk(s, wnd) && i <= |s.buf| && Sub(sn, s.una) < HALF
    requires forall j | 0 <= j < i :: Sub(s.buf[j].sn, s.una) <= Sub(sn, s.una)
    ensures forall j | 0 <= j < |s.buf| :: j < SkipEnd(s.buf, sn, i) <==> Sub(s.buf[j].sn, s.una) <= Sub(sn, s.una)
    decreases |s.buf| - i
  {
    if i < |s.buf| {
      TimeDiffFrom(sn, s.buf[i].sn, s.una);
      if TimeDiff(sn, s.buf[i].sn) >= 0 { SkipEndFinds(s, wnd, sn, i + 1); }
    }
  }

  lemma FlightMeans(s: Snd, wnd: u32, sn: u32)
    requires SndOk(s, wnd)
    ensures InFlight(s, sn) <==> Sub(sn, s.una) < Sub(s.nxt, s.una)
  {
  }

  lemma BumpAt(s: Snd, wnd: u32, m: u32, j: nat)
    requires SndOk(s, wnd) && Sub(m, s.una) < Sub(s.nxt, s.una) && j < |s.buf|
    ensures BumpSkipped(s.buf, m)[j] == Passed(s, Some(m), s.buf[j])
  {
    SkipEndFinds(s, wnd, m, 0);
  }

  lemma FastackShape(s: Snd, wnd: u32, m: u32)
    requires SndOk(s, wnd)
    ensures var s' := ParseFastack(s, m);
      s' == s.(buf := s'.buf) && |s'.buf| == |s.buf| && forall j | 0 <= j < |s.buf| :: s'.buf[j] == Passed(s, Some(m), s.buf[j])
  {
    FlightMeans(s, wnd, m);
    if InFlight(s, m) {
      forall j | 0 <= j < |s.buf| ensures BumpSkipped(s.buf, m)[j] == Passed(s, Some(m), s.buf[j]) { BumpAt(s, wnd, m, j); }
    }
  }

  lemma FinishShape(i: Scanned, prevUna: u32)
    requires EndpointOk(i.k)
    ensures var s, s' := i.k.snd, FinishInput(i, prevUna).snd;
      && s' == s.(buf := s'.buf) && |s'.buf| == |s.buf|
      && forall j | 0 <= j < |s.buf| :: s'.buf[j] == Passed(s, i.maxack, s.buf[j])
  {
    if i.maxack.Some? { FastackShape(i.k.snd, i.k.cfg.sndWnd, i.maxack.value); }
  }

  /** The acknowledgement that counts is one of the datagram, and the last in order if all of them are in reach. */
  lemma {:induction false} MaxAck(k: Kcp, ps: seq<Packet>, base: u32)
    ensures var m := ProcessAll(k, ps).maxack;
      && (m.Some? ==> exists p | p in ps :: p.cmd == CMD_ACK && p.sn == m.value)
      && (forall p | p in ps && p.cmd == CMD_ACK :: m.Some?)
      && ((forall p | p in ps && p.cmd == CMD_ACK :: Sub(p.sn, base) < HALF) ==>
            forall p | p in ps && p.cmd == CMD_ACK :: Sub(p.sn, base) <= Sub(m.value, base))
    decreases |ps|
  {
    if ps != [] {
      var front, last := ps[..|ps| - 1], ps[|ps| - 1];
      MaxAck(k, front, base);
      var m := ProcessAll(k, front).maxack;
      assert forall p | p in ps :: p in front || p == last;
      assert last in ps && forall p | p in front :: p in ps;
      if m.Some? && last.cmd == CMD_ACK && Sub(m.value, base) < HALF && Sub(last.sn, base) < HALF {
        TimeDiffFrom(last.sn, m.value, base);
      }
    }
  }

  // ---------------------------------------------------------------- whole datagrams: the sender

  /** `ikcp_input` as far as `snd_buf` goes: all segments are processed, and if the datagram was read to the end, the
      segments that were passed are counted. */
  lemma InputSnd(k: Kcp, d: seq<byte>)
    requires EndpointOk(k)
    ensures var ps, k', mid := Parse(k.cfg.conv, d).packets, InputDatagram(k, d), ProcessAll(k, Parse(k.cfg.conv, d).packets);
      && EndpointOk(mid.k) && |k'.k.snd.buf| == |mid.k.snd.buf|
      && forall j | 0 <= j < |mid.k.snd.buf| ::
           k'.k.snd.buf[j] == if k'.code == 0 then Passed(mid.k.snd, mid.maxack, mid.k.snd.buf[j]) else mid.k.snd.buf[j]
  {
    var ps := Parse(k.cfg.conv, d).packets;
    ProcessAllOk(k, ps);
    ProcessAllConfig(k, ps);
    if |d| >= OVERHEAD && Parse(k.cfg.conv, d).code == 0 { FinishShape(ProcessAll(k, ps), k.snd.una); }
  }

  /** A segment stays in `snd_buf` if and only if nothing in the datagram acknowledges its number; at most its count
      of later acknowledgements changes. */
  lemma InputReleases(k: Kcp, d: seq<byte>)
    requires EndpointOk(k)
    ensures var ps, buf' := Parse(k.cfg.conv, d).packets, InputDatagram(k, d).k.snd.buf;
      && (forall s | s in k.snd.buf :: Buffered(buf', s.sn) <==> !Acknowledged(k, ps, |ps|, s.sn))
      && (forall s' | s' in buf' :: exists s | s in k.snd.buf :: s' == s.(fastack := s'.fastack))
  {
    var ps, buf' := Parse(k.cfg.conv, d).packets, InputDatagram(k, d).k.snd.buf;
    InputSnd(k, d);
    AllReleases(k, ps, |ps|);
    assert ps[..|ps|] == ps;
    StaysFrom(k.snd, k.cfg.sndWnd, ProcessAll(k, ps).k.snd.buf, buf', (sn: u32) => Acknowledged(k, ps, |ps|, sn));
  }

  lemma StaysFrom(s: Snd, wnd: u32, mid: seq<Seg>, buf': seq<Seg>, gone: u32 -> bool)
    requires SndOk(s, wnd) && forall x :: x in mid <==> x in s.buf && !gone(x.sn)
    requires |buf'| == |mid| && forall j | 0 <= j < |mid| :: buf'[j] == mid[j].(fastack := buf'[j].fastack)
    ensures forall x | x in s.buf :: Buffered(buf', x.sn) <==> !gone(x.sn)
    ensures forall x' | x' in buf' :: exists x | x in s.buf :: x' == x.(fastack := x'.fastack)
  {
    forall x | x in s.buf ensures Buffered(buf', x.sn) <==> !gone(x.sn) {
      if x in mid {
        var j :| 0 <= j < |mid| && mid[j] == x;
        assert buf'[j].sn == x.sn;
      }
      if Buffered(buf', x.sn) {
        var j :| 0 <= j < |buf'| && buf'[j].sn == x.sn;
        assert mid[j] in s.buf;
        SameNumber(s, wnd, mid[j], x);
      }
    }
    forall x' | x' in buf' ensures exists x | x in s.buf :: x' == x.(fastack := x'.fastack) {
      var j :| 0 <= j < |buf'| && buf'[j] == x';
      assert mid[j] in s.buf;
    }
  }

  lemma SameNumber(s: Snd, wnd: u32, x: Seg, y: Seg)
    requires SndOk(s, wnd) && x in s.buf && y in s.buf && x.sn == y.sn
    ensures x == y
  {
    var i :| 0 <= i < |s.buf| && s.buf[i] == x;
    var j :| 0 <= j < |s.buf| && s.buf[j] == y;
  }

  lemma UnaMoves(s: Snd, wnd: u32, t: Snd)
    requires SndOk(s, wnd) && SndOk(t, wnd) && t.nxt == s.nxt && forall x | x in t.buf :: x in s.buf
    ensures Sub(t.una, s.una) <= Sub(s.nxt, s.una)
  {
    if t.buf != [] { assert t.buf[0] in s.buf; }
  }

  lemma ProcessNxt(i: Scanned, p: Packet)
    ensures Process(i, p).k.snd.nxt == i.k.snd.nxt
  {
  }

  lemma {:induction false} AllNxt(k: Kcp, ps: seq<Packet>)
    ensures ProcessAll(k, ps).k.snd.nxt == k.snd.nxt
    decreases |ps|
  {
    if ps != [] {
      AllNxt(k, ps[..|ps| - 1]);
      ProcessNxt(ProcessAll(k, ps[..|ps| - 1]), ps[|ps| - 1]);
    }
  }

  lemma NextStays(k: Kcp, ps: seq<Packet>, n: nat)
    requires EndpointOk(k) && n <= |ps|
    ensures After(k, ps, n).snd.nxt == k.snd.nxt && EndpointOk(After(k, ps, n)) && After(k, ps, n).cfg == k.cfg
  {
    AllNxt(k, ps[..n]);
    ProcessAllOk(k, ps[..n]);
    ProcessAllConfig(k, ps[..n]);
  }

  /** A number below a `una` that is ahead of `snd_una` is acknowledged, at this segment or before. */
  lemma BelowGoes(k: Kcp, ps: seq<Packet>, i: nat, s: Seg)
    requires EndpointOk(k) && i < |ps| && s in k.snd.buf && Below(ps[i].una, k.snd.una, s.sn)
    ensures Acknowledged(k, ps, i + 1, s.sn)
  {
    var t := After(k, ps, i).snd;
    NextStays(k, ps, i);
    AllReleases(k, ps, i);
    if !Acknowledged(k, ps, i, s.sn) {
      UnaMoves(k.snd, k.cfg.sndWnd, t);
      BelowStill(k.snd, t, k.cfg.sndWnd, ps[i].una, s);
      assert Acknowledges(ps[i], t.una, s.sn);
    } else {
      var j :| 0 <= j < i && Acknowledges(ps[j], After(k, ps, j).snd.una, s.sn);
    }
  }

  lemma BelowStill(s: Snd, t: Snd, wnd: u32, una: u32, x: Seg)
    requires SndOk(s, wnd) && SndOk(t, wnd) && t.nxt == s.nxt && x in s.buf && x in t.buf
    requires Sub(t.una, s.una) <= Sub(s.nxt, s.una) && Below(una, s.una, x.sn)
    ensures Below(una, t.una, x.sn)
  {
    var i :| 0 <= i < |t.buf| && t.buf[i] == x;
    var e, d, o := Sub(t.una, s.una), TimeDiff(una, s.una), Sub(x.sn, s.una);
    assert Sub(x.sn, t.una) == o - e;
    TimeDiffFrom(una, t.una, s.una);
  }

  /** No number that the datagram acknowledges, singly or below a `una` ahead of `snd_una`, is in `snd_buf` afterwards. */
  lemma InputDrops(k: Kcp, d: seq<byte>)
    requires EndpointOk(k)
    ensures var ps, buf' := Parse(k.cfg.conv, d).packets, InputDatagram(k, d).k.snd.buf;
      forall p, s' | p in ps && s' in buf' :: !Acknowledges(p, k.snd.una, s'.sn)
  {
    var ps, buf' := Parse(k.cfg.conv, d).packets, InputDatagram(k, d).k.snd.buf;
    InputReleases(k, d);
    forall p, s' | p in ps && s' in buf' ensures !Acknowledges(p, k.snd.una, s'.sn) {
      var i :| 0 <= i < |ps| && ps[i] == p;
      var s :| s in k.snd.buf && s' == s.(fastack := s'.fastack);
      var j :| 0 <= j < |buf'| && buf'[j] == s';
      assert Buffered(buf', s.sn);
      if Below(p.una, k.snd.una, s'.sn) { BelowGoes(k, ps, i, s); }
    }
  }

  /** If a datagram was read to the end, the segments sent before its highest acknowledgement are counted, once. */
  lemma InputPasses(k: Kcp, d: seq<byte>)
    requires EndpointOk(k) && InputDatagram(k, d).code == 0
    ensures var ps, k' := Parse(k.cfg.conv, d).packets, InputDatagram(k, d).k;
      var m := ProcessAll(k, ps).maxack;
      forall s' | s' in k'.snd.buf :: exists s | s in k.snd.buf :: s' == Passed(k'.snd, m, s)
  {
    var ps, k', mid := Parse(k.cfg.conv, d).packets, InputDatagram(k, d).k, ProcessAll(k, Parse(k.cfg.conv, d).packets);
    ProcessAllConfig(k, ps);
    ProcessAllOk(k, ps);
    FinishShape(mid, k.snd.una);
    AllReleases(k, ps, |ps|);
    assert ps[..|ps|] == ps;
    forall s' | s' in k'.snd.buf ensures exists s | s in k.snd.buf :: s' == Passed(k'.snd, mid.maxack, s) {
      var j :| 0 <= j < |k'.snd.buf| && k'.snd.buf[j] == s';
      assert mid.k.snd.buf[j] in k.snd.buf;
      assert s' == Passed(mid.k.snd, mid.maxack, mid.k.snd.buf[j]);
    }
  }

  // ---------------------------------------------------------------- what the receiver takes in

  /** The packets that wait for the user or for an earlier one. */
  ghost function Held(r: Rcv): set<Packet> {
    (set p | p in r.queue) + (set p | p in r.buf)
  }

  /** Its number is inside the window, and no packet with that number is held. */
  ghost predicate Wanted(r: Rcv, wnd: u32, p: Packet) {
    && p.cmd == CMD_PUSH && Sub(p.sn, r.nxt) < wnd
    && forall x | x in r.buf :: x.sn != p.sn
  }

  /** `r'` holds what `r` holds and perhaps more; its queue is that of `r`, extended by as many as `rcv_nxt` moved. */
  ghost predicate Longer(r: Rcv, r': Rcv) {
    r.queue <= r'.queue && r'.nxt == Wrap(r.nxt + (|r'.queue| - |r.queue|))
  }

  lemma {:induction false} DrainTakes(r: Rcv, wnd: u32)
    ensures Held(Drain(r, wnd)) == Held(r) && Longer(r, Drain(r, wnd))
    decreases |r.buf|
  {
    if r.buf != [] && r.buf[0].sn == r.nxt && |r.queue| < wnd {
      var r1 := Rcv(Add(r.nxt, 1), r.buf[1..], r.queue + [r.buf[0]]);
      DrainTakes(r1, wnd);
      DrainOneHeld(r, r1);
      WrapStep(r.nxt, |Drain(r, wnd).queue| - |r1.queue|);
    }
  }

  lemma DrainOneHeld(r: Rcv, r1: Rcv)
    requires r.buf != [] && r1 == Rcv(Add(r.nxt, 1), r.buf[1..], r.queue + [r.buf[0]])
    ensures Held(r1) == Held(r)
  {
    assert r.buf == [r.buf[0]] + r.buf[1..];
  }

  lemma WrapStep(a: u32, m: int)
    ensures Wrap(Add(a, 1) + m) == Wrap(a + (m + 1))
  {
  }

  lemma InsertMembers<T>(s: seq<T>, i: nat, x: T)
    requires i <= |s|
    ensures (set y | y in InsertAt(s, i, x)) == (set y | y in s) + {x}
  {
    assert s == s[..i] + s[i..];
  }

  lemma InsertTakes(r: Rcv, wnd: u32, p: Packet)
    requires RcvOk(r, wnd) && Sub(p.sn, r.nxt) < wnd && p.cmd == CMD_PUSH
    ensures var r' := r.(buf := InsertSorted(r.buf, p)); Held(r') == if Wanted(r, wnd, p) then Held(r) + {p} else Held(r)
  {
    SlotShape(r.buf, p.sn, |r.buf|);
    var slot := Slot(r.buf, p.sn, |r.buf|);
    if slot.None? {
      var j :| 0 <= j < |r.buf| && r.buf[j].sn == p.sn;
      assert r.buf[j] in r.buf;
    } else {
      InsertMembers(r.buf, slot.value, p);
      forall x | x in r.buf ensures x.sn != p.sn { NotThere(r, wnd, p.sn, slot.value, x); }
    }
  }

  lemma NotThere(r: Rcv, wnd: u32, sn: u32, i: nat, x: Packet)
    requires RcvOk(r, wnd) && Sub(sn, r.nxt) < wnd && i <= |r.buf| && x in r.buf
    requires i > 0 ==> TimeDiff(sn, r.buf[i - 1].sn) > 0
    requires i < |r.buf| ==> r.buf[i].sn != sn && TimeDiff(sn, r.buf[i].sn) <= 0
    ensures x.sn != sn
  {
    var j :| 0 <= j < |r.buf| && r.buf[j] == x;
    if i > 0 { TimeDiffFrom(sn, r.buf[i - 1].sn, r.nxt); }
    if i < |r.buf| { TimeDiffFrom(sn, r.buf[i].sn, r.nxt); }
  }

  lemma WindowMeans(r: Rcv, wnd: u32, sn: u32)
    requires 0 < wnd < HALF
    ensures Sub(sn, r.nxt) < wnd <==> TimeDiff(sn, Add(r.nxt, wnd)) < 0 && TimeDiff(sn, r.nxt) >= 0
  {
  }

  lemma ParseWanted(r: Rcv, wnd: u32, p: Packet, r1: Rcv)
    requires RcvOk(r, wnd) && 0 < wnd && p.cmd == CMD_PUSH && Sub(p.sn, r.nxt) < wnd
    requires r1 == r.(buf := InsertSorted(r.buf, p))
    ensures Longer(r, Drain(r1, wnd))
    ensures Held(Drain(r1, wnd)) == if Wanted(r, wnd, p) then Held(r) + {p} else Held(r)
  {
    InsertTakes(r, wnd, p);
    DrainTakes(r1, wnd);
  }

  lemma ParseTakes(r: Rcv, wnd: u32, p: Packet)
    requires RcvOk(r, wnd) && 0 < wnd && p.cmd == CMD_PUSH
    ensures var r' := ParseData(r, wnd, p);
      Longer(r, r') && Held(r') == if Wanted(r, wnd, p) then Held(r) + {p} else Held(r)
  {
    WindowMeans(r, wnd, p.sn);
    if Sub(p.sn, r.nxt) < wnd { ParseWanted(r, wnd, p, r.(buf := InsertSorted(r.buf, p))); }
  }

  lemma ProcessRcv(i: Scanned, p: Packet)
    requires 0 < i.k.cfg.rcvWnd < HALF
    ensures Process(i, p).k.rcv == if p.cmd == CMD_PUSH then ParseData(i.k.rcv, i.k.cfg.rcvWnd, p) else i.k.rcv
    ensures Process(i, p).k.acks == if Answers(i.k, p) then i.k.acks + [Ack(p.sn, p.ts)] else i.k.acks
  {
  }

  lemma ProcessTakes(i: Scanned, p: Packet)
    requires EndpointOk(i.k)
    ensures var r, r' := i.k.rcv, Process(i, p).k.rcv;
      Longer(r, r') && Held(r') == if Wanted(r, i.k.cfg.rcvWnd, p) then Held(r) + {p} else Held(r)
  {
    ProcessRcv(i, p);
    if p.cmd == CMD_PUSH { ParseTakes(i.k.rcv, i.k.cfg.rcvWnd, p); }
  }

  /** The segments among the first `n` that were wanted when it was their turn. */
  ghost function Taken(k: Kcp, ps: seq<Packet>, n: nat): set<Packet>
    requires n <= |ps|
  {
    set i | 0 <= i < n && Wanted(After(k, ps, i).rcv, k.cfg.rcvWnd, ps[i]) :: ps[i]
  }

  lemma {:induction false} AllTakes(k: Kcp, ps: seq<Packet>, n: nat)
    requires EndpointOk(k) && n <= |ps|
    ensures var r' := After(k, ps, n).rcv; Longer(k.rcv, r') && Held(r') == Held(k.rcv) + Taken(k, ps, n)
    decreases n
  {
    if n > 0 {
      AllTakes(k, ps, n - 1);
      TakesNext(k, ps, n - 1);
      LongerStill(k.rcv, After(k, ps, n - 1).rcv, After(k, ps, n).rcv);
    }
  }

  lemma TakesNext(k: Kcp, ps: seq<Packet>, n: nat)
    requires EndpointOk(k) && n < |ps|
    ensures Longer(After(k, ps, n).rcv, After(k, ps, n + 1).rcv)
    ensures Held(After(k, ps, n).rcv) == Held(k.rcv) + Taken(k, ps, n) ==>
      Held(After(k, ps, n + 1).rcv) == Held(k.rcv) + Taken(k, ps, n + 1)
  {
    AfterNext(k, ps, n);
    ProcessTakes(ProcessAll(k, ps[..n]), ps[n]);
    TakenNext(k, ps, n);
  }

  lemma TakenNext(k: Kcp, ps: seq<Packet>, n: nat)
    requires n < |ps|
    ensures Taken(k, ps, n + 1) ==
      if Wanted(After(k, ps, n).rcv, k.cfg.rcvWnd, ps[n]) then Taken(k, ps, n) + {ps[n]} else Taken(k, ps, n)
  {
  }

  lemma LongerStill(a: Rcv, b: Rcv, c: Rcv)
    requires Longer(a, b) && Longer(b, c)
    ensures Longer(a, c)
  {
  }

  /** Exactly the wanted segments are taken in, and nothing is lost: with the order of the queue and of the buffer,
      which the invariant says, this determines both. */
  lemma InputTakes(k: Kcp, d: seq<byte>)
    requires EndpointOk(k)
    ensures var ps, r' := Parse(k.cfg.conv, d).packets, InputDatagram(k, d).k.rcv;
      && RcvOk(r', k.cfg.rcvWnd) && Settled(r', k.cfg.rcvWnd)
      && Longer(k.rcv, r') && Held(r') == Held(k.rcv) + Taken(k, ps, |ps|)
  {
    var ps := Parse(k.cfg.conv, d).packets;
    AllTakes(k, ps, |ps|);
    assert ps[..|ps|] == ps;
    ProcessAllOk(k, ps);
    ProcessAllConfig(k, ps);
  }

  // ---------------------------------------------------------------- what it acknowledges

  /** Data below the end of the window is acknowledged when its turn comes, whether it is new or not. */
  predicate Answers(k: Kcp, p: Packet) {
    p.cmd == CMD_PUSH && TimeDiff(p.sn, Wrap(k.rcv.nxt + k.cfg.rcvWnd)) < 0
  }

  /** `acks'` is `acks` followed by the numbers and times of the segments at the places `at`. */
  ghost predicate Listed(ps: seq<Packet>, acks: seq<Ack>, acks': seq<Ack>, at: seq<nat>) {
    && |acks'| == |acks| + |at| && acks <= acks'
    && (forall j | 0 <= j < |at| :: at[j] < |ps| && acks'[|acks| + j] == Ack(ps[at[j]].sn, ps[at[j]].ts))
    && (forall j, l | 0 <= j < l < |at| :: at[j] < at[l])
  }

  lemma ListedNext(ps: seq<Packet>, acks: seq<Ack>, acks': seq<Ack>, at: seq<nat>, n: nat)
    requires Listed(ps, acks, acks', at) && n < |ps| && forall j | 0 <= j < |at| :: at[j] < n
    ensures Listed(ps, acks, acks' + [Ack(ps[n].sn, ps[n].ts)], at + [n])
  {
  }

  /** The places of the first `n` segments that are acknowledged. */
  ghost predicate AnswersAt(k: Kcp, ps: seq<Packet>, n: nat, at: seq<nat>)
    requires n <= |ps|
  {
    && (forall j | 0 <= j < |at| :: at[j] < n)
    && (forall i: nat | i < n :: i in at <==> Answers(After(k, ps, i), ps[i]))
  }

  lemma AnswersAtNext(k: Kcp, ps: seq<Packet>, n: nat, at: seq<nat>)
    requires n < |ps| && AnswersAt(k, ps, n, at)
    ensures AnswersAt(k, ps, n + 1, if Answers(After(k, ps, n), ps[n]) then at + [n] else at)
  {
  }

  lemma {:induction false} AllAnswers(k: Kcp, ps: seq<Packet>, n: nat) returns (at: seq<nat>)
    requires EndpointOk(k) && n <= |ps|
    ensures Listed(ps, k.acks, After(k, ps, n).acks, at) && AnswersAt(k, ps, n, at)
    decreases n
  {
    if n == 0 {
      at := [];
    } else {
      at := AllAnswers(k, ps, n - 1);
      at := OneAnswer(k, ps, n - 1, at);
    }
  }

  lemma OneAnswer(k: Kcp, ps: seq<Packet>, n: nat, at: seq<nat>) returns (at': seq<nat>)
    requires EndpointOk(k) && n < |ps| && Listed(ps, k.acks, After(k, ps, n).acks, at) && AnswersAt(k, ps, n, at)
    ensures Listed(ps, k.acks, After(k, ps, n + 1).acks, at') && AnswersAt(k, ps, n + 1, at')
  {
    AnswersNext(k, ps, n);
    AnswersAtNext(k, ps, n, at);
    at' := at;
    if Answers(After(k, ps, n), ps[n]) {
      ListedNext(ps, k.acks, After(k, ps, n).acks, at, n);
      at' := at + [n];
    }
  }

  lemma AnswersNext(k: Kcp, ps: seq<Packet>, n: nat)
    requires EndpointOk(k) && n < |ps|
    ensures var k0, k1 := After(k, ps, n), After(k, ps, n + 1);
      k1.acks == if Answers(k0, ps[n]) then k0.acks + [Ack(ps[n].sn, ps[n].ts)] else k0.acks
  {
    AfterNext(k, ps, n);
    ProcessRcv(ProcessAll(k, ps[..n]), ps[n]);
  }

  /** The list of acknowledgements is extended by those of the data in the datagram below the end of the window, each
      once and in order. */
  lemma InputAnswers(k: Kcp, d: seq<byte>) returns (at: seq<nat>)
    requires EndpointOk(k)
    ensures var ps := Parse(k.cfg.conv, d).packets;
      && Listed(ps, k.acks, InputDatagram(k, d).k.acks, at)
      && (forall i: nat | i < |ps| :: i in at <==> Answers(After(k, ps, i), ps[i]))
  {
    var ps := Parse(k.cfg.conv, d).packets;
    at := AllAnswers(k, ps, |ps|);
    assert ps[..|ps|] == ps;
    ProcessAllConfig(k, ps);
  }

  // ---------------------------------------------------------------- windows and times

  lemma ProcessWindows(i: Scanned, p: Packet)
    ensures var k, k' := i.k, Process(i, p).k;
      && k'.rmtWnd == p.wnd && k'.prober == k.prober.(askTell := k.prober.askTell || p.cmd == CMD_WASK)
      && k'.cong == k.cong && k'.snd.queue == k.snd.queue && k'.clock == k.clock
  {
  }

  ghost predicate Told(k: Kcp, ps: seq<Packet>, k': Kcp) {
    && k'.rmtWnd == (if ps == [] then k.rmtWnd else ps[|ps| - 1].wnd)
    && (k'.prober.askTell <==> k.prober.askTell || exists p | p in ps :: p.cmd == CMD_WASK)
    && k'.prober == k.prober.(askTell := k'.prober.askTell)
    && k'.snd.queue == k.snd.queue && k'.clock == k.clock
  }

  lemma {:induction false} AllTells(k: Kcp, ps: seq<Packet>)
    ensures Told(k, ps, ProcessAll(k, ps).k) && ProcessAll(k, ps).k.cong == k.cong
    decreases |ps|
  {
    if ps != [] {
      var front, last := ps[..|ps| - 1], ps[|ps| - 1];
      AllTells(k, front);
      ProcessWindows(ProcessAll(k, front), last);
      assert forall p | p in ps :: p in front || p == last;
      assert last in ps && forall p | p in front :: p in ps;
    }
  }

  /** The last segment tells the peer's window; a question for the window will be answered.  The congestion window
      grows exactly if the datagram was read to the end and the first number out moved forward. */
  lemma InputTells(k: Kcp, d: seq<byte>)
    requires Configured(k.cfg)
    ensures var r := InputDatagram(k, d);
      && Told(k, Parse(k.cfg.conv, d).packets, r.k)
      && r.k.cong == (if r.code == 0 && TimeDiff(r.k.snd.una, k.snd.una) > 0
                      then GrowWindow(k.cong, r.k.rmtWnd, k.cfg.mss) else k.cong)
  {
    AllTells(k, Parse(k.cfg.conv, d).packets);
    ProcessAllConfig(k, Parse(k.cfg.conv, d).packets);
  }

  /** An acknowledgement measures the time since its segment was sent, unless that lies ahead of the clock. */
  lemma InputMeasures(k: Kcp, ps: seq<Packet>, i: nat)
    requires EndpointOk(k) && i < |ps|
    ensures var p, r, r' := ps[i], After(k, ps, i).rtt, After(k, ps, i + 1).rtt;
      var rtt := TimeDiff(k.clock.current, p.ts);
      if p.cmd == CMD_ACK && rtt >= 0 then Smoothed(r, rtt, r', k.cfg) else r' == r
  {
    AfterNext(k, ps, i);
    AllTells(k, ps[..i]);
    var p, r := ps[i], After(k, ps, i).rtt;
    var rtt := TimeDiff(k.clock.current, p.ts);
    if p.cmd == CMD_ACK && rtt >= 0 { RttSmoothed(r, rtt, k.cfg); }
  }

  /** The estimate starts with the first measurement and then moves an eighth of the way towards each; the deviation
      moves a quarter of the way; the timeout covers both, within its bounds. */
  predicate Smoothed(r: Rtt, rtt: nat, r': Rtt, c: Config) {
    && (r.srtt == 0 ==> r'.srtt == rtt && r'.rttval == rtt / 2)
    && (r.srtt > 0 ==>
          && Min(r.srtt, Max(rtt, 1)) <= r'.srtt <= Max(r.srtt, rtt)
          && 8 * r'.srtt <= Max(8, 7 * r.srtt + rtt) && 7 * r.srtt + rtt <= 8 * r'.srtt + 7
          && 4 * r'.rttval <= 3 * r.rttval + (if rtt < r.srtt then r.srtt - rtt else rtt - r.srtt) <= 4 * r'.rttval + 3)
    && r'.rto <= RTO_MAX && (c.minrto <= RTO_MAX ==> c.minrto <= r'.rto)
    && (r'.rto < RTO_MAX ==> r'.srtt + 4 * r'.rttval <= r'.rto && r'.srtt + c.interval <= r'.rto)
    && (r'.rto > c.minrto ==> r'.rto <= r'.srtt + Max(c.interval, 4 * r'.rttval))
  }

  lemma RttSmoothed(r: Rtt, rtt: nat, c: Config)
    ensures Smoothed(r, rtt, UpdateRtt(r, rtt, c), c)
  {
  }

  // ---------------------------------------------------------------- what ikcp_recv returns

  /** The first `n` packets are the first message, or all there are of it. */
  predicate FirstUpTo(q: seq<Packet>, n: nat) {
    && n <= |q| && (q != [] ==> n > 0)
    && (forall i | 0 <= i < n - 1 :: q[i].frg != 0)
    && (n < |q| ==> q[n - 1].frg == 0)
  }

  lemma {:induction false} FirstShape(q: seq<Packet>)
    ensures FirstUpTo(q, FirstLen(q))
    decreases |q|
  {
    if q != [] && q[0].frg != 0 {
      var n := FirstLen(q[1..]);
      FirstShape(q[1..]);
      forall i | 0 <= i < n ensures q[i].frg != 0 { if i > 0 { assert q[i] == q[1..][i - 1]; } }
    }
  }

  lemma OneMessage(q: seq<Packet>)
    requires q != [] && q[0].frg == 0
    ensures Bytes(q[..1]) == q[0].data
  {
    assert q[..1] == [q[0]] && q[..1][..0] == [];
    assert Flat(PacketData, q[..1][..0]) == [];
  }

  /** `ikcp_recv` returns the bytes of the first message and their number, if it is complete and fits; it takes the
      message out only if it was not asked to look, and lets in what waited for room.  Otherwise nothing changes, and
      the code says why. */
  lemma RecvReturns(k: Kcp, len: int) returns (n: nat)
    ensures FirstUpTo(k.rcv.queue, n)
    ensures var q, r := k.rcv.queue, Recv(k, len);
      if q == [] then r == Received(k, -1, [])
      else if |q| <= q[0].frg then r == Received(k, -2, [])
      else if |Bytes(q[..n])| > Max(len, -len) then r == Received(k, -3, [])
      else
        var left := k.rcv.(queue := if len < 0 then q else q[n..]);
        && r.data == Bytes(q[..n]) && r.code == |r.data|
        && Longer(left, r.k.rcv) && Held(r.k.rcv) == Held(left) && Settled(r.k.rcv, k.cfg.rcvWnd)
        && r.k == k.(rcv := r.k.rcv, prober := r.k.prober) && r.k.prober == k.prober.(askTell := r.k.prober.askTell)
        && (r.k.prober.askTell <==> k.prober.askTell || |r.k.rcv.queue| < k.cfg.rcvWnd <= |q|)
  {
    var q := k.rcv.queue;
    n := FirstLen(q);
    FirstShape(q);
    if q != [] && q[0].frg == 0 { OneMessage(q); }
    DrainTakes(k.rcv.(queue := if len < 0 then q else q[n..]), k.cfg.rcvWnd);
    DrainSettles(k.rcv.(queue := if len < 0 then q else q[n..]), k.cfg.rcvWnd);
  }

  lemma {:induction false} DrainSettles(r: Rcv, wnd: u32)
    ensures Settled(Drain(r, wnd), wnd)
    decreases |r.buf|
  {
    if r.buf != [] && r.buf[0].sn == r.nxt && |r.queue| < wnd {
      DrainSettles(Rcv(Add(r.nxt, 1), r.buf[1..], r.queue + [r.buf[0]]), wnd);
    }
  }
}
