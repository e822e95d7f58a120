/**
 One direction of a KCP connection: a sender, a receiver, and the segments between them.  `hist`
 is the sequence of all fragments that have been given a number, so the fragment numbered `sn` is
 `hist[sn]`.  Fewer than 2^31 numbers are used, so numbers do not wrap.
 */
module KcpDirection {
  import opened Sequences
  import opened Word
  import opened KcpWire
  import opened KcpSpec
  import opened KcpShape
  import opened KcpInvariant

  /** `sn` was handed to the receiver: it is below `rcv_nxt` or waits in `rcv_buf`. */
  ghost predicate Got(r: Rcv, sn: u32) {
    sn < r.nxt || exists i | 0 <= i < |r.buf| :: r.buf[i].sn == sn
  }

  ghost predicate Buffered(buf: seq<Seg>, sn: u32) {
    exists i | 0 <= i < |buf| :: buf[i].sn == sn
  }

  /** The number and content belong together. */
  predicate Genuine(hist: seq<Frag>, sn: u32, frg: byte, data: Payload) {
    sn < |hist| && hist[sn].frg == frg && hist[sn].data == data
  }

  ghost predicate SndPart(s: Snd, hist: seq<Frag>) {
    && |hist| == s.nxt < HALF
    && s.una <= s.nxt
    && (forall i | 0 <= i < |s.buf| :: Genuine(hist, s.buf[i].sn, s.buf[i].frg, s.buf[i].data))
  }

  /** `rcv_queue` holds the fragments from `consumed` up to `rcv_nxt`. */
  ghost predicate RcvPart(r: Rcv, hist: seq<Frag>, consumed: nat) {
    && r.nxt <= |hist| < HALF
    && consumed + |r.queue| == r.nxt
    && (forall i | 0 <= i < |r.queue| :: Genuine(hist, consumed + i, r.queue[i].frg, r.queue[i].data))
    && (forall i | 0 <= i < |r.buf| :: r.nxt <= r.buf[i].sn && Genuine(hist, r.buf[i].sn, r.buf[i].frg, r.buf[i].data))
  }

  /** A segment on its way from the sender. */
  predicate GoodForward(p: Packet, hist: seq<Frag>) {
    p.cmd == CMD_PUSH ==> Genuine(hist, p.sn, p.frg, p.data)
  }

  /** A segment on its way from the receiver: it acknowledges only what was handed over. */
  ghost predicate GoodBack(p: Packet, r: Rcv) {
    && p.una <= r.nxt
    && (p.cmd == CMD_ACK ==> Got(r, p.sn))
  }

  /** No number is forgotten: the sender still has it or the receiver got it. */
  ghost predicate Kept(s: Snd, r: Rcv, n: nat) {
    forall sn: u32 | sn < n :: Buffered(s.buf, sn) || Got(r, sn)
  }

  // ---------------------------------------------------------------- small facts

  lemma TimeDiffSmall(a: u32, b: u32)
    requires a < HALF && b < HALF
    ensures TimeDiff(a, b) == a - b
  {
  }

  /** `r2` has everything `r1` has. */
  ghost predicate Grown(r1: Rcv, r2: Rcv) {
    r1.nxt <= r2.nxt && forall sn: u32 | Got(r1, sn) :: Got(r2, sn)
  }

  lemma GrownKept(s: Snd, r1: Rcv, r2: Rcv, n: nat)
    requires Kept(s, r1, n) && Grown(r1, r2)
    ensures Kept(s, r2, n)
  {
  }

  lemma GrownBack(p: Packet, r1: Rcv, r2: Rcv)
    requires GoodBack(p, r1) && Grown(r1, r2)
    ensures GoodBack(p, r2)
  {
  }

  lemma RcvPartExtends(r: Rcv, hist: seq<Frag>, more: seq<Frag>, consumed: nat)
    requires RcvPart(r, hist, consumed) && |hist + more| < HALF
    ensures RcvPart(r, hist + more, consumed)
  {
  }

  // ---------------------------------------------------------------- the receiver

  lemma DrainOnePart(r: Rcv, hist: seq<Frag>, consumed: nat, wnd: u32)
    requires RcvPart(r, hist, consumed) && RcvOk(r, wnd)
    requires r.buf != [] && r.buf[0].sn == r.nxt && |r.queue| < wnd
    ensures RcvPart(Rcv(Add(r.nxt, 1), r.buf[1..], r.queue + [r.buf[0]]), hist, consumed)
    ensures Grown(r, Rcv(Add(r.nxt, 1), r.buf[1..], r.queue + [r.buf[0]]))
  {
    var r' := Rcv(Add(r.nxt, 1), r.buf[1..], r.queue + [r.buf[0]]);
    forall i | 0 <= i < |r'.buf| ensures r'.nxt <= r'.buf[i].sn {
      assert Sub(r.buf[0].sn, r.nxt) < Sub(r.buf[i + 1].sn, r.nxt);
    }
    forall sn: u32 | Got(r, sn) ensures Got(r', sn) {
      if sn >= r'.nxt {
        var i :| 0 <= i < |r.buf| && r.buf[i].sn == sn;
        assert r'.buf[i - 1].sn == sn;
      }
    }
  }

  lemma {:induction false} DrainPart(r: Rcv, hist: seq<Frag>, consumed: nat, wnd: u32)
    requires RcvPart(r, hist, consumed) && RcvOk(r, wnd)
    ensures RcvPart(Drain(r, wnd), hist, consumed)
    ensures Grown(r, Drain(r, wnd))
    decreases |r.buf|
  {
    if r.buf != [] && r.buf[0].sn == r.nxt && |r.queue| < wnd {
      DrainOneOk(r, wnd);
      DrainOnePart(r, hist, consumed, wnd);
      DrainPart(Rcv(Add(r.nxt, 1), r.buf[1..], r.queue + [r.buf[0]]), hist, consumed, wnd);
    }
  }

  lemma InsertGrows(r: Rcv, p: Packet)
    ensures var r' := r.(buf := InsertSorted(r.buf, p)); Grown(r, r') && Got(r', p.sn)
    ensures forall x | x in InsertSorted(r.buf, p) :: x == p || x in r.buf
  {
    var r' := r.(buf := InsertSorted(r.buf, p));
    SlotShape(r.buf, p.sn, |r.buf|);
    var slot := Slot(r.buf, p.sn, |r.buf|);
    if slot.Some? {
      var i := slot.value;
      assert r'.buf[i].sn == p.sn;
      forall sn: u32 | Got(r, sn) ensures Got(r', sn) {
        if sn >= r.nxt {
          var j :| 0 <= j < |r.buf| && r.buf[j].sn == sn;
          assert r'.buf[if j < i then j else j + 1].sn == sn;
        }
      }
    }
  }

  lemma InsertPart(r: Rcv, hist: seq<Frag>, consumed: nat, p: Packet)
    requires RcvPart(r, hist, consumed)
    requires Genuine(hist, p.sn, p.frg, p.data) && r.nxt <= p.sn
    ensures RcvPart(r.(buf := InsertSorted(r.buf, p)), hist, consumed)
  {
    InsertGrows(r, p);
    var buf := InsertSorted(r.buf, p);
    forall j | 0 <= j < |buf| ensures r.nxt <= buf[j].sn && Genuine(hist, buf[j].sn, buf[j].frg, buf[j].data) {
      assert buf[j] in buf;
    }
  }

  /** A genuine segment is taken in at its place; afterwards its number is among those received. */
  lemma ParseDataPart(r: Rcv, hist: seq<Frag>, consumed: nat, wnd: u32, p: Packet)
    requires RcvPart(r, hist, consumed) && RcvOk(r, wnd)
    requires Genuine(hist, p.sn, p.frg, p.data)
    requires TimeDiff(p.sn, Add(r.nxt, wnd)) < 0
    ensures var r' := ParseData(r, wnd, p); RcvPart(r', hist, consumed) && Grown(r, r') && Got(r', p.sn)
  {
    TimeDiffSmall(p.sn, r.nxt);
    if p.sn >= r.nxt {
      InsertSortedOk(r, wnd, p);
      InsertPart(r, hist, consumed, p);
      InsertGrows(r, p);
      DrainPart(r.(buf := InsertSorted(r.buf, p)), hist, consumed, wnd);
    }
  }

  // ---------------------------------------------------------------- the sender

  lemma DropUnaPart(s: Snd, hist: seq<Frag>, r: Rcv, una: u32)
    requires SndPart(s, hist) && Kept(s, r, |hist|)
    requires una <= r.nxt < HALF
    ensures Kept(s.(buf := DropUna(s.buf, una)), r, |hist|)
    ensures forall x | x in DropUna(s.buf, una) :: x in s.buf
  {
    var n := DropUnaShape(s.buf, una);
    forall sn: u32 | sn < |hist| ensures Buffered(s.buf[n..], sn) || Got(r, sn) {
      if Buffered(s.buf, sn) && !Got(r, sn) {
        var i :| 0 <= i < |s.buf| && s.buf[i].sn == sn;
        if i < n { TimeDiffSmall(una, s.buf[i].sn); }
        assert s.buf[n..][i - n].sn == sn;
      }
    }
  }

  lemma ParseAckPart(s: Snd, hist: seq<Frag>, r: Rcv, sn: u32)
    requires SndPart(s, hist) && Kept(s, r, |hist|)
    requires Got(r, sn)
    ensures Kept(ParseAck(s, sn), r, |hist|)
    ensures forall x | x in ParseAck(s, sn).buf :: x in s.buf
  {
    AckIndexShape(s.buf, sn, 0);
    var n := AckIndex(s.buf, sn, 0);
    if InFlight(s, sn) && n < |s.buf| {
      var w := RemoveAt(s.buf, n);
      forall j: u32 | j < |hist| ensures Buffered(w, j) || Got(r, j) {
        if Buffered(s.buf, j) && j != sn {
          var i :| 0 <= i < |s.buf| && s.buf[i].sn == j;
          assert w[if i < n then i else i - 1].sn == j;
        }
      }
    }
  }

  lemma SubsetPart(s: Snd, hist: seq<Frag>, buf: seq<Seg>)
    requires SndPart(s, hist)
    requires forall x | x in buf :: x in s.buf
    ensures SndPart(Shrink(s.(buf := buf)), hist)
  {
    forall i | 0 <= i < |buf| ensures Genuine(hist, buf[i].sn, buf[i].frg, buf[i].data) {
      assert buf[i] in s.buf;
    }
  }

  lemma SameContentsPart(s: Snd, hist: seq<Frag>, buf: seq<Seg>, r: Rcv)
    requires SndPart(s, hist) && Kept(s, r, |hist|) && SameContents(buf, s.buf)
    ensures SndPart(s.(buf := buf), hist) && Kept(s.(buf := buf), r, |hist|)
  {
    forall i | 0 <= i < |buf| ensures Genuine(hist, buf[i].sn, buf[i].frg, buf[i].data) {
      assert SameContent(buf[i], s.buf[i]);
    }
    forall sn: u32 | sn < |hist| ensures Buffered(buf, sn) || Got(r, sn) {
      if Buffered(s.buf, sn) {
        var i :| 0 <= i < |s.buf| && s.buf[i].sn == sn;
        assert SameContent(buf[i], s.buf[i]);
      }
    }
  }

  lemma AppendPart(s: Snd, hist: seq<Frag>, r: Rcv, f: Frag, g: Seg)
    requires SndPart(s, hist) && Kept(s, r, |hist|) && |hist| + 1 < HALF
    requires g.sn == s.nxt && g.frg == f.frg && g.data == f.data
    ensures var s' := s.(nxt := Add(s.nxt, 1), buf := s.buf + [g]);
            SndPart(s', hist + [f]) && Kept(s', r, |hist| + 1)
  {
    var s' := s.(nxt := Add(s.nxt, 1), buf := s.buf + [g]);
    forall sn: u32 | sn < |hist| + 1 ensures Buffered(s'.buf, sn) || Got(r, sn) {
      if sn == s.nxt {
        assert s'.buf[|s.buf|].sn == sn;
      } else if Buffered(s.buf, sn) {
        var i :| 0 <= i < |s.buf| && s.buf[i].sn == sn;
        assert s'.buf[i].sn == sn;
      }
    }
  }

  /** Fragments that get numbers join the history in order; the rest stay queued. */
  lemma {:induction false} MoveDataPart(k: Kcp, s: Snd, cwnd: u32, hist: seq<Frag>, r: Rcv) returns (hist': seq<Frag>)
    requires SndPart(s, hist) && Kept(s, r, |hist|) && |hist| + |s.queue| < HALF
    ensures var s' := MoveData(k, s, cwnd);
      && hist' + s'.queue == hist + s.queue
      && hist <= hist'
      && SndPart(s', hist') && Kept(s', r, |hist'|)
    decreases |s.queue|
  {
    if TimeDiff(s.nxt, Add(s.una, cwnd)) < 0 && s.queue != [] {
      var f, g := s.queue[0], NewSeg(k, s.queue[0], s.nxt);
      AppendPart(s, hist, r, f, g);
      hist' := MoveDataPart(k, Snd(s.una, Add(s.nxt, 1), s.queue[1..], s.buf + [g]), cwnd, hist + [f], r);
      assert hist + [f] + s.queue[1..] == hist + s.queue;
    } else {
      hist' := hist;
    }
  }
}
