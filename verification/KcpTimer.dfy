/**
 The flush timer: when `ikcp_update` reaches `ikcp_flush`, and what the answer of `ikcp_check` is worth.
 */
module KcpTimer {
  import opened Word
  import opened KcpSpec

  /** The smallest waiting time among the first `n` buffered segments, at most `most`. */
  function Nearest(buf: seq<Seg>, n: nat, current: u32, most: int): (r: int)
    requires n <= |buf|
    ensures r <= most && forall i | 0 <= i < n :: r <= TimeDiff(buf[i].resendts, current)
    ensures r == most || exists i | 0 <= i < n :: r == TimeDiff(buf[i].resendts, current)
  {
    if n == 0 then most else Min(Nearest(buf, n - 1, current, most), TimeDiff(buf[n - 1].resendts, current))
  }

  /** `ikcp_check`: the answer is never later than one interval from now. */
  function Check(k: Kcp, current: u32): (r: u32)
    ensures Sub(r, current) <= k.cfg.interval
  {
    var slap := TimeDiff(current, k.clock.flush);
    if !k.clock.updated || slap >= 0 || slap < -10000 then current
    else
      var wait := Nearest(k.snd.buf, |k.snd.buf|, current, 0x7fff_ffff);
      if wait <= 0 then current else Add(current, Min(Min(wait, -slap), k.cfg.interval))
  }

  /** A call of `ikcp_update` at time `t` reaches `ikcp_flush`. */
  predicate Due(c: Clock, t: u32) {
    !c.updated || TimeDiff(t, c.flush) >= 0 || TimeDiff(t, c.flush) < -10000
  }

  /** Between two flushes `ikcp_update` changes nothing but the time; a flush sets the next one to a time
      after `t`, but by no more than the interval: it keeps the beat unless it is late by an interval or more. */
  lemma UpdateTimer(k: Kcp, t: u32) returns (next: u32)
    requires Configured(k.cfg) && 0 < k.cfg.interval < HALF
    ensures !Due(k.clock, t) ==> Update(k, t) == Flushed(k.(clock := k.clock.(current := t)), [])
    ensures Due(k.clock, t) ==> Update(k, t) == Flush(k.(clock := Clock(t, next, true)))
    ensures Due(k.clock, t) ==> 0 < TimeDiff(next, t) <= k.cfg.interval
    ensures Due(k.clock, t) ==> var late := TimeDiff(t, k.clock.flush);
      next == Add(if k.clock.updated && 0 <= late < Min(10000, k.cfg.interval) then k.clock.flush else t, k.cfg.interval)
  {
    var flush := if k.clock.updated then k.clock.flush else t;
    var slap := TimeDiff(t, flush);
    var flush1 := if slap >= 10000 || slap < -10000 then t else flush;
    next := Add(flush1, k.cfg.interval);
    if TimeDiff(t, next) >= 0 { next := Add(t, k.cfg.interval); }
  }

  /** Before the time that `ikcp_check` answers, a call of `ikcp_update` sends nothing and changes nothing but
      the time: it may be left out. */
  lemma CheckIdle(k: Kcp, current: u32, t: u32)
    requires Configured(k.cfg) && Sub(t, current) < Sub(Check(k, current), current)
    ensures Update(k, t) == Flushed(k.(clock := k.clock.(current := t)), [])
  {
    var d := Sub(t, current);
    assert t == Add(current, d);
    assert d < -TimeDiff(current, k.clock.flush);
    assert TimeDiff(t, k.clock.flush) == TimeDiff(current, k.clock.flush) + d;
  }

  /** The update at the time answered need not send anything.  It reaches `ikcp_flush` if and only if a flush is
      due now, or the flush comes within the interval and no buffered segment is to be sent again before it. */
  lemma CheckDue(k: Kcp, current: u32)
    ensures Due(k.clock, Check(k, current)) <==>
            || Due(k.clock, current)
            || (-TimeDiff(current, k.clock.flush) <= k.cfg.interval &&
                forall s | s in k.snd.buf :: TimeDiff(s.resendts, current) >= -TimeDiff(current, k.clock.flush))
  {
    if !Due(k.clock, current) {
      var buf, gap := k.snd.buf, -TimeDiff(current, k.clock.flush);
      var wait := Nearest(buf, |buf|, current, 0x7fff_ffff);
      assert wait >= gap <==> forall s | s in buf :: TimeDiff(s.resendts, current) >= gap;
      var m := Min(Min(wait, gap), k.cfg.interval);
      if wait > 0 { assert TimeDiff(Add(current, m), k.clock.flush) == m - gap; }
    }
  }

  /** For example, a segment that was to be sent again, 50 milliseconds before the next flush: the answer is to
      update at once, and that update does nothing. */
  lemma CheckEarly(k: Kcp, current: u32, seg: Seg)
    requires Configured(k.cfg) && k.clock == Clock(current, Add(current, 50), true)
    requires k.snd.buf == [seg] && seg.resendts == current
    ensures Check(k, current) == current && Update(k, current) == Flushed(k, [])
  {
    assert TimeDiff(current, Add(current, 50)) == -50;
    assert TimeDiff(k.snd.buf[0].resendts, current) == 0;
  }
}
