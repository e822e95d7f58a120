/**
 What the loops of KCP do to its queues, said without recursion: which segments leave, which stay,
 where a new one goes.
 */
module KcpShape {
  import opened Sequences
  import opened Word
  import opened KcpWire
  import opened KcpSpec

  /** `ikcp_parse_una` drops a prefix, each segment of which `una` is ahead of, and stops there. */
  lemma {:induction false} DropUnaShape(buf: seq<Seg>, una: u32) returns (n: nat)
    ensures n <= |buf| && DropUna(buf, una) == buf[n..]
    ensures forall i | 0 <= i < n :: TimeDiff(una, buf[i].sn) > 0
    ensures n < |buf| ==> TimeDiff(una, buf[n].sn) <= 0
  {
    if buf != [] && TimeDiff(una, buf[0].sn) > 0 {
      var m := DropUnaShape(buf[1..], una);
      n := m + 1;
      assert buf[1..][m..] == buf[n..];
      forall i | 0 <= i < n ensures TimeDiff(una, buf[i].sn) > 0 {
        if i > 0 { assert buf[i] == buf[1..][i - 1]; }
      }
    } else {
      n := 0;
    }
  }

  /** `ikcp_parse_ack` removes nothing or the segment with the acknowledged number. */
  lemma {:induction false} AckIndexShape(buf: seq<Seg>, sn: u32, i: nat)
    requires i <= |buf|
    ensures AckIndex(buf, sn, i) < |buf| ==> buf[AckIndex(buf, sn, i)].sn == sn
    decreases |buf| - i
  {
    if i < |buf| { AckIndexShape(buf, sn, i + 1); }
  }

  /** The parts of a segment that fix what the peer receives. */
  predicate SameContent(a: Seg, b: Seg) {
    a.sn == b.sn && a.frg == b.frg && a.data == b.data
  }

  ghost predicate SameContents(a: seq<Seg>, b: seq<Seg>) {
    |a| == |b| && forall i | 0 <= i < |a| :: SameContent(a[i], b[i])
  }

  lemma BumpSkippedShape(buf: seq<Seg>, sn: u32)
    ensures SameContents(BumpSkipped(buf, sn), buf)
  {
  }

  lemma RetimeContent(k: Kcp, s: Seg)
    ensures SameContent(Retime(k, s), s)
    ensures Decide(k, s) != NotNow ==> Retime(k, s).una == k.rcv.nxt
  {
  }

  /** A packet that carries one of the segments, stamped with the current `rcv_nxt`. */
  predicate Carries(k: Kcp, buf: seq<Seg>, p: Packet) {
    && p.conv == k.cfg.conv && p.cmd == CMD_PUSH && p.una == k.rcv.nxt
    && exists i | 0 <= i < |buf| :: p.sn == buf[i].sn && p.frg == buf[i].frg && p.data == buf[i].data
  }

  /** The pass of `ikcp_flush` over `snd_buf` changes no content and sends only what is buffered. */
  lemma RestampShape(k: Kcp, buf: seq<Seg>, n: nat)
    requires n <= |buf|
    ensures SameContents(RestampFirst(k, buf, n), buf)
  {
    forall i | 0 <= i < n ensures SameContent(Retime(k, buf[i]), buf[i]) { RetimeContent(k, buf[i]); }
  }

  lemma {:induction false} ResendShape(k: Kcp, buf: seq<Seg>, n: nat, p: Packet)
    requires n <= |buf| && p in ResendFirst(k, buf, n).packets
    ensures Carries(k, buf, p)
    decreases n
  {
    if p in ResendFirst(k, buf, n - 1).packets {
      ResendShape(k, buf, n - 1, p);
    } else {
      RetimeContent(k, buf[n - 1]);
      assert p == PushPacket(k.cfg, Retime(k, buf[n - 1]));
    }
  }

  ghost predicate Ascends<T>(f: T -> int, s: seq<T>) {
    forall i, j | 0 <= i < j < |s| :: f(s[i]) < f(s[j])
  }

  lemma InsertAtAscends<T>(f: T -> int, s: seq<T>, i: nat, x: T)
    requires Ascends(f, s) && i <= |s|
    requires i > 0 ==> f(s[i - 1]) < f(x)
    requires i < |s| ==> f(x) < f(s[i])
    ensures Ascends(f, InsertAt(s, i, x))
    ensures forall j | 0 <= j < |s| + 1 :: InsertAt(s, i, x)[j] == if j < i then s[j] else if j == i then x else s[j - 1]
  {
    var r := InsertAt(s, i, x);
    forall j | 0 <= j < |r| ensures r[j] == if j < i then s[j] else if j == i then x else s[j - 1] {}
  }

  /** `ikcp_parse_data` leaves the buffer alone only if the number is there already; else it finds
      the place where the number is ahead of the one before it and behind the one after it. */
  lemma {:induction false} SlotShape(buf: seq<Packet>, sn: u32, i: nat)
    requires i <= |buf|
    requires i < |buf| ==> buf[i].sn != sn && TimeDiff(sn, buf[i].sn) <= 0
    ensures match Slot(buf, sn, i)
      case None => exists j | 0 <= j < i :: buf[j].sn == sn
      case Some(r) =>
        && (r > 0 ==> TimeDiff(sn, buf[r - 1].sn) > 0)
        && (r < |buf| ==> buf[r].sn != sn && TimeDiff(sn, buf[r].sn) <= 0)
    decreases i
  {
    if i > 0 && buf[i - 1].sn != sn && TimeDiff(sn, buf[i - 1].sn) <= 0 { SlotShape(buf, sn, i - 1); }
  }
}
