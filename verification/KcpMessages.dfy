/**
 Messages and the fragments that carry them: the fragments in `rcv_queue` are cut at message
 boundaries, so `ikcp_recv` returns exactly the next message that the peer's `ikcp_send` accepted.
 */
module KcpMessages {
  import opened Word
  import opened KcpWire
  import opened KcpSpec
  import opened KcpDirection

  /** `ikcp_send` accepts a message of fewer than 128 fragments. */
  predicate Acceptable(mss: nat, data: seq<byte>)
    requires mss > 0
  {
    FragCount(|data|, mss) < WND_RCV
  }

  /** The fragments of one message. */
  function Pieces(mss: nat, data: seq<byte>): seq<Frag>
    requires 0 < mss < HALF && Acceptable(mss, data)
  {
    FragCountCovers(|data|, mss);
    Fragment(data, mss, FragCount(|data|, mss), false)
  }

  /** The fragments of several messages, in order. */
  function Stream(mss: nat, msgs: seq<seq<byte>>): seq<Frag>
    requires 0 < mss < HALF && forall m | m in msgs :: Acceptable(mss, m)
  {
    if msgs == [] then [] else Stream(mss, msgs[..|msgs| - 1]) + Pieces(mss, msgs[|msgs| - 1])
  }

  /** A message's fragments count down to 0. */
  lemma {:induction false} FragmentCounts(data: seq<byte>, mss: nat, count: nat, stream: bool)
    requires 0 < mss < HALF && count <= 256
    ensures var fs := Fragment(data, mss, count, stream);
      && |fs| == count
      && (!stream ==> forall i | 0 <= i < count :: fs[i].frg == count - 1 - i)
    decreases count
  {
    if count > 0 { FragmentCounts(data[Min(|data|, mss)..], mss, count - 1, stream); }
  }

  /** Repeated addition, to keep the next proof linear. */
  function Times(mss: nat, count: nat): nat {
    if count == 0 then 0 else Times(mss, count - 1) + mss
  }

  lemma {:induction false} TimesIsProduct(mss: nat, count: nat)
    ensures Times(mss, count) == count * mss
    decreases count
  {
    if count > 0 {
      TimesIsProduct(mss, count - 1);
      assert count * mss == (count - 1) * mss + mss;
    }
  }

  /** Joined, the fragments of a message are the message. */
  lemma {:induction false} FragmentJoins(data: seq<byte>, mss: nat, count: nat, stream: bool)
    requires 0 < mss < HALF && count <= 256
    requires |data| <= Times(mss, count)
    ensures Flat(FragData, Fragment(data, mss, count, stream)) == data
    decreases count
  {
    if count > 0 {
      var size := Min(|data|, mss);
      var first := Frag(if stream then 0 else count - 1, data[..size]);
      FragmentJoins(data[size..], mss, count - 1, stream);
      FlatFront(FragData, first, Fragment(data[size..], mss, count - 1, stream));
      assert data[..size] + data[size..] == data;
    }
  }

  /** The fragments that `ikcp_send` makes are those of the whole message. */
  lemma CountedJoins(data: seq<byte>, mss: nat, stream: bool)
    requires 0 < mss < HALF && Acceptable(mss, data)
    ensures FragCount(|data|, mss) >= 1
    ensures Flat(FragData, Fragment(data, mss, FragCount(|data|, mss), stream)) == data
  {
    FragCountCovers(|data|, mss);
    TimesIsProduct(mss, FragCount(|data|, mss));
    FragmentJoins(data, mss, FragCount(|data|, mss), stream);
  }

  // ---------------------------------------------------------------- ikcp_send

  /** The data is cut into full fragments and a last one, numbered down to 0, or all 0 in stream mode. */
  ghost predicate Cut(fs: seq<Frag>, data: seq<byte>, mss: nat, stream: bool) {
    && fs != [] && Flat(FragData, fs) == data
    && (forall i | 0 <= i < |fs| - 1 :: |fs[i].data| == mss)
    && |fs[|fs| - 1].data| <= mss && (|fs| > 1 ==> fs[|fs| - 1].data != [])
    && (forall i | 0 <= i < |fs| :: fs[i].frg == if stream then 0 else |fs| - 1 - i)
  }

  lemma {:induction false} FragmentFull(data: seq<byte>, mss: nat, count: nat, stream: bool)
    requires 0 < mss < HALF && 0 < count <= 256 && |data| <= Times(mss, count) && (count == 1 || Times(mss, count - 1) < |data|)
    ensures var fs := Fragment(data, mss, count, stream);
      && |fs| == count && (forall i | 0 <= i < count - 1 :: |fs[i].data| == mss)
      && |fs[count - 1].data| <= mss && (count > 1 ==> fs[count - 1].data != [])
      && (forall i | 0 <= i < count :: fs[i].frg == if stream then 0 else count - 1 - i)
    decreases count
  {
    if count > 1 { FragmentFull(data[mss..], mss, count - 1, stream); }
  }

  lemma CutBy(data: seq<byte>, mss: nat, stream: bool)
    requires 0 < mss < HALF && Acceptable(mss, data)
    ensures FragCount(|data|, mss) >= 1 && Cut(Fragment(data, mss, FragCount(|data|, mss), stream), data, mss, stream)
  {
    var count := FragCount(|data|, mss);
    FragCountCovers(|data|, mss);
    CountedJoins(data, mss, stream);
    TimesIsProduct(mss, count);
    TimesIsProduct(mss, count - 1);
    FragmentFull(data, mss, count, stream);
  }

  /** Fewer than 128 fragments hold 127 times the room of one. */
  lemma AcceptableMeans(data: seq<byte>, mss: nat)
    requires mss > 0
    ensures Acceptable(mss, data) <==> |data| <= 127 * mss
  {
    var count := FragCount(|data|, mss);
    FragCountCovers(|data|, mss);
    if count <= 127 { Scale(count, 127, mss); } else { Scale(127, count - 1, mss); }
  }

  lemma Scale(a: nat, b: nat, m: nat)
    requires a <= b
    ensures a * m <= b * m
  {
    assert 0 <= (b - a) * m == b * m - a * m;
  }

  /** What stream mode puts into the last waiting fragment. */
  function Filling(queue: seq<Frag>, data: seq<byte>, mss: nat): nat {
    if queue == [] then 0 else Min(|data|, Max(0, mss - |queue[|queue| - 1].data|))
  }

  /** The queue after that. */
  ghost predicate FilledUp(queue: seq<Frag>, queue': seq<Frag>, mss: nat, more: seq<byte>) {
    if queue == [] || |queue[|queue| - 1].data| >= mss then queue' == queue
    else
      var last := |queue| - 1;
      && |queue'| == |queue| && queue'[..last] == queue[..last]
      && queue'[last].frg == 0 && queue'[last].data == queue[last].data + more
  }

  /** `ikcp_send` takes a buffer of up to 127 fragments, cut in order behind what is waiting, and no larger one.  Stream
      mode fills up the last waiting fragment first, and keeps that even if the rest is too large. */
  lemma SendTakes(c: Config, queue: seq<Frag>, data: seq<byte>) returns (queue': seq<Frag>, added: seq<Frag>)
    requires Configured(c)
    ensures var r, n := Send(c, queue, data), if c.stream then Filling(queue, data, c.mss) else 0;
      && 0 <= n <= |data| && (if c.stream then FilledUp(queue, queue', c.mss, data[..n]) else queue' == queue)
      && (if c.stream && n == |data| then r == Sent(queue', 0)
          else if |data| - n <= 127 * c.mss then r == Sent(queue' + added, 0) && Cut(added, data[n..], c.mss, c.stream)
          else r == Sent(queue', -2))
  {
    var rest;
    if c.stream {
      queue', rest := Extend(queue, data, c.mss).0, Extend(queue, data, c.mss).1;
    } else {
      queue', rest := queue, data;
      assert data[0..] == data;
    }
    AcceptableMeans(rest, c.mss);
    added := [];
    if Acceptable(c.mss, rest) {
      CutBy(rest, c.mss, c.stream);
      added := Fragment(rest, c.mss, FragCount(|rest|, c.mss), c.stream);
    }
  }

  // ---------------------------------------------------------------- messages in the queue

  lemma {:induction false} StreamPrefix(mss: nat, msgs: seq<seq<byte>>, j: nat)
    requires 0 < mss < HALF && forall m | m in msgs :: Acceptable(mss, m)
    requires j <= |msgs|
    ensures Stream(mss, msgs[..j]) <= Stream(mss, msgs)
    decreases |msgs|
  {
    if j == |msgs| {
      assert msgs[..j] == msgs;
    } else {
      StreamPrefix(mss, msgs[..|msgs| - 1], j);
      assert msgs[..|msgs| - 1][..j] == msgs[..j];
    }
  }

  /** The fragments of message `j` stand right after those of the messages before it. */
  lemma StreamAt(mss: nat, msgs: seq<seq<byte>>, j: nat)
    requires 0 < mss < HALF && forall m | m in msgs :: Acceptable(mss, m)
    requires j < |msgs|
    ensures var before, ps := |Stream(mss, msgs[..j])|, Pieces(mss, msgs[j]);
      && before + |ps| <= |Stream(mss, msgs)|
      && Stream(mss, msgs)[before..before + |ps|] == ps
      && |Stream(mss, msgs[..j + 1])| == before + |ps|
  {
    StreamPrefix(mss, msgs, j + 1);
    assert msgs[..j + 1][..j] == msgs[..j];
    var a, b := Stream(mss, msgs[..j]), Pieces(mss, msgs[j]);
    assert Stream(mss, msgs[..j + 1]) == a + b;
    assert Stream(mss, msgs)[..|a| + |b|] == a + b;
  }

  lemma {:induction false} FirstLenCountdown(q: seq<Packet>, c: nat)
    requires 1 <= c <= |q|
    requires forall i | 0 <= i < c :: q[i].frg == c - 1 - i
    ensures FirstLen(q) == c
    decreases c
  {
    if c > 1 { FirstLenCountdown(q[1..], c - 1); }
  }

  /** Messages accepted so far are the fragments numbered or queued; messages delivered so far are
      the first accepted ones, and their fragments are the ones consumed. */
  ghost predicate MsgPart(mss: nat, accepted: seq<seq<byte>>, hist: seq<Frag>, queue: seq<Frag>,
                          delivered: seq<seq<byte>>, consumed: nat)
  {
    && 0 < mss < HALF && (forall m | m in accepted :: Acceptable(mss, m))
    && Stream(mss, accepted) == hist + queue
    && delivered <= accepted
    && consumed == |Stream(mss, delivered)|
  }

  lemma SendPart(mss: nat, accepted: seq<seq<byte>>, hist: seq<Frag>, queue: seq<Frag>,
                 delivered: seq<seq<byte>>, consumed: nat, data: seq<byte>)
    requires MsgPart(mss, accepted, hist, queue, delivered, consumed)
    requires Acceptable(mss, data)
    ensures MsgPart(mss, accepted + [data], hist, queue + Pieces(mss, data), delivered, consumed)
  {
    var all := accepted + [data];
    assert all[..|accepted|] == accepted;
    assert hist + queue + Pieces(mss, data) == hist + (queue + Pieces(mss, data));
  }

  /** A fragment in the queue belongs to a message not yet delivered. */
  lemma MoreToDeliver(mss: nat, accepted: seq<seq<byte>>, hist: seq<Frag>, queue: seq<Frag>,
                      delivered: seq<seq<byte>>, consumed: nat)
    requires MsgPart(mss, accepted, hist, queue, delivered, consumed)
    requires consumed < |hist|
    ensures |delivered| < |accepted|
  {
    assert |delivered| == |accepted| ==> delivered == accepted;
  }

  /** When a message starts the queue, its fragments do. */
  lemma QueueFront(mss: nat, accepted: seq<seq<byte>>, hist: seq<Frag>, queue: seq<Frag>,
                   delivered: seq<seq<byte>>, consumed: nat, r: Rcv)
    requires MsgPart(mss, accepted, hist, queue, delivered, consumed)
    requires RcvPart(r, hist, consumed) && |delivered| < |accepted|
    ensures var ps := Pieces(mss, accepted[|delivered|]);
      && |Stream(mss, accepted[..|delivered| + 1])| == consumed + |ps|
      && forall i | 0 <= i < |ps| && i < |r.queue| :: r.queue[i].frg == ps[i].frg && r.queue[i].data == ps[i].data
  {
    var j := |delivered|;
    assert accepted[..j] == delivered;
    StreamAt(mss, accepted, j);
    var ps := Pieces(mss, accepted[j]);
    PiecesInQueue(hist, queue, consumed, r, ps);
  }

  lemma PiecesInQueue(hist: seq<Frag>, queue: seq<Frag>, consumed: nat, r: Rcv, ps: seq<Frag>)
    requires RcvPart(r, hist, consumed)
    requires consumed + |ps| <= |hist + queue| && (hist + queue)[consumed..consumed + |ps|] == ps
    ensures forall i | 0 <= i < |ps| && i < |r.queue| :: r.queue[i].frg == ps[i].frg && r.queue[i].data == ps[i].data
  {
    forall i | 0 <= i < |ps| && i < |r.queue| ensures r.queue[i].frg == ps[i].frg && r.queue[i].data == ps[i].data {
      assert Genuine(hist, consumed + i, r.queue[i].frg, r.queue[i].data);
      assert ps[i] == (hist + queue)[consumed + i];
    }
  }

  /** The first message of the queue, complete or not. */
  lemma FirstMessage(mss: nat, accepted: seq<seq<byte>>, hist: seq<Frag>, queue: seq<Frag>,
                     delivered: seq<seq<byte>>, consumed: nat, r: Rcv)
    requires MsgPart(mss, accepted, hist, queue, delivered, consumed)
    requires RcvPart(r, hist, consumed) && r.queue != []
    ensures |delivered| < |accepted|
    ensures var n := |Pieces(mss, accepted[|delivered|])|;
      && (PeekSize(r.queue) < 0 <==> |r.queue| < n)
      && (|r.queue| >= n ==>
            && FirstLen(r.queue) == n
            && Bytes(r.queue[..n]) == accepted[|delivered|]
            && PeekSize(r.queue) == |accepted[|delivered|]|
            && |Stream(mss, accepted[..|delivered| + 1])| == consumed + n)
  {
    MoreToDeliver(mss, accepted, hist, queue, delivered, consumed);
    QueueFront(mss, accepted, hist, queue, delivered, consumed, r);
    var m := accepted[|delivered|];
    var ps := Pieces(mss, m);
    FragCountCovers(|m|, mss);
    FragmentCounts(m, mss, FragCount(|m|, mss), false);
    CountedJoins(m, mss, false);
    if |r.queue| >= |ps| {
      FirstLenCountdown(r.queue, |ps|);
      FlatSame(PacketData, FragData, r.queue[..|ps|], ps);
      if |ps| == 1 { assert Bytes(r.queue[..1]) == r.queue[0].data by { assert r.queue[..1][..0] == []; } }
    }
  }
}
