/**
 Why a run has to stay below 2^31 segments: sequence numbers are compared by the sign of their 32-bit
 difference (kcp_learn/ikcp.c:135-138), so a number that is far enough behind is taken for one ahead.
 */
module KcpWrap {
  import opened Word
  import opened KcpSpec

  /** A number `u`, not after `s`, is taken for a later one if and only if it is more than 2^31 behind,
      around the 32-bit circle. */
  lemma StaleNumber(u: nat, s: nat)
    requires u <= s
    ensures TimeDiff(Wrap(u), Wrap(s)) > 0 <==> (s - u) % M32 > HALF
  {
    var k := (s - u) % M32;
    assert Sub(Wrap(u), Wrap(s)) == if k == 0 then 0 else M32 - k by { Circle(u, s); }
  }

  lemma Circle(u: nat, s: nat)
    requires u <= s
    ensures Sub(Wrap(u), Wrap(s)) == if (s - u) % M32 == 0 then 0 else M32 - (s - u) % M32
  {
    var a, b, q, r := u % M32, s % M32, u / M32, s / M32;
    assert s - u == (r - q) * M32 + (b - a);
    if b >= a {
      assert (s - u) % M32 == b - a;
    } else {
      assert s - u == (r - q - 1) * M32 + (M32 + b - a);
      assert (s - u) % M32 == M32 + b - a;
    }
  }

  /** The first buffered segment is dropped by an acknowledgement number from the past if and only if that
      number is too far behind: an old datagram then removes data that nobody has received. */
  lemma StaleUna(buf: seq<Seg>, u: nat, s: nat)
    requires buf != [] && u <= s && buf[0].sn == Wrap(s)
    ensures DropUna(buf, Wrap(u)) != buf <==> (s - u) % M32 > HALF
  {
    StaleNumber(u, s);
    if TimeDiff(Wrap(u), Wrap(s)) > 0 { DropShorter(buf[1..], Wrap(u)); }
  }

  lemma {:induction false} DropShorter(buf: seq<Seg>, una: u32)
    ensures |DropUna(buf, una)| <= |buf|
  {
    if buf != [] && TimeDiff(una, buf[0].sn) > 0 { DropShorter(buf[1..], una); }
  }

  /** For example, an acknowledgement number from the beginning of a run, after 2^31 + 1 segments. */
  lemma StaleExample(seg: Seg)
    requires seg.sn == Wrap(0x8000_0001)
    ensures DropUna([seg], Wrap(0)) == []
  {
    StaleNumber(0, 0x8000_0001);
  }
}
