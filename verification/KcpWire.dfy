/**
 The wire format of KCP: 24-byte little-endian segment headers followed by their payload, several
 whole segments to a datagram (kcp_learn/ikcp.c:50-118, 781-805, 931-942, 984-992, 1110-1141).
 */
module KcpWire {
  import opened Word

  const CMD_PUSH: byte := 81
  const CMD_ACK: byte := 82
  const CMD_WASK: byte := 83
  const CMD_WINS: byte := 84
  const OVERHEAD: nat := 24

  /** A payload; lengths are positive in a C `int`. */
  type Payload = d: seq<byte> | |d| < 0x8000_0000

  /** A segment as the wire carries it; the length field is the length of `data`. */
  datatype Packet = Packet(conv: u32, cmd: byte, frg: byte, wnd: u16, ts: u32, sn: u32, una: u32, data: Payload)

  /** Packets that `ikcp_encode_seg` is given and `ikcp_input` accepts in conversation `conv`. */
  predicate Sendable(conv: u32, p: Packet) {
    && p.conv == conv
    && CMD_PUSH <= p.cmd <= CMD_WINS
  }

  // ---------------------------------------------------------------- integers

  function Encode16(w: u16): (r: seq<byte>)
    ensures |r| == 2
  {
    [w % 256, w / 256]
  }

  function Decode16(b0: byte, b1: byte): u16 {
    b0 + 256 * b1
  }

  function Encode32(l: u32): (r: seq<byte>)
    ensures |r| == 4
    ensures Decode32(r[0], r[1], r[2], r[3]) == l
  {
    var l1 := l / 256;
    var l2 := l1 / 256;
    [l % 256, l1 % 256, l2 % 256, l2 / 256]
  }

  function Decode32(b0: byte, b1: byte, b2: byte, b3: byte): u32 {
    b0 + 256 * (b1 + 256 * (b2 + 256 * b3))
  }

  // ---------------------------------------------------------------- one segment

  function Header(p: Packet): (r: seq<byte>)
    ensures |r| == OVERHEAD
  {
    Encode32(p.conv) + [p.cmd, p.frg] + Encode16(p.wnd) + Encode32(p.ts)
    + Encode32(p.sn) + Encode32(p.una) + Encode32(|p.data|)
  }

  function EncodePacket(p: Packet): (r: seq<byte>)
    ensures |r| == OVERHEAD + |p.data|
  {
    Header(p) + p.data
  }

  /** The length field of the header at the front of a buffer. */
  function LengthAt(d: seq<byte>): u32
    requires |d| >= OVERHEAD
  {
    Decode32(d[20], d[21], d[22], d[23])
  }

  /** Reads one segment off the front of a buffer that holds all of it. */
  function DecodePacket(d: seq<byte>): Packet
    requires |d| >= OVERHEAD && LengthAt(d) <= |d| - OVERHEAD && LengthAt(d) < HALF
  {
    Packet(
      Decode32(d[0], d[1], d[2], d[3]), d[4], d[5], Decode16(d[6], d[7]),
      Decode32(d[8], d[9], d[10], d[11]), Decode32(d[12], d[13], d[14], d[15]),
      Decode32(d[16], d[17], d[18], d[19]), d[OVERHEAD..OVERHEAD + LengthAt(d)])
  }

  lemma HeaderFields(p: Packet, d: seq<byte>)
    requires |d| >= OVERHEAD && d[..OVERHEAD] == Header(p)
    ensures Decode32(d[0], d[1], d[2], d[3]) == p.conv
    ensures d[4] == p.cmd && d[5] == p.frg
    ensures Decode16(d[6], d[7]) == p.wnd
    ensures Decode32(d[8], d[9], d[10], d[11]) == p.ts
    ensures Decode32(d[12], d[13], d[14], d[15]) == p.sn
    ensures Decode32(d[16], d[17], d[18], d[19]) == p.una
    ensures LengthAt(d) == |p.data|
  {
    var h := d[..OVERHEAD];
    assert h[0..4] == Encode32(p.conv);
    assert h[6..8] == Encode16(p.wnd);
    assert h[8..12] == Encode32(p.ts);
    assert h[12..16] == Encode32(p.sn);
    assert h[16..20] == Encode32(p.una);
    assert h[20..24] == Encode32(|p.data|);
    forall i | 0 <= i < OVERHEAD ensures d[i] == h[i] {}
  }

  /** The little-endian number in four bytes. */
  function Little(b: seq<int>): int
    requires |b| == 4
  {
    b[0] + 0x100 * b[1] + 0x1_0000 * b[2] + 0x100_0000 * b[3]
  }

  /** Where each field stands. */
  lemma Layout(p: Packet)
    ensures var d := EncodePacket(p);
      && |d| == 24 + |p.data| && d[24..] == p.data
      && Little(d[0..4]) == p.conv && d[4] == p.cmd && d[5] == p.frg && d[6] + d[7] as int * 0x100 == p.wnd
      && Little(d[8..12]) == p.ts && Little(d[12..16]) == p.sn && Little(d[16..20]) == p.una
      && Little(d[20..24]) == |p.data|
  {
    var d := EncodePacket(p);
    assert d[..OVERHEAD] == Header(p);
    HeaderFields(p, d);
  }

  /** One encoded segment in front of anything decodes to that segment. */
  lemma PacketRoundTrip(p: Packet, tail: seq<byte>)
    ensures var d := EncodePacket(p) + tail;
            LengthAt(d) == |p.data| && DecodePacket(d) == p && d[OVERHEAD + |p.data|..] == tail
  {
    var d := EncodePacket(p) + tail;
    assert d[..OVERHEAD] == Header(p);
    HeaderFields(p, d);
    assert d[OVERHEAD..OVERHEAD + |p.data|] == p.data;
  }

  // ---------------------------------------------------------------- one datagram

  /** The concatenation of the images of a sequence. */
  function Flat<T>(f: T -> seq<byte>, s: seq<T>): seq<byte> {
    if s == [] then [] else Flat(f, s[..|s| - 1]) + f(s[|s| - 1])
  }

  lemma {:induction false} FlatFront<T>(f: T -> seq<byte>, x: T, s: seq<T>)
    ensures Flat(f, [x] + s) == f(x) + Flat(f, s)
    decreases |s|
  {
    var all := [x] + s;
    if s == [] {
      assert all[..|all| - 1] == [];
    } else {
      assert all[..|all| - 1] == [x] + s[..|s| - 1];
      FlatFront(f, x, s[..|s| - 1]);
    }
  }

  lemma {:induction false} FlatAppend<T>(f: T -> seq<byte>, a: seq<T>, b: seq<T>)
    ensures Flat(f, a + b) == Flat(f, a) + Flat(f, b)
    decreases |b|
  {
    if b == [] {
      assert a + b == a;
    } else {
      FlatAppend(f, a, b[..|b| - 1]);
      assert (a + b)[..|a + b| - 1] == a + b[..|b| - 1];
    }
  }

  lemma {:induction false} FlatSame<S, T>(f: S -> seq<byte>, g: T -> seq<byte>, a: seq<S>, b: seq<T>)
    requires |a| == |b| && forall i | 0 <= i < |a| :: f(a[i]) == g(b[i])
    ensures Flat(f, a) == Flat(g, b)
    decreases |a|
  {
    if a != [] { FlatSame(f, g, a[..|a| - 1], b[..|b| - 1]); }
  }

  /** The bytes of several segments in a row. */
  function Encode(ps: seq<Packet>): seq<byte> {
    Flat(EncodePacket, ps)
  }

  /** What the loop of `ikcp_input` reads: the segments it accepts before it stops, and its return
      code: 0 at the end, -1 for a foreign conversation, -2 for a bad length, -3 for a bad command. */
  datatype Parsed = Parsed(packets: seq<Packet>, code: int)

  function Parse(conv: u32, d: seq<byte>): (r: Parsed)
    decreases |d|
  {
    if |d| < OVERHEAD then Parsed([], 0)
    else if Decode32(d[0], d[1], d[2], d[3]) != conv then Parsed([], -1)
    else if |d| - OVERHEAD < LengthAt(d) || LengthAt(d) >= HALF then Parsed([], -2)
    else
      var p := DecodePacket(d);
      if p.cmd != CMD_PUSH && p.cmd != CMD_ACK && p.cmd != CMD_WASK && p.cmd != CMD_WINS then Parsed([], -3)
      else
        var rest := Parse(conv, d[OVERHEAD + |p.data|..]);
        Parsed([p] + rest.packets, rest.code)
  }

  /** The parse loop recovers exactly the encoded segments, fields and payloads, in order. */
  lemma {:induction false} DatagramRoundTrip(conv: u32, ps: seq<Packet>)
    requires forall p | p in ps :: Sendable(conv, p)
    ensures Parse(conv, Encode(ps)) == Parsed(ps, 0)
    decreases |ps|
  {
    if ps != [] {
      var p, rest := ps[0], ps[1..];
      assert ps == [p] + rest;
      assert p in ps;
      FlatFront(EncodePacket, p, rest);
      PacketRoundTrip(p, Encode(rest));
      DatagramRoundTrip(conv, rest);
    }
  }

  lemma LastByte(b: byte, m: nat)
    ensures (b + 256 * m) % 256 == b && (b + 256 * m) / 256 == m
  {
  }

  lemma Encode32Back(b0: byte, b1: byte, b2: byte, b3: byte)
    ensures Encode32(Decode32(b0, b1, b2, b3)) == [b0, b1, b2, b3]
  {
    LastByte(b0, b1 + 256 * (b2 + 256 * b3));
    LastByte(b1, b2 + 256 * b3);
    LastByte(b2, b3);
  }

  lemma FieldBack(d: seq<byte>, i: nat)
    requires i + 4 <= |d|
    ensures d[..i] + Encode32(Decode32(d[i], d[i + 1], d[i + 2], d[i + 3])) == d[..i + 4]
  {
    Encode32Back(d[i], d[i + 1], d[i + 2], d[i + 3]);
  }

  lemma PairBack(d: seq<byte>, i: nat)
    requires i + 2 <= |d|
    ensures d[..i] + [d[i], d[i + 1]] == d[..i + 2]
  {
  }

  lemma HeaderBack(d: seq<byte>)
    requires |d| >= OVERHEAD && LengthAt(d) <= |d| - OVERHEAD && LengthAt(d) < HALF
    ensures Header(DecodePacket(d)) == d[..OVERHEAD]
  {
    FieldBack(d, 0);
    PairBack(d, 4);
    LastByte(d[6], d[7]);
    PairBack(d, 6);
    FieldBack(d, 8);
    FieldBack(d, 12);
    FieldBack(d, 16);
    FieldBack(d, 20);
    assert d[..0] == [];
    assert [] + Encode32(Decode32(d[0], d[1], d[2], d[3])) == Encode32(Decode32(d[0], d[1], d[2], d[3]));
  }

  lemma ThreeParts<T>(d: seq<T>, a: nat, b: nat)
    requires a <= b <= |d|
    ensures d == d[..a] + d[a..b] + d[b..]
  {
  }

  /** Encoding what was decoded gives the bytes back. */
  lemma PacketBack(d: seq<byte>)
    requires |d| >= OVERHEAD && LengthAt(d) <= |d| - OVERHEAD && LengthAt(d) < HALF
    ensures var p := DecodePacket(d); d == EncodePacket(p) + d[OVERHEAD + |p.data|..]
  {
    HeaderBack(d);
    ThreeParts(d, OVERHEAD, OVERHEAD + LengthAt(d));
  }

  /** Why the parse loop stops in front of `rest`. */
  predicate Stops(conv: u32, rest: seq<byte>, code: int) {
    if |rest| < 24 then code == 0
    else if Little(rest[0..4]) != conv then code == -1
    else if Little(rest[20..24]) > |rest| - 24 || Little(rest[20..24]) >= HALF then code == -2
    else code == -3 && !(81 <= rest[4] <= 84)
  }

  lemma Regroup<T>(a: seq<T>, b: seq<T>, c: seq<T>)
    ensures a + (b + c) == a + b + c
  {
  }

  /** One more segment in front. */
  lemma ReadsNext(d: seq<byte>, p: Packet, more: seq<Packet>, rest: seq<byte>)
    requires d == EncodePacket(p) + (Encode(more) + rest)
    ensures d == Encode([p] + more) + rest
  {
    FlatFront(EncodePacket, p, more);
    Regroup(EncodePacket(p), Encode(more), rest);
  }

  /** The parse loop reads, from any bytes at all, segments of this conversation whose encoding is what it has read;
      and it stops for the reason that its code names. */
  lemma {:induction false} ParseReads(conv: u32, d: seq<byte>) returns (rest: seq<byte>)
    ensures var r := Parse(conv, d);
      d == Encode(r.packets) + rest && Stops(conv, rest, r.code) && forall p | p in r.packets :: Sendable(conv, p)
    decreases |d|
  {
    if Parse(conv, d).packets == [] {
      rest := d;
    } else {
      var p := DecodePacket(d);
      var tail := d[OVERHEAD + |p.data|..];
      PacketBack(d);
      rest := ParseReads(conv, tail);
      ReadsNext(d, p, Parse(conv, tail).packets, rest);
    }
  }

  // ---------------------------------------------------------------- packing

  /** The send buffer of `ikcp_flush` and the datagrams it has handed to the output callback. */
  datatype Packing = Packing(out: seq<seq<byte>>, buffer: seq<byte>)

  /** `ikcp_output`: an empty buffer is not sent. */
  function Emit(out: seq<seq<byte>>, buffer: seq<byte>): seq<seq<byte>> {
    if buffer == [] then out else out + [buffer]
  }

  /** Appends one segment, sending the buffer first when the segment would not fit. */
  function PackOne<T>(enc: T -> seq<byte>, mtu: nat, k: Packing, p: T): Packing {
    if |k.buffer| + |enc(p)| > mtu then Packing(Emit(k.out, k.buffer), enc(p))
    else Packing(k.out, k.buffer + enc(p))
  }

  function PackAll<T>(enc: T -> seq<byte>, mtu: nat, ps: seq<T>): Packing {
    if ps == [] then Packing([], []) else PackOne(enc, mtu, PackAll(enc, mtu, ps[..|ps| - 1]), ps[|ps| - 1])
  }

  function PackedBy<T>(enc: T -> seq<byte>, mtu: nat, ps: seq<T>): seq<seq<byte>> {
    var k := PackAll(enc, mtu, ps);
    Emit(k.out, k.buffer)
  }

  /** The datagrams of a flush that writes the segments `ps`. */
  function Datagrams(mtu: nat, ps: seq<Packet>): seq<seq<byte>> {
    PackedBy(EncodePacket, mtu, ps)
  }

  function Join<T>(groups: seq<seq<T>>): seq<T> {
    if groups == [] then [] else Join(groups[..|groups| - 1]) + groups[|groups| - 1]
  }

  /** The datagrams `out` are the groups, encoded; none is empty or too large. */
  ghost predicate Grouped<T(!new)>(enc: T -> seq<byte>, mtu: nat, out: seq<seq<byte>>, groups: seq<seq<T>>) {
    && |groups| == |out|
    && forall i | 0 <= i < |out| :: out[i] == Flat(enc, groups[i]) && 0 < |out[i]| <= mtu
  }

  /** Packing in progress: `held` are the segments in the buffer, the rest of `ps` has been sent. */
  ghost predicate Packed<T(!new)>(enc: T -> seq<byte>, mtu: nat, k: Packing, groups: seq<seq<T>>, held: seq<T>, ps: seq<T>) {
    && Grouped(enc, mtu, k.out, groups)
    && k.buffer == Flat(enc, held) && |k.buffer| <= mtu
    && (held == [] ==> ps == [] && groups == [])
    && Join(groups) + held == ps
    && Tight(enc, mtu, groups + [held])
  }

  /** A group ends only where the next element would not fit. */
  ghost predicate Tight<T(!new)>(enc: T -> seq<byte>, mtu: nat, groups: seq<seq<T>>) {
    forall i | 0 < i < |groups| :: groups[i] != [] && |Flat(enc, groups[i - 1])| + |enc(groups[i][0])| > mtu
  }

  lemma TightNext<T(!new)>(enc: T -> seq<byte>, mtu: nat, groups: seq<seq<T>>, held: seq<T>, p: T)
    requires Tight(enc, mtu, groups + [held])
    ensures |Flat(enc, held)| + |enc(p)| > mtu ==> Tight(enc, mtu, groups + [held] + [[p]])
    ensures groups == [] || held != [] ==> Tight(enc, mtu, groups + [held + [p]])
  {
    var was, longer := groups + [held], groups + [held + [p]];
    if groups == [] || held != [] {
      forall i | 0 < i < |longer| ensures longer[i] != [] && |Flat(enc, longer[i - 1])| + |enc(longer[i][0])| > mtu {
        assert was[i] != [] && was[i - 1] == longer[i - 1] && was[i][0] == longer[i][0];
      }
    }
    if |Flat(enc, held)| + |enc(p)| > mtu {
      var more := was + [[p]];
      forall i | 0 < i < |more| ensures more[i] != [] && |Flat(enc, more[i - 1])| + |enc(more[i][0])| > mtu {
        if i < |was| { assert was[i] != [] && was[i - 1] == more[i - 1]; }
      }
    }
  }

  lemma PackStep<T(!new)>(enc: T -> seq<byte>, mtu: nat, k: Packing, groups: seq<seq<T>>, held: seq<T>, ps: seq<T>, p: T)
    returns (groups': seq<seq<T>>, held': seq<T>)
    requires Packed(enc, mtu, k, groups, held, ps)
    requires 0 < |enc(p)| <= mtu
    ensures Packed(enc, mtu, PackOne(enc, mtu, k, p), groups', held', ps + [p])
  {
    TightNext(enc, mtu, groups, held, p);
    if |k.buffer| + |enc(p)| > mtu {
      groups', held' := groups + [held], [p];
      assert held'[..0] == [];
      assert groups'[..|groups|] == groups;
    } else {
      groups', held' := groups, held + [p];
      assert held'[..|held|] == held;
      assert Join(groups) + held' == ps + [p];
    }
  }

  lemma {:induction false} PackInvariant<T(!new)>(enc: T -> seq<byte>, mtu: nat, ps: seq<T>)
    returns (groups: seq<seq<T>>, held: seq<T>)
    requires forall p | p in ps :: 0 < |enc(p)| <= mtu
    ensures Packed(enc, mtu, PackAll(enc, mtu, ps), groups, held, ps)
    decreases |ps|
  {
    if ps == [] {
      groups, held := [], [];
    } else {
      var front, p := ps[..|ps| - 1], ps[|ps| - 1];
      groups, held := PackInvariant(enc, mtu, front);
      groups, held := PackStep(enc, mtu, PackAll(enc, mtu, front), groups, held, front, p);
      assert ps == front + [p];
    }
  }

  lemma {:induction false} JoinMember<T>(groups: seq<seq<T>>, i: nat, x: T)
    requires i < |groups| && x in groups[i]
    ensures x in Join(groups)
    decreases |groups|
  {
    if i < |groups| - 1 { JoinMember(groups[..|groups| - 1], i, x); }
  }

  /** All segments carried by a sequence of datagrams, in order. */
  function Carried(conv: u32, ds: seq<seq<byte>>): seq<Packet> {
    Join(seq(|ds|, i requires 0 <= i < |ds| => Parse(conv, ds[i]).packets))
  }

  lemma GroupRoundTrip(conv: u32, mtu: nat, ds: seq<seq<byte>>, groups: seq<seq<Packet>>, i: nat)
    requires Grouped(EncodePacket, mtu, ds, groups) && i < |ds|
    requires forall p | p in Join(groups) :: Sendable(conv, p)
    ensures Parse(conv, ds[i]) == Parsed(groups[i], 0)
  {
    forall p | p in groups[i] ensures Sendable(conv, p) { JoinMember(groups, i, p); }
    DatagramRoundTrip(conv, groups[i]);
  }

  lemma CarriedGroups(conv: u32, mtu: nat, ds: seq<seq<byte>>, groups: seq<seq<Packet>>)
    requires Grouped(EncodePacket, mtu, ds, groups)
    requires forall p | p in Join(groups) :: Sendable(conv, p)
    ensures Carried(conv, ds) == Join(groups)
    ensures forall d | d in ds :: Parse(conv, d).code == 0
  {
    forall i | 0 <= i < |ds| ensures Parse(conv, ds[i]) == Parsed(groups[i], 0) {
      GroupRoundTrip(conv, mtu, ds, groups, i);
    }
    assert seq(|ds|, i requires 0 <= i < |ds| => Parse(conv, ds[i]).packets) == groups;
  }

  lemma PackGroups(mtu: nat, ps: seq<Packet>) returns (groups: seq<seq<Packet>>)
    requires forall p | p in ps :: OVERHEAD + |p.data| <= mtu
    ensures Grouped(EncodePacket, mtu, Datagrams(mtu, ps), groups) && Join(groups) == ps
    ensures Tight(EncodePacket, mtu, groups)
  {
    var held;
    groups, held := PackInvariant(EncodePacket, mtu, ps);
    if held != [] {
      groups := groups + [held];
      assert groups[..|groups| - 1] + [held] == groups;
      FlatNonEmpty(held);
    }
  }

  /** Every datagram is non-empty, fits the MTU and holds whole segments; together, in order, they
      carry exactly the segments that were packed. */
  lemma PackingRoundTrip(conv: u32, mtu: nat, ps: seq<Packet>)
    requires forall p | p in ps :: Sendable(conv, p) && OVERHEAD + |p.data| <= mtu
    ensures forall d | d in Datagrams(mtu, ps) :: 0 < |d| <= mtu && Parse(conv, d).code == 0
    ensures Carried(conv, Datagrams(mtu, ps)) == ps
    ensures Filled(conv, mtu, Datagrams(mtu, ps))
  {
    var groups := PackGroups(mtu, ps);
    CarriedGroups(conv, mtu, Datagrams(mtu, ps), groups);
    FilledGroups(conv, mtu, Datagrams(mtu, ps), groups);
  }

  /** The first segment of `d` would not have fitted into the datagram before it. */
  predicate Follows(conv: u32, mtu: nat, before: seq<byte>, d: seq<byte>) {
    var ps := Parse(conv, d).packets;
    ps != [] && |before| + OVERHEAD + |ps[0].data| > mtu
  }

  /** No datagram is sent while the next segment fits. */
  ghost predicate Filled(conv: u32, mtu: nat, ds: seq<seq<byte>>) {
    forall i | 0 < i < |ds| :: Follows(conv, mtu, ds[i - 1], ds[i])
  }

  lemma FilledGroups(conv: u32, mtu: nat, ds: seq<seq<byte>>, groups: seq<seq<Packet>>)
    requires Grouped(EncodePacket, mtu, ds, groups) && Tight(EncodePacket, mtu, groups)
    requires forall p | p in Join(groups) :: Sendable(conv, p)
    ensures Filled(conv, mtu, ds)
  {
    forall i | 0 < i < |ds| ensures Follows(conv, mtu, ds[i - 1], ds[i]) {
      GroupRoundTrip(conv, mtu, ds, groups, i);
      assert ds[i - 1] == Flat(EncodePacket, groups[i - 1]);
      assert |Flat(EncodePacket, groups[i - 1])| + |EncodePacket(groups[i][0])| > mtu;
    }
  }

  lemma FlatNonEmpty(ps: seq<Packet>)
    requires ps != []
    ensures Flat(EncodePacket, ps) != []
  {
    assert |EncodePacket(ps[|ps| - 1])| > 0;
  }

  /** A segment found in one of the datagrams is one of the segments that were packed. */
  lemma CarriedFrom(conv: u32, ds: seq<seq<byte>>, i: nat, p: Packet)
    requires i < |ds| && p in Parse(conv, ds[i]).packets
    ensures p in Carried(conv, ds)
  {
    JoinMember(seq(|ds|, i requires 0 <= i < |ds| => Parse(conv, ds[i]).packets), i, p);
  }
}
