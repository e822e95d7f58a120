/**
 Base64 of crypto-algorithms_learn/base64.c (section 4 of RFC 4648): decoding what was encoded without
 line breaks gives the bytes back, and the size-only mode returns exactly what is written.
 */
module Base64 {
  type Bytes = seq<bv8>

  const PAD: bv8 := 0x3D
  const NEWLINE: bv8 := 0x0A

  /** `charset[ v ]` */
  function Char(v: bv8): bv8 {
    if v < 26 then 0x41 + v else if v < 52 then 0x61 + (v - 26) else if v < 62 then 0x30 + (v - 52) else if v == 62 then 0x2B else 0x2F
  }

  /** `revchar`; other characters come back unchanged. */
  function Rev(ch: bv8): bv8 {
    if 0x41 <= ch <= 0x5A then ch - 0x41
    else if 0x61 <= ch <= 0x7A then ch - 0x61 + 26
    else if 0x30 <= ch <= 0x39 then ch - 0x30 + 52
    else if ch == 0x2B then 62
    else if ch == 0x2F then 63
    else ch
  }

  lemma RevChar(v: bv8)
    requires v < 64
    ensures Rev(Char(v)) == v && Char(v) != PAD && Char(v) != NEWLINE
  {
  }

  /** The alphabet of RFC 4648: the letters from 'A' and from 'a', the digits from '0', and two signs. */
  lemma Alphabet(v: bv8)
    ensures Char(0) == 0x41 && Char(26) == 0x61 && Char(52) == 0x30 && Char(62) == 0x2B && Char(63) == 0x2F
    ensures v < 61 && v != 25 && v != 51 ==> Char(v + 1) == Char(v) + 1
  {
  }

  // ---------------------------------------------------------------- groups of three bytes

  /** The four six-bit numbers of three bytes. */
  function Sextets(a: bv8, b: bv8, c: bv8): (bv8, bv8, bv8, bv8) {
    (a >> 2, ((a & 0x03) << 4) | (b >> 4), ((b & 0x0F) << 2) | (c >> 6), c & 0x3F)
  }

  function Group(a: bv8, b: bv8, c: bv8): Bytes {
    var s := Sextets(a, b, c);
    [Char(s.0), Char(s.1), Char(s.2), Char(s.3)]
  }

  function Ungroup(w: bv8, x: bv8, y: bv8, z: bv8): Bytes {
    [(Rev(w) << 2) | ((Rev(x) & 0x30) >> 4), (Rev(x) << 4) | (Rev(y) >> 2), (Rev(y) << 6) | Rev(z)]
  }

  /** The groups are those of section 4 of RFC 4648: a 24-bit number cut into four. */
  lemma SextetsOf24Bits(a: bv8, b: bv8, c: bv8)
    ensures var g := ((a as bv24) << 16) | ((b as bv24) << 8) | (c as bv24); var s := Sextets(a, b, c);
      && s.0 as bv24 == g >> 18 && s.1 as bv24 == (g >> 12) & 0x3F && s.2 as bv24 == (g >> 6) & 0x3F && s.3 as bv24 == g & 0x3F
  {
  }

  lemma SextetsBack(a: bv8, b: bv8, c: bv8)
    ensures var s := Sextets(a, b, c);
      && s.0 < 64 && s.1 < 64 && s.2 < 64 && s.3 < 64
      && (s.0 << 2) | ((s.1 & 0x30) >> 4) == a && (s.1 << 4) | (s.2 >> 2) == b && (s.2 << 6) | s.3 == c
  {
  }

  lemma UngroupChars(p: bv8, q: bv8, r: bv8, s: bv8)
    requires p < 64 && q < 64 && r < 64 && s < 64
    ensures Ungroup(Char(p), Char(q), Char(r), Char(s)) == [(p << 2) | ((q & 0x30) >> 4), (q << 4) | (r >> 2), (r << 6) | s]
  {
    RevChar(p);
    RevChar(q);
    RevChar(r);
    RevChar(s);
  }

  lemma GroupBack(a: bv8, b: bv8, c: bv8)
    ensures var g := Group(a, b, c); Ungroup(g[0], g[1], g[2], g[3]) == [a, b, c]
    ensures forall ch | ch in Group(a, b, c) :: ch != PAD && ch != NEWLINE
  {
    var s := Sextets(a, b, c);
    SextetsBack(a, b, c);
    UngroupChars(s.0, s.1, s.2, s.3);
    RevChar(s.0);
    RevChar(s.1);
    RevChar(s.2);
    RevChar(s.3);
  }

  /** One or two bytes at the end, without the padding. */
  function Tail(s: Bytes): Bytes {
    if |s| == 1 then [Char(s[0] >> 2), Char((s[0] & 0x03) << 4)]
    else if |s| == 2 then [Char(s[0] >> 2), Char(((s[0] & 0x03) << 4) | (s[1] >> 4)), Char((s[1] & 0x0F) << 2)]
    else []
  }

  function Untail(t: Bytes): Bytes {
    if |t| == 2 then [(Rev(t[0]) << 2) | ((Rev(t[1]) & 0x30) >> 4)]
    else if |t| == 3 then [(Rev(t[0]) << 2) | ((Rev(t[1]) & 0x30) >> 4), (Rev(t[1]) << 4) | (Rev(t[2]) >> 2)]
    else []
  }

  lemma SextetsOfZeros(a: bv8, b: bv8)
    ensures ((a & 0x03) << 4) | ((0 as bv8) >> 4) == (a & 0x03) << 4 && ((b & 0x0F) << 2) | ((0 as bv8) >> 6) == (b & 0x0F) << 2
  {
  }

  /** It is the beginning of a group filled up with zeros. */
  lemma TailOfGroup(a: bv8, b: bv8)
    ensures Tail([a]) == Group(a, 0, 0)[..2] && Tail([a, b]) == Group(a, b, 0)[..3]
  {
    SextetsOfZeros(a, b);
    var s, t := Sextets(a, 0, 0), Sextets(a, b, 0);
    assert Group(a, 0, 0)[..2] == [Char(s.0), Char(s.1)];
    assert Group(a, b, 0)[..3] == [Char(t.0), Char(t.1), Char(t.2)];
  }

  lemma TailBack(s: Bytes)
    requires |s| < 3
    ensures Untail(Tail(s)) == s && |Tail(s)| == (if |s| == 0 then 0 else |s| + 1)
    ensures forall ch | ch in Tail(s) :: ch != PAD && ch != NEWLINE
  {
    if |s| == 1 {
      SextetsBack(s[0], 0, 0);
      RevChar(s[0] >> 2);
      RevChar((s[0] & 0x03) << 4);
    } else if |s| == 2 {
      SextetsBack(s[0], s[1], 0);
      RevChar(s[0] >> 2);
      RevChar(((s[0] & 0x03) << 4) | (s[1] >> 4));
      RevChar((s[1] & 0x0F) << 2);
    }
  }

  // ---------------------------------------------------------------- whole inputs, over any grouping

  type Grouping<!E> = (E, E, E) -> seq<E>
  type Ungrouping<!E> = (E, E, E, E) -> seq<E>

  /** How the pieces of a text are coded: three to four, one or two at the end to two or three. */
  datatype Coder<!E> = Coder(group: Grouping<E>, ungroup: Ungrouping<E>, tail: seq<E> -> seq<E>, untail: seq<E> -> seq<E>,
                             pad: E, newline: E)

  ghost predicate Plain<E(!new)>(c: Coder<E>, t: seq<E>) {
    forall ch | ch in t :: ch != c.pad && ch != c.newline
  }

  ghost predicate Fours<E(!new)>(c: Coder<E>) {
    forall x, y, z :: |c.group(x, y, z)| == 4
  }

  ghost predicate Lossless<E(!new)>(c: Coder<E>) {
    && Fours(c) && (forall x, y, z :: Plain(c, c.group(x, y, z)))
    && (forall x, y, z :: var g := c.group(x, y, z); |g| == 4 && c.ungroup(g[0], g[1], g[2], g[3]) == [x, y, z])
    && (forall s | |s| < 3 :: c.untail(c.tail(s)) == s && |c.tail(s)| == (if |s| == 0 then 0 else |s| + 1) && Plain(c, c.tail(s)))
  }

  function Pads<E>(c: Coder<E>, n: nat): seq<E> {
    if n == 1 then [c.pad, c.pad] else if n == 2 then [c.pad] else []
  }

  /** The text without padding, with a line break after every nineteenth group if asked for; `k` groups precede. */
  ghost function Body<E>(c: Coder<E>, s: seq<E>, newline: bool, k: nat): seq<E> {
    if |s| < 3 then c.tail(s)
    else c.group(s[0], s[1], s[2]) + (if newline && (k + 1) % 19 == 0 then [c.newline] else []) + Body(c, s[3..], newline, k + 1)
  }

  ghost function Encoded<E>(c: Coder<E>, s: seq<E>, newline: bool): seq<E> {
    Body(c, s, newline, 0) + Pads(c, |s| % 3)
  }

  /** `base64_encode` with no output buffer. */
  function SizeOnly(len: nat, newline: bool): nat {
    len / 3 * 4 + (if len % 3 != 0 then 4 else 0) + (if newline then len / 57 else 0)
  }

  lemma {:induction false} BodySize<E(!new)>(c: Coder<E>, s: seq<E>, newline: bool, k: nat)
    requires Lossless(c)
    ensures |Body(c, s, newline, k)| == |s| / 3 * 4 + (if |s| % 3 == 0 then 0 else |s| % 3 + 1)
                                        + (if newline then (k + |s| / 3) / 19 - k / 19 else 0)
    decreases |s|
  {
    if |s| >= 3 {
      BodySize(c, s[3..], newline, k + 1);
      Thirds(|s|);
      Nineteenths(k);
      assert |c.group(s[0], s[1], s[2])| == 4;
    }
  }

  lemma Thirds(n: nat)
    requires n >= 3
    ensures (n - 3) / 3 == n / 3 - 1 && (n - 3) % 3 == n % 3
  {
  }

  lemma Nineteenths(k: nat)
    ensures (k + 1) / 19 == k / 19 + (if (k + 1) % 19 == 0 then 1 else 0)
    ensures (4 * (k + 1)) % 76 == 0 <==> (k + 1) % 19 == 0
  {
  }

  /** The size-only mode counts exactly the characters written, with and without line breaks. */
  lemma SizeExact<E(!new)>(c: Coder<E>, s: seq<E>, newline: bool)
    requires Lossless(c)
    ensures |Encoded(c, s, newline)| == SizeOnly(|s|, newline)
  {
    BodySize(c, s, newline, 0);
    assert |s| / 3 / 19 == |s| / 57;
  }

  /** Writes one group, and a line break if 76 characters are complete. */
  method PutGroup<E(!new)>(c: Coder<E>, out: seq<E>, g: seq<E>, newlines: nat, newline: bool, ghost k: nat)
    returns (out': seq<E>, newlines': nat)
    requires |g| == 4 && |out| - newlines == 4 * k
    ensures out' == out + (g + (if newline && (k + 1) % 19 == 0 then [c.newline] else [])) && |out'| - newlines' == 4 * (k + 1)
  {
    Nineteenths(k);
    out', newlines' := out + g, newlines;
    if (|out'| - newlines') % 76 == 0 && newline {
      out' := out' + [c.newline];
      newlines' := newlines' + 1;
    }
  }

  /** The whole groups of the input. */
  method EncodeGroups<E(!new)>(c: Coder<E>, input: seq<E>, newline: bool) returns (out: seq<E>)
    requires Fours(c)
    ensures out + Body(c, input[|input| / 3 * 3..], newline, |input| / 3) == Body(c, input, newline, 0)
  {
    var blks := |input| / 3;
    var ceiling := blks * 3;
    var idx, newlines: nat := 0, 0;
    out := [];
    ghost var k := 0;
    assert input[0..] == input;
    while idx < ceiling
      invariant idx == 3 * k && k <= blks && |out| - newlines == 4 * k
      invariant out + Body(c, input[idx..], newline, k) == Body(c, input, newline, 0)
    {
      out, newlines := EncodeGroup(c, input, idx, out, newlines, newline, k, Body(c, input, newline, 0));
      idx := idx + 3;
      k := k + 1;
    }
  }

  /** One group of the input; `whole` is the text to come out in the end. */
  method EncodeGroup<E(!new)>(c: Coder<E>, input: seq<E>, idx: nat, out: seq<E>, newlines: nat, newline: bool,
                              ghost k: nat, ghost whole: seq<E>)
    returns (out': seq<E>, newlines': nat)
    requires Fours(c) && idx + 3 <= |input| && |out| - newlines == 4 * k && out + Body(c, input[idx..], newline, k) == whole
    ensures |out'| - newlines' == 4 * (k + 1) && out' + Body(c, input[idx + 3..], newline, k + 1) == whole
  {
    Unroll(c, input, idx, newline, k);
    var g := c.group(input[idx], input[idx + 1], input[idx + 2]);
    out', newlines' := PutGroup(c, out, g, newlines, newline, k);
    Associative(out, g + (if newline && (k + 1) % 19 == 0 then [c.newline] else []), Body(c, input[idx + 3..], newline, k + 1));
  }

  lemma Associative<E>(a: seq<E>, b: seq<E>, c: seq<E>)
    ensures (a + b) + c == a + (b + c)
  {
  }

  method EncodeWith<E(!new)>(c: Coder<E>, input: seq<E>, newline: bool) returns (out: seq<E>)
    requires Fours(c)
    ensures out == Encoded(c, input, newline)
  {
    out := EncodeGroups(c, input, newline);
    var rest := input[|input| / 3 * 3..];
    out := out + c.tail(rest);
    if |input| % 3 == 1 {
      out := out + [c.pad, c.pad];
    } else if |input| % 3 == 2 {
      out := out + [c.pad];
    }
  }

  /** The next group of a body. */
  lemma Unroll<E>(c: Coder<E>, s: seq<E>, i: nat, newline: bool, k: nat)
    requires i + 3 <= |s|
    ensures Body(c, s[i..], newline, k)
            == (c.group(s[i], s[i + 1], s[i + 2]) + (if newline && (k + 1) % 19 == 0 then [c.newline] else []))
               + Body(c, s[i + 3..], newline, k + 1)
  {
    assert s[i..][3..] == s[i + 3..];
  }

  // ---------------------------------------------------------------- bytes and characters

  function Standard(): Coder<bv8> {
    Coder(Group, Ungroup, Tail, Untail, PAD, NEWLINE)
  }

  lemma StandardGroups(x: bv8, y: bv8, z: bv8)
    ensures var c := Standard(); var g := c.group(x, y, z);
      |g| == 4 && Plain(c, g) && c.ungroup(g[0], g[1], g[2], g[3]) == [x, y, z]
  {
    GroupBack(x, y, z);
  }

  lemma StandardTails(s: Bytes)
    requires |s| < 3
    ensures var c := Standard();
      c.untail(c.tail(s)) == s && |c.tail(s)| == (if |s| == 0 then 0 else |s| + 1) && Plain(c, c.tail(s))
  {
    TailBack(s);
  }

  lemma StandardLossless()
    ensures Lossless(Standard())
  {
    var c := Standard();
    forall x, y, z ensures |c.group(x, y, z)| == 4 && Plain(c, c.group(x, y, z)) { StandardGroups(x, y, z); }
    forall x, y, z ensures var g := c.group(x, y, z); |g| == 4 && c.ungroup(g[0], g[1], g[2], g[3]) == [x, y, z] {
      StandardGroups(x, y, z);
    }
    forall s | |s| < 3 ensures c.untail(c.tail(s)) == s && |c.tail(s)| == (if |s| == 0 then 0 else |s| + 1) && Plain(c, c.tail(s)) {
      StandardTails(s);
    }
  }

  /** `base64_encode`: the text has the size that the size-only mode announces. */
  method Encode(input: Bytes, newline: bool) returns (out: Bytes)
    ensures out == Encoded(Standard(), input, newline) && |out| == SizeOnly(|input|, newline)
  {
    StandardLossless();
    out := EncodeWith(Standard(), input, newline);
    SizeExact(Standard(), input, newline);
  }
}
