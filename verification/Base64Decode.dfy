/**
 `base64_decode` (crypto-algorithms_learn/base64.c:96-150), on every text.  Its loop takes the number of groups from
 a length that counts the line breaks too, so that it does not give back every text that was encoded with them; nor
 does it stay within the text.  `junk` stands for whatever is read beyond the end.
 */
module Base64Decode {
  import opened Base64

  function At<E>(text: seq<E>, junk: E, i: nat): E {
    if i < |text| then text[i] else junk
  }

  /** A line break in front of a group is skipped. */
  function Skip<E(==)>(c: Coder<E>, text: seq<E>, junk: E, i: nat): (j: nat)
    ensures i <= j
  {
    if At(text, junk, i) == c.newline then i + 1 else i
  }

  function UngroupAt<E>(c: Coder<E>, text: seq<E>, junk: E, i: nat): seq<E> {
    c.ungroup(At(text, junk, i), At(text, junk, i + 1), At(text, junk, i + 2), At(text, junk, i + 3))
  }

  /** What the loop writes from index `i` on. */
  ghost function Groups<E>(c: Coder<E>, text: seq<E>, junk: E, i: nat, end: nat): seq<E>
    decreases end - i
  {
    if i >= end then []
    else var j := Skip(c, text, junk, i); UngroupAt(c, text, junk, j) + Groups(c, text, junk, j + 4, end)
  }

  /** Where it stops. */
  ghost function Stop<E>(c: Coder<E>, text: seq<E>, junk: E, i: nat, end: nat): nat
    decreases end - i
  {
    if i >= end then i else Stop(c, text, junk, Skip(c, text, junk, i) + 4, end)
  }

  /** The characters left over. */
  function Rest<E>(c: Coder<E>, text: seq<E>, junk: E, i: nat, left: nat): seq<E> {
    if left == 2 then c.untail([At(text, junk, i), At(text, junk, i + 1)])
    else if left == 3 then c.untail([At(text, junk, i), At(text, junk, i + 1), At(text, junk, i + 2)])
    else []
  }

  /** The length without up to two padding characters at the end. */
  function TextLength<E(==)>(c: Coder<E>, text: seq<E>): (n: nat)
    ensures n <= |text|
  {
    if text == [] || text[|text| - 1] != c.pad then |text|
    else if |text| == 1 || text[|text| - 2] != c.pad then |text| - 1
    else |text| - 2
  }

  ghost function Decoded<E>(c: Coder<E>, text: seq<E>, junk: E, len: nat): seq<E> {
    var end := len / 4 * 4;
    Groups(c, text, junk, 0, end) + Rest(c, text, junk, Stop(c, text, junk, 0, end), len % 4)
  }

  /** The loop of the source. */
  method DecodeGroups<E(==, !new)>(c: Coder<E>, text: seq<E>, junk: E, end: nat) returns (out: seq<E>, idx2: nat)
    ensures out == Groups(c, text, junk, 0, end) && idx2 == Stop(c, text, junk, 0, end)
  {
    out, idx2 := [], 0;
    while idx2 < end
      invariant out + Groups(c, text, junk, idx2, end) == Groups(c, text, junk, 0, end)
      invariant Stop(c, text, junk, idx2, end) == Stop(c, text, junk, 0, end)
      decreases end - idx2
    {
      var j := idx2;
      if At(text, junk, j) == c.newline { j := j + 1; }
      Associative(out, UngroupAt(c, text, junk, j), Groups(c, text, junk, j + 4, end));
      out := out + UngroupAt(c, text, junk, j);
      idx2 := j + 4;
    }
  }

  method DecodeWith<E(==, !new)>(c: Coder<E>, text: seq<E>, junk: E) returns (out: seq<E>)
    requires |text| > 0 && (|text| == 1 ==> text[0] != c.pad)
    ensures out == Decoded(c, text, junk, TextLength(c, text))
  {
    var len := |text|;
    if text[len - 1] == c.pad { len := len - 1; }
    if text[len - 1] == c.pad { len := len - 1; }
    var idx2;
    out, idx2 := DecodeGroups(c, text, junk, len / 4 * 4);
    out := out + Rest(c, text, junk, idx2, len % 4);
  }

  // ---------------------------------------------------------------- where the groups of an encoded text stand

  /** The line breaks before group `k`. */
  function Breaks(nl: bool, k: nat): nat {
    if nl then k / 19 else 0
  }

  /** The place of group `k`. */
  function Place(nl: bool, k: nat): nat {
    4 * k + Breaks(nl, k)
  }

  /** The index after `k` turns of the loop: a line break right before group `k` is not skipped yet. */
  function Turned(nl: bool, k: nat): nat {
    if k == 0 then 0 else 4 * k + Breaks(nl, k - 1)
  }

  lemma BreaksNext(nl: bool, k: nat)
    ensures Breaks(nl, k + 1) == Breaks(nl, k) + if nl && (k + 1) % 19 == 0 then 1 else 0
  {
    Nineteenths(k);
  }

  /** `b` is the text from group `k` on. */
  ghost predicate From<E(!new)>(c: Coder<E>, s: seq<E>, nl: bool, b: seq<E>, k: nat) {
    3 * k <= |s| && Place(nl, k) <= |b| && b[Place(nl, k)..] == Body(c, s[3 * k..], nl, k)
  }

  lemma {:induction false} Suffix<E(!new)>(c: Coder<E>, s: seq<E>, nl: bool, b: seq<E>, k: nat)
    requires Fours(c) && From(c, s, nl, b, 0) && 3 * k <= |s|
    ensures From(c, s, nl, b, k)
  {
    if k > 0 {
      Suffix(c, s, nl, b, k - 1);
      SuffixStep(c, s, nl, b, k - 1);
    }
  }

  lemma DropHead<E>(b: seq<E>, p: nat, head: seq<E>, tail: seq<E>)
    requires p <= |b| && b[p..] == head + tail
    ensures p + |head| <= |b| && b[p + |head|..] == tail
  {
    assert |b[p..]| == |head| + |tail|;
    assert b[p..][|head|..] == b[p + |head|..];
  }

  lemma SuffixStep<E(!new)>(c: Coder<E>, s: seq<E>, nl: bool, b: seq<E>, k: nat)
    requires Fours(c) && From(c, s, nl, b, k) && 3 * k + 3 <= |s|
    ensures From(c, s, nl, b, k + 1)
  {
    Unroll(c, s, 3 * k, nl, k);
    BreaksNext(nl, k);
    var head := Head(c, s, nl, k);
    HeadLength(c, s, nl, k);
    DropHead(b, Place(nl, k), head, Body(c, s[3 * k + 3..], nl, k + 1));
  }

  /** Group `k` and a line break if it is a nineteenth. */
  function Head<E>(c: Coder<E>, s: seq<E>, nl: bool, k: nat): seq<E>
    requires 3 * k + 3 <= |s|
  {
    c.group(s[3 * k], s[3 * k + 1], s[3 * k + 2]) + (if nl && (k + 1) % 19 == 0 then [c.newline] else [])
  }

  lemma HeadLength<E(!new)>(c: Coder<E>, s: seq<E>, nl: bool, k: nat)
    requires Fours(c) && 3 * k + 3 <= |s|
    ensures |Head(c, s, nl, k)| == Place(nl, k + 1) - Place(nl, k)
  {
    BreaksNext(nl, k);
    assert |c.group(s[3 * k], s[3 * k + 1], s[3 * k + 2])| == 4;
  }

  /** It stands in its place. */
  lemma HeadAt<E(!new)>(c: Coder<E>, s: seq<E>, nl: bool, b: seq<E>, k: nat)
    requires Fours(c) && From(c, s, nl, b, 0) && 3 * k + 3 <= |s|
    ensures var h, p := Head(c, s, nl, k), Place(nl, k); p + |h| <= |b| && b[p..p + |h|] == h
  {
    Suffix(c, s, nl, b, k);
    Unroll(c, s, 3 * k, nl, k);
    var h, p := Head(c, s, nl, k), Place(nl, k);
    assert b[p..] == h + Body(c, s[3 * k + 3..], nl, k + 1);
    assert b[p..][..|h|] == b[p..p + |h|];
  }

  // ---------------------------------------------------------------- what the loop makes of it

  /** The text is `b` and padding. */
  lemma AtBody<E>(b: seq<E>, pads: seq<E>, junk: E, i: nat)
    requires i < |b|
    ensures At(b + pads, junk, i) == b[i]
  {
  }

  lemma HeadRead<E(!new)>(c: Coder<E>, s: seq<E>, nl: bool, b: seq<E>, pads: seq<E>, junk: E, k: nat, i: nat)
    requires Fours(c) && From(c, s, nl, b, 0) && 3 * k + 3 <= |s| && i < |Head(c, s, nl, k)|
    ensures At(b + pads, junk, Place(nl, k) + i) == Head(c, s, nl, k)[i]
  {
    HeadAt(c, s, nl, b, k);
    var h, p := Head(c, s, nl, k), Place(nl, k);
    AtBody(b, pads, junk, p + i);
    assert b[p + i] == b[p..p + |h|][i];
  }

  /** Reading group `k` gives its three elements. */
  lemma GroupRead<E(!new)>(c: Coder<E>, s: seq<E>, nl: bool, b: seq<E>, pads: seq<E>, junk: E, k: nat)
    requires Lossless(c) && From(c, s, nl, b, 0) && 3 * k + 3 <= |s|
    ensures UngroupAt(c, b + pads, junk, Place(nl, k)) == s[3 * k..3 * k + 3]
    ensures At(b + pads, junk, Place(nl, k)) != c.newline
  {
    var g := c.group(s[3 * k], s[3 * k + 1], s[3 * k + 2]);
    assert |g| == 4 && Plain(c, g) && g[0] in g;
    HeadRead(c, s, nl, b, pads, junk, k, 0);
    HeadRead(c, s, nl, b, pads, junk, k, 1);
    HeadRead(c, s, nl, b, pads, junk, k, 2);
    HeadRead(c, s, nl, b, pads, junk, k, 3);
    assert c.ungroup(g[0], g[1], g[2], g[3]) == [s[3 * k], s[3 * k + 1], s[3 * k + 2]];
  }

  /** A line break stands right before group `k` if it follows a nineteenth. */
  lemma BreakRead<E(!new)>(c: Coder<E>, s: seq<E>, nl: bool, b: seq<E>, pads: seq<E>, junk: E, k: nat)
    requires Fours(c) && From(c, s, nl, b, 0) && 0 < 3 * k <= |s|
    ensures Turned(nl, k) == if nl && k % 19 == 0 then Place(nl, k) - 1 else Place(nl, k)
    ensures nl && k % 19 == 0 ==> At(b + pads, junk, Turned(nl, k)) == c.newline
  {
    BreaksNext(nl, k - 1);
    if nl && k % 19 == 0 {
      HeadLength(c, s, nl, k - 1);
      HeadRead(c, s, nl, b, pads, junk, k - 1, 4);
    }
  }

  /** After `k` turns the loop is at index `i`; it comes to group `k`, over a line break if there is one, and reads
      it. */
  ghost predicate Readable<E>(c: Coder<E>, s: seq<E>, text: seq<E>, junk: E, k: nat, i: nat, next: nat)
    requires 3 * k + 3 <= |s|
  {
    var j := Skip(c, text, junk, i); j + 4 == next && UngroupAt(c, text, junk, j) == s[3 * k..3 * k + 3]
  }

  lemma Reads<E(!new)>(c: Coder<E>, s: seq<E>, nl: bool, b: seq<E>, pads: seq<E>, junk: E, k: nat)
    requires Lossless(c) && From(c, s, nl, b, 0) && 3 * k + 3 <= |s|
    ensures Readable(c, s, b + pads, junk, k, Turned(nl, k), Turned(nl, k + 1))
  {
    GroupRead(c, s, nl, b, pads, junk, k);
    if k > 0 { BreakRead(c, s, nl, b, pads, junk, k); }
  }

  /** From group `k` on, the loop writes what the groups stand for, if it gets as far. */
  lemma {:induction false} LoopFrom<E(!new)>(c: Coder<E>, s: seq<E>, text: seq<E>, junk: E, end: nat, at: nat -> nat,
                                             g: nat, k: nat)
    requires 3 * g <= |s| && k <= g
    requires forall j | 0 <= j < g :: Readable(c, s, text, junk, j, at(j), at(j + 1)) && at(j) < end
    ensures Groups(c, text, junk, at(k), end) == s[3 * k..3 * g] + Groups(c, text, junk, at(g), end)
    ensures Stop(c, text, junk, at(k), end) == Stop(c, text, junk, at(g), end)
    decreases g - k
  {
    if k < g {
      LoopFrom(c, s, text, junk, end, at, g, k + 1);
      assert Readable(c, s, text, junk, k, at(k), at(k + 1)) && at(k) < end;
      Associative(s[3 * k..3 * k + 3], s[3 * k + 3..3 * g], Groups(c, text, junk, at(g), end));
      assert s[3 * k..3 * g] == s[3 * k..3 * k + 3] + s[3 * k + 3..3 * g];
    }
  }

  // ---------------------------------------------------------------- lengths

  /** Three elements from a group, one or two from what is left over; a line break is no padding. */
  ghost predicate Measured<E(!new)>(c: Coder<E>) {
    && c.newline != c.pad
    && (forall w, x, y, z :: |c.ungroup(w, x, y, z)| == 3)
    && (forall t :: |c.untail(t)| == Extra(|t|))
  }

  function Extra(left: nat): nat {
    if left == 2 then 1 else if left == 3 then 2 else 0
  }

  lemma GroupsLong<E(!new)>(c: Coder<E>, text: seq<E>, junk: E, i: nat, end: nat)
    requires Measured(c)
    ensures i < end ==> |Groups(c, text, junk, i, end)| >= 3
  {
    if i < end {
      var j := Skip(c, text, junk, i);
      assert |UngroupAt(c, text, junk, j)| == 3;
    }
  }

  lemma {:induction false} NoPads<E(!new)>(c: Coder<E>, s: seq<E>, nl: bool, k: nat)
    requires Lossless(c) && c.newline != c.pad
    ensures c.pad !in Body(c, s, nl, k)
    decreases |s|
  {
    if |s| >= 3 {
      NoPads(c, s[3..], nl, k + 1);
      assert Plain(c, c.group(s[0], s[1], s[2]));
    } else {
      assert Plain(c, c.tail(s));
    }
  }

  lemma LengthBack<E>(c: Coder<E>, b: seq<E>, r: nat)
    requires c.pad !in b && b != [] && r < 3
    ensures TextLength(c, b + Pads(c, r)) == |b|
  {
    assert b[|b| - 1] in b;
  }

  /** The length of the text without padding, for `g` groups and `r` elements more. */
  function Length(nl: bool, g: nat, r: nat): nat {
    4 * g + Breaks(nl, g) + if r == 0 then 0 else r + 1
  }

  lemma LengthOf<E(!new)>(c: Coder<E>, s: seq<E>, nl: bool)
    requires Lossless(c)
    ensures |Body(c, s, nl, 0)| == Length(nl, |s| / 3, |s| % 3)
  {
    BodySize(c, s, nl, 0);
  }

  lemma Quotients(a: nat, b: nat)
    requires a <= b
    ensures a / 19 <= b / 19
  {
  }

  /** The loop is long enough for all groups. */
  lemma Enough(nl: bool, g: nat, r: nat, j: nat)
    requires j < g && r < 3
    ensures Turned(nl, j) < Length(nl, g, r) / 4 * 4
  {
    if j > 0 { Quotients(j - 1, g); }
  }

  /** It ends with the last group, and what is left over has the right length. */
  predicate Fits(nl: bool, g: nat, r: nat) {
    Turned(nl, g) >= Length(nl, g, r) / 4 * 4 && Extra(Length(nl, g, r) % 4) == r
  }

  /** What a caller can tell from the number of bytes: fewer than 57, or the number of line breaks is a multiple of
      four and the last line is not full, or there are no bytes beside whole groups and one line break more. */
  predicate Survives(n: nat) {
    var breaks := n / 57;
    || (breaks % 4 == 0 && (breaks == 0 || (n / 3) % 19 != 0))
    || (breaks % 4 == 1 && n % 3 == 0)
  }

  lemma Survival(nl: bool, n: nat)
    ensures Fits(nl, n / 3, n % 3) <==> !nl || Survives(n)
  {
    var g, r := n / 3, n % 3;
    var t := if r == 0 then 0 else r + 1;
    assert g / 19 == n / 57;
    if nl {
      LineFit(g, r, g / 19, g / 19 / 4, g / 19 % 4);
    } else {
      Fourths(g, t, 4 * g + t);
    }
  }

  lemma LineFit(g: nat, r: nat, breaks: nat, q: nat, m: nat)
    requires r < 3 && breaks == g / 19 == 4 * q + m && m < 4
    ensures Fits(true, g, r) <==> (m == 0 && (breaks == 0 || g % 19 != 0)) || (m == 1 && r == 0)
  {
    var t := if r == 0 then 0 else r + 1;
    Fourths(g + q, m + t, 4 * g + breaks + t);
    if g > 0 { BreaksNext(true, g - 1); }
  }

  lemma Fourths(q: nat, m: nat, n: nat)
    requires n == 4 * q + m
    ensures n / 4 == q + m / 4 && n % 4 == m % 4
  {
  }

  // ---------------------------------------------------------------- the round trip

  /** Up to the last group everything comes back. */
  lemma GroupsBack<E(!new)>(c: Coder<E>, s: seq<E>, nl: bool, b: seq<E>, pads: seq<E>, junk: E)
    requires Lossless(c) && From(c, s, nl, b, 0)
    ensures var text, g, end := b + pads, |s| / 3, Length(nl, |s| / 3, |s| % 3) / 4 * 4;
      && Groups(c, text, junk, 0, end) == s[..3 * g] + Groups(c, text, junk, Turned(nl, g), end)
      && Stop(c, text, junk, 0, end) == Stop(c, text, junk, Turned(nl, g), end)
  {
    var text, g, r := b + pads, |s| / 3, |s| % 3;
    var end := Length(nl, g, r) / 4 * 4;
    var at := (k: nat) => Turned(nl, k);
    forall j | 0 <= j < g ensures Readable(c, s, text, junk, j, at(j), at(j + 1)) && at(j) < end {
      Reads(c, s, nl, b, pads, junk, j);
      Enough(nl, g, r, j);
    }
    LoopFrom(c, s, text, junk, end, at, g, 0);
  }

  lemma ReadTail<E>(c: Coder<E>, b: seq<E>, pads: seq<E>, junk: E, p: nat, t: seq<E>)
    requires p <= |b| && b[p..] == t && (|t| == 2 || |t| == 3)
    ensures Rest(c, b + pads, junk, p, |t|) == c.untail(t)
  {
    forall i | 0 <= i < |t| ensures At(b + pads, junk, p + i) == t[i] {
      AtBody(b, pads, junk, p + i);
      assert b[p..][i] == b[p + i];
    }
    assert At(b + pads, junk, p + 0) == t[0];
    if |t| == 2 {
      assert t == [At(b + pads, junk, p), At(b + pads, junk, p + 1)];
    } else {
      assert t == [At(b + pads, junk, p), At(b + pads, junk, p + 1), At(b + pads, junk, p + 2)];
    }
  }

  /** So does the rest, if it is read in its place. */
  lemma RestBack<E(!new)>(c: Coder<E>, s: seq<E>, nl: bool, b: seq<E>, pads: seq<E>, junk: E)
    requires Lossless(c) && From(c, s, nl, b, 0) && |s| % 3 > 0
    ensures var g, r := |s| / 3, |s| % 3; Rest(c, b + pads, junk, Place(nl, g), r + 1) == s[3 * g..]
  {
    var g := |s| / 3;
    var last := s[3 * g..];
    Suffix(c, s, nl, b, g);
    assert |last| == |s| % 3;
    var t := c.tail(last);
    assert c.untail(t) == last && |t| == |last| + 1;
    ReadTail(c, b, pads, junk, Place(nl, g), t);
  }

  /** Where something is left over and everything fits, it is read in its place. */
  lemma InPlace(nl: bool, g: nat, r: nat)
    requires Fits(nl, g, r) && 0 < r < 3
    ensures Turned(nl, g) == Place(nl, g) && Length(nl, g, r) % 4 == r + 1
  {
    if g > 0 { BreaksNext(nl, g - 1); }
  }

  /** What is decoded: the groups, what the loop makes of more than the groups, and the rest. */
  ghost function Extras<E>(c: Coder<E>, text: seq<E>, junk: E, i: nat, len: nat): seq<E> {
    var end := len / 4 * 4;
    Groups(c, text, junk, i, end) + Rest(c, text, junk, Stop(c, text, junk, i, end), len % 4)
  }

  lemma DecodedParts<E(!new)>(c: Coder<E>, s: seq<E>, nl: bool, b: seq<E>, pads: seq<E>, junk: E)
    requires Lossless(c) && From(c, s, nl, b, 0)
    ensures var g, len := |s| / 3, Length(nl, |s| / 3, |s| % 3);
      Decoded(c, b + pads, junk, len) == s[..3 * g] + Extras(c, b + pads, junk, Turned(nl, g), len)
  {
    var text, g, len := b + pads, |s| / 3, Length(nl, |s| / 3, |s| % 3);
    var end := len / 4 * 4;
    GroupsBack(c, s, nl, b, pads, junk);
    Associative(s[..3 * g], Groups(c, text, junk, Turned(nl, g), end),
                Rest(c, text, junk, Stop(c, text, junk, 0, end), len % 4));
  }

  lemma ExtrasLength<E(!new)>(c: Coder<E>, text: seq<E>, junk: E, i: nat, len: nat)
    requires Measured(c)
    ensures i < len / 4 * 4 ==> |Extras(c, text, junk, i, len)| >= 3
    ensures i >= len / 4 * 4 ==> Extras(c, text, junk, i, len) == Rest(c, text, junk, i, len % 4)
    ensures i >= len / 4 * 4 ==> |Extras(c, text, junk, i, len)| == Extra(len % 4)
  {
    var end := len / 4 * 4;
    GroupsLong(c, text, junk, i, end);
    assert |Rest(c, text, junk, i, len % 4)| == Extra(len % 4);
  }

  lemma ExtrasBack<E(!new)>(c: Coder<E>, s: seq<E>, nl: bool, b: seq<E>, pads: seq<E>, junk: E)
    requires Lossless(c) && Measured(c) && From(c, s, nl, b, 0)
    ensures var g, r := |s| / 3, |s| % 3;
      Extras(c, b + pads, junk, Turned(nl, g), Length(nl, g, r)) == s[3 * g..] <==> Fits(nl, g, r)
  {
    var g, r := |s| / 3, |s| % 3;
    ExtrasLength(c, b + pads, junk, Turned(nl, g), Length(nl, g, r));
    assert |s[3 * g..]| == r;
    if r > 0 && Fits(nl, g, r) {
      InPlace(nl, g, r);
      RestBack(c, s, nl, b, pads, junk);
    }
  }

  lemma SameFront<E>(s: seq<E>, n: nat, x: seq<E>)
    requires n <= |s|
    ensures s[..n] + x == s <==> x == s[n..]
  {
    assert s == s[..n] + s[n..];
    if s[..n] + x == s { assert x == (s[..n] + x)[n..]; }
  }

  /** Decoding gives back what was encoded if and only if there are no line breaks or their number fits. */
  lemma RoundTrip<E(!new)>(c: Coder<E>, s: seq<E>, nl: bool, junk: E)
    requires Lossless(c) && Measured(c) && s != []
    ensures var text := Encoded(c, s, nl); Decoded(c, text, junk, TextLength(c, text)) == s <==> !nl || Survives(|s|)
  {
    var b := Body(c, s, nl, 0);
    assert s[0..] == s && b[0..] == b;
    LengthOf(c, s, nl);
    NoPads(c, s, nl, 0);
    LengthBack(c, b, |s| % 3);
    DecodedParts(c, s, nl, b, Pads(c, |s| % 3), junk);
    ExtrasBack(c, s, nl, b, Pads(c, |s| % 3), junk);
    SameFront(s, 3 * (|s| / 3), Extras(c, b + Pads(c, |s| % 3), junk, Turned(nl, |s| / 3), |b|));
    Survival(nl, |s|);
  }

  // ---------------------------------------------------------------- the size-only mode

  /** `base64_decode` with no output buffer. */
  function SizeOf<E(==)>(c: Coder<E>, text: seq<E>): nat {
    var len := TextLength(c, text);
    var plain := if len >= 77 && text[76] == c.newline then len - len / 77 else len;
    Size(plain)
  }

  function Size(plain: nat): nat {
    plain / 4 * 3 + Extra(plain % 4)
  }

  lemma SizeExact(g: nat, r: nat)
    requires r < 3
    ensures Size(4 * g + if r == 0 then 0 else r + 1) == 3 * g + r
  {
    var t := if r == 0 then 0 else r + 1;
    Fourths(g, t, 4 * g + t);
  }

  lemma PlainLength(nl: bool, g: nat, r: nat)
    requires r < 3
    ensures var len := Length(nl, g, r);
      && (nl ==> len / 77 == g / 19) && (nl && g >= 19 ==> len >= 77)
      && (g < 19 || !nl ==> Breaks(nl, g) == 0) && (g < 19 ==> len < 77)
  {
    if nl {
      var q, m, t := g / 19, g % 19, if r == 0 then 0 else r + 1;
      assert Length(nl, g, r) == 77 * q + (4 * m + t) && 4 * m + t < 77;
    }
  }

  lemma {:induction false} NoBreaks<E(!new)>(c: Coder<E>, s: seq<E>, k: nat)
    requires Lossless(c)
    ensures c.newline !in Body(c, s, false, k)
    decreases |s|
  {
    if |s| >= 3 {
      NoBreaks(c, s[3..], k + 1);
      assert Plain(c, c.group(s[0], s[1], s[2]));
    } else {
      assert Plain(c, c.tail(s));
    }
  }

  /** The first line break, if any, is character 77. */
  lemma FirstBreak<E(!new)>(c: Coder<E>, s: seq<E>, nl: bool, b: seq<E>)
    requires Lossless(c) && b == Body(c, s, nl, 0) && |b| >= 77 && |b| == Length(nl, |s| / 3, |s| % 3)
    ensures b[76] == c.newline <==> nl
  {
    if nl {
      PlainLength(nl, |s| / 3, |s| % 3);
      assert s[0..] == s && b[0..] == b;
      HeadLength(c, s, nl, 18);
      HeadRead(c, s, nl, b, [], c.newline, 18, 4);
      assert b + [] == b;
    } else {
      NoBreaks(c, s, 0);
    }
  }

  /** The size-only mode announces the number of bytes that were encoded, with and without line breaks. */
  lemma SizeBack<E(!new)>(c: Coder<E>, s: seq<E>, nl: bool)
    requires Lossless(c) && c.newline != c.pad && s != []
    ensures SizeOf(c, Encoded(c, s, nl)) == |s|
  {
    var b, g, r := Body(c, s, nl, 0), |s| / 3, |s| % 3;
    LengthOf(c, s, nl);
    NoPads(c, s, nl, 0);
    LengthBack(c, b, r);
    PlainLength(nl, g, r);
    if |b| >= 77 { FirstBreak(c, s, nl, b); }
    SizeExact(g, r);
  }

  // ---------------------------------------------------------------- bytes and characters

  lemma StandardMeasured()
    ensures Measured(Standard())
  {
    var c := Standard();
    forall w, x, y, z ensures |c.ungroup(w, x, y, z)| == 3 { assert c.ungroup(w, x, y, z) == Ungroup(w, x, y, z); }
    forall t ensures |c.untail(t)| == Extra(|t|) { assert c.untail(t) == Untail(t); }
  }

  /** `base64_decode`: a text that was encoded without line breaks comes back, and one with line breaks if and only if
      their number fits; whatever lies beyond the text. */
  method Decode(text: Bytes, junk: bv8) returns (out: Bytes)
    requires |text| > 0 && (|text| == 1 ==> text[0] != PAD)
    ensures out == Decoded(Standard(), text, junk, TextLength(Standard(), text))
    ensures forall s: Bytes, nl | s != [] && text == Encoded(Standard(), s, nl) :: out == s <==> !nl || Survives(|s|)
  {
    out := DecodeWith(Standard(), text, junk);
    StandardLossless();
    StandardMeasured();
    forall s: Bytes, nl | s != [] && text == Encoded(Standard(), s, nl) ensures out == s <==> !nl || Survives(|s|) {
      RoundTrip(Standard(), s, nl, junk);
    }
  }

  /** For example, 58 bytes: one line break, and one byte beside whole groups. */
  lemma Lost<E(!new)>(c: Coder<E>, s: seq<E>, junk: E)
    requires Lossless(c) && Measured(c) && |s| == 58
    ensures var text := Encoded(c, s, true); Decoded(c, text, junk, TextLength(c, text)) != s
  {
    RoundTrip(c, s, true, junk);
  }

  method SizeWith<E(==)>(c: Coder<E>, text: seq<E>) returns (n: nat)
    requires |text| > 0 && (|text| == 1 ==> text[0] != c.pad)
    ensures n == SizeOf(c, text)
  {
    var len := |text|;
    if text[len - 1] == c.pad { len := len - 1; }
    if text[len - 1] == c.pad { len := len - 1; }
    assert len == TextLength(c, text);
    if len >= 77 && text[76] == c.newline { len := len - len / 77; }
    assert SizeOf(c, text) == Size(len);
    var left := len % 4;
    n := len / 4 * 3;
    if left == 2 { n := n + 1; } else if left == 3 { n := n + 2; }
  }

  /** `base64_decode` with no output buffer. */
  method DecodeSize(text: Bytes) returns (n: nat)
    requires |text| > 0 && (|text| == 1 ==> text[0] != PAD)
    ensures n == SizeOf(Standard(), text)
    ensures forall s: Bytes, nl | s != [] && text == Encoded(Standard(), s, nl) :: n == |s|
  {
    n := SizeWith(Standard(), text);
    StandardLossless();
    StandardMeasured();
    forall s: Bytes, nl | s != [] && text == Encoded(Standard(), s, nl) ensures n == |s| {
      SizeBack(Standard(), s, nl);
    }
  }
}
