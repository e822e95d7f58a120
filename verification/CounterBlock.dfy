/**
 `increment_iv` of crypto-algorithms_learn/aes.c:483-495: the last n bytes of a block, read as a
 big-endian number, are incremented modulo 256^n.
 */
module CounterBlock {
  import opened Word
  import opened BlockModes

  function Pow256(n: nat): (r: nat)
    ensures r > 0
  {
    if n == 0 then 1 else 256 * Pow256(n - 1)
  }

  /** Incrementing with carry, from the last byte on. */
  function Incremented(s: seq<byte>): (r: seq<byte>)
    ensures |r| == |s|
  {
    if s == [] then []
    else
      var l := |s| - 1;
      if s[l] < 255 then s[..l] + [s[l] + 1] else Incremented(s[..l]) + [0]
  }

  lemma {:induction false} ValueBound(s: seq<byte>)
    ensures BigEndian(s) < Pow256(|s|)
  {
    if s != [] { ValueBound(s[..|s| - 1]); }
  }

  lemma {:induction false} IncrementedStep(s: seq<byte>)
    ensures BigEndian(Incremented(s)) == if BigEndian(s) + 1 == Pow256(|s|) then 0 else BigEndian(s) + 1
  {
    if s != [] {
      var l := |s| - 1;
      ValueBound(s[..l]);
      if s[l] < 255 {
        assert Incremented(s)[..l] == s[..l];
      } else {
        IncrementedStep(s[..l]);
        assert Incremented(s)[..l] == Incremented(s[..l]);
      }
    }
  }

  /** It adds one modulo 256^n. */
  lemma IncrementedValue(s: seq<byte>)
    ensures BigEndian(Incremented(s)) == (BigEndian(s) + 1) % Pow256(|s|)
  {
    IncrementedStep(s);
    ValueBound(s);
    Wrapped(BigEndian(s) + 1, Pow256(|s|));
  }

  lemma Wrapped(v: nat, p: nat)
    requires 0 < v <= p
    ensures v % p == if v == p then 0 else v
  {
    if v == p { assert v == 1 * p + 0; }
  }

  /** `increment_iv`, in place. */
  method IncrementIv(iv: array<byte>, n: nat)
    requires iv.Length == 16 && 1 <= n <= 16
    modifies iv
    ensures iv[..16 - n] == old(iv[..16 - n]) && iv[16 - n..] == Incremented(old(iv[16 - n..]))
  {
    var first, idx := 16 - n, 15;
    ghost var was := iv[..];
    assert was[first..] == was[first..16] && iv[16..] == [];
    while true
      invariant first <= idx <= 15 && Carrying(was, iv[..], first, idx)
      decreases idx
    {
      ghost var now := iv[..];
      iv[idx] := if iv[idx] == 255 then 0 else iv[idx] + 1;
      assert iv[..] == now[idx := iv[idx]];
      CarryStep(was, now, first, idx, iv[idx]);
      if iv[idx] != 0 || idx == first { return; }
      idx := idx - 1;
    }
  }

  /** Bytes behind `idx` are done; the carry goes into `idx`. */
  ghost predicate Carrying(was: seq<byte>, now: seq<byte>, first: nat, idx: nat) {
    && |was| == |now| == 16 && first <= idx < 16 && now[..idx + 1] == was[..idx + 1]
    && Incremented(was[first..]) == Incremented(was[first..idx + 1]) + now[idx + 1..]
  }

  lemma CarryStep(was: seq<byte>, now: seq<byte>, first: nat, idx: nat, b: byte)
    requires Carrying(was, now, first, idx) && b == if now[idx] == 255 then 0 else now[idx] + 1
    ensures var next := now[idx := b];
      if b != 0 || idx == first then next[..first] == was[..first] && next[first..] == Incremented(was[first..])
      else Carrying(was, next, first, idx - 1)
  {
    Written(was, now, idx, b);
    var part := was[first..idx + 1];
    Carry(part);
    assert part[..idx - first] == was[first..idx] && part[idx - first] == was[idx];
    if b != 0 { Whole(was, now[idx := b], first, idx); }
  }

  lemma Written(was: seq<byte>, now: seq<byte>, idx: nat, b: byte)
    requires |was| == |now| == 16 && idx < 16 && now[..idx + 1] == was[..idx + 1]
    ensures was[idx] == now[idx] && now[idx := b][idx..] == [b] + now[idx + 1..] && now[idx := b][..idx] == was[..idx]
  {
    assert now[idx := b][..idx] == now[..idx + 1][..idx];
    assert was[..idx] == was[..idx + 1][..idx];
    assert was[idx] == was[..idx + 1][idx];
  }

  lemma Whole(was: seq<byte>, next: seq<byte>, first: nat, idx: nat)
    requires |was| == |next| && first <= idx <= |was| && next[..idx] == was[..idx]
    ensures next[first..] == was[first..idx] + next[idx..] && next[..first] == was[..first]
  {
    assert next[first..] == next[..idx][first..] + next[idx..];
    assert next[..first] == next[..idx][..first];
  }

  /** One byte of the carry chain. */
  lemma Carry(s: seq<byte>)
    requires s != []
    ensures var l := |s| - 1;
      Incremented(s) == if s[l] < 255 then s[..l] + [s[l] + 1] else Incremented(s[..l]) + [0]
  {
  }

  // ---------------------------------------------------------------- the counters of a message

  /** After `n` increments the counter block stands for n more, less a multiple of 256^16. */
  lemma {:induction false} CounterValue(iv: seq<byte>, n: nat) returns (q: nat)
    ensures var c := Counter(Incremented, iv, n);
      |c| == |iv| && BigEndian(c) < Pow256(|iv|) && BigEndian(c) + q * Pow256(|iv|) == BigEndian(iv) + n
  {
    ValueBound(iv);
    q := 0;
    if n > 0 {
      q := CounterValue(iv, n - 1);
      var c := Counter(Incremented, iv, n - 1);
      IncrementedStep(c);
      ValueBound(Incremented(c));
      if BigEndian(c) + 1 == Pow256(|iv|) {
        Next(q, Pow256(|iv|));
        q := q + 1;
      }
    }
  }

  lemma Next(q: int, p: int)
    ensures (q + 1) * p == q * p + p
  {
  }

  /** No counter block is used twice within 256^16 blocks. */
  lemma CountersDiffer(iv: seq<byte>, i: nat, j: nat)
    requires i < j < i + Pow256(|iv|)
    ensures Counter(Incremented, iv, i) != Counter(Incremented, iv, j)
  {
    var q := CounterValue(iv, i);
    var r := CounterValue(iv, j);
    NoMultiple(j - i, q, r, Pow256(|iv|));
  }

  lemma NoMultiple(d: int, q: int, r: int, p: int)
    requires 0 < d < p
    ensures d != r * p - q * p
  {
    Difference(q, r, p);
    if r <= q { Sign(q - r, p); } else { Multiple(r - q, p); }
  }

  lemma Difference(q: int, r: int, p: int)
    ensures r * p - q * p == (r - q) * p && (q - r) * p == q * p - r * p
  {
  }

  lemma Sign(k: nat, p: nat)
    ensures k * p >= 0
  {
  }

  lemma Multiple(k: nat, p: nat)
    requires k >= 1
    ensures k * p >= p
  {
    assert k * p == (k - 1) * p + p;
    Sign(k - 1, p);
  }
}
