/**
 The chains of the unordered map of cc_learn/cc.h, as values.  Every occupied bucket belongs to the
 chain of its key's home bucket; the chain starts there and is linked in ascending order of
 quadratic displacement (cc_learn/cc.h:2842-2866).

 `w` is a bucket outside all chains: one whose pair was just unlinked.  It is -1 if there is none.
 */
module HashChain {
  /** A metadatum: hash fragment, in-home-bucket flag, displacement of the next pair in the chain. */
  datatype Meta = Meta(frag: nat, home: bool, next: nat)

  const EMPTY := Meta(0, false, 0)
  /** The displacement limit, which also marks the end of a chain. */
  const LIMIT: nat := 0x7FF

  /** Where the keys of a table belong: number of buckets, home bucket and fragment of a key, and the
      bucket at a displacement from a home bucket. */
  datatype Env<!K> = Env(n: nat, home: K -> nat, frag: K -> nat, pos: (nat, nat) -> nat)

  ghost predicate EnvOk<K(!new)>(e: Env<K>) {
    && e.n > 0
    && (forall k :: e.home(k) < e.n)
    && (forall h, d :: e.pos(h, d) < e.n)
    && (forall h: nat | h < e.n :: e.pos(h, 0) == h)
  }

  /** The metadata and keys of a table; `disp` gives every pair's displacement from its home bucket. */
  datatype Tab<K> = Tab(meta: seq<Meta>, keys: seq<K>, disp: seq<nat>)

  ghost predicate Sized<K>(e: Env<K>, t: Tab<K>) {
    |t.meta| >= e.n && |t.keys| == e.n && |t.disp| == e.n
  }

  /** Bucket `b` is occupied and lies on a chain. */
  ghost predicate On<K>(e: Env<K>, t: Tab<K>, w: int, b: int)
    requires Sized(e, t)
  {
    0 <= b < e.n && b != w && t.meta[b] != EMPTY
  }

  ghost function Home<K>(e: Env<K>, t: Tab<K>, b: int): nat
    requires Sized(e, t) && 0 <= b < e.n
  {
    e.home(t.keys[b])
  }

  /** What holds of one pair by itself. */
  ghost predicate Placed<K>(e: Env<K>, t: Tab<K>, w: int, b: int)
    requires Sized(e, t) && On(e, t, w, b)
  {
    var h := Home(e, t, b);
    && t.disp[b] < LIMIT && e.pos(h, t.disp[b]) == b
    && t.meta[b].frag == e.frag(t.keys[b]) && (t.meta[b].home <==> t.disp[b] == 0)
    && On(e, t, w, h) && t.meta[h].home
  }

  /** Its link leads to a pair of the same chain further out, or ends the chain. */
  ghost predicate Links<K>(e: Env<K>, t: Tab<K>, w: int, b: int)
    requires Sized(e, t) && On(e, t, w, b)
  {
    var d, c := t.meta[b].next, e.pos(Home(e, t, b), t.meta[b].next);
    && t.disp[b] < d <= LIMIT
    && (d < LIMIT ==> On(e, t, w, c) && Home(e, t, c) == Home(e, t, b) && t.disp[c] == d)
  }

  /** No pair of the chain is skipped by the link, and no key is stored twice. */
  ghost predicate Apart<K>(e: Env<K>, t: Tab<K>, w: int, b: int, x: int)
    requires Sized(e, t) && On(e, t, w, b) && On(e, t, w, x)
  {
    && (Home(e, t, b) == Home(e, t, x) && t.disp[b] < t.disp[x] ==> t.meta[b].next <= t.disp[x])
    && (t.keys[b] == t.keys[x] ==> b == x)
  }

  ghost predicate Linked<K>(e: Env<K>, t: Tab<K>, w: int) {
    && Sized(e, t)
    && (forall b {:trigger Placed(e, t, w, b)} | On(e, t, w, b) :: Placed(e, t, w, b))
    && (forall b {:trigger Links(e, t, w, b)} | On(e, t, w, b) :: Links(e, t, w, b))
    && (forall b, x {:trigger Apart(e, t, w, b, x)} | On(e, t, w, b) && On(e, t, w, x) :: Apart(e, t, w, b, x))
  }

  // ---------------------------------------------------------------- walking a chain

  /** At the home bucket stands the first pair of the chain, or the chain is empty. */
  lemma ChainStart<K(!new)>(e: Env<K>, t: Tab<K>, w: int, h: nat)
    requires EnvOk(e) && Linked(e, t, w) && h < e.n && h != w
    ensures t.meta[h].home ==> On(e, t, w, h) && Home(e, t, h) == h && t.disp[h] == 0
    ensures !t.meta[h].home ==> forall b | On(e, t, w, b) :: Home(e, t, b) != h
  {
    if t.meta[h].home { assert On(e, t, w, h) && Placed(e, t, w, h); }
    forall b | On(e, t, w, b) && !t.meta[h].home ensures Home(e, t, b) != h { assert Placed(e, t, w, b); }
  }

  /** One step along the chain: nothing lies between. */
  lemma ChainStep<K>(e: Env<K>, t: Tab<K>, w: int, b: nat, x: nat)
    requires Linked(e, t, w) && On(e, t, w, b) && On(e, t, w, x) && Home(e, t, x) == Home(e, t, b)
    ensures t.disp[x] > t.disp[b] ==> t.meta[b].next < LIMIT && t.meta[b].next <= t.disp[x]
    ensures t.disp[x] == t.disp[b] ==> x == b
    ensures t.meta[b].next == t.disp[x] ==> e.pos(Home(e, t, b), t.meta[b].next) == x
  {
    assert Placed(e, t, w, b) && Placed(e, t, w, x) && Apart(e, t, w, b, x);
  }

  /** The chain from bucket `b` on: the buckets that the links lead to. */
  ghost function Walk<K>(e: Env<K>, t: Tab<K>, w: int, b: nat): seq<nat>
    requires Linked(e, t, w) && On(e, t, w, b)
    decreases LIMIT - t.disp[b]
  {
    assert Placed(e, t, w, b) && Links(e, t, w, b);
    if t.meta[b].next == LIMIT then [b] else [b] + Walk(e, t, w, e.pos(Home(e, t, b), t.meta[b].next))
  }

  ghost predicate Ascending(bs: seq<nat>, disp: seq<nat>) {
    forall i, j | 0 <= i < j < |bs| :: bs[i] < |disp| && bs[j] < |disp| && disp[bs[i]] < disp[bs[j]]
  }

  /** From any pair, the links lead to exactly the pairs of its chain that lie further out, in strictly
      ascending order of displacement. */
  lemma {:induction false} WalkAll<K>(e: Env<K>, t: Tab<K>, w: int, b: nat)
    requires Linked(e, t, w) && On(e, t, w, b)
    ensures forall x :: x in Walk(e, t, w, b) <==> On(e, t, w, x) && Home(e, t, x) == Home(e, t, b) && t.disp[x] >= t.disp[b]
    ensures Ascending(Walk(e, t, w, b), t.disp)
    decreases LIMIT - t.disp[b]
  {
    assert Placed(e, t, w, b) && Links(e, t, w, b);
    var h, d := Home(e, t, b), t.meta[b].next;
    forall x | On(e, t, w, x) && Home(e, t, x) == h && x != b
      ensures t.disp[x] != t.disp[b] && (t.disp[x] > t.disp[b] ==> d < LIMIT && t.disp[x] >= d)
    {
      ChainStep(e, t, w, b, x);
    }
    if d < LIMIT {
      var c := e.pos(h, d);
      WalkAll(e, t, w, c);
      var rest := Walk(e, t, w, c);
      assert Walk(e, t, w, b) == [b] + rest;
      forall j | 0 <= j < |rest| ensures t.disp[rest[j]] >= d { assert rest[j] in rest; }
    }
  }

  /** Every occupied bucket lies on exactly one chain, the one that begins at its key's home bucket. */
  lemma OneChain<K(!new)>(e: Env<K>, t: Tab<K>, w: int, b: nat)
    requires EnvOk(e) && Linked(e, t, w) && On(e, t, w, b)
    ensures var h := Home(e, t, b); On(e, t, w, h) && t.meta[h].home && b in Walk(e, t, w, h)
    ensures forall h | On(e, t, w, h) && t.meta[h].home && b in Walk(e, t, w, h) :: h == Home(e, t, b)
  {
    assert Placed(e, t, w, b);
    ChainStart(e, t, w, Home(e, t, b));
    WalkAll(e, t, w, Home(e, t, b));
    forall h | On(e, t, w, h) && t.meta[h].home && b in Walk(e, t, w, h) ensures h == Home(e, t, b) {
      ChainStart(e, t, w, h);
      WalkAll(e, t, w, h);
    }
  }

  // ---------------------------------------------------------------- changing a chain

  /** Takes the pair in bucket `b` out of its chain: its predecessor `p` is linked to its successor. */
  function Unlink<K>(t: Tab<K>, p: nat, b: nat): Tab<K>
    requires p < |t.meta| && b < |t.meta|
  {
    t.(meta := t.meta[p := t.meta[p].(next := t.meta[b].next)])
  }

  /** `p` is linked to `b`. */
  ghost predicate Before<K>(e: Env<K>, t: Tab<K>, w: int, p: int, b: int)
    requires Sized(e, t)
  {
    && On(e, t, w, p) && On(e, t, w, b) && Home(e, t, p) == Home(e, t, b)
    && t.meta[p].next == t.disp[b]
  }

  lemma UnlinkAt<K>(e: Env<K>, t: Tab<K>, p: nat, b: nat, x: nat)
    requires Linked(e, t, -1) && Before(e, t, -1, p, b) && On(e, t, -1, x) && x != b
    ensures var t' := Unlink(t, p, b); On(e, t', b, x) && Placed(e, t', b, x) && Links(e, t', b, x)
  {
    assert Placed(e, t, -1, p) && Links(e, t, -1, p) && Links(e, t, -1, b) && Placed(e, t, -1, b);
    assert Placed(e, t, -1, x) && Links(e, t, -1, x) && Apart(e, t, -1, x, p) && Apart(e, t, -1, p, x);
  }

  lemma UnlinkOk<K>(e: Env<K>, t: Tab<K>, p: nat, b: nat)
    requires Linked(e, t, -1) && Before(e, t, -1, p, b)
    ensures Linked(e, Unlink(t, p, b), b)
  {
    var t' := Unlink(t, p, b);
    forall x | On(e, t', b, x) ensures Placed(e, t', b, x) && Links(e, t', b, x) {
      UnlinkAt(e, t, p, b, x);
    }
    forall x, y | On(e, t', b, x) && On(e, t', b, y) ensures Apart(e, t', b, x, y) {
      assert Apart(e, t, -1, x, y) && Apart(e, t, -1, b, y) && Links(e, t, -1, p) && Placed(e, t, -1, y) && Placed(e, t, -1, b);
    }
  }

  /** Puts a pair into the empty bucket `b` at displacement `d` and links it after the pair in `p`. */
  function LinkIn<K>(t: Tab<K>, p: nat, b: nat, d: nat, key: K, frag: nat): Tab<K>
    requires p < |t.meta| && b < |t.meta| && b < |t.keys| && b < |t.disp|
  {
    Tab(t.meta[b := Meta(frag, false, t.meta[p].next)][p := t.meta[p].(next := d)], t.keys[b := key], t.disp[b := d])
  }

  /** The place in the chain where an empty bucket at displacement `d` belongs. */
  ghost predicate Gap<K>(e: Env<K>, t: Tab<K>, w: int, p: int, b: int, d: nat, h: nat)
    requires Sized(e, t)
  {
    && On(e, t, w, p) && 0 <= b < e.n && b != w && t.meta[b] == EMPTY
    && Home(e, t, p) == h && e.pos(h, d) == b && t.disp[p] < d < t.meta[p].next && d < LIMIT
  }

  lemma LinkInAt<K>(e: Env<K>, t: Tab<K>, w: int, p: nat, b: nat, d: nat, key: K, x: nat)
    requires Linked(e, t, w) && Gap(e, t, w, p, b, d, e.home(key)) && (x == b || On(e, t, w, x))
    ensures var t' := LinkIn(t, p, b, d, key, e.frag(key)); On(e, t', w, x) && Placed(e, t', w, x) && Links(e, t', w, x)
  {
    assert Placed(e, t, w, p) && Links(e, t, w, p);
    if x != b { assert Placed(e, t, w, x) && Links(e, t, w, x); }
  }

  lemma LinkInApart<K>(e: Env<K>, t: Tab<K>, w: int, p: nat, b: nat, d: nat, key: K, x: nat, y: nat)
    requires Linked(e, t, w) && Gap(e, t, w, p, b, d, e.home(key)) && (x == b || On(e, t, w, x)) && (y == b || On(e, t, w, y))
    requires forall z | On(e, t, w, z) :: t.keys[z] != key
    ensures var t' := LinkIn(t, p, b, d, key, e.frag(key)); On(e, t', w, x) && On(e, t', w, y) && Apart(e, t', w, x, y)
  {
    assert Placed(e, t, w, p) && Links(e, t, w, p);
    if x != b { assert Apart(e, t, w, x, p) && Apart(e, t, w, p, x) && Placed(e, t, w, x) && Links(e, t, w, x); }
    if y != b { assert Apart(e, t, w, p, y); }
    if x != b && y != b { assert Apart(e, t, w, x, y); }
  }

  lemma LinkInOk<K>(e: Env<K>, t: Tab<K>, w: int, p: nat, b: nat, d: nat, key: K)
    requires Linked(e, t, w) && Gap(e, t, w, p, b, d, e.home(key)) && forall x | On(e, t, w, x) :: t.keys[x] != key
    ensures Linked(e, LinkIn(t, p, b, d, key, e.frag(key)), w)
  {
    var t' := LinkIn(t, p, b, d, key, e.frag(key));
    forall x | On(e, t', w, x) ensures Placed(e, t', w, x) && Links(e, t', w, x) {
      LinkInAt(e, t, w, p, b, d, key, x);
    }
    forall x, y | On(e, t', w, x) && On(e, t', w, y) ensures Apart(e, t', w, x, y) {
      LinkInApart(e, t, w, p, b, d, key, x, y);
    }
  }

  /** Puts a pair into its home bucket, which is empty or holds an unlinked pair: a new chain. */
  function Begin<K>(t: Tab<K>, h: nat, key: K, frag: nat): Tab<K>
    requires h < |t.meta| && h < |t.keys| && h < |t.disp|
  {
    Tab(t.meta[h := Meta(frag, true, LIMIT)], t.keys[h := key], t.disp[h := 0])
  }

  lemma BeginOk<K(!new)>(e: Env<K>, t: Tab<K>, w: int, key: K)
    requires EnvOk(e) && Linked(e, t, w) && (w == e.home(key) || (w == -1 && t.meta[e.home(key)] == EMPTY))
    requires forall x | On(e, t, w, x) :: t.keys[x] != key
    ensures Linked(e, Begin(t, e.home(key), key, e.frag(key)), -1)
  {
    var h := e.home(key);
    var t' := Begin(t, h, key, e.frag(key));
    forall x | On(e, t, w, x) ensures Home(e, t, x) != h { assert Placed(e, t, w, x); }
    forall x | On(e, t', -1, x) ensures Placed(e, t', -1, x) && Links(e, t', -1, x) {
      if x != h { assert Placed(e, t, w, x) && Links(e, t, w, x); }
    }
    forall x, y | On(e, t', -1, x) && On(e, t', -1, y) ensures Apart(e, t', -1, x, y) {
      assert (x == h || On(e, t, w, x)) && (y == h || On(e, t, w, y));
      if x != h && y != h { assert Apart(e, t, w, x, y); }
    }
  }

  /** Empties a bucket that lies on no chain. */
  function Vacate<K>(t: Tab<K>, b: nat): Tab<K>
    requires b < |t.meta|
  {
    t.(meta := t.meta[b := EMPTY])
  }

  lemma VacateOk<K>(e: Env<K>, t: Tab<K>, b: nat)
    requires Linked(e, t, b) && b < e.n
    ensures Linked(e, Vacate(t, b), -1)
  {
    var t' := Vacate(t, b);
    forall x | On(e, t', -1, x) ensures Placed(e, t', -1, x) && Links(e, t', -1, x) {
      assert On(e, t, b, x) && Placed(e, t, b, x) && Links(e, t, b, x);
    }
    forall x, y | On(e, t', -1, x) && On(e, t', -1, y) ensures Apart(e, t', -1, x, y) {
      assert On(e, t, b, x) && On(e, t, b, y) && Apart(e, t, b, x, y);
    }
  }

  /** A pair that is alone in its chain can be forgotten. */
  lemma AloneOk<K(!new)>(e: Env<K>, t: Tab<K>, b: nat)
    requires EnvOk(e) && Linked(e, t, -1) && On(e, t, -1, b) && t.meta[b].home && t.meta[b].next == LIMIT
    ensures Linked(e, t, b)
  {
    assert Placed(e, t, -1, b);
    forall x | On(e, t, b, x) ensures Placed(e, t, b, x) && Links(e, t, b, x) {
      assert Placed(e, t, -1, x) && Links(e, t, -1, x) && Apart(e, t, -1, b, x) && Apart(e, t, -1, x, b);
    }
    forall x, y | On(e, t, b, x) && On(e, t, b, y) ensures Apart(e, t, b, x, y) {
      assert Apart(e, t, -1, x, y);
    }
  }

  /** Another pair of the same chain takes over bucket `b`. */
  function TakeOver<K>(t: Tab<K>, b: nat, key: K, frag: nat): Tab<K>
    requires b < |t.meta| && b < |t.keys|
  {
    t.(meta := t.meta[b := t.meta[b].(frag := frag)], keys := t.keys[b := key])
  }

  lemma TakeOverOk<K>(e: Env<K>, t: Tab<K>, w: int, b: nat, key: K)
    requires Linked(e, t, w) && On(e, t, w, b) && e.home(key) == Home(e, t, b)
    requires forall x | On(e, t, w, x) && x != b :: t.keys[x] != key
    ensures Linked(e, TakeOver(t, b, key, e.frag(key)), w)
  {
    var t' := TakeOver(t, b, key, e.frag(key));
    assert Links(e, t, w, b);
    forall x | On(e, t', w, x) ensures Placed(e, t', w, x) && Links(e, t', w, x) {
      assert On(e, t, w, x) && Placed(e, t, w, x) && Links(e, t, w, x);
    }
    forall x, y | On(e, t', w, x) && On(e, t', w, y) ensures Apart(e, t', w, x, y) {
      assert On(e, t, w, x) && On(e, t, w, y) && Apart(e, t, w, x, y);
    }
  }
}
