/**
 A lookup that misses a stored pair.  A pair that has to make room, but cannot, is taken off its chain first
 (cc_learn/cc.h:3107-3115); if then the table cannot grow either, it stays off.
 */
module HashStranded {
  import opened Options
  import opened Powers
  import opened HashProbe
  import opened HashChain
  import opened HashFill
  import opened HashJam
  import opened HashMap

  const MASK: nat := 2047

  /** All keys but one belong to bucket 0. */
  function Hash(k: nat): nat {
    if k == LIMIT then 1 else 0
  }

  /** 2048 buckets with keys of bucket 0 only. */
  ghost predicate Bunched<V(0)>(t: Table<nat, V>)
    reads t
  {
    t.Valid() && t.mask == MASK && t.log == 11 && t.hash == Hash && forall k | k in t.contents :: k < LIMIT
  }

  /** The key at a displacement from bucket 0. */
  ghost function At(keys: seq<nat>, d: nat): nat {
    if Pos(0, d, MASK) < |keys| then keys[Pos(0, d, MASK)] else 0
  }

  /** The keys at the first displacements from bucket 0, without one. */
  ghost function Others(keys: seq<nat>, d: nat, skip: nat): set<nat> {
    set e: nat | e < d && e != skip :: At(keys, e)
  }

  lemma InRange(d: nat)
    ensures Pos(0, d, MASK) <= MASK
  {
    ReduceMod(Quad(d), MASK);
  }

  lemma Buckets()
    ensures Pow2(11) == MASK + 1
  {
    assert Pow2(6) == 64;
    assert Pow2(11) == 32 * Pow2(6);
  }

  lemma {:induction false} OthersBound(keys: seq<nat>, d: nat, skip: nat)
    requires |keys| == MASK + 1
    ensures |Others(keys, d, skip)| <= d - if skip < d then 1 else 0
  {
    if d > 0 {
      OthersBound(keys, d - 1, skip);
      var k := At(keys, d - 1);
      assert Others(keys, d, skip) == Others(keys, d - 1, skip) + if d - 1 == skip then {} else {k};
    }
  }

  /** Where the keys stand: on the probe sequence of bucket 0, which is the first of them. */
  lemma Standing<V(0)>(t: Table<nat, V>, b: nat)
    requires Bunched(t) && b <= MASK && t.meta[b] != EMPTY
    ensures t.keys[b] in t.contents && t.env.home(t.keys[b]) == 0
    ensures t.disp[b] < LIMIT && Pos(0, t.disp[b], MASK) == b && t.meta[0].home && (t.meta[b].home <==> t.disp[b] == 0)
  {
    assert On(t.env, t.T(), -1, b) && Placed(t.env, t.T(), -1, b);
    assert t.Hashed(t.keys[b]) && t.Probed(0, t.disp[b]);
  }

  lemma Rooms<V(0)>(t: Table<nat, V>, d: nat)
    requires Bunched(t)
    ensures t.env.pos(0, d) == Pos(0, d, MASK) <= MASK
  {
    assert t.Probed(0, d);
    InRange(d);
  }

  /** While there are fewer keys than displacements, there is room. */
  lemma RoomLeft<V(0)>(t: Table<nat, V>)
    requires Bunched(t) && |t.contents| < LIMIT && t.meta[0] != EMPTY
    ensures !t.NoRoom(0)
  {
    t.FewHaveRoom(0);
  }

  /** When there are as many, there is none. */
  lemma NoRoomLeft<V(0)>(t: Table<nat, V>)
    requires Bunched(t) && |t.contents| == LIMIT
    ensures t.NoRoom(0)
  {
    forall d: nat | 1 <= d < LIMIT ensures t.meta[t.env.pos(0, d)] != EMPTY {
      Rooms(t, d);
      if t.meta[Pos(0, d, MASK)] == EMPTY {
        forall k | k in t.contents ensures k in Others(t.keys, LIMIT, d) {
          assert Kept(t.env, t.T(), -1, k);
          var b :| On(t.env, t.T(), -1, b) && t.keys[b] == k;
          Standing(t, b);
          assert k == At(t.keys, t.disp[b]) && t.disp[b] != d;
        }
        OthersBound(t.keys, LIMIT, d);
        Smaller(t.contents.Keys, Others(t.keys, LIMIT, d));
      }
    }
  }

  /** One more key of bucket 0. */
  lemma HasPlace<V(0)>(t: Table<nat, V>, key: nat)
    requires Bunched(t) && |t.contents| < LIMIT && key < LIMIT
    ensures !t.NoPlace(key)
  {
    assert t.Hashed(key);
    if t.meta[0] != EMPTY {
      Standing(t, 0);
      RoomLeft(t);
    }
  }

  /** The key of bucket 1 would have to drive out the second key of bucket 0, which has nowhere to go. */
  lemma IsStranded<V(0)>(t: Table<nat, V>)
    requires Bunched(t) && |t.contents| == LIMIT && t.maxLoad == 1.0
    ensures t.env.home(LIMIT) == 1 && t.Stranded(LIMIT) && t.meta[1] != EMPTY && t.keys[1] in t.contents
  {
    assert t.Hashed(LIMIT);
    NoRoomLeft(t);
    Rooms(t, 1);
    assert Quad(1) == 1 && Pos(0, 1, MASK) == 1;
    Standing(t, 1);
    assert Pos(0, 0, MASK) == 0;
    assert t.size + 1 == MASK + 1 && t.maxLoad * (MASK + 1) as real == (MASK + 1) as real;
  }

  /** Fills a table with keys of bucket 0. */
  method Bunch<V(0)>(el: V) returns (t: Table<nat, V>)
    ensures fresh(t) && Bunched(t) && t.maxLoad == 1.0 && |t.contents| == LIMIT
  {
    Buckets();
    t := new Table(Hash, 1.0, MASK + 1, 11);
    for i := 0 to LIMIT
      invariant fresh(t) && Bunched(t) && t.maxLoad == 1.0 && |t.contents| == i && i !in t.contents
      invariant forall k | k in t.contents :: k < i
    {
      HasPlace(t, i);
      var ok := t.Reinsert(i, el);
    }
  }

  /** The table after an insertion of the key of bucket 1 for which there was no memory. */
  ghost predicate Spoiled<V(0)>(t: Table<nat, V>)
    reads t
  {
    && t.LooseValid() && t.mask == MASK && t.log == 11 && t.hash == Hash && t.maxLoad == 1.0 && t.loose == 1
    && |t.contents| == LIMIT && forall k | k in t.contents :: k < LIMIT
  }

  method Refused<V(0)>(t: Table<nat, V>, el: V) returns (t': Table<nat, V>)
    requires Bunched(t) && |t.contents| == LIMIT && t.maxLoad == 1.0
    modifies t
    ensures t' == t && Spoiled(t) && t.contents == old(t.contents) && t.keys == old(t.keys)
  {
    IsStranded(t);
    ghost var ks := t.contents.Keys + {LIMIT};
    var itr;
    ghost var top;
    t', itr, top := t.Insert(LIMIT, el, false, {}, 0);
    assert t.NextLog() < top ==> CrampedAt(t.hash, t.maxLoad, {}, ks, t.NextLog());
  }

  /** A lookup misses a pair: after an insertion for which there was no memory, a key that is stored in the
      table, as it was before, is not found. */
  method Missed<V(0)>(el: V) returns (t: Table<nat, V>, key: nat, itr: Option<nat>)
    ensures Spoiled(t) && key in t.contents && t.Holds(1, key)
    ensures itr.None?
  {
    t := Bunch(el);
    IsStranded(t);
    key := t.keys[1];
    t := Refused(t, el);
    itr := t.Get(key);
  }

  // ---------------------------------------------------------------- the same insertion again

  /** Inserting the key of bucket 1 again makes `cc_map_evict` look for the predecessor of bucket 1, from bucket 0 on. */
  lemma EvictsAgain<V(0)>(t: Table<nat, V>)
    requires Spoiled(t)
    ensures t.env.home(LIMIT) == 1 && !t.Overloaded() && !t.meta[1].home && t.meta[1] != EMPTY && t.env.home(t.keys[1]) == 0
  {
    assert t.Hashed(LIMIT) && t.Hashed(t.keys[1]);
    assert On(t.env, t.T(), -1, 1);
    assert t.size + 1 == MASK + 1 && t.maxLoad * (MASK + 1) as real == (MASK + 1) as real;
  }

  /** The bucket that the walk of `cc_map_evict` is at after `n` steps. */
  ghost function Trail<V(0)>(t: Table<nat, V>, n: nat): (b: nat)
    requires t.Wired() && |t.meta| > MASK && t.mask == MASK
    reads t
    ensures b <= MASK
  {
    if n == 0 then 0 else t.env.pos(0, t.meta[Trail(t, n - 1)].next)
  }

  /** From the end of the chain the walk goes to bucket 1024. */
  lemma BeyondTheEnd(d: nat)
    requires d == LIMIT
    ensures Pos(0, d, MASK) == 1024
  {
    QuadClosed(d);
    var q := Quad(d);
    assert q == 2096128;
    ReduceMod(q, MASK);
  }

  lemma ChainStep0<V(0)>(t: Table<nat, V>, b: nat)
    requires Spoiled(t) && On(t.env, t.T(), 1, b)
    ensures b != 1024 && t.meta[0].home && t.meta[0] != EMPTY
    ensures var c := t.env.pos(0, t.meta[b].next); On(t.env, t.T(), 1, c) || c == 1024
  {
    assert On(t.env, t.T(), -1, b) && Placed(t.env, t.T(), 1, b) && Links(t.env, t.T(), 1, b);
    assert t.Hashed(t.keys[b]) && t.Probed(0, t.disp[b]) && t.Probed(0, LIMIT);
    BeyondTheEnd(LIMIT);
    if b == 1024 {
      Buckets();
      PosDiffer(11, 0, t.disp[b], LIMIT, MASK);
    }
  }

  /** The chain of bucket 0 begins there still. */
  lemma Begins<V(0)>(t: Table<nat, V>)
    requires Spoiled(t)
    ensures On(t.env, t.T(), 1, 0)
  {
    var rest := t.contents.Keys - {t.keys[1]};
    assert t.contents.Keys <= rest + {t.keys[1]};
    Smaller(t.contents.Keys, rest + {t.keys[1]});
    assert rest != {};
    var k :| k in rest;
    assert Kept(t.env, t.T(), -1, k);
    var b :| On(t.env, t.T(), -1, b) && t.keys[b] == k;
    ChainStep0(t, b);
  }

  /** No step of the walk is bucket 1: it goes around for ever. */
  lemma {:induction false} TrailMisses<V(0)>(t: Table<nat, V>, n: nat)
    requires Spoiled(t)
    ensures Trail(t, n) != 1 && (On(t.env, t.T(), 1, Trail(t, n)) || Trail(t, n) == 1024)
  {
    Begins(t);
    if n > 0 {
      TrailMisses(t, n - 1);
      var b := Trail(t, n - 1);
      if On(t.env, t.T(), 1, b) {
        ChainStep0(t, b);
      } else {
        assert t.meta[b] == EMPTY && t.Probed(0, 0);
      }
    }
  }
}
