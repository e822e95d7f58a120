/**
 The unordered map of cc_learn/cc.h, an open-addressing hash table whose buckets are linked into
 chains (cc_learn/cc.h:2838-3860).  A table's bucket count is fixed; growing makes a new table.
 */
module HashMap {
  import opened Options
  import opened Powers
  import opened HashProbe
  import opened HashChain
  import opened HashFill
  import opened HashJam
  import HashWord
  import opened Visits

  /** The four highest bits of a 64-bit hash code. */
  function HashFrag(hash: nat): nat {
    (hash / 0x1000_0000_0000_0000) % 16
  }

  class Table<K(==, !new, 0), V(0)> {
    const hash: K -> nat
    const maxLoad: real
    const mask: nat
    ghost const env: Env<K>
    ghost const log: nat
    var size: nat
    var meta: seq<Meta>
    var keys: seq<K>
    var els: seq<V>
    ghost var disp: seq<nat>
    ghost var loose: int
    ghost var contents: map<K, V>

    /** Home buckets and fragments are computed from the hash codes. */
    ghost predicate HashWired() {
      forall k {:trigger Hashed(k)} :: env.home(k) == Reduce(hash(k), mask) && env.frag(k) == HashFrag(hash(k))
    }

    /** Probe sequences are quadratic. */
    ghost predicate ProbeWired() {
      forall h, d {:trigger Probed(h, d)} :: env.pos(h, d) == Pos(h, d, mask)
    }

    ghost predicate Wired() {
      EnvOk(env) && env.n == mask + 1 && mask + 1 == Pow2(log) && HashWired() && ProbeWired()
    }

    /** Always true; names a key or a place in a probe sequence whose computation matters. */
    ghost predicate Hashed(k: K) {
      true
    }

    ghost predicate Probed(h: nat, d: nat) {
      true
    }

    ghost function T(): Tab<K>
      reads this`meta, this`keys, this`disp
    {
      Tab(meta, keys, disp)
    }

    /** Behind the buckets stands the iteration stopper, and room for reading four at a time.  A
        placeholder has one metadatum, which is empty. */
    ghost predicate Stopped()
      reads this`meta
    {
      if mask == 0 then meta == [EMPTY] else |meta| == mask + 5 && meta[mask + 1] == Meta(0, false, 1)
    }

    /** Bucket `w` holds a pair with a key of its own, outside its home bucket. */
    ghost predicate LooseOk(w: int)
      reads this`meta, this`keys, this`disp
      requires Sized(env, T())
    {
      On(env, T(), -1, w) && !meta[w].home && forall x | On(env, T(), w, x) :: keys[x] != keys[w]
    }

    /** Every pair is on the chain of its home bucket, except possibly the one in bucket `loose`, and the
        pairs are those of `contents`. */
    ghost predicate LooseValid()
      reads this
    {
      && Wired() && Stopped() && Linked(env, T(), loose) && Filled(env, T(), els, -1, contents) && size == |contents|
      && (loose == -1 || LooseOk(loose))
    }

    /** All pairs are on chains. */
    ghost predicate Valid()
      reads this
    {
      LooseValid() && loose == -1
    }

    /** `hash( key ) & cap_mask` */
    method HomeBucket(key: K) returns (h: nat)
      requires Wired()
      ensures h == env.home(key) && h < env.n
    {
      assert Hashed(key);
      h := hash(key) % (mask + 1);
      ReduceMod(hash(key), mask);
    }

    /** `( home_bucket + cc_quadratic( displacement ) ) & cap_mask` */
    method BucketAt(home: nat, d: nat) returns (b: nat)
      requires Wired()
      ensures b == env.pos(home, d) && b < env.n
    {
      assert Probed(home, d);
      b := (home + (d * d + d) / 2) % (mask + 1);
      QuadClosed(d);
      ReduceMod(home + Quad(d), mask);
    }

    // -------------------------------------------------------------- cc_map_find_first_empty

    /** `( home_bucket + linear_dispacement ) & cap_mask` */
    method Probe(home: nat, ghost d: nat, linear: nat) returns (b: nat)
      requires Wired() && linear == Quad(d)
      ensures b == env.pos(home, d) && b < env.n
    {
      assert Probed(home, d);
      b := (home + linear) % (mask + 1);
      ReduceMod(home + linear, mask);
    }

    method FindFirstEmpty(home: nat) returns (found: bool, empty: nat, d: nat)
      requires Wired() && |meta| >= env.n
      ensures found ==> 1 <= d < LIMIT && empty == env.pos(home, d) && empty < env.n && meta[empty] == EMPTY
      ensures found ==> forall c | 1 <= c < d :: meta[env.pos(home, c)] != EMPTY
      ensures !found ==> forall c | 1 <= c < LIMIT :: meta[env.pos(home, c)] != EMPTY
    {
      d := 1;
      var linear := 1;
      while true
        invariant 1 <= d < LIMIT && linear == Quad(d)
        invariant forall c | 1 <= c < d :: meta[env.pos(home, c)] != EMPTY
        decreases LIMIT - d
      {
        empty := Probe(home, d, linear);
        if meta[empty] == EMPTY { return true, empty, d; }
        d := d + 1;
        if d == LIMIT { return false, empty, d; }
        linear := linear + d;
      }
    }

    // -------------------------------------------------------------- walking a chain

    /** `cc_map_find_insert_location_in_chain` */
    method FindInsertLocation(home: nat, d: nat, ghost w: int) returns (p: nat)
      requires Wired() && Linked(env, T(), w) && home < env.n && home != w && meta[home].home
      requires 1 <= d < LIMIT && meta[env.pos(home, d)] == EMPTY && env.pos(home, d) != w
      ensures Gap(env, T(), w, p, env.pos(home, d), d, home)
    {
      ChainStart(env, T(), w, home);
      p := home;
      while true
        invariant On(env, T(), w, p) && Home(env, T(), p) == home && disp[p] < d
        decreases d - disp[p]
      {
        var next := meta[p].next;
        if next > d { return; }
        assert Links(env, T(), w, p);
        p := BucketAt(home, next);
      }
    }

    /** The pair that is linked to the one in `bucket`. */
    method FindPrev(home: nat, bucket: nat) returns (p: nat)
      requires Wired() && Linked(env, T(), -1) && On(env, T(), -1, bucket) && !meta[bucket].home
      requires home == Home(env, T(), bucket)
      ensures Before(env, T(), -1, p, bucket)
    {
      assert Placed(env, T(), -1, bucket);
      ChainStart(env, T(), -1, home);
      p := home;
      while true
        invariant On(env, T(), -1, p) && Home(env, T(), p) == home && disp[p] < disp[bucket]
        decreases disp[bucket] - disp[p]
      {
        ChainStep(env, T(), -1, p, bucket);
        assert Links(env, T(), -1, p);
        var next := BucketAt(home, meta[p].next);
        if next == bucket { return; }
        p := next;
      }
    }

    /** Walks the chain of a home bucket in search of a key. */
    method FindInChain(home: nat, key: K, ghost w: int) returns (r: Option<nat>)
      requires Wired() && Linked(env, T(), w) && home == env.home(key) && home != w && meta[home].home
      ensures r.Some? ==> On(env, T(), w, r.value) && keys[r.value] == key
      ensures r.None? ==> forall x | On(env, T(), w, x) :: keys[x] != key
    {
      ChainStart(env, T(), w, home);
      var b := home;
      while true
        invariant On(env, T(), w, b) && Home(env, T(), b) == home
        invariant forall x | On(env, T(), w, x) && keys[x] == key :: disp[x] >= disp[b]
        decreases LIMIT - disp[b]
      {
        assert Placed(env, T(), w, b) && Links(env, T(), w, b) && Hashed(key);
        if meta[b].frag == HashFrag(hash(key)) && keys[b] == key { return Some(b); }
        forall x | On(env, T(), w, x) && keys[x] == key ensures meta[b].next < LIMIT && disp[x] >= meta[b].next {
          ChainStep(env, T(), w, b, x);
        }
        if meta[b].next == LIMIT { return None; }
        b := BucketAt(home, meta[b].next);
      }
    }

    // -------------------------------------------------------------- single changes of a chain

    /** Links the predecessor of a pair to its successor. */
    method Disconnect(p: nat, bucket: nat)
      requires Linked(env, T(), -1) && Before(env, T(), -1, p, bucket) && env.n == mask + 1 && mask > 0 && Stopped()
      modifies this`meta
      ensures T() == Unlink(old(T()), p, bucket) && Stopped()
    {
      meta := meta[p := meta[p].(next := meta[bucket].next)];
    }

    /** Writes a pair into an empty bucket and links it into its chain. */
    method Connect(p: nat, empty: nat, d: nat, key: K, el: V, frag: nat, ghost w: int)
      requires Sized(env, T()) && |els| == env.n && env.n == mask + 1 && mask > 0 && Stopped()
      requires Gap(env, T(), w, p, empty, d, env.home(key))
      modifies this`meta, this`keys, this`els, this`disp
      ensures T() == LinkIn(old(T()), p, empty, d, key, frag) && els == old(els)[empty := el] && Stopped()
    {
      keys, els, disp := keys[empty := key], els[empty := el], disp[empty := d];
      meta := meta[empty := Meta(frag, false, meta[p].next)];
      meta := meta[p := meta[p].(next := d)];
    }

    /** Writes a pair into its home bucket as the beginning of a new chain. */
    method Settle(home: nat, key: K, el: V, frag: nat)
      requires Sized(env, T()) && |els| == env.n && env.n == mask + 1 && mask > 0 && home < env.n && Stopped()
      modifies this`meta, this`keys, this`els, this`disp
      ensures T() == Begin(old(T()), home, key, frag) && els == old(els)[home := el] && Stopped()
    {
      keys, els, disp := keys[home := key], els[home := el], disp[home := 0];
      meta := meta[home := Meta(frag, true, LIMIT)];
    }

    // -------------------------------------------------------------- cc_map_evict

    /** No empty bucket lies within the displacement limit of a home bucket. */
    ghost predicate NoRoom(home: nat)
      reads this`meta
      requires EnvOk(env) && |meta| >= env.n
    {
      forall d | 1 <= d < LIMIT :: meta[env.pos(home, d)] != EMPTY
    }

    /** The same buckets are occupied, and by the first pairs of chains. */
    ghost predicate Alike(was: seq<Meta>, now: seq<Meta>) {
      |was| == |now| && forall b | 0 <= b < |was| :: now[b].home == was[b].home && (now[b] == EMPTY <==> was[b] == EMPTY)
    }

    /** Takes the pair in `bucket` out of its chain. */
    method Unhook(bucket: nat, ghost m: map<K, V>) returns (home: nat)
      requires Wired() && Stopped() && Linked(env, T(), -1) && Filled(env, T(), els, -1, m)
      requires mask > 0 && On(env, T(), -1, bucket) && !meta[bucket].home
      modifies this`meta
      ensures Stopped() && Linked(env, T(), bucket) && LooseOk(bucket) && home == env.home(keys[bucket])
      ensures Filled(env, T(), els, -1, m) && Filled(env, T(), els, bucket, m - {keys[bucket]})
      ensures home < env.n && home != bucket && meta[home].home && meta[bucket].frag == env.frag(keys[bucket])
      ensures NoRoom(home) <==> old(NoRoom(env.home(keys[bucket])))
      ensures Alike(old(meta), meta)
    {
      ghost var t := T();
      home := HomeBucket(keys[bucket]);
      var p := FindPrev(home, bucket);
      UnlinkOk(env, t, p, bucket);
      FillUnlink(env, t, els, m, p, bucket);
      FillLoose(env, t, els, m, p, bucket);
      StillThere(t, p, bucket);
      Disconnect(p, bucket);
    }

    /** Moves the pair in `bucket` to another bucket of its chain, if there is room. */
    method Evict(bucket: nat, ghost m: map<K, V>) returns (ok: bool)
      requires Wired() && Stopped() && Linked(env, T(), -1) && Filled(env, T(), els, -1, m)
      requires mask > 0 && On(env, T(), -1, bucket) && !meta[bucket].home
      modifies this`meta, this`keys, this`els, this`disp
      ensures Stopped() && Linked(env, T(), bucket)
      ensures ok == !old(NoRoom(env.home(keys[bucket])))
      ensures ok ==> Filled(env, T(), els, bucket, m)
      ensures !ok ==> Filled(env, T(), els, -1, m) && LooseOk(bucket) && keys == old(keys) && Alike(old(meta), meta)
    {
      var home := Unhook(bucket, m);
      var found, empty, d := FindFirstEmpty(home);
      if !found { return false; }
      Move(bucket, home, empty, d, m);
      ok := true;
    }

    /** Moves an unlinked pair to an empty bucket of its chain. */
    method Move(bucket: nat, home: nat, empty: nat, d: nat, ghost m: map<K, V>)
      requires Wired() && Stopped() && mask > 0 && Linked(env, T(), bucket) && LooseOk(bucket) && |els| == env.n
      requires Filled(env, T(), els, bucket, m - {keys[bucket]}) && keys[bucket] in m && els[bucket] == m[keys[bucket]]
      requires home == env.home(keys[bucket]) && home != bucket && meta[home].home && meta[bucket].frag == env.frag(keys[bucket])
      requires 1 <= d < LIMIT && empty == env.pos(home, d) && meta[empty] == EMPTY
      modifies this`meta, this`keys, this`els, this`disp
      ensures Stopped() && Linked(env, T(), bucket) && Filled(env, T(), els, bucket, m)
    {
      var p := FindInsertLocation(home, d, bucket);
      ghost var key := keys[bucket];
      LinkInOk(env, T(), bucket, p, empty, d, key);
      FillLink(env, T(), els, bucket, m - {key}, p, empty, d, key, els[bucket]);
      Connect(p, empty, d, keys[bucket], els[bucket], meta[bucket].frag, bucket);
      assert (m - {key})[key := m[key]] == m;
    }

    /** Unlinking leaves every bucket as full as it was; the home bucket still starts its chain. */
    lemma StillThere(t: Tab<K>, p: nat, bucket: nat)
      requires Wired() && Linked(env, t, -1) && Before(env, t, -1, p, bucket) && !t.meta[bucket].home
      ensures var t' := Unlink(t, p, bucket); var h := Home(env, t, bucket);
        && Alike(t.meta, t'.meta)
        && h < env.n && h != bucket && t'.meta[h].home && t'.meta[bucket].frag == env.frag(t.keys[bucket])
    {
      assert Placed(env, t, -1, bucket) && Links(env, t, -1, bucket);
    }

    // -------------------------------------------------------------- cc_map_insert_raw, cc_map_reinsert

    /** `cc_map_cap`: a table with a zero mask is a placeholder without buckets. */
    function Cap(): nat {
      if mask == 0 then 0 else mask + 1
    }

    /** The largest number of pairs within the maximum load. */
    function Most(): int {
      (maxLoad * Cap() as real).Floor
    }

    /** As many as the maximum load times the number of buckets; a placeholder takes none. */
    lemma MostMeans(n: nat)
      ensures mask > 0 ==> (n <= Most() <==> n as real <= maxLoad * (mask + 1) as real)
      ensures mask == 0 ==> Most() == 0
    {
      assert mask > 0 ==> Cap() == mask + 1;
    }

    method Full() returns (full: bool)
      ensures mask == 0 ==> full
      ensures full == Overloaded()
    {
      full := size + 1 > Most();
    }

    /** A new key's place: its home bucket, vacated if need be. */
    method PutHome(home: nat, key: K, el: V) returns (ok: bool)
      requires Valid() && mask > 0 && key !in contents && home == env.home(key) && !meta[home].home
      modifies this`meta, this`keys, this`els, this`disp, this`loose, this`contents
      ensures ok ==> Wired() && Stopped() && Linked(env, T(), -1) && Filled(env, T(), els, -1, contents) && loose == -1
      ensures ok ==> contents == old(contents)[key := el] && keys[home] == key && els[home] == el && meta[home] != EMPTY
      ensures !ok ==> LooseValid() && contents == old(contents) && loose == home && keys == old(keys) && Alike(old(meta), meta)
      ensures ok == !(old(meta[home]) != EMPTY && old(NoRoom(env.home(keys[home]))))
    {
      ghost var w: int, m := -1, contents;
      if meta[home] != EMPTY {
        ok := Evict(home, m);
        if !ok {
          loose := home;
          return;
        }
        w := home;
      }
      forall x | On(env, T(), w, x) ensures keys[x] != key {}
      assert Hashed(key);
      BeginOk(env, T(), w, key);
      FillBegin(env, T(), els, w, m, key, el);
      Settle(home, key, el, HashFrag(hash(key)));
      contents := contents[key := el];
      ok := true;
    }

    /** A new key's place: the first empty bucket along the probe sequence of an existing chain. */
    method PutInChain(home: nat, key: K, el: V) returns (r: Option<nat>)
      requires Valid() && mask > 0 && key !in contents && home == env.home(key) && meta[home].home
      modifies this`meta, this`keys, this`els, this`disp, this`contents
      ensures r.Some? ==> Wired() && Stopped() && Linked(env, T(), -1) && Filled(env, T(), els, -1, contents)
      ensures r.Some? ==> r.value < env.n && contents == old(contents)[key := el] && keys[r.value] == key && els[r.value] == el
      ensures r.Some? ==> meta[r.value] != EMPTY
      ensures r.None? ==> Valid() && contents == old(contents) && keys == old(keys) && meta == old(meta)
      ensures r.None? <==> old(NoRoom(home))
    {
      var found, empty, d := FindFirstEmpty(home);
      if !found { return None; }
      var p := FindInsertLocation(home, d, -1);
      forall x | On(env, T(), -1, x) ensures keys[x] != key {}
      assert Hashed(key);
      LinkInOk(env, T(), -1, p, empty, d, key);
      FillLink(env, T(), els, -1, contents, p, empty, d, key, el);
      Connect(p, empty, d, key, el, HashFrag(hash(key)), -1);
      contents := contents[key := el];
      r := Some(empty);
    }

    /** There is no bucket for a new key: its home bucket is taken by a pair of another chain that cannot be
        moved, or no empty bucket lies within the displacement limit of its chain. */
    ghost predicate NoPlace(key: K)
      reads this`meta, this`keys
      requires EnvOk(env) && |meta| >= env.n && |keys| == env.n
    {
      var h := env.home(key);
      if meta[h].home then NoRoom(h) else meta[h] != EMPTY && NoRoom(env.home(keys[h]))
    }

    /** One more pair would exceed the maximum load. */
    ghost predicate Overloaded()
      reads this`size
    {
      size + 1 > Most()
    }

    /** `cc_map_reinsert`: the key is not in the table yet. */
    method Reinsert(key: K, el: V) returns (ok: bool)
      requires Valid() && mask > 0 && key !in contents
      modifies this`meta, this`keys, this`els, this`disp, this`loose, this`contents, this`size
      ensures ok ==> Valid() && contents == old(contents)[key := el]
      ensures !ok ==> LooseValid() && contents == old(contents)
      ensures ok == !old(NoPlace(key))
    {
      var home := HomeBucket(key);
      if !meta[home].home {
        ok := PutHome(home, key, el);
      } else {
        var r := PutInChain(home, key, el);
        ok := r.Some?;
      }
      if ok { size := size + 1; }
    }

    /** The pair in the home bucket of the key belongs to another chain and cannot be moved. */
    ghost predicate Stranded(key: K)
      reads this`meta, this`keys, this`size
      requires EnvOk(env) && |meta| >= env.n && |keys| == env.n
    {
      !Overloaded() && !meta[env.home(key)].home && NoPlace(key)
    }

    /** The bucket whose pair a failed insertion of the key leaves off its chain, if any. */
    ghost function LooseFor(key: K): int
      reads this
      requires LooseValid()
    {
      if Stranded(key) then env.home(key) else -1
    }

    /** `cc_map_insert_raw`: inserts or replaces a pair, or fails because of the load or the displacement
        limit; so a table never takes a pair beyond its maximum load, and refuses one within it only for lack of a
        place.  A failure keeps all pairs stored, but a stranded pair is off its chain afterwards.  Whether there
        is one can be seen before and after. */
    method InsertRaw(key: K, el: V, replace: bool) returns (itr: Option<nat>)
      requires Valid()
      modifies this`meta, this`keys, this`els, this`disp, this`loose, this`contents, this`size
      ensures itr.Some? ==> Valid() && On(env, T(), -1, itr.value) && keys[itr.value] == key
      ensures itr.Some? ==>
                contents == if key in old(contents) && !replace then old(contents) else old(contents)[key := el]
      ensures itr.None? ==> LooseValid() && contents == old(contents) && keys == old(keys)
      ensures itr.None? <==> key !in old(contents) && old(Overloaded() || NoPlace(key))
      ensures itr.Some? && key !in old(contents) ==> |contents| <= Most()
      ensures itr.None? && !old(NoPlace(key)) ==> |contents| + 1 > Most()
      ensures loose == if old(Stranded(key)) then env.home(key) else -1
      ensures itr.None? ==> Alike(old(meta), meta) && (Stranded(key) <==> old(Stranded(key)))
    {
      var home := HomeBucket(key);
      if !meta[home].home {
        itr := InsertHome(home, key, el);
      } else {
        itr := InsertInChain(home, key, el, replace);
      }
    }

    /** The home bucket is empty or holds a pair of another chain. */
    method InsertHome(home: nat, key: K, el: V) returns (itr: Option<nat>)
      requires Valid() && home == env.home(key) && !meta[home].home
      modifies this`meta, this`keys, this`els, this`disp, this`loose, this`contents, this`size
      ensures key !in old(contents)
      ensures itr.Some? ==> Valid() && On(env, T(), -1, itr.value) && keys[itr.value] == key && contents == old(contents)[key := el]
      ensures itr.None? ==> LooseValid() && contents == old(contents) && keys == old(keys) && size == old(size) && Alike(old(meta), meta)
      ensures itr.None? <==> old(Overloaded() || NoPlace(key))
      ensures itr.Some? ==> size <= Most()
      ensures loose == if old(Stranded(key)) then home else -1
    {
      AbsentHome(home, key);
      var full := Full();
      if full { return None; }
      var ok := PutHome(home, key, el);
      if !ok { return None; }
      size := size + 1;
      itr := Some(home);
    }

    /** The home bucket begins a chain. */
    method InsertInChain(home: nat, key: K, el: V, replace: bool) returns (itr: Option<nat>)
      requires Valid() && home == env.home(key) && meta[home].home
      modifies this`meta, this`keys, this`els, this`disp, this`loose, this`contents, this`size
      ensures itr.Some? ==> Valid() && On(env, T(), -1, itr.value) && keys[itr.value] == key
      ensures itr.Some? ==>
                contents == if key in old(contents) && !replace then old(contents) else old(contents)[key := el]
      ensures itr.None? ==> Valid() && contents == old(contents) && keys == old(keys) && size == old(size) && meta == old(meta)
      ensures itr.None? <==> key !in old(contents) && old(Overloaded() || NoPlace(key))
      ensures itr.Some? && key !in old(contents) ==> size <= Most()
      ensures loose == -1
    {
      itr := FindInChain(home, key, -1);
      if itr.Some? {
        if replace { Replace(itr.value, key, el); }
        return;
      }
      AbsentInChain(key);
      var full := Full();
      if full { return None; }
      itr := PutInChain(home, key, el);
      if itr.Some? { size := size + 1; }
    }

    /** Overwrites a pair that has the same key. */
    method Replace(b: nat, key: K, el: V)
      requires Valid() && On(env, T(), -1, b) && keys[b] == key
      modifies this`keys, this`els, this`contents
      ensures Valid() && contents == old(contents)[key := el] && keys == old(keys)
    {
      FillReplace(env, T(), els, contents, b, el);
      keys := keys[b := key];
      assert keys == old(keys);
      els, contents := els[b := el], contents[key := el];
    }

    lemma AbsentHome(home: nat, key: K)
      requires Valid() && home == env.home(key) && !meta[home].home
      ensures key !in contents
    {
      ChainStart(env, T(), -1, home);
      assert key in contents ==> Kept(env, T(), -1, key);
    }

    lemma AbsentInChain(key: K)
      requires Valid() && forall x | On(env, T(), -1, x) :: keys[x] != key
      ensures key !in contents
    {
      assert key in contents ==> Kept(env, T(), -1, key);
    }

    // -------------------------------------------------------------- cc_map_get

    /** `cc_map_get`: finds every key, except that of a pair off its chain. */
    method Get(key: K) returns (itr: Option<nat>)
      requires LooseValid()
      ensures itr.Some? ==> itr.value < env.n && meta[itr.value] != EMPTY && keys[itr.value] == key
      ensures itr.Some? ==> key in contents && els[itr.value] == contents[key]
      ensures itr.None? <==> key !in contents || (loose != -1 && keys[loose] == key)
    {
      var home := HomeBucket(key);
      if !meta[home].home {
        GetMiss(home, key);
        return None;
      }
      itr := FindInChain(home, key, loose);
      if itr.None? {
        GetNone(key);
      } else {
        assert On(env, T(), -1, itr.value);
      }
    }

    lemma GetNone(key: K)
      requires LooseValid() && forall x | On(env, T(), loose, x) :: keys[x] != key
      ensures key !in contents || (loose != -1 && keys[loose] == key)
    {
      if key in contents {
        assert Kept(env, T(), -1, key);
        var b :| On(env, T(), -1, b) && keys[b] == key;
        assert !On(env, T(), loose, b);
      }
    }

    lemma GetMiss(home: nat, key: K)
      requires LooseValid() && home == env.home(key) && !meta[home].home
      ensures key !in contents || (loose != -1 && keys[loose] == key)
    {
      forall x | On(env, T(), loose, x) ensures keys[x] != key { assert Placed(env, T(), loose, x); }
      GetNone(key);
    }

    // -------------------------------------------------------------- cc_map_make_rehash

    /** A placeholder. */
    constructor Placeholder(hash: K -> nat, maxLoad: real)
      ensures Valid() && mask == 0 && contents == map[] && this.hash == hash && this.maxLoad == maxLoad
    {
      var k: K, v: V := *, *;
      this.hash, this.maxLoad, mask, log, size := hash, maxLoad, 0, 0, 0;
      env := Env(1, (k: K) => Reduce(hash(k), 0), (k: K) => HashFrag(hash(k)), (h, d) => Pos(h, d, 0));
      meta, keys, els, disp, loose, contents := [EMPTY], [k], [v], [0], -1, map[];
      new;
      WiredUp();
    }

    /** A new table with `cap` empty buckets. */
    constructor (hash: K -> nat, maxLoad: real, cap: nat, ghost log: nat)
      requires cap > 1 && cap == Pow2(log)
      ensures Valid() && mask == cap - 1 && this.log == log && contents == map[] && this.hash == hash && this.maxLoad == maxLoad
    {
      var k: K, v: V := *, *;
      this.hash, this.maxLoad, mask, this.log, size := hash, maxLoad, cap - 1, log, 0;
      env := Env(cap, (k: K) => Reduce(hash(k), cap - 1), (k: K) => HashFrag(hash(k)), (h, d) => Pos(h, d, cap - 1));
      meta := seq(cap + 4, i => if i == cap then Meta(0, false, 1) else EMPTY);
      keys, els, disp := seq(cap, _ => k), seq(cap, _ => v), seq(cap, _ => 0);
      loose, contents := -1, map[];
      new;
      WiredUp();
    }

    lemma WiredUp()
      requires env.n == mask + 1 && mask + 1 == Pow2(log)
      requires forall k :: env.home(k) == Reduce(hash(k), mask) && env.frag(k) == HashFrag(hash(k))
      requires forall h, d :: env.pos(h, d) == Pos(h, d, mask)
      ensures Wired()
    {
      forall k ensures env.home(k) < env.n { ReduceMod(hash(k), mask); }
      forall h: nat, d: nat ensures env.pos(h, d) < env.n { ReduceMod(h + Quad(d), mask); }
    }

    /** `t` has received the pairs of the buckets below `i`. */
    ghost predicate Received(t: Table<K, V>, i: nat)
      reads this, t
    {
      && i <= |keys| == |els| <= |meta|
      && (forall k | k in t.contents :: k in contents && t.contents[k] == contents[k])
      && (forall b | 0 <= b < i && meta[b] != EMPTY :: keys[b] in t.contents)
      && (forall b | i <= b < |keys| && meta[b] != EMPTY :: keys[b] !in t.contents)
    }

    lemma DifferentKeys(b: nat, x: nat)
      requires LooseValid() && b < env.n && x < env.n && meta[b] != EMPTY && meta[x] != EMPTY && keys[b] == keys[x]
      ensures b == x
    {
      assert (b == loose || On(env, T(), loose, b)) && (x == loose || On(env, T(), loose, x));
      if b != loose && x != loose { assert Apart(env, T(), loose, b, x); }
    }

    lemma ReceiveOne(t: Table<K, V>, i: nat, c: map<K, V>)
      requires LooseValid() && i < env.n && meta[i] != EMPTY && t.contents == c[keys[i] := els[i]]
      requires forall k | k in c :: k in contents && c[k] == contents[k]
      requires forall b | 0 <= b < i && meta[b] != EMPTY :: keys[b] in c
      requires forall b | i <= b < |keys| && meta[b] != EMPTY :: keys[b] !in c
      ensures Received(t, i + 1)
    {
      assert On(env, T(), -1, i);
      forall b | i < b < |keys| && meta[b] != EMPTY ensures keys[b] !in t.contents {
        if keys[b] == keys[i] { DifferentKeys(b, i); }
      }
    }

    /** Everything was received if and only if the sizes agree. */
    lemma ReceivedAll(t: Table<K, V>, i: nat)
      requires LooseValid() && Received(t, i)
      ensures i >= Cap() ==> t.contents == contents
      ensures i < Cap() && meta[i] != EMPTY ==> |t.contents| < |contents|
    {
      if i >= Cap() {
        forall k | k in contents ensures k in t.contents {
          assert Kept(env, T(), -1, k);
          var b :| On(env, T(), -1, b) && keys[b] == k;
        }
        assert t.contents.Keys == contents.Keys;
      } else if meta[i] != EMPTY {
        assert On(env, T(), -1, i);
        SmallerMap(t.contents, contents, keys[i]);
      }
    }

    /** A key without a place shows that the bucket count is jammed. */
    lemma NoPlaceJams(key: K)
      requires Valid() && mask > 0 && key !in contents && NoPlace(key)
      ensures Jammed(hash, mask + 1, contents.Keys + {key})
    {
      var h := env.home(key);
      assert Hashed(key) && Hashed(keys[h]);
      AllDifferent();
      StoredKeys();
      if !meta[h].home { assert On(env, T(), -1, h) && Placed(env, T(), -1, h); }
      RoomBlocked(if meta[h].home then h else env.home(keys[h]));
      assert Jam(hash, mask + 1, contents.Keys + {key}, meta, keys, key);
    }

    lemma RoomBlocked(home: nat)
      requires Wired() && |meta| >= env.n && home < env.n && meta[home] != EMPTY
      ensures NoRoom(home) <==> Blocked(meta, home, mask)
    {
      forall d: nat ensures env.pos(home, d) == Pos(home, d, mask) { assert Probed(home, d); }
    }

    /** Reinserts the pair of bucket `i` into `t`. */
    method TransferOne(t: Table<K, V>, i: nat) returns (ok: bool)
      requires t != this && LooseValid() && t.Valid() && t.mask > 0 && i < Cap() && Received(t, i)
      modifies t
      ensures ok ==> t.Valid() && Received(t, i + 1)
      ensures !ok ==> t.size < size && Jammed(t.hash, t.mask + 1, contents.Keys)
    {
      if meta[i] == EMPTY { return true; }
      ghost var c, stuck := t.contents, t.NoPlace(keys[i]);
      assert On(env, T(), -1, i);
      if stuck {
        t.NoPlaceJams(keys[i]);
        JammedMore(t.hash, t.mask + 1, c.Keys + {keys[i]}, contents.Keys);
      }
      ok := t.Reinsert(keys[i], els[i]);
      if ok { ReceiveOne(t, i, c); } else { ReceivedAll(t, i); }
    }

    /** Reinserts the pairs of all occupied buckets into `t`, until one finds no place. */
    method Transfer(t: Table<K, V>)
      requires t != this && LooseValid() && t.Valid() && t.mask > 0 && t.contents == map[]
      modifies t
      ensures t.size <= size
      ensures t.size == size ==> t.Valid() && t.contents == contents
      ensures t.size < size ==> Jammed(t.hash, t.mask + 1, contents.Keys)
    {
      var i := 0;
      while i < Cap()
        invariant i <= Cap() && t.Valid() && Received(t, i)
      {
        var ok := TransferOne(t, i);
        if !ok { return; }
        i := i + 1;
      }
      ReceivedAll(t, i);
    }

    /** One attempt at a bucket count; it succeeded if the sizes agree. */
    method Rehash(cap: nat, ghost log: nat) returns (t: Table<K, V>)
      requires LooseValid() && cap > 1 && cap == Pow2(log)
      ensures fresh(t) && t.mask == cap - 1 && t.log == log && t.hash == hash && t.maxLoad == maxLoad && t.size <= size
      ensures t.size == size ==> t.Valid() && t.contents == contents
      ensures t.size < size ==> Jammed(hash, cap, contents.Keys)
      ensures size <= cap && size <= LIMIT ==> t.size == size
    {
      if size <= cap && size <= LIMIT { FewNeverJam(hash, log, contents.Keys); }
      t := new Table(hash, maxLoad, cap, log);
      Transfer(t);
    }

    /** `cc_map_make_rehash`: a larger table with the same pairs, or none if there is no memory.
        `alloc` holds the bucket counts for which there is memory.  The bucket count is 2^top;
        all smaller counts from `cap0` on were allocated too, and are jammed. */
    method MakeRehash(cap0: nat, alloc: set<nat>, limit: nat, ghost log0: nat)
      returns (r: Option<Table<K, V>>, ghost top: nat)
      requires LooseValid() && cap0 > 1 && cap0 == Pow2(log0) && forall c | c in alloc :: c <= limit
      ensures r.Some? ==> fresh(r.value) && r.value.Valid() && r.value.contents == contents && r.value.size == size
      ensures r.Some? ==> cap0 <= r.value.mask + 1 <= limit && r.value.hash == hash && r.value.maxLoad == maxLoad
      ensures r.Some? ==> r.value.mask + 1 == Pow2(top) && r.value.log == top
      ensures log0 <= top && (r.Some? <==> Pow2(top) in alloc)
      ensures forall i | log0 <= i < top :: JammedAt(hash, alloc, contents.Keys, i)
    {
      var cap := cap0;
      top := log0;
      while true
        invariant cap0 <= cap && cap == Pow2(top) && log0 <= top
        invariant forall i | log0 <= i < top :: JammedAt(hash, alloc, contents.Keys, i)
        decreases limit - cap
      {
        if cap !in alloc { return None, top; }
        var t := Rehash(cap, top);
        if t.size >= size { return Some(t), top; }
        assert JammedAt(hash, alloc, contents.Keys, top);
        cap, top := cap * 2, top + 1;
      }
    }

    /** The key is stored in bucket `b`. */
    ghost predicate Holds(b: nat, key: K)
      reads this`meta, this`keys
    {
      b < env.n && b < |meta| && b < |keys| && meta[b] != EMPTY && keys[b] == key
    }

    /** The binary logarithm of the bucket count that a table grows to first. */
    ghost function NextLog(): nat {
      if mask == 0 then 3 else log + 1
    }

    /** A table grows to twice as many buckets, a placeholder to eight. */
    lemma NextDoubles()
      requires Valid()
      ensures Pow2(NextLog()) == if mask == 0 then 8 else 2 * (mask + 1)
    {
      assert Pow2(3) == 2 * Pow2(2) && Pow2(2) == 2 * Pow2(1) && Pow2(1) == 2 * Pow2(0);
    }

    /** Growing once makes room for one more key, within the maximum load, and there are few pairs still. */
    ghost predicate Roomy()
      reads this`size
    {
      size + 1 <= Pow2(NextLog()) && size + 1 <= LIMIT && size + 1 <= (maxLoad * Pow2(NextLog()) as real).Floor
    }

    lemma RoomyTop(m: map<K, V>, key: K, alloc: set<nat>, top: nat)
      requires Roomy() && |m| == size && key !in m
      requires NextLog() <= top && CrampedFrom(hash, maxLoad, alloc, m.Keys + {key}, NextLog(), top)
      ensures top == NextLog()
    {
      assert |m.Keys + {key}| == size + 1;
      FewFit(hash, maxLoad, alloc, m.Keys + {key}, NextLog(), top);
    }

    /** A key that could not be inserted shows that the bucket count is cramped. */
    lemma FullCramped(key: K)
      requires Valid() && mask > 0 && key !in contents && (Overloaded() || NoPlace(key))
      ensures Cramped(hash, maxLoad, mask + 1, contents.Keys + {key})
    {
      assert |contents.Keys + {key}| == size + 1 && Cap() == mask + 1;
      if !Overloaded() { NoPlaceJams(key); }
    }

    /** `cc_map_insert`: grows the table until the pair finds a place.  The table returned is this one or a
        larger one with 2^top buckets; all smaller counts from the next on were allocated too and are cramped.
        This fails only if there is no memory for 2^top buckets; with fewer than 2047 pairs, and below the maximum
        load, 2^top is the next count.  A table takes no pair beyond its maximum load, and grows for no other reason
        than this or lack of a place.  On failure no pair is lost from the buckets, but a stranded pair stays off its
        chain, where lookups do not find it. */
    method Insert(key: K, el: V, replace: bool, alloc: set<nat>, limit: nat)
      returns (t: Table<K, V>, itr: Option<nat>, ghost top: nat)
      requires Valid() && forall c | c in alloc :: c <= limit
      modifies this
      ensures t == this || fresh(t)
      ensures t.hash == hash && t.maxLoad == maxLoad
      ensures key in old(contents) || !old(Overloaded() || NoPlace(key)) <==> t == this && itr.Some?
      ensures itr.Some? ==> t.Valid() && t.Holds(itr.value, key)
      ensures itr.Some? ==>
                t.contents == if key in old(contents) && !replace then old(contents) else old(contents)[key := el]
      ensures itr.None? ==> t.LooseValid() && t.contents == old(contents) && key !in t.contents && t.loose == t.LooseFor(key)
      ensures t == this ==> loose == (if old(Stranded(key)) then env.home(key) else -1) && (itr.None? ==> keys == old(keys))
      ensures itr.None? ==> Pow2(top) !in alloc && (top == NextLog() ==> t == this)
      ensures itr.Some? && t != this ==> Pow2(top) in alloc && t.mask + 1 == Pow2(top)
      ensures NextLog() <= top && CrampedFrom(hash, maxLoad, alloc, old(contents.Keys) + {key}, NextLog(), top)
      ensures old(key !in contents && (Overloaded() || NoPlace(key)) && Roomy()) ==>
                top == NextLog() && (itr.Some? <==> Pow2(NextLog()) in alloc)
      ensures itr.Some? && key !in old(contents) ==> |t.contents| <= t.Most()
      ensures itr.Some? && key !in old(contents) && t == this ==> |old(contents)| + 1 <= Most()
      ensures t != this && !old(NoPlace(key)) ==> |old(contents)| + 1 > Most()
    {
      t, top := this, NextLog();
      itr := InsertRaw(key, el, replace);
      if itr.Some? { return; }
      t, itr, top := InsertGrowing(key, el, replace, alloc, limit);
    }

    /** The rest of the loop, after a first failure; with few pairs it is left in the first turn. */
    method InsertGrowing(key: K, el: V, replace: bool, alloc: set<nat>, limit: nat)
      returns (t: Table<K, V>, itr: Option<nat>, ghost top: nat)
      requires LooseValid() && key !in contents && loose == LooseFor(key) && forall c | c in alloc :: c <= limit
      ensures t == this || fresh(t)
      ensures t.hash == hash && t.maxLoad == maxLoad
      ensures itr.Some? ==> t.Valid() && t.Holds(itr.value, key) && t.size <= t.Most()
      ensures itr.Some? ==> t.contents == contents[key := el]
      ensures itr.None? ==> t.LooseValid() && t.contents == contents && t.loose == t.LooseFor(key)
      ensures itr.None? ==> Pow2(top) !in alloc && (top == NextLog() ==> t == this)
      ensures itr.Some? ==> t != this && Pow2(top) in alloc && t.mask + 1 == Pow2(top)
      ensures NextLog() <= top && CrampedFrom(hash, maxLoad, alloc, contents.Keys + {key}, NextLog(), top)
      ensures Roomy() ==> top == NextLog()
    {
      ghost var roomy := Roomy();
      t, itr, top := GrowUntil(key, el, replace, alloc, limit);
      if roomy { RoomyTop(contents, key, alloc, top); }
    }

    /** Grows the table until the key finds a place or memory runs out. */
    method GrowUntil(key: K, el: V, replace: bool, alloc: set<nat>, limit: nat)
      returns (t: Table<K, V>, itr: Option<nat>, ghost top: nat)
      requires LooseValid() && key !in contents && loose == LooseFor(key) && forall c | c in alloc :: c <= limit
      ensures t == this || fresh(t)
      ensures t.hash == hash && t.maxLoad == maxLoad
      ensures itr.Some? ==> t.Valid() && t.Holds(itr.value, key) && t.size <= t.Most()
      ensures itr.Some? ==> t.contents == contents[key := el]
      ensures itr.None? ==> t.LooseValid() && t.contents == contents && t.loose == t.LooseFor(key)
      ensures itr.None? ==> Pow2(top) !in alloc && (top == NextLog() ==> t == this)
      ensures itr.Some? ==> t != this && Pow2(top) in alloc && t.mask + 1 == Pow2(top)
      ensures NextLog() <= top && CrampedFrom(hash, maxLoad, alloc, contents.Keys + {key}, NextLog(), top)
    {
      ghost var ks := contents.Keys + {key};
      t, itr, top := this, None, NextLog();
      while true
        invariant t == this || fresh(t)
        invariant t.LooseValid() && t.contents == contents && t.hash == hash && t.maxLoad == maxLoad && itr.None?
        invariant t.loose == t.LooseFor(key)
        invariant NextLog() <= top == t.NextLog() && (top == NextLog() ==> t == this)
        invariant CrampedFrom(hash, maxLoad, alloc, ks, NextLog(), top)
        decreases limit - t.mask
      {
        ghost var from := top;
        var r;
        r, itr, top := t.GrowAndPut(key, el, replace, ks, alloc, limit);
        CrampedJoin(hash, maxLoad, alloc, ks, NextLog(), from, top);
        if r.None? { return; }
        t := r.value;
        if itr.Some? { return; }
      }
    }

    /** One turn of the loop.  If the pair found no place, `top` counts on. */
    method GrowAndPut(key: K, el: V, replace: bool, ghost ks: set<K>, alloc: set<nat>, limit: nat)
      returns (r: Option<Table<K, V>>, itr: Option<nat>, ghost top: nat)
      requires LooseValid() && key !in contents && ks == contents.Keys + {key} && forall c | c in alloc :: c <= limit
      ensures NextLog() <= top && CrampedFrom(hash, maxLoad, alloc, ks, NextLog(), top)
      ensures r.None? ==> itr.None? && Pow2(top) !in alloc
      ensures r.Some? ==> fresh(r.value) && mask < r.value.mask < limit && r.value.hash == hash && r.value.maxLoad == maxLoad
      ensures r.Some? ==> r.value.LooseValid() && r.value.contents == if itr.Some? then contents[key := el] else contents
      ensures r.Some? && itr.None? ==> NextLog() < top == r.value.NextLog() && r.value.loose == r.value.LooseFor(key)
      ensures itr.Some? ==> r.Some? && r.value.loose == -1 && r.value.Holds(itr.value, key)
      ensures itr.Some? ==> Pow2(top) in alloc && r.value.mask + 1 == Pow2(top)
      ensures itr.Some? ==> r.value.size <= r.value.Most()
    {
      itr := None;
      r, top := Grow(ks, alloc, limit);
      if r.None? { return; }
      itr, top := r.value.PutNew(key, el, replace, ks, alloc, NextLog(), top);
    }

    /** Inserts a new key, or finds that there are too few buckets. */
    method PutNew(key: K, el: V, replace: bool, ghost ks: set<K>, ghost alloc: set<nat>, ghost from: nat, ghost top: nat)
      returns (itr: Option<nat>, ghost top': nat)
      requires Valid() && mask > 0 && key !in contents && ks == contents.Keys + {key}
      requires mask + 1 == Pow2(top) && Pow2(top) in alloc && from <= top && CrampedFrom(hash, maxLoad, alloc, ks, from, top)
      modifies this
      ensures LooseValid() && contents == if itr.Some? then old(contents)[key := el] else old(contents)
      ensures itr.Some? ==> loose == -1 && Holds(itr.value, key) && size <= Most()
      ensures itr.None? ==> loose == LooseFor(key)
      ensures top' == (if itr.Some? then top else top + 1) && CrampedFrom(hash, maxLoad, alloc, ks, from, top')
    {
      ghost var full := Overloaded() || NoPlace(key);
      top' := top;
      if full {
        FullCramped(key);
        CrampedNext(hash, maxLoad, alloc, ks, from, top);
        top' := top + 1;
      }
      itr := InsertRaw(key, el, replace);
    }

    /** Doubles the bucket count of a table, or more. */
    method Grow(ghost ks: set<K>, alloc: set<nat>, limit: nat) returns (r: Option<Table<K, V>>, ghost top: nat)
      requires LooseValid() && contents.Keys <= ks && forall c | c in alloc :: c <= limit
      ensures r.Some? ==> fresh(r.value) && r.value.Valid() && r.value.contents == contents && mask < r.value.mask < limit
      ensures r.Some? ==> r.value.hash == hash && r.value.maxLoad == maxLoad && r.value.log == top && r.value.mask + 1 == Pow2(top)
      ensures NextLog() <= top && (r.Some? <==> Pow2(top) in alloc)
      ensures CrampedFrom(hash, maxLoad, alloc, ks, NextLog(), top)
    {
      r, top := MakeRehash(if mask != 0 then Cap() * 2 else 8, alloc, limit, NextLog());
      forall i | NextLog() <= i < top ensures CrampedAt(hash, maxLoad, alloc, ks, i) {
        assert JammedAt(hash, alloc, contents.Keys, i);
        JammedMore(hash, Pow2(i), contents.Keys, ks);
      }
    }

    // -------------------------------------------------------------- cc_map_erase_raw

    /** From the pair in `bucket`, the last of its chain and the one before it. */
    method FindLast(home: nat, bucket: nat) returns (prev: nat, last: nat)
      requires Wired() && Linked(env, T(), -1) && On(env, T(), -1, bucket) && home == Home(env, T(), bucket)
      requires meta[bucket].next != LIMIT
      ensures Before(env, T(), -1, prev, last) && Home(env, T(), last) == home && meta[last].next == LIMIT
      ensures disp[bucket] < disp[last]
    {
      last := bucket;
      assert Links(env, T(), -1, last);
      while true
        invariant On(env, T(), -1, last) && Home(env, T(), last) == home && meta[last].next != LIMIT
        invariant Links(env, T(), -1, last) && disp[bucket] <= disp[last]
        decreases LIMIT - disp[last]
      {
        prev := last;
        last := BucketAt(home, meta[last].next);
        assert Links(env, T(), -1, last);
        if meta[last].next == LIMIT { return; }
      }
    }

    /** Empties a bucket whose pair is off the chains. */
    method Clear(b: nat)
      requires Stopped() && env.n == mask + 1 && mask > 0 && b < env.n
      modifies this`meta
      ensures T() == Vacate(old(T()), b) && Stopped()
    {
      meta := meta[b := EMPTY];
    }

    /** The pair in `bucket` is the last of its chain, and not the first. */
    method EraseLast(home: nat, bucket: nat)
      requires Valid() && On(env, T(), -1, bucket) && home == Home(env, T(), bucket) && !meta[bucket].home
      requires meta[bucket].next == LIMIT
      modifies this`meta
      ensures Wired() && Stopped() && Linked(env, T(), -1) && Filled(env, T(), els, -1, contents - {keys[bucket]})
      ensures Emptied(old(meta), meta, bucket)
    {
      var p := FindPrev(home, bucket);
      UnlinkOk(env, T(), p, bucket);
      FillUnlink(env, T(), els, contents, p, bucket);
      NonEmpty(T(), p, bucket);
      VacateOk(env, Unlink(T(), p, bucket), bucket);
      FillVacate(env, Unlink(T(), p, bucket), els, contents - {keys[bucket]}, bucket);
      meta := meta[p := meta[p].(next := LIMIT)];
      assert T() == Unlink(old(T()), p, bucket);
      Clear(bucket);
    }

    lemma NonEmpty(t: Tab<K>, p: nat, b: nat)
      requires Linked(env, t, -1) && Before(env, t, -1, p, b)
      ensures t.meta[b].next != 0 && p != b
    {
      assert Links(env, t, -1, b) && Links(env, t, -1, p);
    }

    /** The pair in `bucket` is not the last of its chain: the last one takes its place. */
    method EraseInner(home: nat, bucket: nat) returns (last: nat)
      requires Valid() && On(env, T(), -1, bucket) && home == Home(env, T(), bucket) && meta[bucket].next != LIMIT
      modifies this`meta, this`keys, this`els
      ensures Wired() && Stopped() && Linked(env, T(), -1) && last < env.n && last != bucket
      ensures Filled(env, T(), els, -1, contents - {old(keys)[bucket]}) && Emptied(old(meta), meta, last)
      ensures old(meta)[last] != EMPTY && keys == old(keys)[bucket := old(keys)[last]] && els == old(els)[bucket := old(els)[last]]
    {
      var prev;
      prev, last := FindLast(home, bucket);
      InnerMeaning(T(), els, contents, prev, last, bucket);
      InnerWrites(bucket, prev, last);
    }

    /** What remains when the last pair has moved. */
    ghost function Shifted(t: Tab<K>, prev: nat, last: nat, bucket: nat): Tab<K>
      requires Sized(env, t) && prev < env.n && last < env.n && bucket < env.n
    {
      Vacate(TakeOver(Unlink(t, prev, last), bucket, t.keys[last], t.meta[last].frag), last)
    }

    lemma InnerMeaning(t: Tab<K>, els: seq<V>, m: map<K, V>, prev: nat, last: nat, bucket: nat)
      requires Linked(env, t, -1) && Filled(env, t, els, -1, m) && Before(env, t, -1, prev, last) && On(env, t, -1, bucket)
      requires Home(env, t, bucket) == Home(env, t, last) && t.disp[bucket] < t.disp[last]
      ensures Linked(env, Shifted(t, prev, last, bucket), -1) && bucket != last && prev != last && t.meta[bucket].next != 0
      ensures Filled(env, Shifted(t, prev, last, bucket), els[bucket := els[last]], -1, m - {t.keys[bucket]})
    {
      var key, t1 := t.keys[last], Unlink(t, prev, last);
      UnlinkOk(env, t, prev, last);
      FillUnlink(env, t, els, m, prev, last);
      NonEmpty(t, prev, last);
      InnerOk(t, t1, prev, last, bucket);
      TakeOverOk(env, t1, last, bucket, key);
      FillTakeOver(env, t1, els, last, m - {key}, bucket, key, els[last]);
      var t2 := TakeOver(t1, bucket, key, env.frag(key));
      VacateOk(env, t2, last);
      assert (m - {key} - {t.keys[bucket]})[key := els[last]] == m - {t.keys[bucket]};
      FillVacate(env, t2, els[bucket := els[last]], m - {t.keys[bucket]}, last);
      assert Links(env, t, -1, bucket);
    }

    lemma InnerOk(t: Tab<K>, t1: Tab<K>, prev: nat, last: nat, bucket: nat)
      requires Linked(env, t, -1) && Before(env, t, -1, prev, last) && t1 == Unlink(t, prev, last) && Linked(env, t1, last)
      requires On(env, t, -1, bucket) && Home(env, t, bucket) == Home(env, t, last) && t.disp[bucket] < t.disp[last]
      ensures bucket != last && On(env, t1, last, bucket) && t.meta[last].frag == env.frag(t.keys[last])
      ensures forall x | On(env, t1, last, x) :: t1.keys[x] != t.keys[last]
    {
      assert Placed(env, t, -1, last) && Links(env, t, -1, last);
      forall x | On(env, t1, last, x) ensures t1.keys[x] != t.keys[last] { assert On(env, t, -1, x) && Apart(env, t, -1, x, last); }
    }

    /** Moves the last pair into `bucket` and ends the chain before it. */
    method InnerWrites(bucket: nat, prev: nat, last: nat)
      requires Sized(env, T()) && |els| == env.n && Stopped() && env.n == mask + 1 && mask > 0
      requires bucket < env.n && prev < env.n && last < env.n && last != bucket && prev != last && meta[last].next == LIMIT
      requires meta[bucket].next != 0 && meta[prev] != EMPTY
      modifies this`meta, this`keys, this`els
      ensures T() == Shifted(old(T()), prev, last, bucket) && els == old(els)[bucket := old(els)[last]]
      ensures Stopped() && Emptied(old(meta), meta, last)
    {
      keys, els := keys[bucket := keys[last]], els[bucket := els[last]];
      meta := meta[bucket := meta[bucket].(frag := meta[last].frag)];
      meta := meta[prev := meta[prev].(next := LIMIT)];
      meta := meta[last := EMPTY];
    }

    /** The pair in `bucket` is alone in its chain. */
    method EraseOnly(bucket: nat)
      requires Valid() && On(env, T(), -1, bucket) && meta[bucket].home && meta[bucket].next == LIMIT
      modifies this`meta
      ensures Wired() && Stopped() && Linked(env, T(), -1) && Filled(env, T(), els, -1, contents - {keys[bucket]})
      ensures Emptied(old(meta), meta, bucket)
    {
      AloneOk(env, T(), bucket);
      FillDrop(env, T(), T(), els, contents, bucket);
      VacateOk(env, T(), bucket);
      FillVacate(env, T(), els, contents - {keys[bucket]}, bucket);
      Clear(bucket);
    }

    /** The home bucket, if the caller does not know it. */
    method KnownHome(bucket: nat, hint: Option<nat>) returns (home: nat)
      requires Valid() && On(env, T(), -1, bucket) && (hint.Some? ==> hint.value == Home(env, T(), bucket))
      ensures home == Home(env, T(), bucket)
    {
      if hint.Some? { return hint.value; }
      if meta[bucket].home {
        ChainStart(env, T(), -1, bucket);
        return bucket;
      }
      home := HomeBucket(keys[bucket]);
    }

    /** Unlinks the pair and empties a bucket. */
    method Remove(bucket: nat, hint: Option<nat>, ghost m: map<K, V>) returns (advance: bool, ghost last: nat)
      requires Valid() && On(env, T(), -1, bucket) && (hint.Some? ==> hint.value == Home(env, T(), bucket))
      requires m == contents - {keys[bucket]}
      modifies this`meta, this`keys, this`els
      ensures Wired() && Stopped() && Linked(env, T(), -1) && Filled(env, T(), els, -1, m)
      ensures last < env.n && old(meta)[last] != EMPTY && Emptied(old(meta), meta, last) && advance == (last <= bucket)
      ensures keys == old(keys)[bucket := old(keys)[last]]
    {
      advance, last := true, bucket;
      if meta[bucket].home && meta[bucket].next == LIMIT {
        EraseOnly(bucket);
        return;
      }
      var home := KnownHome(bucket, hint);
      if meta[bucket].next == LIMIT {
        EraseLast(home, bucket);
        return;
      }
      var l := EraseInner(home, bucket);
      advance, last := !(l > bucket), l;
    }

    /** `cc_map_erase_raw`: the pair goes; the last pair of its chain may move into its bucket.  The result
        says whether an iterator at this bucket has to advance.  `last` is the bucket that is now empty. */
    method EraseRaw(bucket: nat, hint: Option<nat>) returns (advance: bool, ghost last: nat)
      requires Valid() && On(env, T(), -1, bucket) && (hint.Some? ==> hint.value == Home(env, T(), bucket))
      modifies this`meta, this`keys, this`els, this`size, this`contents
      ensures Valid() && contents == old(contents) - {old(keys)[bucket]}
      ensures last < env.n && old(meta)[last] != EMPTY && Emptied(old(meta), meta, last) && advance == (last <= bucket)
      ensures keys == old(keys)[bucket := old(keys)[last]]
    {
      Fewer(contents, keys[bucket]);
      ghost var m := contents - {keys[bucket]};
      advance, last := Remove(bucket, hint, m);
      Commit(m);
    }

    /** One pair less; the buckets stand for `m` already. */
    method Commit(ghost m: map<K, V>)
      requires Wired() && Stopped() && Linked(env, T(), -1) && Filled(env, T(), els, -1, m) && loose == -1 && size == |m| + 1
      modifies this`size, this`contents
      ensures Valid() && contents == m
    {
      size := size - 1;
      contents := m;
    }

    /** `cc_map_erase` */
    method Erase(key: K) returns (erased: bool)
      requires Valid()
      modifies this`meta, this`keys, this`els, this`size, this`contents
      ensures Valid() && contents == old(contents) - {key} && erased == (key in old(contents))
    {
      var home := HomeBucket(key);
      if !meta[home].home {
        AbsentHome(home, key);
        assert contents == contents - {key};
        return false;
      }
      var b := FindInChain(home, key, -1);
      if b.None? {
        AbsentInChain(key);
        assert contents == contents - {key};
        return false;
      }
      var advance, last := EraseRaw(b.value, Some(home));
      return true;
    }

    // -------------------------------------------------------------- iteration

    /** The first of four metadata that is not empty, or 4. */
    method FirstNonzero(i: nat) returns (q: nat)
      requires i + 4 <= |meta|
      ensures q <= 4 && (forall b | i <= b < i + q :: meta[b] == EMPTY) && (q < 4 ==> meta[i + q] != EMPTY)
    {
      q := 0;
      while q < 4 && meta[i + q] == EMPTY
        invariant q <= 4 && forall b | i <= b < i + q :: meta[b] == EMPTY
      {
        q := q + 1;
      }
    }

    /** `cc_map_leap_forward`: reading four metadata at a time finds the first occupied bucket from `i` on,
        or the stopper behind the last one. */
    method LeapForward(start: nat) returns (i: nat)
      requires Stopped() && mask > 0 && start <= mask + 1
      ensures start <= i <= mask + 1 && meta[i] != EMPTY && forall b | start <= b < i :: meta[b] == EMPTY
    {
      i := start;
      while true
        invariant start <= i <= mask + 1 && forall b | start <= b < i :: meta[b] == EMPTY
        decreases mask + 1 - i
      {
        var q := FirstNonzero(i);
        if q < 4 { return i + q; }
        i := i + 4;
      }
    }

    /** `cc_map_first` */
    method First() returns (i: nat)
      requires Stopped()
      ensures i <= Cap() && (forall b | 0 <= b < i :: meta[b] == EMPTY) && (i < Cap() ==> meta[i] != EMPTY)
    {
      if mask == 0 { return 0; }
      i := LeapForward(0);
    }

    /** `cc_map_next` */
    method Next(at: nat) returns (i: nat)
      requires Stopped() && at < Cap()
      ensures at < i <= Cap() && (forall b | at < b < i :: meta[b] == EMPTY) && (i < Cap() ==> meta[i] != EMPTY)
    {
      i := LeapForward(at + 1);
    }

    /** The keys before and from an iterator on. */
    ghost function Passed(i: nat): set<K>
      reads this`meta, this`keys
      requires i <= |meta| && i <= |keys|
    {
      KeysIn(meta, keys, 0, i)
    }

    ghost function Ahead(i: nat): set<K>
      reads this`meta, this`keys
      requires Cap() <= |meta| && Cap() <= |keys|
    {
      KeysIn(meta, keys, i, Cap())
    }

    lemma AllDifferent()
      requires Valid()
      ensures Unique(meta, keys, env.n)
    {
      forall b, x | 0 <= b < env.n && 0 <= x < env.n && meta[b] != EMPTY && meta[x] != EMPTY && keys[b] == keys[x] ensures b == x {
        DifferentKeys(b, x);
      }
    }

    /** `cc_map_erase_itr`: the keys before the iterator returned are those that were before this one, and
        the keys from it on are those that were from this one on, without the erased key. */
    method EraseItr(at: nat) returns (i: nat)
      requires Valid() && at < Cap() && meta[at] != EMPTY
      modifies this`meta, this`keys, this`els, this`size, this`contents
      ensures Valid() && contents == old(contents) - {old(keys)[at]}
      ensures i <= Cap() && (i < Cap() ==> meta[i] != EMPTY)
      ensures Passed(i) == old(Passed(at)) && Ahead(i) == old(Ahead(at)) - {old(keys)[at]}
    {
      AllDifferent();
      var advance, last := EraseRaw(at, None);
      if advance { i := Next(at); } else { i := at; }
      ErasedBelow(old(meta), meta, old(keys), keys, Cap(), at, last, i);
      ErasedAbove(old(meta), meta, old(keys), keys, Cap(), at, last, i);
    }

    /** Going on without erasing. */
    lemma NextAhead(at: nat, i: nat)
      requires Valid() && at < Cap() && meta[at] != EMPTY && at < i <= Cap() && forall b | at < b < i :: meta[b] == EMPTY
      ensures keys[at] in Ahead(at) && keys[at] in contents && Ahead(i) == Ahead(at) - {keys[at]}
    {
      AllDifferent();
      assert On(env, T(), -1, at);
      forall k | k in Ahead(at) - {keys[at]} ensures k in Ahead(i) {
        var b: nat :| at <= b < Cap() && meta[b] != EMPTY && keys[b] == k;
      }
    }

    lemma AheadAtFirst(i: nat)
      requires Valid() && i <= Cap() && forall b | 0 <= b < i :: meta[b] == EMPTY
      ensures Ahead(i) == contents.Keys
    {
      forall k | k in contents ensures k in Ahead(i) {
        assert Kept(env, T(), -1, k);
        var b :| On(env, T(), -1, b) && keys[b] == k;
      }
      forall k | k in Ahead(i) ensures k in contents {
        var b: nat :| i <= b < Cap() && meta[b] != EMPTY && keys[b] == k;
        assert On(env, T(), -1, b);
      }
    }

    /** The pairs of `m` that are left when the doomed ones among the visited are erased. */
    ghost predicate Spared(m: map<K, V>, visited: seq<K>, doomed: K -> bool)
      reads this`contents
    {
      && (forall k | k in contents :: k in m && contents[k] == m[k])
      && (forall k | k in m :: k in contents <==> !(k in visited && doomed(k)))
    }

    /** A step of a loop over all pairs that erases some of them. */
    method SweepStep(at: nat, doomed: K -> bool) returns (i: nat)
      requires Valid() && at < Cap() && meta[at] != EMPTY
      modifies this`meta, this`keys, this`els, this`size, this`contents
      ensures Valid() && i <= Cap() && (i < Cap() ==> meta[i] != EMPTY)
      ensures old(keys[at]) in old(Ahead(at)) && old(keys[at]) in old(contents) && Ahead(i) == old(Ahead(at)) - {old(keys)[at]}
      ensures contents == if doomed(old(keys)[at]) then old(contents) - {old(keys)[at]} else old(contents)
    {
      if doomed(keys[at]) {
        NextAhead(at, at + 1);
        i := EraseItr(at);
      } else {
        i := Next(at);
        NextAhead(at, i);
      }
    }

    /** Iterating from first to end while erasing visits every key that was there at the start exactly once. */
    method Sweep(doomed: K -> bool) returns (ghost visited: seq<K>)
      requires Valid()
      modifies this`meta, this`keys, this`els, this`size, this`contents
      ensures Valid() && Once(visited, {}, old(contents.Keys)) && Spared(old(contents), visited, doomed)
    {
      var i: nat := First();
      AheadAtFirst(i);
      visited := [];
      while i < Cap()
        invariant Valid() && i <= Cap() && (i < Cap() ==> meta[i] != EMPTY)
        invariant Once(visited, Ahead(i), old(contents.Keys)) && Spared(old(contents), visited, doomed)
        decreases |Ahead(i)|
      {
        ghost var key, left := keys[i], Ahead(i);
        i := SweepStep(i, doomed);
        OnceMore(visited, left, old(contents.Keys), key);
        visited := visited + [key];
      }
    }

    // -------------------------------------------------------------- metadata as 16-bit words

    /** The metadata of all buckets, and the stopper, fit into 16-bit words. */
    lemma Words(b: nat) returns (w: bv16)
      requires Valid() && b < |meta| && b <= mask + 1
      ensures HashWord.Fields(w) == meta[b]
      ensures w == 0 <==> meta[b] == EMPTY
    {
      if b <= mask && meta[b] != EMPTY {
        assert On(env, T(), -1, b) && Placed(env, T(), -1, b) && Links(env, T(), -1, b) && Hashed(keys[b]);
      }
      w := HashWord.WordOf(meta[b]);
      HashWord.EmptyWord(w);
    }

    // -------------------------------------------------------------- tables that never run out of room

    lemma StoredKeys()
      requires Valid()
      ensures KeysIn(meta, keys, 0, env.n) <= contents.Keys
    {
      forall k | k in KeysIn(meta, keys, 0, env.n) ensures k in contents {
        var b: nat :| b < env.n && meta[b] != EMPTY && keys[b] == k;
        assert On(env, T(), -1, b);
      }
    }

    /** While there are fewer pairs than buckets, and fewer than displacements, the search from an occupied home
        bucket finds an empty one. */
    lemma FewHaveRoom(home: nat)
      requires Valid() && size < env.n && size < LIMIT && home < env.n && meta[home] != EMPTY
      ensures !NoRoom(home)
    {
      AllDifferent();
      StoredKeys();
      RoomBlocked(home);
      if Blocked(meta, home, mask) { BlockedCount(meta, keys, home, mask, log, contents.Keys); }
    }
  }

  lemma Fewer<K, V>(m: map<K, V>, k: K)
    requires k in m
    ensures |m - {k}| == |m| - 1
  {
    assert (m - {k}).Keys == m.Keys - {k};
  }

  lemma SmallerMap<K, V>(a: map<K, V>, b: map<K, V>, k: K)
    requires (forall x | x in a :: x in b) && k in b && k !in a
    ensures |a| < |b|
  {
    SmallerSet(a.Keys, b.Keys, k);
  }

  lemma SmallerSet<K>(a: set<K>, b: set<K>, k: K)
    requires a <= b && k in b && k !in a
    ensures |a| < |b|
  {
    var rest := b - a;
    assert b == a + rest && k in rest;
  }
}
