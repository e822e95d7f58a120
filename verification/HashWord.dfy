/**
 A metadatum is a 16-bit word: four bits of hash fragment, the in-home-bucket flag and eleven bits of
 displacement (cc_learn/cc.h:2882-2888).  The masks and shifts of the source read and write exactly
 the fields of `Meta`.
 */
module HashWord {
  import opened HashChain

  function Fields(w: bv16): Meta {
    Meta((w >> 12) as nat, w & 0x0800 != 0, (w & 0x07FF) as nat)
  }

  /** Zero is the empty metadatum, and no other word is. */
  lemma EmptyWord(w: bv16)
    ensures Fields(w) == EMPTY <==> w == 0
  {
    if Fields(w) == EMPTY {
      assert w >> 12 == 0 && w & 0x07FF == 0 && w & 0x0800 == 0;
    }
  }

  /** `( w & ~CC_MAP_DISPLACEMENT_MASK ) | ( v & CC_MAP_DISPLACEMENT_MASK )` takes over another link. */
  lemma SetNext(w: bv16, v: bv16)
    ensures Fields((w & 0xF800) | (v & 0x07FF)) == Fields(w).(next := Fields(v).next)
  {
    assert ((w & 0xF800) | (v & 0x07FF)) >> 12 == w >> 12;
    assert ((w & 0xF800) | (v & 0x07FF)) & 0x0800 == w & 0x0800;
    assert ((w & 0xF800) | (v & 0x07FF)) & 0x07FF == v & 0x07FF;
  }

  /** `w | CC_MAP_DISPLACEMENT_MASK` ends a chain. */
  lemma EndChain(w: bv16)
    ensures Fields(w | 0x07FF) == Fields(w).(next := LIMIT)
  {
    assert (w | 0x07FF) >> 12 == w >> 12;
    assert (w | 0x07FF) & 0x0800 == w & 0x0800;
    assert (w | 0x07FF) & 0x07FF == 0x07FF;
  }

  /** `( w & ~CC_MAP_HASH_FRAG_MASK ) | ( v & CC_MAP_HASH_FRAG_MASK )` takes over another fragment. */
  lemma SetFrag(w: bv16, v: bv16)
    ensures Fields((w & 0x0FFF) | (v & 0xF000)) == Fields(w).(frag := Fields(v).frag)
  {
    assert ((w & 0x0FFF) | (v & 0xF000)) >> 12 == v >> 12;
    assert ((w & 0x0FFF) | (v & 0xF000)) & 0x0800 == w & 0x0800;
    assert ((w & 0x0FFF) | (v & 0xF000)) & 0x07FF == w & 0x07FF;
  }

  /** A fragment joined with the displacement of another word, as when a pair is linked in. */
  lemma JoinWords(v: bv16, w: bv16)
    ensures Fields((v & 0xF000) | (w & 0x07FF)) == Meta(Fields(v).frag, false, Fields(w).next)
    ensures Fields((v & 0xF000) | 0x0800 | 0x07FF) == Meta(Fields(v).frag, true, LIMIT)
  {
    assert ((v & 0xF000) | (w & 0x07FF)) >> 12 == v >> 12;
    assert ((v & 0xF000) | (w & 0x07FF)) & 0x0800 == 0;
    assert ((v & 0xF000) | (w & 0x07FF)) & 0x07FF == w & 0x07FF;
    assert ((v & 0xF000) | 0x0800 | 0x07FF) >> 12 == v >> 12;
    assert ((v & 0xF000) | 0x0800 | 0x07FF) & 0x0800 == 0x0800;
    assert ((v & 0xF000) | 0x0800 | 0x07FF) & 0x07FF == 0x07FF;
  }

  lemma Joined(f: bv16, h: bool, n: bv16)
    requires f < 16 && n < 0x0800
    ensures var w := (f << 12) | (if h then 0x0800 else 0) | n;
      w >> 12 == f && (w & 0x0800 != 0) == h && w & 0x07FF == n
  {
  }

  lemma Successor(b: bv16)
    requires b < 0x07FF
    ensures (b + 1) as nat == b as nat + 1
  {
  }

  lemma {:induction false} Bits(n: nat) returns (b: bv16)
    requires n < 0x0800
    ensures b as nat == n && b < 0x0800 && (n < 16 ==> b < 16)
  {
    if n == 0 { return 0; }
    b := Bits(n - 1);
    assert b != 0x07FF && (n < 16 ==> b != 15);
    Successor(b);
    b := b + 1;
  }

  /** Fields that fit are those of a word. */
  lemma WordOf(m: Meta) returns (w: bv16)
    requires m.frag < 16 && m.next <= LIMIT
    ensures Fields(w) == m
  {
    var f := Bits(m.frag);
    var n := Bits(m.next);
    Joined(f, m.home, n);
    w := (f << 12) | (if m.home then 0x0800 else 0) | n;
  }

  // ---------------------------------------------------------------- the writes of the source

  ghost predicate Encode(ws: seq<bv16>, meta: seq<Meta>) {
    |ws| == |meta| && forall i | 0 <= i < |ws| :: Fields(ws[i]) == meta[i]
  }

  lemma EncodeUpdate(ws: seq<bv16>, meta: seq<Meta>, i: nat, w: bv16, m: Meta)
    requires Encode(ws, meta) && i < |ws| && Fields(w) == m
    ensures Encode(ws[i := w], meta[i := m])
  {
  }

  /** `cc_map_evict` disconnects a pair. */
  lemma UnlinkWords<K>(t: Tab<K>, ws: seq<bv16>, p: nat, b: nat)
    requires Encode(ws, t.meta) && p < |ws| && b < |ws|
    ensures Encode(ws[p := (ws[p] & 0xF800) | (ws[b] & 0x07FF)], Unlink(t, p, b).meta)
  {
    SetNext(ws[p], ws[b]);
    EncodeUpdate(ws, t.meta, p, (ws[p] & 0xF800) | (ws[b] & 0x07FF), t.meta[p].(next := t.meta[b].next));
  }

  /** `cc_map_erase_raw` disconnects the last pair of a chain. */
  lemma EndWords<K>(t: Tab<K>, ws: seq<bv16>, p: nat, b: nat)
    requires Encode(ws, t.meta) && p < |ws| && b < |ws| && t.meta[b].next == LIMIT
    ensures Encode(ws[p := ws[p] | 0x07FF], Unlink(t, p, b).meta)
  {
    EndChain(ws[p]);
    EncodeUpdate(ws, t.meta, p, ws[p] | 0x07FF, t.meta[p].(next := LIMIT));
  }

  /** A pair is linked in at displacement `d`; `v` holds its fragment. */
  lemma LinkInWords<K>(t: Tab<K>, ws: seq<bv16>, p: nat, b: nat, v: bv16, d: bv16, key: K)
    requires Encode(ws, t.meta) && p < |ws| && b < |ws| && p != b && b < |t.keys| && b < |t.disp| && d < 0x0800
    ensures Encode(ws[b := (v & 0xF000) | (ws[p] & 0x07FF)][p := (ws[p] & 0xF800) | d],
                   LinkIn(t, p, b, d as nat, key, Fields(v).frag).meta)
  {
    JoinWords(v, ws[p]);
    EncodeUpdate(ws, t.meta, b, (v & 0xF000) | (ws[p] & 0x07FF), Meta(Fields(v).frag, false, t.meta[p].next));
    PutNext(ws[p], d);
    EncodeUpdate(ws[b := (v & 0xF000) | (ws[p] & 0x07FF)], t.meta[b := Meta(Fields(v).frag, false, t.meta[p].next)],
                 p, (ws[p] & 0xF800) | d, t.meta[p].(next := d as nat));
  }

  lemma PutNext(w: bv16, d: bv16)
    requires d < 0x0800
    ensures Fields((w & 0xF800) | d) == Fields(w).(next := d as nat)
  {
    SetNext(w, d);
    assert d & 0x07FF == d;
  }

  /** A pair begins a chain. */
  lemma BeginWords<K>(t: Tab<K>, ws: seq<bv16>, h: nat, v: bv16, key: K)
    requires Encode(ws, t.meta) && h < |ws| && h < |t.keys| && h < |t.disp|
    ensures Encode(ws[h := (v & 0xF000) | 0x0800 | 0x07FF], Begin(t, h, key, Fields(v).frag).meta)
  {
    JoinWords(v, 0);
  }

  /** The last pair of a chain takes over a bucket and leaves its own. */
  lemma TakeOverWords<K>(t: Tab<K>, ws: seq<bv16>, b: nat, last: nat, key: K)
    requires Encode(ws, t.meta) && b < |ws| && last < |ws| && b < |t.keys|
    ensures Encode(ws[b := (ws[b] & 0x0FFF) | (ws[last] & 0xF000)][last := 0],
                   Vacate(TakeOver(t, b, key, Fields(ws[last]).frag), last).meta)
  {
    SetFrag(ws[b], ws[last]);
    EmptyWord(0);
  }
}
