/** Doing something once for each of a set of things. */
module Visits {
  /** Of all things, those in `done` were visited once each and those in `left` not yet. */
  ghost predicate Once<N>(done: seq<N>, left: set<N>, all: set<N>) {
    && (forall p | p in done :: p in all && p !in left)
    && (forall p | p in all :: p in done || p in left)
    && (forall i, j | 0 <= i < j < |done| :: done[i] != done[j])
  }

  lemma OnceMore<N>(done: seq<N>, left: set<N>, all: set<N>, n: N)
    requires Once(done, left, all) && n in left && n in all
    ensures Once(done + [n], left - {n}, all) && |left - {n}| < |left|
  {
    assert forall i | 0 <= i < |done| :: done[i] in done;
  }
}
