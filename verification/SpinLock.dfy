/**
 The compare-and-swap spin lock of gcc_learn/__atomic_compare_exchange_n.c, which guards a shared
 counter, as a step system over every interleaving of any number of threads.  An increment is two
 steps, a load and a store, so that without the lock updates could be lost.
 */
module SpinLock {
  /** Where a thread stands in `thread_func`: before the unlocked check, before the lock word is
      looked at, before the compare-and-swap, before the load, before the store, before the unlock,
      or finished. */
  datatype Pc = Check | Spin | Cas | Load | Store(loaded: nat) | Unlock | Done

  datatype State = State(lock: bool, sum: nat, max: nat, pcs: seq<Pc>, increments: nat)

  predicate Init(s: State) {
    !s.lock && s.sum == 0 && s.increments == 0 && |s.pcs| > 0 && forall i | 0 <= i < |s.pcs| :: s.pcs[i] == Check
  }

  /** What thread `i` does next. */
  function Next(s: State, i: nat): State
    requires i < |s.pcs|
  {
    match s.pcs[i]
    case Check => s.(pcs := s.pcs[i := if s.sum < s.max then Spin else Done])
    case Spin => s.(pcs := s.pcs[i := if s.lock then Spin else Cas])
    case Cas => if s.lock then s.(pcs := s.pcs[i := Spin]) else s.(lock := true, pcs := s.pcs[i := Load])
    case Load => s.(pcs := s.pcs[i := Store(s.sum)])
    case Store(v) => s.(sum := v + 1, pcs := s.pcs[i := Unlock], increments := s.increments + 1)
    case Unlock => s.(lock := false, pcs := s.pcs[i := Check])
    case Done => s
  }

  /** The state after a run in which thread `picks[k]` makes step k; a thread that does not exist makes none. */
  function Run(s: State, picks: seq<nat>): State
    decreases |picks|
  {
    if picks == [] then s else Run(if picks[0] < |s.pcs| then Next(s, picks[0]) else s, picks[1..])
  }

  /** Between lock and unlock. */
  predicate Inside(p: Pc) {
    p.Load? || p.Store? || p.Unlock?
  }

  /** Past the check, not yet incremented. */
  predicate Pending(p: Pc) {
    p.Spin? || p.Cas? || p.Load? || p.Store?
  }

  function Count(pcs: seq<Pc>): nat {
    if pcs == [] then 0 else Count(pcs[..|pcs| - 1]) + if Pending(pcs[|pcs| - 1]) then 1 else 0
  }

  lemma {:induction false} CountUpdate(pcs: seq<Pc>, i: nat, p: Pc)
    requires i < |pcs|
    ensures Count(pcs[i := p]) == Count(pcs) + (if Pending(p) then 1 else 0) - (if Pending(pcs[i]) then 1 else 0)
  {
    var l := |pcs| - 1;
    if i == l {
      assert pcs[i := p][..l] == pcs[..l];
    } else {
      assert pcs[i := p][..l] == pcs[..l][i := p];
      CountUpdate(pcs[..l], i, p);
    }
  }

  lemma {:induction false} CountBound(pcs: seq<Pc>)
    ensures Count(pcs) <= |pcs|
    ensures (exists i | 0 <= i < |pcs| :: !Pending(pcs[i])) ==> Count(pcs) < |pcs|
    ensures (forall i | 0 <= i < |pcs| :: !Pending(pcs[i])) ==> Count(pcs) == 0
  {
    if pcs != [] {
      var l := |pcs| - 1;
      CountBound(pcs[..l]);
      if i :| 0 <= i < |pcs| && !Pending(pcs[i]) {
        assert i < l ==> !Pending(pcs[..l][i]);
      }
    }
  }

  /** Mutual exclusion; the lock word says whether somebody is inside. */
  predicate Exclusive(s: State) {
    && (forall i, j | 0 <= i < |s.pcs| && 0 <= j < |s.pcs| && Inside(s.pcs[i]) && Inside(s.pcs[j]) :: i == j)
    && (s.lock <==> exists i | 0 <= i < |s.pcs| :: Inside(s.pcs[i]))
  }

  /** No increment is lost, and the value about to be written is not stale. */
  predicate Counted(s: State) {
    && s.sum == s.increments
    && (forall i | 0 <= i < |s.pcs| && s.pcs[i].Store? :: s.pcs[i].loaded == s.sum)
  }

  /** The counter overshoots the maximum by less than the number of threads; a thread stops only when
      the maximum is reached; nothing happens if it is zero. */
  predicate Bounded(s: State) {
    && (s.max > 0 ==> s.sum + Count(s.pcs) <= s.max + |s.pcs| - 1)
    && (s.max == 0 ==> s.sum == 0 && Count(s.pcs) == 0)
    && (forall i | 0 <= i < |s.pcs| && s.pcs[i].Done? :: s.sum >= s.max)
  }

  predicate Inv(s: State) {
    |s.pcs| > 0 && Exclusive(s) && Counted(s) && Bounded(s)
  }

  lemma InitInv(s: State)
    requires Init(s)
    ensures Inv(s)
  {
    CountBound(s.pcs);
  }

  lemma StepExclusive(s: State, i: nat)
    requires Inv(s) && i < |s.pcs|
    ensures Exclusive(Next(s, i))
  {
    var n := Next(s, i);
    assert forall j | 0 <= j < |s.pcs| && j != i :: n.pcs[j] == s.pcs[j];
    if s.pcs[i].Cas? && !s.lock { assert Inside(n.pcs[i]); }
    if Inside(s.pcs[i]) && !s.pcs[i].Unlock? { assert Inside(n.pcs[i]); }
    if s.lock && !Inside(s.pcs[i]) {
      var j :| 0 <= j < |s.pcs| && Inside(s.pcs[j]);
      assert Inside(n.pcs[j]);
    }
  }

  lemma StepCounted(s: State, i: nat)
    requires Inv(s) && i < |s.pcs|
    ensures Counted(Next(s, i)) && Next(s, i).sum >= s.sum
  {
    if s.pcs[i].Store? {
      forall j | 0 <= j < |s.pcs| && j != i ensures !s.pcs[j].Store? { assert Inside(s.pcs[i]); }
    }
  }

  lemma StepBounded(s: State, i: nat)
    requires Inv(s) && i < |s.pcs|
    ensures Bounded(Next(s, i))
  {
    var n := Next(s, i);
    if !s.pcs[i].Done? {
      CountUpdate(s.pcs, i, n.pcs[i]);
      CountBound(n.pcs);
    }
    StepCounted(s, i);
  }

  /** Every interleaving keeps the invariant. */
  lemma {:induction false} RunInv(s: State, picks: seq<nat>)
    requires Inv(s)
    ensures Inv(Run(s, picks)) && Run(s, picks).max == s.max && |Run(s, picks).pcs| == |s.pcs|
    decreases |picks|
  {
    if picks != [] {
      if picks[0] < |s.pcs| {
        StepExclusive(s, picks[0]);
        StepCounted(s, picks[0]);
        StepBounded(s, picks[0]);
        RunInv(Next(s, picks[0]), picks[1..]);
      } else {
        RunInv(s, picks[1..]);
      }
    }
  }

  /** In every reachable state at most one thread is inside, and no increment was lost. */
  lemma MutualExclusion(s: State, picks: seq<nat>)
    requires Init(s)
    ensures var r := Run(s, picks);
      && |r.pcs| == |s.pcs| && r.sum == r.increments
      && forall i, j | 0 <= i < j < |r.pcs| :: !(Inside(r.pcs[i]) && Inside(r.pcs[j]))
  {
    InitInv(s);
    RunInv(s, picks);
  }

  /** When all threads have stopped, the counter is between the maximum and the maximum plus the number
      of other threads. */
  lemma FinalSum(s: State, picks: seq<nat>)
    requires Init(s) && s.max > 0
    ensures var r := Run(s, picks);
      (forall i | 0 <= i < |r.pcs| :: r.pcs[i].Done?) ==> s.max <= r.sum <= s.max + |s.pcs| - 1
  {
    InitInv(s);
    RunInv(s, picks);
    var r := Run(s, picks);
    assert |r.pcs| > 0;
    if forall i | 0 <= i < |r.pcs| :: r.pcs[i].Done? {
      assert r.pcs[0].Done?;
    }
  }

  // ---------------------------------------------------------------- the bound is attained

  lemma {:induction false} RunAppend(s: State, p: seq<nat>, q: seq<nat>)
    ensures Run(s, p + q) == Run(Run(s, p), q)
    decreases |p|
  {
    if p == [] {
      assert p + q == q;
    } else {
      assert (p + q)[1..] == p[1..] + q;
      RunAppend(if p[0] < |s.pcs| then Next(s, p[0]) else s, p[1..], q);
    }
  }

  lemma RunOne(s: State, p: seq<nat>, i: nat)
    requires i < |Run(s, p).pcs|
    ensures Run(s, p + [i]) == Next(Run(s, p), i)
  {
    RunAppend(s, p, [i]);
    assert [i][1..] == [];
  }

  /** A thread that passed the check, alone, increments and comes back to the check. */
  lemma OneRound(s: State, p: seq<nat>, i: nat) returns (q: seq<nat>)
    requires var r := Run(s, p); i < |r.pcs| && r.pcs[i] == Spin && !r.lock
    ensures var r := Run(s, p);
      Run(s, q) == r.(sum := r.sum + 1, increments := r.increments + 1, pcs := r.pcs[i := Check])
  {
    var r := Run(s, p);
    RunOne(s, p, i);
    RunOne(s, p + [i], i);
    RunOne(s, p + [i] + [i], i);
    RunOne(s, p + [i] + [i] + [i], i);
    RunOne(s, p + [i] + [i] + [i] + [i], i);
    q := p + [i] + [i] + [i] + [i] + [i];
    assert Run(s, q).pcs == r.pcs[i := Check];
  }

  /** The first `i` of `n` threads stand at `a`, the others at `b`. */
  function Split(n: nat, i: nat, a: Pc, b: Pc): seq<Pc> {
    seq(n, j => if j < i then a else b)
  }

  /** One thread alone counts up to just below the maximum. */
  lemma {:induction false} CountUp(s: State, k: nat) returns (p: seq<nat>)
    requires Init(s) && k < s.max
    ensures Run(s, p) == s.(sum := k, increments := k)
  {
    if k == 0 {
      p := [];
    } else {
      p := CountUp(s, k - 1);
      RunOne(s, p, 0);
      p := OneRound(s, p + [0], 0);
      assert Run(s, p).pcs == s.pcs;
    }
  }

  /** All threads pass the check. */
  lemma {:induction false} PassAll(s: State, i: nat) returns (p: seq<nat>)
    requires Init(s) && s.max > 0 && i <= |s.pcs|
    ensures Run(s, p) == s.(sum := s.max - 1, increments := s.max - 1, pcs := Split(|s.pcs|, i, Spin, Check))
  {
    if i == 0 {
      p := CountUp(s, s.max - 1);
      assert s.pcs == Split(|s.pcs|, 0, Spin, Check);
    } else {
      p := PassAll(s, i - 1);
      RunOne(s, p, i - 1);
      p := p + [i - 1];
      assert Run(s, p).pcs == Split(|s.pcs|, i, Spin, Check);
    }
  }

  /** One after the other, they increment. */
  lemma {:induction false} IncrementAll(s: State, i: nat) returns (p: seq<nat>)
    requires Init(s) && s.max > 0 && i <= |s.pcs|
    ensures Run(s, p) == s.(sum := s.max - 1 + i, increments := s.max - 1 + i, pcs := Split(|s.pcs|, i, Check, Spin))
  {
    if i == 0 {
      p := PassAll(s, |s.pcs|);
      assert Split(|s.pcs|, |s.pcs|, Spin, Check) == Split(|s.pcs|, 0, Check, Spin);
    } else {
      p := IncrementAll(s, i - 1);
      p := OneRound(s, p, i - 1);
      assert Run(s, p).pcs == Split(|s.pcs|, i, Check, Spin);
    }
  }

  /** The bound is attained, for every number of threads and every maximum. */
  lemma {:induction false} Overshoot(s: State, i: nat) returns (p: seq<nat>)
    requires Init(s) && s.max > 0 && i <= |s.pcs|
    ensures Run(s, p).sum == s.max + |s.pcs| - 1 && Run(s, p).pcs == Split(|s.pcs|, i, Done, Check)
  {
    if i == 0 {
      p := IncrementAll(s, |s.pcs|);
      assert Split(|s.pcs|, |s.pcs|, Check, Spin) == Split(|s.pcs|, 0, Done, Check);
    } else {
      p := Overshoot(s, i - 1);
      InitInv(s);
      RunInv(s, p);
      RunOne(s, p, i - 1);
      p := p + [i - 1];
      assert Run(s, p).pcs == Split(|s.pcs|, i, Done, Check);
    }
  }
}
