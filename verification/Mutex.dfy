/** The Linux futex mutex of libmetal as a machine of any number of threads, each step one
    atomic operation on the word `v` or one futex call. */
module Mutex {

  // Where a thread stands.
  datatype Pc =
    | Outside       // does not hold the mutex and is not asking for it
    | Acquiring     // about to compare-exchange 0 for 1 in acquire
    | Exchanging    // in acquire, about to exchange in 2
    | Calling       // in acquire, about to enter FUTEX_WAIT with 2
    | Sleeping      // blocked in FUTEX_WAIT
    | Holding       // owns the mutex
    | Storing       // in release, between fetch_sub and the store of 0
    | Waking        // in release, about to call FUTEX_WAKE for one thread

  datatype State = State(v: int, pcs: seq<Pc>)

  datatype Step =
    | Begin           // __metal_mutex_acquire is called
    | TryAcquire      // __metal_mutex_try_acquire
    | CompareExchange
    | Exchange
    | FutexWait
    | Spurious        // FUTEX_WAIT returns without a wake
    | FetchSub        // __metal_mutex_release is called
    | StoreZero
    | FutexWake(woken: nat)

  predicate Initial(s: State) {
    s.v == 0 && forall t :: 0 <= t < |s.pcs| ==> s.pcs[t] == Outside
  }

  predicate Enabled(s: State, t: nat, a: Step) {
    t < |s.pcs| &&
    match a
    case Begin => s.pcs[t].Outside?
    case TryAcquire => s.pcs[t].Outside?
    case CompareExchange => s.pcs[t].Acquiring?
    case Exchange => s.pcs[t].Exchanging?
    case FutexWait => s.pcs[t].Calling?
    case Spurious => s.pcs[t].Sleeping?
    case FetchSub => s.pcs[t].Holding?
    case StoreZero => s.pcs[t].Storing?
    case FutexWake(u) =>
      // FUTEX_WAKE wakes one sleeper when there is one.
      s.pcs[t].Waking? && (if u < |s.pcs| then s.pcs[u].Sleeping? else forall x :: 0 <= x < |s.pcs| ==> !s.pcs[x].Sleeping?)
  }

  function Apply(s: State, t: nat, a: Step): State
    requires Enabled(s, t, a)
  {
    match a
    case Begin => s.(pcs := s.pcs[t := Acquiring])
    case TryAcquire => if s.v == 0 then State(1, s.pcs[t := Holding]) else s
    case CompareExchange =>
      if s.v == 0 then State(1, s.pcs[t := Holding])
      else s.(pcs := s.pcs[t := if s.v != 2 then Exchanging else Calling])
    case Exchange => State(2, s.pcs[t := if s.v == 0 then Holding else Calling])
    case FutexWait => s.(pcs := s.pcs[t := if s.v == 2 then Sleeping else Exchanging])
    case Spurious => s.(pcs := s.pcs[t := Exchanging])
    case FetchSub => State(s.v - 1, s.pcs[t := if s.v != 1 then Storing else Outside])
    case StoreZero => State(0, s.pcs[t := Waking])
    case FutexWake(u) =>
      s.(pcs := if u < |s.pcs| then s.pcs[t := Outside][u := Exchanging] else s.pcs[t := Outside])
  }

  predicate Has(s: State, pc: Pc) {
    exists t :: 0 <= t < |s.pcs| && s.pcs[t] == pc
  }

  /** Owning the word: holding the mutex, or in release before the store of 0. */
  predicate Owns(pc: Pc) { pc.Holding? || pc.Storing? }

  predicate AtMostOneOwner(s: State) {
    forall t, u :: 0 <= t < |s.pcs| && 0 <= u < |s.pcs| && Owns(s.pcs[t]) && Owns(s.pcs[u]) ==> t == u
  }

  predicate WordMatchesOwner(s: State) {
    && 0 <= s.v <= 2
    && (s.v != 0 <==> Has(s, Holding) || Has(s, Storing))
  }

  predicate NoStrandedSleeper(s: State) {
    Has(s, Sleeping) ==> s.v == 2 || Has(s, Storing) || Has(s, Waking) || Has(s, Exchanging)
  }

  predicate Inv(s: State) {
    AtMostOneOwner(s) && WordMatchesOwner(s) && NoStrandedSleeper(s)
  }

  /** Any run of any number of threads, in any interleaving. */
  predicate IsRun(states: seq<State>, threads: seq<nat>, steps: seq<Step>) {
    && |states| == |steps| + 1 && |threads| == |steps|
    && Initial(states[0])
    && forall i :: 0 <= i < |steps| ==>
         Enabled(states[i], threads[i], steps[i]) && states[i + 1] == Apply(states[i], threads[i], steps[i])
  }

  lemma Witness(s: State, t: nat)
    requires t < |s.pcs|
    ensures Has(s, s.pcs[t])
  {}

  /** After thread t moves, another position is still somewhere exactly if it was there before
      at a thread other than t. */
  lemma OthersStay(s: State, s': State, t: nat, pc: Pc)
    requires |s'.pcs| == |s.pcs| && t < |s.pcs|
    requires forall u :: 0 <= u < |s.pcs| && u != t ==> s'.pcs[u] == s.pcs[u]
    ensures Has(s, pc) && s.pcs[t] != pc ==> Has(s', pc)
    ensures Has(s', pc) && s'.pcs[t] != pc ==> Has(s, pc)
  {
    if Has(s, pc) && s.pcs[t] != pc {
      var u :| 0 <= u < |s.pcs| && s.pcs[u] == pc;
      assert s'.pcs[u] == pc;
    }
    if Has(s', pc) && s'.pcs[t] != pc {
      var u :| 0 <= u < |s'.pcs| && s'.pcs[u] == pc;
      assert s.pcs[u] == pc;
    }
  }

  /** The five positions the invariant speaks of, before and after a move of thread t. */
  lemma AllOthersStay(s: State, s': State, t: nat)
    requires |s'.pcs| == |s.pcs| && t < |s.pcs|
    requires forall u :: 0 <= u < |s.pcs| && u != t ==> s'.pcs[u] == s.pcs[u]
    ensures Has(s, s.pcs[t]) && Has(s', s'.pcs[t])
    ensures forall pc :: pc in {Holding, Storing, Sleeping, Waking, Exchanging} ==>
              && (Has(s, pc) && s.pcs[t] != pc ==> Has(s', pc))
              && (Has(s', pc) && s'.pcs[t] != pc ==> Has(s, pc))
  {
    forall pc: Pc ensures && (Has(s, pc) && s.pcs[t] != pc ==> Has(s', pc))
                          && (Has(s', pc) && s'.pcs[t] != pc ==> Has(s, pc)) {
      OthersStay(s, s', t, pc);
    }
  }

  lemma OwnerIsLast(s: State, t: nat)
    requires AtMostOneOwner(s) && t < |s.pcs| && Owns(s.pcs[t])
    ensures forall pc :: !Owns(pc) ==>
              var s' := s.(pcs := s.pcs[t := pc]); !Has(s', Holding) && !Has(s', Storing)
  {
    forall u | 0 <= u < |s.pcs| && u != t ensures !Owns(s.pcs[u]) {}
  }

  lemma StepKeeps(s: State, t: nat, a: Step)
    requires Inv(s) && Enabled(s, t, a)
    ensures Inv(Apply(s, t, a))
  {
    var s' := Apply(s, t, a);
    if a.FutexWake? {
      WakeKeeps(s, t, a.woken);
    } else {
      AllOthersStay(s, s', t);
      if a.FetchSub? || a.StoreZero? {
        OwnerIsLast(s, t);
        assert Has(s, Holding) || Has(s, Storing);
        assert Has(s', Holding) == Has(s.(pcs := s'.pcs), Holding) && Has(s', Storing) == Has(s.(pcs := s'.pcs), Storing);
      }
      hide Has;
    }
  }

  lemma WakeKeeps(s: State, t: nat, u: nat)
    requires Inv(s) && Enabled(s, t, FutexWake(u))
    ensures Inv(Apply(s, t, FutexWake(u)))
  {
    var s' := Apply(s, t, FutexWake(u));
    var mid := s.(pcs := s.pcs[t := Outside]);
    AllOthersStay(s, mid, t);
    if u < |s.pcs| {
      AllOthersStay(mid, s', u);
    }
    assert AtMostOneOwner(mid) && AtMostOneOwner(s');
    hide Has;
  }

  lemma {:induction false} RunKeeps(states: seq<State>, threads: seq<nat>, steps: seq<Step>, i: nat)
    requires IsRun(states, threads, steps) && i <= |steps|
    ensures Inv(states[i])
  {
    if i > 0 {
      RunKeeps(states, threads, steps, i - 1);
      StepKeeps(states[i - 1], threads[i - 1], steps[i - 1]);
      assert states[i - 1 + 1] == Apply(states[i - 1], threads[i - 1], steps[i - 1]);
    }
  }

  /** Mutual exclusion, for any number of threads and any interleaving: at most one thread owns
      the mutex, and the word is non-zero exactly while some thread holds it or has not yet
      stored 0 in release. */
  lemma MutualExclusion(states: seq<State>, threads: seq<nat>, steps: seq<Step>, i: nat)
    requires IsRun(states, threads, steps) && i <= |steps|
    ensures AtMostOneOwner(states[i]) && WordMatchesOwner(states[i])
  {
    RunKeeps(states, threads, steps, i);
  }

  /** No sleeper is stranded: whenever a thread sleeps, somebody is still going to act who will
      wake it or be woken before it: an owner whose release will find v != 1, a releaser that
      owes a wake, or an awake thread about to exchange in 2.  In particular the threads are
      never all outside or asleep with one asleep. */
  lemma SleepersAreCovered(states: seq<State>, threads: seq<nat>, steps: seq<Step>, i: nat, t: nat)
    requires IsRun(states, threads, steps) && i <= |steps|
    requires t < |states[i].pcs| && states[i].pcs[t].Sleeping?
    ensures var s := states[i];
            exists u :: 0 <= u < |s.pcs| &&
              ((s.pcs[u].Holding? && s.v == 2) || s.pcs[u].Storing? || s.pcs[u].Waking? || s.pcs[u].Exchanging?)
  {
    RunKeeps(states, threads, steps, i);
    var s := states[i];
    Witness(s, t);
    assert (Has(s, Holding) && s.v == 2) || Has(s, Storing) || Has(s, Waking) || Has(s, Exchanging);
  }

  /** A release that finds others asleep never takes the fast path that skips the wake. */
  lemma ReleaseSeesSleepers(states: seq<State>, threads: seq<nat>, steps: seq<Step>, i: nat, t: nat, u: nat)
    requires IsRun(states, threads, steps) && i <= |steps|
    requires Enabled(states[i], t, FetchSub) && u < |states[i].pcs| && states[i].pcs[u].Sleeping?
    requires forall x :: 0 <= x < |states[i].pcs| ==> !states[i].pcs[x].Waking? && !states[i].pcs[x].Exchanging?
    ensures Apply(states[i], t, FetchSub).pcs[t] == Storing
  {
    RunKeeps(states, threads, steps, i);
    var s := states[i];
    Witness(s, u);
    assert forall x :: 0 <= x < |s.pcs| && Owns(s.pcs[x]) ==> x == t;
  }

  // ---- What the calls return with ----

  /** Inside __metal_mutex_acquire. */
  predicate InAcquire(pc: Pc) { pc.Acquiring? || pc.Exchanging? || pc.Calling? || pc.Sleeping? }

  predicate Free(s: State) { forall x :: 0 <= x < |s.pcs| ==> !Owns(s.pcs[x]) }

  lemma FreeWord(s: State)
    requires WordMatchesOwner(s)
    ensures Free(s) <==> s.v == 0
  {
    if !Free(s) {
      var x :| 0 <= x < |s.pcs| && Owns(s.pcs[x]);
      Witness(s, x);
    }
  }

  /** Each of the three operations that may take the mutex -- try_acquire, and the compare-exchange and
      the exchange of acquire -- leaves the thread holding it exactly if no thread owned it, and then no
      other thread owns it; a failed try_acquire changes nothing. */
  lemma TakenExactlyWhenFree(states: seq<State>, threads: seq<nat>, steps: seq<Step>, i: nat)
    requires IsRun(states, threads, steps) && i < |steps|
    requires steps[i] in {TryAcquire, CompareExchange, Exchange}
    ensures var s, s', t := states[i], states[i + 1], threads[i];
            && t < |s'.pcs| && (s'.pcs[t].Holding? <==> Free(s))
            && (Free(s) ==> forall x :: 0 <= x < |s'.pcs| && x != t ==> !Owns(s'.pcs[x]))
            && (steps[i].TryAcquire? && !Free(s) ==> s' == s)
            && (!steps[i].TryAcquire? && !Free(s) ==> InAcquire(s'.pcs[t]))
  {
    RunKeeps(states, threads, steps, i);
    FreeWord(states[i]);
    assert states[i + 1] == Apply(states[i], threads[i], steps[i]);
  }

  /** The step with which a thread leaves acquire is its own, was taken when no thread owned the mutex,
      and makes that thread the only owner. */
  lemma LeavesAcquireOwning(states: seq<State>, threads: seq<nat>, steps: seq<Step>, i: nat, t: nat)
    requires IsRun(states, threads, steps) && i < |steps|
    requires t < |states[i].pcs| == |states[i + 1].pcs|
    requires InAcquire(states[i].pcs[t]) && !InAcquire(states[i + 1].pcs[t])
    ensures threads[i] == t && Free(states[i]) && states[i + 1].pcs[t].Holding?
    ensures var s' := states[i + 1]; forall x :: 0 <= x < |s'.pcs| ==> (Owns(s'.pcs[x]) <==> x == t)
  {
    hide Free;
    assert states[i + 1] == Apply(states[i], threads[i], steps[i]);
    assert threads[i] == t && steps[i] in {CompareExchange, Exchange};
    TakenExactlyWhenFree(states, threads, steps, i);
  }

  /** acquire returns only with the mutex: over every run a thread that called it at step i is at every
      later point still inside it, or has since stood holding the mutex. */
  lemma {:induction false} AcquireReturnsHolding(states: seq<State>, threads: seq<nat>, steps: seq<Step>, i: nat, j: nat)
    requires IsRun(states, threads, steps) && i < j <= |steps| && steps[i] == Begin
    ensures var t := threads[i];
            && t < |states[j].pcs|
            && (InAcquire(states[j].pcs[t]) || exists k :: i < k <= j && t < |states[k].pcs| && states[k].pcs[t].Holding?)
    decreases j
  {
    assert states[j - 1 + 1] == Apply(states[j - 1], threads[j - 1], steps[j - 1]);
    var t := threads[i];
    if j > i + 1 {
      AcquireReturnsHolding(states, threads, steps, i, j - 1);
      if InAcquire(states[j - 1].pcs[t]) && !InAcquire(states[j].pcs[t]) {
        assert states[j - 1 + 1] == states[j];
        LeavesAcquireOwning(states, threads, steps, j - 1, t);
        assert states[j].pcs[t].Holding?;
      }
    }
  }

  /** Without contention there is no futex call: as long as no thread has exchanged in 2, the word is at
      most 1, every release takes the fast path, and nobody waits or wakes. */
  lemma {:induction false} UncontendedMakesNoCalls(states: seq<State>, threads: seq<nat>, steps: seq<Step>, i: nat)
    requires IsRun(states, threads, steps) && i <= |steps|
    requires forall k :: 0 <= k < i ==> steps[k] != Exchange
    ensures 0 <= states[i].v <= 1
    ensures forall x :: 0 <= x < |states[i].pcs| ==>
              var pc := states[i].pcs[x]; !pc.Calling? && !pc.Sleeping? && !pc.Storing? && !pc.Waking?
  {
    RunKeeps(states, threads, steps, i);
    if i > 0 {
      UncontendedMakesNoCalls(states, threads, steps, i - 1);
      hide Inv;
      assert states[i - 1 + 1] == Apply(states[i - 1], threads[i - 1], steps[i - 1]);
    }
  }
}
