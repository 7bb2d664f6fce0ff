/** The Linux condition variable of libmetal as a machine of any number of threads.  The mutex
    is the lock that module Mutex proves it to be; each other step is one atomic operation on
    `waiters` or `wakeups`, or one futex call. */
module Condition {

  // The futex compares 32-bit words.
  const WORD: nat := 0x1_0000_0000

  // Where a thread stands.  `seen` is how many wakeups had been counted when metal_condition_wait
  // loaded the word; `waiting` is which threads were waiting when a signal was sent.
  datatype Pc =
    | Outside
    | Locked                                  // holds the mutex
    | Loaded(seen: nat)                       // in wait: has loaded wakeups
    | Counted(seen: nat)                      // in wait: has counted itself in waiters
    | Unlocked(seen: nat)                     // in wait: has released the mutex, about to enter FUTEX_WAIT
    | Asleep(seen: nat)                       // in wait: blocked in FUTEX_WAIT
    | Returned                                // in wait: back from FUTEX_WAIT
    | Relocking                               // in wait: has uncounted itself, wants the mutex
    | Added(all: bool, waiting: set<nat>)     // in signal or broadcast: has incremented wakeups
    | Waking(all: bool, waiting: set<nat>)    // in signal or broadcast: has seen waiters > 0

  datatype State = State(wakeups: nat, waiters: int, holder: int, pcs: seq<Pc>)

  const NOBODY: int := -1

  datatype Step =
    | Lock | Unlock
    | WaitLoad | WaitCount | WaitUnlock | WaitFutex | Spurious | WaitUncount | WaitRelock
    | Signal(all: bool) | LoadWaiters | Wake(woken: nat)

  /** Waiting: it has given up the mutex inside metal_condition_wait and its FUTEX_WAIT has
      not returned. */
  predicate Waiting(pc: Pc) { pc.Unlocked? || pc.Asleep? }

  function WaitingSet(pcs: seq<Pc>): set<nat> {
    set t: nat | t < |pcs| && Waiting(pcs[t])
  }

  predicate HasMutex(pc: Pc) { pc.Locked? || pc.Loaded? || pc.Counted? || pc.Added? || pc.Waking? }

  /** Counted in `waiters`. */
  predicate InCount(pc: Pc) { pc.Counted? || pc.Unlocked? || pc.Asleep? || pc.Returned? }

  function Count(pcs: seq<Pc>): nat {
    if pcs == [] then 0 else (if InCount(pcs[0]) then 1 else 0) + Count(pcs[1..])
  }

  predicate SameWord(a: nat, b: nat) { a % WORD == b % WORD }

  predicate Initial(s: State) {
    s.wakeups == 0 && s.waiters == 0 && s.holder == NOBODY && forall t :: 0 <= t < |s.pcs| ==> s.pcs[t] == Outside
  }

  predicate Enabled(s: State, t: nat, a: Step) {
    t < |s.pcs| &&
    match a
    case Lock => s.pcs[t].Outside? && s.holder == NOBODY
    case Unlock => s.pcs[t].Locked?
    case WaitLoad => s.pcs[t].Locked?
    case WaitCount => s.pcs[t].Loaded?
    case WaitUnlock => s.pcs[t].Counted?
    case WaitFutex => s.pcs[t].Unlocked?
    case Spurious => s.pcs[t].Asleep?
    case WaitUncount => s.pcs[t].Returned?
    case WaitRelock => s.pcs[t].Relocking? && s.holder == NOBODY
    case Signal(_) => s.pcs[t].Locked?
    case LoadWaiters => s.pcs[t].Added?
    case Wake(u) =>
      && s.pcs[t].Waking?
      && (!s.pcs[t].all ==>
            if u < |s.pcs| then s.pcs[u].Asleep? else forall x :: 0 <= x < |s.pcs| ==> !s.pcs[x].Asleep?)
  }

  function WakeAll(pcs: seq<Pc>): (r: seq<Pc>)
    ensures |r| == |pcs|
    ensures forall x :: 0 <= x < |pcs| ==> r[x] == if pcs[x].Asleep? then Returned else pcs[x]
  {
    seq(|pcs|, x requires 0 <= x < |pcs| => if pcs[x].Asleep? then Returned else pcs[x])
  }

  function Apply(s: State, t: nat, a: Step): State
    requires Enabled(s, t, a)
  {
    var pc := s.pcs[t];
    match a
    case Lock => s.(holder := t, pcs := s.pcs[t := Locked])
    case Unlock => s.(holder := NOBODY, pcs := s.pcs[t := Outside])
    case WaitLoad => s.(pcs := s.pcs[t := Loaded(s.wakeups)])
    case WaitCount => s.(waiters := s.waiters + 1, pcs := s.pcs[t := Counted(pc.seen)])
    case WaitUnlock => s.(holder := NOBODY, pcs := s.pcs[t := Unlocked(pc.seen)])
    case WaitFutex => s.(pcs := s.pcs[t := if SameWord(s.wakeups, pc.seen) then Asleep(pc.seen) else Returned])
    case Spurious => s.(pcs := s.pcs[t := Returned])
    case WaitUncount => s.(waiters := s.waiters - 1, pcs := s.pcs[t := Relocking])
    case WaitRelock => s.(holder := t, pcs := s.pcs[t := Locked])
    case Signal(all) => s.(wakeups := s.wakeups + 1, pcs := s.pcs[t := Added(all, WaitingSet(s.pcs))])
    case LoadWaiters => s.(pcs := s.pcs[t := if s.waiters > 0 then Waking(pc.all, pc.waiting) else Locked])
    case Wake(u) =>
      if pc.all then s.(pcs := WakeAll(s.pcs)[t := Locked])
      else s.(pcs := if u < |s.pcs| then s.pcs[u := Returned][t := Locked] else s.pcs[t := Locked])
  }

  /** A thread in the wait that can no longer block in it. */
  predicate Freed(s: State, t: nat) {
    t < |s.pcs| && (s.pcs[t].Returned? || s.pcs[t].Relocking? || (s.pcs[t].Unlocked? && s.pcs[t].seen < s.wakeups))
  }

  predicate LockOk(s: State) {
    forall t :: 0 <= t < |s.pcs| ==> (HasMutex(s.pcs[t]) <==> s.holder == t)
  }

  predicate SeenOk(s: State) {
    forall t :: 0 <= t < |s.pcs| && (s.pcs[t].Loaded? || s.pcs[t].Counted? || s.pcs[t].Unlocked? || s.pcs[t].Asleep?) ==>
                  s.pcs[t].seen <= s.wakeups
  }

  /** While a signal is under way: the threads that were waiting when it was sent are asleep or
      freed, and nobody else is waiting. */
  predicate SignalOk(s: State) {
    forall p :: 0 <= p < |s.pcs| && (s.pcs[p].Added? || s.pcs[p].Waking?) ==>
      && (forall t :: t in s.pcs[p].waiting ==> t < |s.pcs| && (s.pcs[t].Asleep? || Freed(s, t)))
      && (forall t :: 0 <= t < |s.pcs| && Waiting(s.pcs[t]) ==> t in s.pcs[p].waiting)
  }

  predicate Inv(s: State) {
    LockOk(s) && SeenOk(s) && SignalOk(s) && s.waiters == Count(s.pcs)
  }

  predicate IsRun(states: seq<State>, threads: seq<nat>, steps: seq<Step>) {
    && |states| == |steps| + 1 && |threads| == |steps|
    && Initial(states[0])
    && forall i :: 0 <= i < |steps| ==>
         Enabled(states[i], threads[i], steps[i]) && states[i + 1] == Apply(states[i], threads[i], steps[i])
  }

  // ---- Counting the waiters ----

  lemma {:induction false} CountUpdate(pcs: seq<Pc>, t: nat, pc: Pc)
    requires t < |pcs|
    ensures Count(pcs[t := pc]) == Count(pcs) - (if InCount(pcs[t]) then 1 else 0) + (if InCount(pc) then 1 else 0)
  {
    if t == 0 {
      assert pcs[t := pc][1..] == pcs[1..];
    } else {
      CountUpdate(pcs[1..], t - 1, pc);
      assert pcs[t := pc][1..] == pcs[1..][t - 1 := pc];
    }
  }

  lemma {:induction false} CountSame(a: seq<Pc>, b: seq<Pc>)
    requires |a| == |b| && forall t :: 0 <= t < |a| ==> InCount(a[t]) == InCount(b[t])
    ensures Count(a) == Count(b)
  {
    if a != [] { CountSame(a[1..], b[1..]); }
  }

  lemma {:induction false} CountSome(pcs: seq<Pc>, t: nat)
    requires t < |pcs| && InCount(pcs[t])
    ensures Count(pcs) >= 1
  {
    if t > 0 { CountSome(pcs[1..], t - 1); }
  }

  // ---- Steps ----

  lemma CountKeeps(s: State, t: nat, a: Step)
    requires s.waiters == Count(s.pcs) && Enabled(s, t, a)
    ensures Apply(s, t, a).waiters == Count(Apply(s, t, a).pcs)
  {
    var s' := Apply(s, t, a);
    if a.Wake? {
      CountSame(s.pcs, s'.pcs);
    } else {
      CountUpdate(s.pcs, t, s'.pcs[t]);
      assert s'.pcs == s.pcs[t := s'.pcs[t]];
    }
  }

  lemma SignalKeeps(s: State, t: nat, a: Step)
    requires Inv(s) && Enabled(s, t, a)
    ensures SignalOk(Apply(s, t, a))
  {
    hide Count;
    var s' := Apply(s, t, a);
    forall p | 0 <= p < |s'.pcs| && (s'.pcs[p].Added? || s'.pcs[p].Waking?)
      ensures forall u :: u in s'.pcs[p].waiting ==> u < |s'.pcs| && (s'.pcs[u].Asleep? || Freed(s', u))
      ensures forall u :: 0 <= u < |s'.pcs| && Waiting(s'.pcs[u]) ==> u in s'.pcs[p].waiting
    {
      if a.Signal? {
        assert s.holder == t && p == t;
      } else {
        assert s.pcs[p].Added? || s.pcs[p].Waking?;
        assert s.holder == p && s'.pcs[p].waiting == s.pcs[p].waiting;
      }
    }
  }

  lemma StepKeeps(s: State, t: nat, a: Step)
    requires Inv(s) && Enabled(s, t, a)
    ensures Inv(Apply(s, t, a))
  {
    hide Count, SignalOk;
    CountKeeps(s, t, a);
    SignalKeeps(s, t, a);
  }

  lemma {:induction false} RunKeeps(states: seq<State>, threads: seq<nat>, steps: seq<Step>, i: nat)
    requires IsRun(states, threads, steps) && i <= |steps|
    ensures Inv(states[i])
  {
    hide Count, SignalOk;
    if i == 0 {
      NobodyCounted(states[0].pcs);
      assert SignalOk(states[0]) by { NobodySignals(states[0]); }
    } else {
      RunKeeps(states, threads, steps, i - 1);
      StepKeeps(states[i - 1], threads[i - 1], steps[i - 1]);
      assert states[i - 1 + 1] == Apply(states[i - 1], threads[i - 1], steps[i - 1]);
    }
  }

  lemma NobodySignals(s: State)
    requires Initial(s)
    ensures SignalOk(s)
  {}

  lemma {:induction false} NobodyCounted(pcs: seq<Pc>)
    requires forall t :: 0 <= t < |pcs| ==> pcs[t] == Outside
    ensures Count(pcs) == 0
  {
    if pcs != [] { NobodyCounted(pcs[1..]); }
  }

  // ---- No lost wakeup ----

  /** The step with which a signal or broadcast by p ends: it finds no waiters, or it wakes. */
  predicate Ends(s: State, p: nat, a: Step) {
    Enabled(s, p, a) && (a.Wake? || (a.LoadWaiters? && s.waiters <= 0))
  }

  lemma SignalEnds(s: State, p: nat, a: Step)
    requires Inv(s) && Ends(s, p, a)
    ensures var s' := Apply(s, p, a);
            && (s.pcs[p].all ==> forall t :: t in s.pcs[p].waiting ==> Freed(s', t))
            && (s.pcs[p].waiting != {} ==> exists t :: t in s.pcs[p].waiting && Freed(s', t))
  {
    var s' := Apply(s, p, a);
    var w := s.pcs[p].waiting;
    if a.LoadWaiters? {
      forall t | t in w ensures Freed(s', t) {
        if s.pcs[t].Asleep? { CountSome(s.pcs, t); }
      }
    } else if !s.pcs[p].all && a.woken < |s.pcs| {
      assert a.woken in w && Freed(s', a.woken);
    } else {
      assert forall t :: t in w ==> Freed(s', t);
    }
    if w != {} && !(a.Wake? && !s.pcs[p].all && a.woken < |s.pcs|) {
      var t :| t in w;
    }
  }

  /** Thread p sends a signal or broadcast at step i and that call ends at step j; other threads
      interleave freely. */
  predicate SignalFrom(states: seq<State>, threads: seq<nat>, steps: seq<Step>, i: nat, j: nat, p: nat) {
    && i < j < |steps| && |states| == |steps| + 1 && |threads| == |steps|
    && threads[i] == p && steps[i].Signal? && threads[j] == p && Ends(states[j], p, steps[j])
    && forall k :: i < k < j && threads[k] == p ==> steps[k].LoadWaiters? && states[k].waiters > 0
  }

  lemma {:induction false} SnapshotStays(states: seq<State>, threads: seq<nat>, steps: seq<Step>, i: nat, j: nat, p: nat, k: nat)
    requires IsRun(states, threads, steps) && SignalFrom(states, threads, steps, i, j, p) && i < k <= j
    ensures p < |states[k].pcs| && (states[k].pcs[p].Added? || states[k].pcs[p].Waking?)
    ensures states[k].pcs[p].waiting == WaitingSet(states[i].pcs) && states[k].pcs[p].all == steps[i].all
    decreases k
  {
    hide WaitingSet;
    assert states[k - 1 + 1] == Apply(states[k - 1], threads[k - 1], steps[k - 1]);
    if k - 1 > i {
      SnapshotStays(states, threads, steps, i, j, p, k - 1);
    }
  }

  /** No wakeup is lost, for any number of threads and any interleaving: when a signal sent under the
      mutex ends, at least one of the threads that were waiting when it was sent is freed, and when a
      broadcast ends all of them are -- whether or not they had reached the futex. */
  lemma NoLostWakeup(states: seq<State>, threads: seq<nat>, steps: seq<Step>, i: nat, j: nat, p: nat)
    requires IsRun(states, threads, steps) && SignalFrom(states, threads, steps, i, j, p)
    ensures var sent, after := WaitingSet(states[i].pcs), states[j + 1];
            && (steps[i].all ==> forall t :: t in sent ==> Freed(after, t))
            && (sent != {} ==> exists t :: t in sent && Freed(after, t))
  {
    hide Inv, Freed, WaitingSet;
    RunKeeps(states, threads, steps, j);
    SnapshotStays(states, threads, steps, i, j, p, j);
    SignalEnds(states[j], p, steps[j]);
    assert states[j + 1] == Apply(states[j], threads[j], steps[j]);
  }

  // ---- Freed threads return ----

  /** The one step that loses a wakeup: a FUTEX_WAIT that finds the word it loaded although wakeups were
      counted since, because their number is a multiple of 2^32. */
  predicate Slips(s: State, t: nat, a: Step) {
    && a == WaitFutex && t < |s.pcs| && s.pcs[t].Unlocked?
    && s.pcs[t].seen < s.wakeups && SameWord(s.wakeups, s.pcs[t].seen)
  }

  /** A freed thread stays freed exactly as long as it does not slip, until it has the mutex back. */
  lemma FreedExactly(s: State, t: nat, u: nat, a: Step)
    requires Freed(s, t) && Enabled(s, u, a) && !(u == t && a == WaitRelock)
    ensures Freed(Apply(s, u, a), t) <==> !(u == t && Slips(s, u, a))
  {}

  /** No step of thread t in [from, to) slips or ends its wait. */
  predicate StillWaiting(states: seq<State>, threads: seq<nat>, steps: seq<Step>, t: nat, from: nat, to: nat)
    requires |states| == |steps| + 1 && |threads| == |steps| && to <= |steps|
  {
    forall k :: from <= k < to && threads[k] == t ==> steps[k] != WaitRelock && !Slips(states[k], t, steps[k])
  }

  /** A thread freed at some point of a run stays freed, and so is never blocked, until its wait returns
      with the mutex or it slips. */
  lemma {:induction false} FreedReturns(states: seq<State>, threads: seq<nat>, steps: seq<Step>, t: nat, j: nat, k: nat)
    requires IsRun(states, threads, steps) && j <= k <= |steps| && Freed(states[j], t)
    requires StillWaiting(states, threads, steps, t, j, k)
    ensures Freed(states[k], t) && t < |states[k].pcs| && !states[k].pcs[t].Asleep?
    decreases k
  {
    hide Apply, Slips, Initial;
    if k > j {
      FreedReturns(states, threads, steps, t, j, k - 1);
      assert states[k - 1 + 1] == Apply(states[k - 1], threads[k - 1], steps[k - 1]);
      FreedExactly(states[k - 1], t, threads[k - 1], steps[k - 1]);
    }
  }

  /** And exactly then: where a freed thread is blocked later in its wait, it slipped in between. */
  lemma {:induction false} BlockedOnlyBySlipping(states: seq<State>, threads: seq<nat>, steps: seq<Step>, t: nat, j: nat, k: nat)
    returns (i: nat)
    requires IsRun(states, threads, steps) && j <= k <= |steps| && Freed(states[j], t)
    requires t < |states[k].pcs| && states[k].pcs[t].Asleep?
    requires forall i :: j <= i < k && threads[i] == t ==> steps[i] != WaitRelock
    ensures j <= i < k && threads[i] == t && Slips(states[i], t, steps[i])
  {
    hide Slips, Initial, Enabled, Apply;
    if StillWaiting(states, threads, steps, t, j, k) { FreedReturns(states, threads, steps, t, j, k); }
    i :| j <= i < k && threads[i] == t && Slips(states[i], t, steps[i]);
  }

  /** With fewer than 2^32 wakeups counted since its load, no thread slips. */
  lemma FewWakeupsDoNotSlip(s: State, t: nat, a: Step)
    requires t < |s.pcs| && s.pcs[t].Unlocked? && s.wakeups < s.pcs[t].seen + WORD
    ensures !Slips(s, t, a)
  {}

  /** Signal to return, in one statement: a thread the broadcast found waiting is never blocked again in
      that wait unless it slips. */
  lemma BroadcastReleasesAll(states: seq<State>, threads: seq<nat>, steps: seq<Step>, i: nat, j: nat, p: nat, t: nat, k: nat)
    requires IsRun(states, threads, steps) && SignalFrom(states, threads, steps, i, j, p) && steps[i].all
    requires t in WaitingSet(states[i].pcs) && j < k <= |steps| && StillWaiting(states, threads, steps, t, j + 1, k)
    ensures t < |states[k].pcs| && !states[k].pcs[t].Asleep?
  {
    hide Apply, Slips, Initial, Enabled, WaitingSet;
    NoLostWakeup(states, threads, steps, i, j, p);
    FreedReturns(states, threads, steps, t, j + 1, k);
  }

  /** And a signal names one such thread. */
  lemma SignalReleasesOne(states: seq<State>, threads: seq<nat>, steps: seq<Step>, i: nat, j: nat, p: nat) returns (t: nat)
    requires IsRun(states, threads, steps) && SignalFrom(states, threads, steps, i, j, p) && WaitingSet(states[i].pcs) != {}
    ensures t in WaitingSet(states[i].pcs)
    ensures forall k :: j < k <= |steps| && StillWaiting(states, threads, steps, t, j + 1, k) ==>
              t < |states[k].pcs| && !states[k].pcs[t].Asleep?
  {
    hide Apply, Slips, Initial, Enabled, WaitingSet, Freed, StillWaiting;
    NoLostWakeup(states, threads, steps, i, j, p);
    t :| t in WaitingSet(states[i].pcs) && Freed(states[j + 1], t);
    forall k | j < k <= |steps| && StillWaiting(states, threads, steps, t, j + 1, k)
      ensures t < |states[k].pcs| && !states[k].pcs[t].Asleep?
    {
      FreedReturns(states, threads, steps, t, j + 1, k);
    }
  }

  // ---- When a wait blocks, and how it returns ----

  /** How many signals and broadcasts were sent in the first n steps. */
  function Sent(steps: seq<Step>, n: nat): nat
    requires n <= |steps|
  {
    if n == 0 then 0 else Sent(steps, n - 1) + (if steps[n - 1].Signal? then 1 else 0)
  }

  predicate HasSeen(pc: Pc) { pc.Loaded? || pc.Counted? || pc.Unlocked? || pc.Asleep? }

  predicate InWait(pc: Pc) { HasSeen(pc) || pc.Returned? || pc.Relocking? }

  lemma {:induction false} WakeupsCountSignals(states: seq<State>, threads: seq<nat>, steps: seq<Step>, i: nat)
    requires IsRun(states, threads, steps) && i <= |steps|
    ensures states[i].wakeups == Sent(steps, i)
  {
    hide WaitingSet, WakeAll;
    if i > 0 {
      WakeupsCountSignals(states, threads, steps, i - 1);
      assert states[i - 1 + 1] == Apply(states[i - 1], threads[i - 1], steps[i - 1]);
    }
  }

  /** A call of metal_condition_wait by t loads the word at step i, and t has not called it again
      before step k. */
  predicate WaitFrom(threads: seq<nat>, steps: seq<Step>, i: nat, k: nat, t: nat) {
    && i < k <= |steps| == |threads| && threads[i] == t && steps[i] == WaitLoad
    && forall j :: i < j < k && threads[j] == t ==> steps[j] != WaitLoad
  }

  /** From its load on a thread is inside the wait until it has the mutex back, and what it compares with
      is the number of signals sent before the load. */
  lemma {:induction false} WaitReturnsLocked(states: seq<State>, threads: seq<nat>, steps: seq<Step>, i: nat, k: nat, t: nat)
    requires IsRun(states, threads, steps) && WaitFrom(threads, steps, i, k, t)
    ensures t < |states[k].pcs| && (HasSeen(states[k].pcs[t]) ==> states[k].pcs[t].seen == Sent(steps, i))
    ensures InWait(states[k].pcs[t]) || exists j :: i < j < k && threads[j] == t && steps[j] == WaitRelock &&
                                                   states[j].holder == NOBODY && states[j + 1].holder == t
    decreases k
  {
    hide WaitingSet, Sent;
    assert states[k - 1 + 1] == Apply(states[k - 1], threads[k - 1], steps[k - 1]);
    if k == i + 1 {
      WakeupsCountSignals(states, threads, steps, i);
    } else {
      WaitReturnsLocked(states, threads, steps, i, k - 1, t);
    }
  }

  /** The FUTEX_WAIT of a wait blocks exactly if the number of signals and broadcasts sent since the wait
      loaded the word is a multiple of 2^32: none, or so many that the word has come around. */
  lemma BlocksExactly(states: seq<State>, threads: seq<nat>, steps: seq<Step>, i: nat, k: nat, t: nat)
    requires IsRun(states, threads, steps) && WaitFrom(threads, steps, i, k, t)
    requires k < |steps| && threads[k] == t && steps[k] == WaitFutex
    ensures t < |states[k + 1].pcs|
    ensures states[k + 1].pcs[t].Asleep? <==> (Sent(steps, k) - Sent(steps, i)) % WORD == 0
  {
    hide Sent;
    WaitReturnsLocked(states, threads, steps, i, k, t);
    WakeupsCountSignals(states, threads, steps, k);
    assert states[k + 1] == Apply(states[k], threads[k], steps[k]);
  }

  function Sleepers(pcs: seq<Pc>): set<nat> { set t: nat | t < |pcs| && pcs[t].Asleep? }

  /** The futex call of a broadcast wakes every sleeper, that of a signal exactly one when there is one. */
  lemma WakesExactly(s: State, p: nat, a: Step)
    requires Enabled(s, p, a) && a.Wake?
    ensures var was, left := Sleepers(s.pcs), Sleepers(Apply(s, p, a).pcs);
            left <= was && |left| == if s.pcs[p].all || |was| == 0 then 0 else |was| - 1
  {
    var was, left := Sleepers(s.pcs), Sleepers(Apply(s, p, a).pcs);
    if s.pcs[p].all {
      assert left == {};
    } else if a.woken < |s.pcs| {
      assert left == was - {a.woken} && a.woken in was;
    } else {
      assert was == {} && left == {};
    }
  }

  // ---- A run that loses wakeups ----

  predicate Path(states: seq<State>, threads: seq<nat>, steps: seq<Step>) {
    && |states| == |steps| + 1 && |threads| == |steps|
    && forall i :: 0 <= i < |steps| ==>
         Enabled(states[i], threads[i], steps[i]) && states[i + 1] == Apply(states[i], threads[i], steps[i])
  }

  lemma Join(states: seq<State>, threads: seq<nat>, steps: seq<Step>,
             states': seq<State>, threads': seq<nat>, steps': seq<Step>)
    requires Path(states, threads, steps) && Path(states', threads', steps') && states[|steps|] == states'[0]
    ensures Path(states + states'[1..], threads + threads', steps + steps')
    ensures (states + states'[1..])[|steps| + |steps'|] == states'[|steps'|]
  {
    hide Enabled, Apply;
    var all, ts, acts := states + states'[1..], threads + threads', steps + steps';
    forall i | 0 <= i < |acts|
      ensures Enabled(all[i], ts[i], acts[i]) && all[i + 1] == Apply(all[i], ts[i], acts[i])
    {
      if i < |steps| {
        assert all[i] == states[i] && all[i + 1] == states[i + 1];
      } else {
        var j := i - |steps|;
        assert all[i] == states'[j] && all[i + 1] == states'[j + 1];
      }
    }
    if |steps'| > 0 { assert all[|steps| + |steps'|] == states'[1..][|steps'| - 1]; }
  }

  /** Thread 0 has loaded 0 and stands before its FUTEX_WAIT; k signals have been sent since. */
  function Overtaken(k: nat): State { State(k, 1, NOBODY, [Unlocked(0), Outside]) }

  /** Thread 1 locks, signals and unlocks. */
  lemma SignalRound(k: nat) returns (states: seq<State>, threads: seq<nat>, steps: seq<Step>)
    ensures Path(states, threads, steps) && states[0] == Overtaken(k) && states[|steps|] == Overtaken(k + 1)
  {
    var u := Unlocked(0);
    var s0, s1 := Overtaken(k), State(k, 1, 1, [u, Locked]);
    var s2 := State(k + 1, 1, 1, [u, Added(false, {0})]);
    var s3 := State(k + 1, 1, 1, [u, Waking(false, {0})]);
    var s4 := State(k + 1, 1, 1, [u, Locked]);
    assert WaitingSet(s1.pcs) == {0};
    assert s1 == Apply(s0, 1, Lock) && s2 == Apply(s1, 1, Signal(false)) && s3 == Apply(s2, 1, LoadWaiters);
    assert s4 == Apply(s3, 1, Wake(2)) && Overtaken(k + 1) == Apply(s4, 1, Unlock);
    hide Apply;
    states, threads := [s0, s1, s2, s3, s4, Overtaken(k + 1)], [1, 1, 1, 1, 1];
    steps := [Lock, Signal(false), LoadWaiters, Wake(2), Unlock];
  }

  lemma {:induction false} SignalRounds(m: nat) returns (states: seq<State>, threads: seq<nat>, steps: seq<Step>)
    ensures Path(states, threads, steps) && states[0] == Overtaken(0) && states[|steps|] == Overtaken(m)
    decreases m
  {
    if m == 0 {
      states, threads, steps := [Overtaken(0)], [], [];
    } else {
      hide Path, Overtaken;
      states, threads, steps := SignalRounds(m - 1);
      var states', threads', steps' := SignalRound(m - 1);
      Sized(states, threads, steps);
      Sized(states', threads', steps');
      Join(states, threads, steps, states', threads', steps');
      states, threads, steps := states + states'[1..], threads + threads', steps + steps';
    }
  }

  lemma Sized(states: seq<State>, threads: seq<nat>, steps: seq<Step>)
    requires Path(states, threads, steps)
    ensures |states| == |steps| + 1 && |threads| == |steps|
  {}

  /** Thread 0 begins to wait. */
  lemma BeginsToWait() returns (states: seq<State>, threads: seq<nat>, steps: seq<Step>)
    ensures Path(states, threads, steps) && Initial(states[0]) && states[|steps|] == Overtaken(0)
  {
    var s0, s1 := State(0, 0, NOBODY, [Outside, Outside]), State(0, 0, 0, [Locked, Outside]);
    var s2, s3 := State(0, 0, 0, [Loaded(0), Outside]), State(0, 1, 0, [Counted(0), Outside]);
    assert s1 == Apply(s0, 0, Lock) && s2 == Apply(s1, 0, WaitLoad) && s3 == Apply(s2, 0, WaitCount);
    assert Overtaken(0) == Apply(s3, 0, WaitUnlock);
    hide Apply;
    states, threads, steps := [s0, s1, s2, s3, Overtaken(0)], [0, 0, 0, 0], [Lock, WaitLoad, WaitCount, WaitUnlock];
  }

  /** A run of two threads that loses wakeups: thread 0 waits, 2^32 signals are sent and end before it
      reaches the futex, and it falls asleep with nobody left who owes it a wake. */
  lemma WakeupsCanBeLost()
    ensures exists states: seq<State>, threads: seq<nat>, steps: seq<Step> ::
              && IsRun(states, threads, steps)
              && states[|steps|] == State(WORD, 1, NOBODY, [Asleep(0), Outside])
  {
    var begun, threads, steps := BeginsToWait();
    var signalled, threads', steps' := SignalRounds(WORD);
    Join(begun, threads, steps, signalled, threads', steps');
    var states := begun + signalled[1..];
    var asleep := State(WORD, 1, NOBODY, [Asleep(0), Outside]);
    assert asleep == Apply(Overtaken(WORD), 0, WaitFutex);
    var last := [Overtaken(WORD), asleep];
    assert Path(last, [0], [WaitFutex]);
    hide Apply, Enabled, Initial;
    Join(states, threads + threads', steps + steps', last, [0], [WaitFutex]);
    var all, ts, acts := states + last[1..], threads + threads' + [0], steps + steps' + [WaitFutex];
    assert IsRun(all, ts, acts);
  }
}
