/** find_or_prepare_shared_file as a protocol of any number of processes over one directory
    that holds a final name and a temporary name.  Each step is one system call, or the
    preparation by the forked child; any process may crash at any step. */
module SharedFile {
  import opened Options

  // SHARED_TIMEOUT
  const ATTEMPTS: nat := 10

  // Where a process stands.  `zero` says that its descriptor of the temporary file is 0.
  datatype Pc =
    | Trying(i: nat)                                // about to open the temporary name exclusively
    | HasTmp(i: nat, ino: nat, zero: bool)          // created the file ino; about to open the final name
    | NoTmp(i: nat)                                 // did not; about to open the final name
    | CleaningUp(ino: nat, got: nat)                // also opened the final name; about to unlink the temporary one
    | Preparing(ino: nat, zero: bool)               // the forked child prepares
    | Renaming(ino: nat, zero: bool)                // about to rename the temporary name to the final one
    | Failing(ino: nat, zero: bool)                 // about to unlink the temporary name and give up
    | Got(ino: nat)                                 // returned 0 with a descriptor of file ino
    | GaveUp                                        // returned -1
    | Crashed

  // How the child of fork_and_prepare_segment ended, as waitpid reports it; `done` says whether
  // it had finished preparing when a signal ended it.
  datatype ChildEnd = NotForked | WaitFailed | Exited(code: nat) | Signaled(sig: nat, done: bool)

  datatype State = State(
    tmp: Option<nat>, final: Option<nat>, nextIno: nat, prepared: set<nat>, pcs: seq<Pc>,
    // history: files whose child was killed before it finished, processes whose open of the
    // final name failed although it existed, renames in all, renames over an existing file
    killed: set<nat>, misled: set<nat>, renames: nat, overwrites: nat)

  datatype Step =
    | OpenTmp(fails: bool, zero: bool)
    | OpenFinal(error: bool)       // error: fails for another reason than ENOENT
    | UnlinkUnneeded(error: bool)
    | Prepare(end: ChildEnd)
    | Rename(error: bool)
    | UnlinkOnFailure(error: bool)
    | Crash

  /** The status word waitpid stores. */
  function StatusWord(e: ChildEnd): (w: nat)
    requires e.Exited? || e.Signaled?
  {
    if e.Exited? then (e.code % 256) * 256 else 1 + e.sig % 126
  }

  /** WEXITSTATUS. */
  function ExitStatus(word: nat): nat { word / 256 % 256 }

  /** Whether fork_and_prepare_segment reports success. */
  predicate ReportsSuccess(e: ChildEnd) {
    (e.Exited? || e.Signaled?) && ExitStatus(StatusWord(e)) == 0
  }

  /** Whether the file has really been prepared: a child exits with 0 only when it was. */
  predicate ReallyPrepared(e: ChildEnd) {
    (e.Exited? && e.code % 256 == 0) || (e.Signaled? && e.done)
  }

  predicate Initial(s: State) {
    && s.tmp == None && s.final == None && s.prepared == {} && s.killed == {} && s.misled == {}
    && s.renames == 0 && s.overwrites == 0
    && forall p :: 0 <= p < |s.pcs| ==> s.pcs[p] == Trying(0)
  }

  predicate Enabled(s: State, p: nat, a: Step) {
    p < |s.pcs| &&
    match a
    case OpenTmp(_, _) => s.pcs[p].Trying?
    case OpenFinal(_) => s.pcs[p].HasTmp? || s.pcs[p].NoTmp?
    case UnlinkUnneeded(_) => s.pcs[p].CleaningUp?
    case Prepare(_) => s.pcs[p].Preparing?
    case Rename(_) => s.pcs[p].Renaming?
    case UnlinkOnFailure(_) => s.pcs[p].Failing?
    case Crash => true
  }

  function Apply(s: State, p: nat, a: Step): State
    requires Enabled(s, p, a)
  {
    var pc := s.pcs[p];
    match a
    case OpenTmp(fails, zero) =>
      if s.tmp == None && !fails then
        s.(tmp := Some(s.nextIno), nextIno := s.nextIno + 1, pcs := s.pcs[p := HasTmp(pc.i, s.nextIno, zero)])
      else s.(pcs := s.pcs[p := NoTmp(pc.i)])
    case OpenFinal(error) =>
      if s.final.Some? && !error then
        s.(pcs := s.pcs[p := if pc.HasTmp? && !pc.zero then CleaningUp(pc.ino, s.final.value) else Got(s.final.value)])
      else if pc.HasTmp? then
        s.(pcs := s.pcs[p := Preparing(pc.ino, pc.zero)],
           misled := if s.final.Some? then s.misled + {p} else s.misled)
      else s.(pcs := s.pcs[p := if pc.i + 1 < ATTEMPTS then Trying(pc.i + 1) else GaveUp])
    case UnlinkUnneeded(error) =>
      s.(tmp := if error then s.tmp else None, pcs := s.pcs[p := Got(pc.got)])
    case Prepare(e) =>
      s.(prepared := if ReallyPrepared(e) then s.prepared + {pc.ino} else s.prepared,
         killed := if e.Signaled? && !e.done then s.killed + {pc.ino} else s.killed,
         pcs := s.pcs[p := if ReportsSuccess(e) then Renaming(pc.ino, pc.zero) else Failing(pc.ino, pc.zero)])
    case Rename(error) =>
      if error || s.tmp == None then s.(pcs := s.pcs[p := Failing(pc.ino, pc.zero)])
      else s.(final := s.tmp, tmp := None, renames := s.renames + 1,
              overwrites := s.overwrites + (if s.final.Some? then 1 else 0),
              pcs := s.pcs[p := Got(pc.ino)])
    case UnlinkOnFailure(error) =>
      s.(tmp := if error || pc.zero then s.tmp else None, pcs := s.pcs[p := GaveUp])
    case Crash => s.(pcs := s.pcs[p := Crashed])
  }

  predicate IsRun(states: seq<State>, procs: seq<nat>, steps: seq<Step>) {
    && |states| == |steps| + 1 && |procs| == |steps|
    && Initial(states[0])
    && forall i :: 0 <= i < |steps| ==>
         Enabled(states[i], procs[i], steps[i]) && states[i + 1] == Apply(states[i], procs[i], steps[i])
  }

  /** Owning the temporary name: between creating it and giving it up. */
  predicate OwnsTmp(pc: Pc) { pc.HasTmp? || pc.CleaningUp? || pc.Preparing? || pc.Renaming? || pc.Failing? }

  /** At most one process owns the temporary name, and the name is then its file's. */
  predicate OneOwner(s: State) {
    && (forall p, q :: 0 <= p < |s.pcs| && 0 <= q < |s.pcs| && OwnsTmp(s.pcs[p]) && OwnsTmp(s.pcs[q]) ==> p == q)
    && (forall p :: 0 <= p < |s.pcs| && OwnsTmp(s.pcs[p]) ==> s.tmp == Some(s.pcs[p].ino))
  }

  /** For a file past preparation, being prepared is the same as its child not having been killed. */
  predicate Settled(prepared: set<nat>, killed: set<nat>, ino: nat) { ino in prepared <==> ino !in killed }

  /** What a process's position says of the files it deals with. */
  predicate PcOk(prepared: set<nat>, killed: set<nat>, pc: Pc) {
    match pc
    case HasTmp(_, ino, _) => ino !in prepared && ino !in killed
    case Preparing(ino, _) => ino !in prepared && ino !in killed
    case Renaming(ino, _) => Settled(prepared, killed, ino)
    case CleaningUp(_, got) => Settled(prepared, killed, got)
    case Got(ino) => Settled(prepared, killed, ino)
    case _ => true
  }

  predicate FilesOk(s: State) {
    && (forall x :: x in s.prepared ==> x < s.nextIno) && (forall x :: x in s.killed ==> x < s.nextIno)
    && (s.tmp.Some? ==> s.tmp.value < s.nextIno)
    && (s.final.Some? ==> Settled(s.prepared, s.killed, s.final.value))
    && (forall p :: 0 <= p < |s.pcs| ==> PcOk(s.prepared, s.killed, s.pcs[p]))
  }

  /** The final name exists while somebody prepares exactly if that process was misled. */
  predicate PreparersOk(s: State) {
    && s.renames == s.overwrites + (if s.final.Some? then 1 else 0)
    && (forall p :: 0 <= p < |s.pcs| && (s.pcs[p].Preparing? || s.pcs[p].Renaming?) ==> (s.final.Some? <==> p in s.misled))
    && (forall p :: 0 <= p < |s.pcs| && (s.pcs[p].Trying? || s.pcs[p].HasTmp? || s.pcs[p].NoTmp?) ==> p !in s.misled)
    && (s.misled == {} ==> s.overwrites == 0)
  }

  predicate Inv(s: State) { OneOwner(s) && FilesOk(s) && PreparersOk(s) }

  lemma SignalLooksLikeSuccess(e: ChildEnd)
    ensures ReportsSuccess(e) <==> (e.Exited? && e.code % 256 == 0) || e.Signaled?
  {}

  lemma OwnerKeeps(s: State, p: nat, a: Step)
    requires OneOwner(s) && Enabled(s, p, a)
    ensures OneOwner(Apply(s, p, a))
  {
    hide ReportsSuccess, ReallyPrepared;
  }

  /** A child's end changes nothing for other processes' files. */
  lemma PrepareKeepsPc(prepared: set<nat>, killed: set<nat>, pc: Pc, ino: nat, e: ChildEnd)
    requires PcOk(prepared, killed, pc) && ino !in prepared && ino !in killed
    requires OwnsTmp(pc) ==> pc.ino != ino
    ensures PcOk(if ReallyPrepared(e) then prepared + {ino} else prepared,
                 if e.Signaled? && !e.done then killed + {ino} else killed, pc)
  {}

  lemma PrepareKeepsFiles(s: State, p: nat, e: ChildEnd)
    requires OneOwner(s) && FilesOk(s) && Enabled(s, p, Prepare(e))
    ensures FilesOk(Apply(s, p, Prepare(e)))
  {
    hide ReportsSuccess;
    SignalLooksLikeSuccess(e);
    var s', ino := Apply(s, p, Prepare(e)), s.pcs[p].ino;
    assert PcOk(s.prepared, s.killed, s.pcs[p]) && OwnsTmp(s.pcs[p]);
    forall q | 0 <= q < |s.pcs| ensures PcOk(s'.prepared, s'.killed, s'.pcs[q]) {
      if q != p {
        assert !OwnsTmp(s.pcs[q]);
        PrepareKeepsPc(s.prepared, s.killed, s.pcs[q], ino, e);
      }
    }
    if s.final.Some? { SettledStays(s.prepared, s.killed, s.final.value, ino, e); }
  }

  lemma SettledStays(prepared: set<nat>, killed: set<nat>, x: nat, ino: nat, e: ChildEnd)
    requires Settled(prepared, killed, x) && ino !in prepared && ino !in killed
    ensures Settled(if ReallyPrepared(e) then prepared + {ino} else prepared,
                    if e.Signaled? && !e.done then killed + {ino} else killed, x)
  {
    assert x != ino;
  }

  lemma FilesKeep(s: State, p: nat, a: Step)
    requires OneOwner(s) && FilesOk(s) && Enabled(s, p, a)
    ensures FilesOk(Apply(s, p, a))
  {
    hide ReportsSuccess, ReallyPrepared;
    if a.Prepare? {
      PrepareKeepsFiles(s, p, a.end);
    } else {
      var s' := Apply(s, p, a);
      assert PcOk(s.prepared, s.killed, s.pcs[p]);
      assert OwnsTmp(s.pcs[p]) ==> s.tmp == Some(s.pcs[p].ino);
      assert s'.prepared == s.prepared && s'.killed == s.killed;
      assert PcOk(s.prepared, s.killed, s'.pcs[p]);
      forall q | 0 <= q < |s.pcs| && q != p ensures PcOk(s.prepared, s.killed, s'.pcs[q]) {
        assert s'.pcs[q] == s.pcs[q];
      }
      hide Settled;
    }
  }

  lemma PreparersKeep(s: State, p: nat, a: Step)
    requires OneOwner(s) && PreparersOk(s) && Enabled(s, p, a)
    ensures PreparersOk(Apply(s, p, a))
  {
    hide ReportsSuccess, ReallyPrepared;
  }

  lemma {:induction false} RunKeeps(states: seq<State>, procs: seq<nat>, steps: seq<Step>, i: nat)
    requires IsRun(states, procs, steps) && i <= |steps|
    ensures Inv(states[i])
  {
    if i > 0 {
      hide OneOwner, FilesOk, PreparersOk;
      RunKeeps(states, procs, steps, i - 1);
      OwnerKeeps(states[i - 1], procs[i - 1], steps[i - 1]);
      FilesKeep(states[i - 1], procs[i - 1], steps[i - 1]);
      PreparersKeep(states[i - 1], procs[i - 1], steps[i - 1]);
      assert states[i - 1 + 1] == Apply(states[i - 1], procs[i - 1], steps[i - 1]);
    }
  }

  /** For any number of racing and crashing processes, at most one owns the temporary name at a
      time, and the name is then that process's file. */
  lemma OneProcessOwnsTmp(states: seq<State>, procs: seq<nat>, steps: seq<Step>, i: nat)
    requires IsRun(states, procs, steps) && i <= |steps|
    ensures OneOwner(states[i])
  {
    RunKeeps(states, procs, steps, i);
  }

  /** No child is killed by a signal before it has finished preparing. */
  predicate NoEarlyKill(steps: seq<Step>) {
    forall i :: 0 <= i < |steps| ==> !(steps[i].Prepare? && steps[i].end.Signaled? && !steps[i].end.done)
  }

  lemma {:induction false} KilledComesFromSignals(states: seq<State>, procs: seq<nat>, steps: seq<Step>, i: nat)
    requires IsRun(states, procs, steps) && i <= |steps| && NoEarlyKill(steps)
    ensures states[i].killed == {}
  {
    if i > 0 {
      KilledComesFromSignals(states, procs, steps, i - 1);
      assert states[i - 1 + 1] == Apply(states[i - 1], procs[i - 1], steps[i - 1]);
    }
  }

  /** The final name never names an unprepared file, and no process returns with one -- exactly
      as far as no preparing child was killed by a signal before it finished, since the wait
      status of a killed child has exit status 0. */
  lemma FinalIsPrepared(states: seq<State>, procs: seq<nat>, steps: seq<Step>, i: nat)
    requires IsRun(states, procs, steps) && i <= |steps|
    ensures var s := states[i];
            && (s.final.Some? ==> (s.final.value in s.prepared <==> s.final.value !in s.killed))
            && (forall p :: 0 <= p < |s.pcs| && s.pcs[p].Got? ==> (s.pcs[p].ino in s.prepared <==> s.pcs[p].ino !in s.killed))
            && (NoEarlyKill(steps) && s.final.Some? ==> s.final.value in s.prepared)
            && (NoEarlyKill(steps) ==> forall p :: 0 <= p < |s.pcs| && s.pcs[p].Got? ==> s.pcs[p].ino in s.prepared)
  {
    RunKeeps(states, procs, steps, i);
    if NoEarlyKill(steps) {
      KilledComesFromSignals(states, procs, steps, i);
    }
    hide NoEarlyKill;
    var s := states[i];
    assert forall p :: 0 <= p < |s.pcs| ==> PcOk(s.prepared, s.killed, s.pcs[p]);
  }

  /** No open of the final name fails for another reason than the name's absence. */
  predicate OpensReportAbsence(steps: seq<Step>) {
    forall i :: 0 <= i < |steps| ==> steps[i] != OpenFinal(true)
  }

  lemma {:induction false} NobodyMisled(states: seq<State>, procs: seq<nat>, steps: seq<Step>, i: nat)
    requires IsRun(states, procs, steps) && i <= |steps| && OpensReportAbsence(steps)
    ensures states[i].misled == {}
  {
    if i > 0 {
      NobodyMisled(states, procs, steps, i - 1);
      assert steps[i - 1] != OpenFinal(true);
      assert states[i - 1 + 1] == Apply(states[i - 1], procs[i - 1], steps[i - 1]);
    }
  }

  /** Renames put one preparation in place, plus one more for each that replaced an existing
      file; so at most one preparation is ever renamed into place when opens of the final name
      only fail because it is absent. */
  lemma OnePreparation(states: seq<State>, procs: seq<nat>, steps: seq<Step>, i: nat)
    requires IsRun(states, procs, steps) && i <= |steps|
    ensures states[i].renames == states[i].overwrites + (if states[i].final.Some? then 1 else 0)
    ensures OpensReportAbsence(steps) ==> states[i].renames <= 1
  {
    RunKeeps(states, procs, steps, i);
    if OpensReportAbsence(steps) {
      NobodyMisled(states, procs, steps, i);
    }
    hide OpensReportAbsence;
  }

  /** A successful rename replaces an existing file exactly if the renaming process had failed
      to open that file while it existed. */
  lemma OverwritesExactlyIfMisled(states: seq<State>, procs: seq<nat>, steps: seq<Step>, i: nat)
    requires IsRun(states, procs, steps) && i < |steps| && steps[i] == Rename(false)
    ensures states[i + 1].renames == states[i].renames + 1
    ensures states[i + 1].overwrites > states[i].overwrites <==> procs[i] in states[i].misled
  {
    RunKeeps(states, procs, steps, i);
    assert states[i + 1] == Apply(states[i], procs[i], steps[i]);
  }

  // ---- The temporary name is removed ----

  predicate Unowned(s: State) { forall p :: 0 <= p < |s.pcs| ==> !OwnsTmp(s.pcs[p]) }

  /** The steps by which an owner goes and leaves the temporary name behind: it crashes, its unlink
      fails, or its descriptor is 0, which both clean-ups take for no descriptor. */
  predicate Abandons(s: State, p: nat, a: Step)
    requires Enabled(s, p, a)
  {
    match a
    case Crash => OwnsTmp(s.pcs[p])
    case UnlinkUnneeded(error) => error
    case UnlinkOnFailure(error) => error || s.pcs[p].zero
    case OpenFinal(error) => s.pcs[p].HasTmp? && s.pcs[p].zero && s.final.Some? && !error
    case _ => false
  }

  predicate AbandonedAt(states: seq<State>, procs: seq<nat>, steps: seq<Step>, k: nat)
    requires k < |steps| && |states| == |steps| + 1 && |procs| == |steps|
  {
    Enabled(states[k], procs[k], steps[k]) && Abandons(states[k], procs[k], steps[k])
  }

  predicate AbandonedBefore(states: seq<State>, procs: seq<nat>, steps: seq<Step>, i: nat)
    requires i <= |steps| && |states| == |steps| + 1 && |procs| == |steps|
  {
    exists k :: 0 <= k < i && AbandonedAt(states, procs, steps, k)
  }

  /** The temporary name exists and belongs to nobody. */
  predicate Stale(s: State) { s.tmp.Some? && Unowned(s) }

  /** One step: the name is stale afterwards exactly if it was before or this step abandons it. */
  lemma StaleStep(s: State, p: nat, a: Step)
    requires OneOwner(s) && Enabled(s, p, a)
    ensures var s' := Apply(s, p, a);
            && (Stale(s') <==> Stale(s) || Abandons(s, p, a))
            && (Stale(s) ==> s'.tmp == s.tmp && s'.final == s.final && s'.renames == s.renames)
  {
    hide ReportsSuccess, ReallyPrepared;
    var s' := Apply(s, p, a);
    if !Stale(s) && s.tmp.Some? {
      var q :| 0 <= q < |s.pcs| && OwnsTmp(s.pcs[q]);
      if q == p {
        forall x | 0 <= x < |s.pcs| && x != p ensures !OwnsTmp(s'.pcs[x]) { assert s'.pcs[x] == s.pcs[x]; }
        assert Unowned(s') <==> !OwnsTmp(s'.pcs[p]);
        hide Unowned;
      } else {
        assert s'.pcs[q] == s.pcs[q];
        assert !OwnsTmp(s.pcs[p]);
      }
    } else if s.tmp == None && s'.tmp.Some? {
      assert OwnsTmp(s'.pcs[p]);
    }
  }

  /** While no process owns the temporary name, the name is absent -- exactly unless some owner crashed,
      failed to unlink it or had descriptor 0 before. */
  lemma {:induction false} TmpIsRemovedExactly(states: seq<State>, procs: seq<nat>, steps: seq<Step>, i: nat)
    requires IsRun(states, procs, steps) && i <= |steps|
    ensures Stale(states[i]) <==> AbandonedBefore(states, procs, steps, i)
    ensures Unowned(states[i]) ==> (states[i].tmp == None <==> !AbandonedBefore(states, procs, steps, i))
  {
    hide Abandons, OneOwner, FilesOk, PreparersOk;
    if i > 0 {
      TmpIsRemovedExactly(states, procs, steps, i - 1);
      RunKeeps(states, procs, steps, i - 1);
      StaleStep(states[i - 1], procs[i - 1], steps[i - 1]);
      assert states[i - 1 + 1] == Apply(states[i - 1], procs[i - 1], steps[i - 1]);
      hide Apply, Enabled, Stale, Unowned, Initial;
      assert AbandonedBefore(states, procs, steps, i) <==>
             AbandonedBefore(states, procs, steps, i - 1) || AbandonedAt(states, procs, steps, i - 1);
    }
  }

  /** And then for ever: once abandoned the temporary name stays, so nobody prepares again, and the
      final name is what it was. */
  lemma {:induction false} StaleForEver(states: seq<State>, procs: seq<nat>, steps: seq<Step>, i: nat, j: nat)
    requires IsRun(states, procs, steps) && i <= j <= |steps| && AbandonedBefore(states, procs, steps, i)
    ensures Unowned(states[j]) && states[j].tmp == states[i].tmp && states[j].tmp.Some?
    ensures states[j].final == states[i].final && states[j].renames == states[i].renames
    decreases j
  {
    hide Abandons, OneOwner, FilesOk, PreparersOk;
    if i == j {
      TmpIsRemovedExactly(states, procs, steps, i);
    } else {
      hide AbandonedBefore;
      StaleForEver(states, procs, steps, i, j - 1);
      RunKeeps(states, procs, steps, j - 1);
      StaleStep(states[j - 1], procs[j - 1], steps[j - 1]);
      assert states[j - 1 + 1] == Apply(states[j - 1], procs[j - 1], steps[j - 1]);
    }
  }

  // ---- Attempts ----

  /** How often process p has tried to create the temporary name in the first n steps. */
  function Tries(procs: seq<nat>, steps: seq<Step>, p: nat, n: nat): nat
    requires n <= |procs| == |steps|
  {
    if n == 0 then 0 else Tries(procs, steps, p, n - 1) + (if procs[n - 1] == p && steps[n - 1].OpenTmp? then 1 else 0)
  }

  predicate TriesOk(pc: Pc, tries: nat) {
    && tries <= ATTEMPTS
    && (pc.Trying? ==> tries == pc.i < ATTEMPTS)
    && (pc.NoTmp? || pc.HasTmp? ==> tries == pc.i + 1)
  }

  lemma {:induction false} TriesAreCounted(states: seq<State>, procs: seq<nat>, steps: seq<Step>, i: nat, p: nat)
    requires IsRun(states, procs, steps) && i <= |steps| && p < |states[0].pcs|
    ensures p < |states[i].pcs| && TriesOk(states[i].pcs[p], Tries(procs, steps, p, i))
  {
    hide ReportsSuccess, ReallyPrepared;
    if i > 0 {
      TriesAreCounted(states, procs, steps, i - 1, p);
      assert states[i - 1 + 1] == Apply(states[i - 1], procs[i - 1], steps[i - 1]);
    }
  }

  lemma {:induction false} SameProcesses(states: seq<State>, procs: seq<nat>, steps: seq<Step>, i: nat)
    requires IsRun(states, procs, steps) && i <= |steps|
    ensures |states[i].pcs| == |states[0].pcs|
  {
    hide ReportsSuccess, ReallyPrepared;
    if i > 0 {
      SameProcesses(states, procs, steps, i - 1);
      assert states[i - 1 + 1] == Apply(states[i - 1], procs[i - 1], steps[i - 1]);
    }
  }

  /** A process that does not get the temporary name opens the final one once per attempt and goes on
      exactly until it has it or has made SHARED_TIMEOUT attempts. */
  lemma GivesUpAfterAllAttempts(states: seq<State>, procs: seq<nat>, steps: seq<Step>, i: nat)
    requires IsRun(states, procs, steps) && i < |steps| && steps[i].OpenFinal? && states[i].pcs[procs[i]].NoTmp?
    ensures var p, found := procs[i], states[i].final.Some? && !steps[i].error;
            && p < |states[i + 1].pcs| && Tries(procs, steps, p, i) <= ATTEMPTS
            && (states[i + 1].pcs[p].GaveUp? <==> !found && Tries(procs, steps, p, i) == ATTEMPTS)
            && (states[i + 1].pcs[p].Trying? <==> !found && Tries(procs, steps, p, i) < ATTEMPTS)
            && (states[i + 1].pcs[p].Got? <==> found)
  {
    SameProcesses(states, procs, steps, i);
    TriesAreCounted(states, procs, steps, i, procs[i]);
    hide Tries;
    assert states[i + 1] == Apply(states[i], procs[i], steps[i]);
  }

  // ---- What the call returns ----

  /** A process about to clean up has opened the file that still has the final name. */
  predicate CleaningOk(s: State) {
    forall p :: 0 <= p < |s.pcs| && s.pcs[p].CleaningUp? ==> s.final == Some(s.pcs[p].got)
  }

  lemma {:induction false} CleaningKeeps(states: seq<State>, procs: seq<nat>, steps: seq<Step>, i: nat)
    requires IsRun(states, procs, steps) && i <= |steps|
    ensures CleaningOk(states[i])
  {
    hide ReportsSuccess, ReallyPrepared, FilesOk, PreparersOk;
    if i > 0 {
      CleaningKeeps(states, procs, steps, i - 1);
      RunKeeps(states, procs, steps, i - 1);
      assert states[i - 1 + 1] == Apply(states[i - 1], procs[i - 1], steps[i - 1]);
    }
  }

  /** The file a process returns 0 with is the one that has the final name at that moment; and a process
      whose preparation was reported a success and whose rename does not fail returns with its own. */
  lemma ReturnsTheFinalFile(states: seq<State>, procs: seq<nat>, steps: seq<Step>, i: nat)
    requires IsRun(states, procs, steps) && i < |steps|
    ensures var p, s, s' := procs[i], states[i], states[i + 1];
            && p < |s.pcs| == |s'.pcs|
            && (s'.pcs[p].Got? ==> s'.final == Some(s'.pcs[p].ino))
            && (steps[i] == Rename(false) ==> s'.pcs[p] == Got(s.pcs[p].ino) && s'.tmp == None)
            && (steps[i].Prepare? && ((steps[i].end.Exited? && steps[i].end.code % 256 == 0) || steps[i].end.Signaled?) ==>
                  s'.pcs[p].Renaming?)
  {
    hide ReportsSuccess, ReallyPrepared, FilesOk, PreparersOk;
    CleaningKeeps(states, procs, steps, i);
    RunKeeps(states, procs, steps, i);
    assert states[i + 1] == Apply(states[i], procs[i], steps[i]);
    if steps[i].Prepare? { SignalLooksLikeSuccess(steps[i].end); }
  }

  // ---- Runs in which the promises fail ----

  function Start(n: nat): State {
    State(None, None, 0, {}, seq(n, p => Trying(0)), {}, {}, 0, 0)
  }

  /** One process whose child is killed at once puts an unprepared file in place. */
  lemma KilledChildPublishesUnprepared()
    ensures exists states: seq<State>, procs: seq<nat>, steps: seq<Step> ::
              && IsRun(states, procs, steps) && |steps| == 4
              && states[4].final.Some? && states[4].final.value !in states[4].prepared
  {
    var procs := [0, 0, 0, 0];
    var steps := [OpenTmp(false, false), OpenFinal(false), Prepare(Signaled(9, false)), Rename(false)];
    var s0 := Start(1);
    var s1 := Apply(s0, 0, steps[0]);
    var s2 := Apply(s1, 0, steps[1]);
    SignalLooksLikeSuccess(Signaled(9, false));
    var s3 := Apply(s2, 0, steps[2]);
    var s4 := Apply(s3, 0, steps[3]);
    assert IsRun([s0, s1, s2, s3, s4], procs, steps);
  }

  /** One process that gets descriptor 0 and cannot fork gives up and leaves the temporary name behind. */
  lemma DescriptorZeroLeavesTmp()
    ensures exists states: seq<State>, procs: seq<nat>, steps: seq<Step> ::
              && IsRun(states, procs, steps) && |steps| == 4 && steps[3] == UnlinkOnFailure(false)
              && Stale(states[4]) && states[4].final == None
  {
    var procs := [0, 0, 0, 0];
    var steps := [OpenTmp(false, true), OpenFinal(false), Prepare(NotForked), UnlinkOnFailure(false)];
    var s0 := Start(1);
    var s1 := Apply(s0, 0, steps[0]);
    var s2 := Apply(s1, 0, steps[1]);
    var s3 := Apply(s2, 0, steps[2]);
    var s4 := Apply(s3, 0, steps[3]);
    assert IsRun([s0, s1, s2, s3, s4], procs, steps);
  }

  /** What one process does to a directory it finds: creates the temporary file, opens the final
      name, prepares, renames.  Four steps on their own. */
  function Round(s: State, p: nat, error: bool): seq<State>
    requires p < |s.pcs| && s.pcs[p] == Trying(0) && s.tmp == None && (s.final == None || error)
    ensures |Round(s, p, error)| == 5 && Round(s, p, error)[0] == s
  {
    var ino := s.nextIno;
    var s1 := s.(tmp := Some(ino), nextIno := ino + 1, pcs := s.pcs[p := HasTmp(0, ino, false)]);
    var s2 := s1.(pcs := s1.pcs[p := Preparing(ino, false)], misled := if s.final.Some? then s.misled + {p} else s.misled);
    var s3 := s2.(prepared := s2.prepared + {ino}, pcs := s2.pcs[p := Renaming(ino, false)]);
    var s4 := s3.(final := Some(ino), tmp := None, renames := s.renames + 1,
                  overwrites := s.overwrites + (if s.final.Some? then 1 else 0), pcs := s3.pcs[p := Got(ino)]);
    [s, s1, s2, s3, s4]
  }

  function RoundSteps(error: bool): seq<Step> {
    [OpenTmp(false, false), OpenFinal(error), Prepare(Exited(0)), Rename(false)]
  }

  lemma RoundRuns(s: State, p: nat, error: bool)
    requires p < |s.pcs| && s.pcs[p] == Trying(0) && s.tmp == None && (s.final == None || error)
    ensures forall i :: 0 <= i < 4 ==>
              && Enabled(Round(s, p, error)[i], p, RoundSteps(error)[i])
              && Round(s, p, error)[i + 1] == Apply(Round(s, p, error)[i], p, RoundSteps(error)[i])
  {
    hide ReportsSuccess;
    SignalLooksLikeSuccess(Exited(0));
    var r := Round(s, p, error);
    assert r[1] == Apply(r[0], p, RoundSteps(error)[0]);
    assert r[2] == Apply(r[1], p, RoundSteps(error)[1]);
    assert r[3] == Apply(r[2], p, RoundSteps(error)[2]);
    assert r[4] == Apply(r[3], p, RoundSteps(error)[3]);
  }

  /** A second process that cannot open the existing file prepares and renames a second one. */
  lemma MisledProcessPreparesAgain()
    ensures exists states: seq<State>, procs: seq<nat>, steps: seq<Step> ::
              && IsRun(states, procs, steps) && |steps| == 8 && NoEarlyKill(steps)
              && states[8].renames == 2 && states[8].overwrites == 1
  {
    var one := Round(Start(2), 0, false);
    var two := Round(one[4], 1, true);
    RoundRuns(Start(2), 0, false);
    RoundRuns(one[4], 1, true);
    assert two[4].renames == 2 && two[4].overwrites == 1;
    var states, procs, steps := one + two[1..], [0, 0, 0, 0, 1, 1, 1, 1], RoundSteps(false) + RoundSteps(true);
    assert Initial(one[0]);
    hide Round, Apply, Enabled, Initial;
    forall i | 0 <= i < 8 ensures Enabled(states[i], procs[i], steps[i]) && states[i + 1] == Apply(states[i], procs[i], steps[i]) {
      if i < 4 {
        assert states[i] == one[i] && states[i + 1] == one[i + 1] && steps[i] == RoundSteps(false)[i] && procs[i] == 0;
      } else {
        assert states[i] == two[i - 4] && states[i + 1] == two[i - 4 + 1] && steps[i] == RoundSteps(true)[i - 4] && procs[i] == 1;
      }
    }
    assert IsRun(states, procs, steps);
  }
}
