/** A run of the split virtqueue in which a notification is lost. */
module VirtqueueWitness {
  import opened Options
  import opened Bits
  import opened VirtqueueProtocol
  import opened VirtqueueInvariant
  import opened VirtqueueSteps
  import opened VirtqueueTheorems
  import opened VirtqueueCode

  /** Both parties between calls, nothing under way, a descriptor free. */
  predicate Quiet(w: World) {
    && Inv(w) && w.q.drv.pc.DriverIdle? && w.q.dev.pc.DeviceIdle? && w.q.drv.freeCnt >= 1
    && w.q.dev.availCons == w.q.sh.availIdx && w.q.drv.usedCons == w.q.sh.usedIdx
  }

  /** No action of notification, and the entries the actions publish. */
  predicate Silent(acts: seq<Action>) {
    forall i :: 0 <= i < |acts| ==> Calm(acts[i])
  }

  predicate Calm(a: Action) { !(a.Arm? || a.ArmCheck? || a.Disarm? || a.Kick?) }

  function Published(acts: seq<Action>): nat {
    if acts == [] then 0 else (if acts[0].BumpAvail? then 1 else 0) + Published(acts[1..])
  }

  lemma {:induction false} PublishedConcat(a: seq<Action>, b: seq<Action>)
    ensures Published(a + b) == Published(a) + Published(b)
    ensures Silent(a) && Silent(b) ==> Silent(a + b)
  {
    if a == [] {
      assert a + b == b;
    } else {
      PublishedConcat(a[1..], b);
      assert (a + b)[1..] == a[1..] + b;
    }
  }

  lemma SilentStep(w: World, a: Action)
    requires Enabled(w.q, a) && Safe(w.q, a) && Calm(a)
    ensures var h, h' := w.h, Next(w, a).h;
            && h'.availCount == h.availCount + (if a.BumpAvail? then 1 else 0)
            && h'.driverKick == h.driverKick && h'.deviceArmed == h.deviceArmed
    ensures Next(w, a).q.eventIdx == w.q.eventIdx && Next(w, a).q.n == w.q.n
  {
    hide Wrap, Slot, FreedFrom, Reown;
  }

  /** Such actions move the published count and nothing else that notifications depend on. */
  lemma {:induction false} SilentRun(w: World, acts: seq<Action>, w': World)
    requires Runs(w, acts, w') && Silent(acts)
    ensures w'.h.availCount == w.h.availCount + Published(acts)
    ensures w'.h.driverKick == w.h.driverKick && w'.h.deviceArmed == w.h.deviceArmed
    ensures w'.q.eventIdx == w.q.eventIdx && w'.q.n == w.q.n
    decreases |acts|
  {
    if acts != [] {
      hide Enabled, Safe, Next;
      SilentStep(w, acts[0]);
      SilentRun(Next(w, acts[0]), acts[1..], w');
    }
  }

  lemma WrapMoves(x: u16)
    ensures Wrap(x + 1) != x
  {
    WrapIsMod(x + 1);
    hide Wrap;
  }

  /** One round: the driver adds a buffer, the device takes it and returns it, the driver reaps it. */
  lemma Round(w: World) returns (acts: seq<Action>, w': World)
    requires Quiet(w)
    ensures Runs(w, acts, w') && Quiet(w') && Silent(acts) && Published(acts) == 1
  {
    hide Inv, Runs, Apply, Next, Record, Wrap, Slot, PowerOfTwo, NamesChain, Safe, Published, Silent;
    var req := Request([Buf(0, 1)], 1, 0);
    assert Enabled(w.q, AddBegin(req));
    var w1 := BeginCall(w, req);
    var w2 := FillCall(w1);
    var w3 := PublishCall(w2);
    var added := [AddBegin(req)] + [FillOne] + [WriteSlot, BumpAvail];
    RunsAppend(w, [AddBegin(req)], w1, [FillOne], w2);
    RunsAppend(w, [AddBegin(req)] + [FillOne], w2, [WriteSlot, BumpAvail], w3);
    WrapMoves(w.q.sh.availIdx);
    WrapMoves(w.q.sh.usedIdx);
    var w4 := TakeCall(w3);
    var head := w3.q.sh.availRing[Slot(w3.q.dev.availCons, w3.q.n)];
    var w5 := UseCall(w4, head, 1);
    var ds;
    w', ds := ReapCall(w5);
    var taken, returned := [TakeCheck, TakeRead, TakeDesc], [UseWrite(head, 1), BumpUsed];
    acts := added + taken + returned + [ReapCheck, ReapRead];
    RunsAppend(w, added, w3, taken, w4);
    RunsAppend(w, added + taken, w4, returned, w5);
    RunsAppend(w, added + taken + returned, w5, [ReapCheck, ReapRead], w');
    HeadMeansFree(w');
    RoundActs(req, head);
  }

  lemma RoundActs(req: Request, head: nat)
    ensures var acts := [AddBegin(req)] + [FillOne] + [WriteSlot, BumpAvail] + [TakeCheck, TakeRead, TakeDesc]
                        + [UseWrite(head, 1), BumpUsed] + [ReapCheck, ReapRead];
            Silent(acts) && Published(acts) == 1
  {
    hide Published, Silent;
    var a1, a2, a3 := [AddBegin(req)], [FillOne], [WriteSlot, BumpAvail];
    var a4, a5, a6 := [TakeCheck, TakeRead, TakeDesc], [UseWrite(head, 1), BumpUsed], [ReapCheck, ReapRead];
    ThreeActs(AddBegin(req), AddBegin(req), AddBegin(req));
    ThreeActs(FillOne, FillOne, FillOne);
    ThreeActs(WriteSlot, BumpAvail, BumpAvail);
    ThreeActs(TakeCheck, TakeRead, TakeDesc);
    ThreeActs(UseWrite(head, 1), BumpUsed, BumpUsed);
    ThreeActs(ReapCheck, ReapRead, ReapRead);
    PublishedConcat(a1, a2);
    PublishedConcat(a1 + a2, a3);
    PublishedConcat(a1 + a2 + a3, a4);
    PublishedConcat(a1 + a2 + a3 + a4, a5);
    PublishedConcat(a1 + a2 + a3 + a4 + a5, a6);
  }

  function Bump(a: Action): nat { if a.BumpAvail? then 1 else 0 }

  lemma ThreeActs(a: Action, b: Action, c: Action)
    ensures Published([a]) == Bump(a) && Published([a, b]) == Bump(a) + Bump(b)
    ensures Published([a, b, c]) == Bump(a) + Bump(b) + Bump(c)
    ensures Calm(a) && Calm(b) && Calm(c) ==> Silent([a]) && Silent([a, b]) && Silent([a, b, c])
  {
    hide Published;
    PublishedCons(a, []);
    PublishedCons(b, []);
    PublishedCons(c, []);
    PublishedCons(a, [b]);
    PublishedCons(b, [c]);
    PublishedCons(a, [b, c]);
    assert [a] + [] == [a] && [b] + [] == [b] && [c] + [] == [c];
    assert [a] + [b] == [a, b] && [b] + [c] == [b, c] && [a] + [b, c] == [a, b, c];
  }

  lemma PublishedCons(a: Action, rest: seq<Action>)
    ensures Published([a] + rest) == Bump(a) + Published(rest) && Published([]) == 0
  {
    assert ([a] + rest)[1..] == rest;
  }

  /** A head index inside the table means that something is free. */
  lemma HeadMeansFree(w: World)
    requires Inv(w) && w.q.drv.headIdx < w.q.n
    ensures w.q.drv.freeCnt >= 1
  {
    PowersOfTwo();
  }

  lemma {:induction false} Rounds(w: World, m: nat) returns (acts: seq<Action>, w': World)
    requires Quiet(w)
    ensures Runs(w, acts, w') && Quiet(w') && Silent(acts) && Published(acts) == m
    decreases m
  {
    hide Quiet, Runs, Silent;
    if m == 0 {
      acts, w' := [], w;
      NoRun(w);
      assert Silent([]) by { NothingSilent(); }
    } else {
      var acts1, w1 := Rounds(w, m - 1);
      var acts2;
      acts2, w' := Round(w1);
      acts := acts1 + acts2;
      RunsAppend(w, acts1, w1, acts2, w');
      PublishedConcat(acts1, acts2);
    }
  }

  lemma NothingSilent()
    ensures Silent([])
  {}

  /** A run from the initial state with event indices: the device enables notifications, sees nothing
      pending and is told 0; the driver publishes 2^16 entries, which the device happens to find; and
      the kick that follows notifies nobody, although entry 0 and all after it are new. */
  lemma LostNotification(w0: World) returns (acts: seq<Action>, w: World)
    requires Initial(w0) && w0.q.eventIdx
    ensures Runs(w0, acts, w) && Inv(w) && w.q.drv.pc.DriverIdle?
    ensures w.h.deviceArmed == Some(0) && w.h.availCount == U16 && w.h.driverKick == 0
    ensures !MustNotify(w.q, DriverRole)
  {
    hide Inv, Runs, Apply, Next, Record, Wrap, Slot, PowerOfTwo, Safe, MustNotify;
    InitialKeeps(w0);
    assert Wrap(0) == 0 by { WrapSmall(0); }
    var w1 := ArmCall(w0, DeviceRole);
    ArmedAt(w0, w1);
    var more;
    more, w := Rounds(w1, U16);
    acts := [Arm(DeviceRole), ArmCheck(DeviceRole)] + more;
    RunsAppend(w0, [Arm(DeviceRole), ArmCheck(DeviceRole)], w1, more, w);
    SilentRun(w1, more, w);
    WrappedQueueCountIsSilent(w, 1);
  }

  lemma ArmedAt(w0: World, w1: World)
    requires Initial(w0) && Runs(w0, [Arm(DeviceRole), ArmCheck(DeviceRole)], w1)
    ensures w1.h.availCount == 0 && w1.h.driverKick == 0
  {
    hide Wrap;
    assert [Arm(DeviceRole), ArmCheck(DeviceRole)][1..] == [ArmCheck(DeviceRole)] && [ArmCheck(DeviceRole)][1..] == [];
  }

  /** Whatever Runs reaches from an initial world is reached by a run. */
  lemma {:induction false} RunsAreRuns(w: World, acts: seq<Action>, w': World) returns (worlds: seq<World>)
    requires Runs(w, acts, w')
    ensures |worlds| == |acts| + 1 && worlds[0] == w && worlds[|acts|] == w'
    ensures forall i :: 0 <= i < |acts| ==> Step(worlds[i], acts[i], worlds[i + 1])
    ensures Initial(w) ==> IsRun(worlds, acts)
    decreases |acts|
  {
    if acts == [] {
      worlds := [w];
    } else {
      var next := Next(w, acts[0]);
      assert Step(w, acts[0], next);
      var rest := RunsAreRuns(next, acts[1..], w');
      worlds := [w] + rest;
      hide Step, Initial, Runs;
      forall i | 0 <= i < |acts| ensures Step(worlds[i], acts[i], worlds[i + 1]) {
        if i > 0 { assert Step(rest[i - 1], acts[1..][i - 1], rest[i - 1 + 1]); }
      }
    }
  }

  /** An initial world with one descriptor. */
  lemma SmallestWorld(eventIdx: bool) returns (w: World)
    ensures Initial(w) && w.q.n == 1 && w.q.eventIdx == eventIdx
  {
    var desc := [Desc(0, 0, false, false, false, CHAIN_END)];
    var q := Init(1, eventIdx, desc, [0], [UsedElem(0, 0)]);
    w := World(q, InitHist(1));
    assert q.sh.desc == desc;
  }

  /** So there is a run in which the first kick after the device enabled notifications, with 2^16 new
      entries published, stays silent. */
  lemma NotificationCanBeLost()
    ensures exists worlds: seq<World>, acts: seq<Action> ::
              && IsRun(worlds, acts)
              && var w := worlds[|acts|];
                 && w.h.deviceArmed == Some(0) && w.h.availCount == U16 && w.h.driverKick == 0
                 && Enabled(w.q, Kick(DriverRole)) && !MustNotify(w.q, DriverRole)
  {
    hide Initial, Runs, Inv, MustNotify, Step;
    var w0 := SmallestWorld(true);
    var acts, w := LostNotification(w0);
    var worlds := RunsAreRuns(w0, acts, w);
    assert IsRun(worlds, acts);
  }
}
