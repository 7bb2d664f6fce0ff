/** What every run of the split virtqueue guarantees. */
module VirtqueueTheorems {
  import opened Options
  import opened Bits
  import opened Counting
  import opened VirtqueueProtocol
  import opened VirtqueueInvariant
  import opened VirtqueueSteps

  lemma InitialKeeps(w: World)
    requires Initial(w)
    ensures Inv(w)
  {
    var q, h := w.q, w.h;
    InitialFree(w);
    hide FreeOk, Wrap, Slot;
    WrapSmall(0);
  }

  lemma InitialFree(w: World)
    requires Initial(w)
    ensures FreeOk(w.q.n, w.q.sh.desc, w.q.drv.headIdx, w.q.drv.freeCnt, w.h.free, w.h.owner)
  {
    var q, h := w.q, w.h;
    forall i | 0 <= i < q.n ensures q.sh.desc[i].next == At(h.free, i + 1) {
      assert q.sh.desc[i] == InitDesc(q.n, i, q.sh.desc[i]);
    }
    forall d | 0 <= d < q.n ensures d in h.free {
      assert h.free[d] == d;
    }
  }

  lemma StepKeeps(w: World, a: Action, w': World)
    requires Inv(w) && Step(w, a, w')
    ensures Inv(w')
  {
    hide Inv, Step;
    match a
    case AddBegin(req) => AddBeginKeeps(w, req, w');
    case FillOne => FillOneKeeps(w, w');
    case WriteSlot => WriteSlotKeeps(w, w');
    case BumpAvail => BumpAvailKeeps(w, w');
    case ReapCheck => ReapCheckKeeps(w, w');
    case ReapRead => ReapReadKeeps(w, w');
    case TakeCheck => TakeCheckKeeps(w, w');
    case TakeRead => TakeReadKeeps(w, w');
    case TakeDesc => TakeDescKeeps(w, w');
    case UseWrite(head, len) => UseWriteKeeps(w, head, len, w');
    case BumpUsed => BumpUsedKeeps(w, w');
    case Arm(r) => ArmKeeps(w, a, w');
    case ArmCheck(r) => ArmKeeps(w, a, w');
    case Disarm(r) => ArmKeeps(w, a, w');
    case Kick(r) => KickKeeps(w, a, w');
  }

  /** The invariant holds after every prefix of every run. */
  lemma {:induction false} RunKeeps(worlds: seq<World>, acts: seq<Action>, t: nat)
    requires IsRun(worlds, acts) && t <= |acts|
    ensures Inv(worlds[t])
  {
    hide Inv, Step;
    if t == 0 {
      InitialKeeps(worlds[0]);
    } else {
      RunKeeps(worlds, acts, t - 1);
      assert Step(worlds[t - 1], acts[t - 1], worlds[t - 1 + 1]);
      StepKeeps(worlds[t - 1], acts[t - 1], worlds[t]);
    }
  }

  /** No table is ever indexed out of bounds: whatever the API lets a party do is safe. */
  lemma EnabledIsSafe(w: World, a: Action)
    requires Inv(w) && Enabled(w.q, a)
    ensures Safe(w.q, a)
  {
    hide FreeOk, ChainsOk, AvailOk, UsedOk, HeldOk, FillOk, CookieOk, LogOk, Wrap, Slot, NotifyOk, ChainOk;
    var q, h := w.q, w.h;
    FreeBounds(q.n, q.sh.desc, q.drv.headIdx, q.drv.freeCnt, h.free, h.owner);
    match a {
      case AddBegin(_) =>
      case FillOne =>
        FillEntry(q.sh.desc, q.drv.extra, q.drv.pc, h.free);
      case WriteSlot =>
        FillEntry(q.sh.desc, q.drv.extra, q.drv.pc, h.free);
      case ReapRead =>
        UsedEntry(q.n, q.sh.usedRing, h.chains, h.stage, h.returned, |h.reaped|);
        ChainEntry(q.sh.desc, q.drv.extra, h.owner, h.chains, h.stage, h.returned[|h.reaped|]);
      case TakeDesc =>
        AvailEntry(q.n, q.sh.availRing, h.chains, h.stage, |h.taken|, |h.taken|);
        ChainEntry(q.sh.desc, q.drv.extra, h.owner, h.chains, h.stage, |h.taken|);
      case _ =>
    }
  }

  predicate Live(s: Stage) { s != Reaped }

  // ---- First in, first out ----

  /** The requests of a run, in the order the driver's calls began. */
  function Requests(acts: seq<Action>): (r: seq<Request>) {
    if acts == [] then []
    else Requests(acts[..|acts| - 1]) + (if acts[|acts| - 1].AddBegin? then [acts[|acts| - 1].req] else [])
  }

  function ChainRequests(chains: seq<Chain>): (r: seq<Request>)
    ensures |r| == |chains| && forall k :: 0 <= k < |chains| ==> r[k] == chains[k].req
  {
    seq(|chains|, k requires 0 <= k < |chains| => chains[k].req)
  }

  /** The requests recorded so far: those behind a chain, and the one being filled in. */
  function Recorded(w: World): (r: seq<Request>) {
    ChainRequests(w.h.chains) + (if w.q.drv.pc.Filling? then [w.q.drv.pc.req] else [])
  }

  lemma StepRecords(w: World, a: Action, w': World)
    requires Step(w, a, w')
    ensures Recorded(w') == Recorded(w) + (if a.AddBegin? then [a.req] else [])
  {
    hide Wrap, Slot, FreedFrom, Reown;
    if a.WriteSlot? {
      assert ChainRequests(w'.h.chains) == ChainRequests(w.h.chains) + [w.q.drv.pc.req];
    }
  }

  /** Chains appear in the record in the order of the driver's calls. */
  lemma {:induction false} ChainsAreRequests(worlds: seq<World>, acts: seq<Action>, t: nat)
    requires IsRun(worlds, acts) && t <= |acts|
    ensures Requests(acts[..t]) == Recorded(worlds[t])
  {
    hide Step, Inv;
    if t == 0 {
      assert Initial(worlds[0]);
    } else {
      ChainsAreRequests(worlds, acts, t - 1);
      assert Step(worlds[t - 1], acts[t - 1], worlds[t - 1 + 1]);
      StepRecords(worlds[t - 1], acts[t - 1], worlds[t]);
      assert acts[..t][..t - 1] == acts[..t - 1];
    }
  }

  /** Over every interleaving, and however often the 16-bit indices wrap: the k-th successful
      virtqueue_get_available_buffer returns the first buffer of the k-th request the driver
      made, never before it was published; and the device finds the ring empty only when it
      has taken everything published. */
  lemma TakesAreFifo(worlds: seq<World>, acts: seq<Action>, t: nat)
    requires IsRun(worlds, acts) && t <= |acts|
    ensures var w, reqs := worlds[t], Requests(acts[..t]);
            && |w.h.taken| <= w.h.availCount <= |w.h.chains| <= |reqs|
            && (forall k :: 0 <= k < |w.h.taken| ==>
                  && |reqs[k].bufs| >= 1
                  && w.h.taken[k].addr == reqs[k].bufs[0].addr && w.h.taken[k].len == reqs[k].bufs[0].len
                  && |w.h.chains[k].descs| >= 1 && w.h.taken[k].head == w.h.chains[k].descs[0])
            && (w.q.dev.pc.DeviceIdle? && w.q.dev.availCons == w.q.sh.availIdx ==> |w.h.taken| == w.h.availCount)
  {
    RunKeeps(worlds, acts, t);
    ChainsAreRequests(worlds, acts, t);
    EmptyRings(worlds[t]);
    hide AvailOk, UsedOk, HeldOk, FillOk, CookieOk, FreeOk, Wrap, Slot, NotifyOk, ChainOk;
  }

  lemma EmptyRings(w: World)
    requires Inv(w)
    ensures w.q.dev.pc.DeviceIdle? && w.q.dev.availCons == w.q.sh.availIdx ==> |w.h.taken| == w.h.availCount
    ensures w.q.drv.pc.DriverIdle? && w.q.drv.usedCons == w.q.sh.usedIdx ==> |w.h.reaped| == w.h.usedCount
  {
    hide Inv;
    NothingPending(w);
    assert Wrap(0) == 0;
  }

  /** What a device reads that follows the NEXT flags from a descriptor: each buffer and whether it may
      write it. */
  function Follow(desc: seq<Desc>, idx: nat, fuel: nat): (r: seq<(Buf, bool)>)
    decreases fuel
  {
    if idx >= |desc| then []
    else
      [(Buf(desc[idx].addr, desc[idx].len), desc[idx].writable)] +
      if fuel == 0 || !desc[idx].hasNext then [] else Follow(desc, desc[idx].next, fuel - 1)
  }

  /** What a request asks for, from its i-th buffer on. */
  function Asked(req: Request, i: nat): (r: seq<(Buf, bool)>)
    decreases |req.bufs| - i
  {
    if i >= |req.bufs| then [] else [(req.bufs[i], i >= req.readable)] + Asked(req, i + 1)
  }

  lemma LinkOfChain(desc: seq<Desc>, extra: seq<Extra>, owner: seq<Owner>, k: nat, c: Chain, i: nat)
    requires ChainOk(desc, extra, owner, k, c) && i < |c.descs|
    ensures |c.descs| == |c.req.bufs| && c.descs[i] < |desc|
    ensures var d := desc[c.descs[i]];
            && Buf(d.addr, d.len) == c.req.bufs[i] && d.writable == (i >= c.req.readable) && d.hasNext == (i + 1 < |c.descs|)
            && (i + 1 < |c.descs| ==> d.next == c.descs[i + 1])
  {
    var d := desc[c.descs[i]];
    assert d == Filled(d, c.req, i);
  }

  lemma {:induction false} FollowsRequest(desc: seq<Desc>, extra: seq<Extra>, owner: seq<Owner>, k: nat, c: Chain, i: nat, fuel: nat)
    requires ChainOk(desc, extra, owner, k, c) && i < |c.descs| && fuel >= |c.descs| - 1 - i
    ensures Follow(desc, c.descs[i], fuel) == Asked(c.req, i)
    decreases fuel
  {
    LinkOfChain(desc, extra, owner, k, c, i);
    hide ChainOk, Filled;
    if i + 1 < |c.descs| {
      FollowsRequest(desc, extra, owner, k, c, i + 1, fuel - 1);
    } else {
      assert Asked(c.req, i + 1) == [];
    }
  }

  /** Whole requests: as long as the driver has not got the k-th taken chain back, a device that follows
      NEXT from the head it was given reads exactly the buffers of the k-th request, in order, with
      their lengths, those after the readable ones flagged writable. */
  lemma TakenChainsAreWhole(worlds: seq<World>, acts: seq<Action>, t: nat, k: nat)
    requires IsRun(worlds, acts) && t <= |acts| && k < |worlds[t].h.taken|
    requires k < |worlds[t].h.stage| && Live(worlds[t].h.stage[k])
    ensures var w, reqs := worlds[t], Requests(acts[..t]);
            k < |reqs| && Follow(w.q.sh.desc, w.h.taken[k].head, w.q.n) == Asked(reqs[k], 0)
  {
    RunKeeps(worlds, acts, t);
    ChainsAreRequests(worlds, acts, t);
    var q, h := worlds[t].q, worlds[t].h;
    hide AvailOk, UsedOk, HeldOk, FillOk, CookieOk, FreeOk, Wrap, Slot, NotifyOk, ChainOk, ChainsOk, Step, Follow, Asked;
    ChainEntry(q.sh.desc, q.drv.extra, h.owner, h.chains, h.stage, k);
    ChainFitsTable(q.n, q.sh.desc, q.drv.headIdx, q.drv.freeCnt, h.free, h.owner, q.drv.extra, h.chains[k], k);
    FollowsRequest(q.sh.desc, q.drv.extra, h.owner, k, h.chains[k], 0, q.n);
  }

  lemma ChainFitsTable(n: nat, desc: seq<Desc>, headIdx: nat, freeCnt: nat, free: seq<nat>, owner: seq<Owner>,
                       extra: seq<Extra>, c: Chain, k: nat)
    requires FreeOk(n, desc, headIdx, freeCnt, free, owner) && ChainOk(desc, extra, owner, k, c)
    ensures |c.descs| <= n
  {
    FreeAfterReturning(n, desc, headIdx, freeCnt, free, owner, extra, c, k);
  }

  // ---- Descriptors and cookies ----

  /** The descriptors met by following `next`, and where the walk ends. */
  function Walk(desc: seq<Desc>, from: nat, steps: nat): (r: (seq<nat>, nat))
    decreases steps
  {
    if steps == 0 || from >= |desc| then ([], from)
    else
      var (rest, end) := Walk(desc, desc[from].next, steps - 1);
      ([from] + rest, end)
  }

  lemma WalkOne(desc: seq<Desc>, from: nat, steps: nat)
    requires steps > 0 && from < |desc|
    ensures var w := Walk(desc, desc[from].next, steps - 1); Walk(desc, from, steps) == ([from] + w.0, w.1)
  {}

  lemma WalkEnd(desc: seq<Desc>, from: nat)
    ensures Walk(desc, from, 0) == ([], from)
  {}

  lemma {:induction false} WalkIsFreeList(n: nat, desc: seq<Desc>, headIdx: nat, freeCnt: nat, free: seq<nat>,
                                          owner: seq<Owner>, i: nat)
    requires FreeOk(n, desc, headIdx, freeCnt, free, owner) && i <= |free| && n <= CHAIN_END
    ensures Walk(desc, At(free, i), |free| - i) == (free[i..], CHAIN_END)
    decreases |free| - i
  {
    hide FreeOk, Walk;
    if i < |free| {
      FreeEntry(n, desc, headIdx, freeCnt, free, owner, i);
      FreeBounds(n, desc, headIdx, freeCnt, free, owner);
      WalkIsFreeList(n, desc, headIdx, freeCnt, free, owner, i + 1);
      WalkOne(desc, free[i], |free| - i);
      assert free[i..] == [free[i]] + free[i + 1..];
    } else {
      WalkEnd(desc, CHAIN_END);
      assert free[i..] == [];
    }
  }

  /** In every reachable state, following `next` from vq_desc_head_idx meets exactly vq_free_cnt
      distinct descriptors and then the terminator; every descriptor is either one of these
      or on exactly one live chain; and live chains do not overlap. */
  lemma DescriptorsArePartitioned(worlds: seq<World>, acts: seq<Action>, t: nat)
    requires IsRun(worlds, acts) && t <= |acts|
    ensures var q, h := worlds[t].q, worlds[t].h;
            var (free, end) := Walk(q.sh.desc, q.drv.headIdx, q.drv.freeCnt);
            && |free| == q.drv.freeCnt && NoDup(free) && end == CHAIN_END
            && |h.stage| == |h.chains| && |h.owner| == q.n
            && (forall d :: 0 <= d < q.n ==> (h.owner[d] == Free <==> d in free))
            && (forall d, k :: 0 <= d < q.n && 0 <= k < |h.chains| ==>
                  (h.owner[d] == In(k) <==> Live(h.stage[k]) && d in h.chains[k].descs))
            && (forall d :: 0 <= d < q.n && h.owner[d].In? ==> h.owner[d].k < |h.chains|)
  {
    RunKeeps(worlds, acts, t);
    var q, h := worlds[t].q, worlds[t].h;
    PowersOfTwo();
    WalkIsFreeList(q.n, q.sh.desc, q.drv.headIdx, q.drv.freeCnt, h.free, h.owner, 0);
    assert h.free[0..] == h.free;
    assert FreeOk(q.n, q.sh.desc, q.drv.headIdx, q.drv.freeCnt, h.free, h.owner);
    assert ChainsOk(q.sh.desc, q.drv.extra, h.owner, h.chains, h.stage);
    hide Inv, Walk;
  }

  /** The assertions of the debug build hold in every reachable state: the head index is valid or,
      on a full ring, the terminator, and a call that begins finds no cookie at the head. */
  lemma DebugAssertionsHold(worlds: seq<World>, acts: seq<Action>, t: nat)
    requires IsRun(worlds, acts) && t <= |acts|
    ensures var q := worlds[t].q;
            && |q.drv.extra| == q.n
            && (q.drv.freeCnt == 0 ==> q.drv.headIdx == CHAIN_END)
            && (q.drv.freeCnt > 0 ==> q.drv.headIdx < q.n)
            && (q.drv.freeCnt > 0 && q.drv.pc.DriverIdle? ==> q.drv.extra[q.drv.headIdx].cookie == None)
  {
    RunKeeps(worlds, acts, t);
    var q, h := worlds[t].q, worlds[t].h;
    hide ChainsOk, AvailOk, UsedOk, HeldOk, FillOk, CountersOk, LogOk, NotifyOk, PowerOfTwo, Step;
    if q.drv.freeCnt > 0 { assert h.owner[h.free[0]] == Free; }
  }

  /** The device gives each chain back at most once, and the j-th successful
      virtqueue_get_buffer returns the cookie given with the request behind the j-th chain
      the device gave back. */
  lemma CookiesComeBack(worlds: seq<World>, acts: seq<Action>, t: nat)
    requires IsRun(worlds, acts) && t <= |acts|
    ensures var w, reqs := worlds[t], Requests(acts[..t]);
            && |w.h.reaped| <= w.h.usedCount <= |w.h.returned| && NoDup(w.h.returned)
            && (forall j :: 0 <= j < |w.h.returned| ==> w.h.returned[j] < |reqs|)
            && (forall j :: 0 <= j < |w.h.reaped| ==> w.h.reaped[j] == Some(reqs[w.h.returned[j]].cookie))
            && (w.q.drv.pc.DriverIdle? && w.q.drv.usedCons == w.q.sh.usedIdx ==> |w.h.reaped| == w.h.usedCount)
  {
    RunKeeps(worlds, acts, t);
    ChainsAreRequests(worlds, acts, t);
    EmptyRings(worlds[t]);
    hide ChainsOk, AvailOk, HeldOk, FillOk, CookieOk, FreeOk, Wrap, Slot, NotifyOk, ChainOk;
  }

  /** The lengths the device returned its chains with, in order. */
  function ReturnedLens(acts: seq<Action>): (r: seq<nat>) {
    if acts == [] then []
    else ReturnedLens(acts[..|acts| - 1]) + (if acts[|acts| - 1].UseWrite? then [acts[|acts| - 1].len] else [])
  }

  /** The used ring has those of the chains not yet reaped. */
  predicate LensInRing(w: World, lens: seq<nat>) {
    && 0 < w.q.n == |w.q.sh.usedRing| && |lens| == |w.h.returned|
    && forall j :: |w.h.reaped| <= j < |lens| ==> w.q.sh.usedRing[Slot(j, w.q.n)].len == lens[j]
  }

  lemma UseWriteLen(w: World, head: nat, len: nat, w': World, lens: seq<nat>)
    requires Inv(w) && Step(w, UseWrite(head, len), w') && LensInRing(w, lens)
    ensures LensInRing(w', lens + [len])
  {
    hide FreeOk, ChainsOk, AvailOk, UsedOk, HeldOk, FillOk, CookieOk, LogOk, NotifyOk, Wrap, Slot, ChainOk, PowerOfTwo;
    var q, h := w.q, w.h;
    UsedFits(w);
    SlotOfWrapped(q.n, h.usedCount);
    forall j | |h.reaped| <= j < |lens| ensures Slot(j, q.n) != Slot(|lens|, q.n) { SlotsDiffer(q.n, j, |lens|); }
  }

  lemma OtherLens(w: World, a: Action, w': World, lens: seq<nat>)
    requires Inv(w) && Step(w, a, w') && LensInRing(w, lens) && !a.UseWrite?
    ensures LensInRing(w', lens)
  {
    hide Inv, Wrap, Slot, FreedFrom, Reown;
  }

  lemma {:induction false} LensAreKept(worlds: seq<World>, acts: seq<Action>, t: nat)
    requires IsRun(worlds, acts) && t <= |acts|
    ensures LensInRing(worlds[t], ReturnedLens(acts[..t]))
  {
    hide Step, Inv, LensInRing;
    if t == 0 {
      assert acts[..0] == [];
      assert LensInRing(worlds[0], []) by { NoLensYet(worlds[0]); }
    } else {
      LensAreKept(worlds, acts, t - 1);
      RunKeeps(worlds, acts, t - 1);
      var w, a, w' := worlds[t - 1], acts[t - 1], worlds[t - 1 + 1];
      assert Step(w, a, w');
      assert acts[..t][..t - 1] == acts[..t - 1];
      var lens := ReturnedLens(acts[..t - 1]);
      assert lens + [] == lens;
      if a.UseWrite? { UseWriteLen(w, a.head, a.len, w', lens); } else { OtherLens(w, a, w', lens); }
    }
  }

  lemma NoLensYet(w: World)
    requires Initial(w)
    ensures LensInRing(w, [])
  {}

  /** The length the driver reads with the j-th chain it gets back is the one the device returned it
      with. */
  lemma LengthsComeBack(worlds: seq<World>, acts: seq<Action>, t: nat)
    requires IsRun(worlds, acts) && t < |acts| && acts[t] == ReapRead
    ensures var w, lens := worlds[t], ReturnedLens(acts[..t]);
            && w.q.drv.pc.Reaping? && w.q.drv.pc.slot < |w.q.sh.usedRing| && |w.h.reaped| < |lens|
            && w.q.sh.usedRing[w.q.drv.pc.slot].len == lens[|w.h.reaped|]
  {
    LensAreKept(worlds, acts, t);
    RunKeeps(worlds, acts, t);
    assert Step(worlds[t], acts[t], worlds[t + 1]);
    hide FreeOk, ChainsOk, AvailOk, UsedOk, HeldOk, FillOk, CookieOk, LogOk, NotifyOk, Wrap, Slot, ChainOk, PowerOfTwo, ReturnedLens;
  }

  // ---- Notifications ----

  /** What a kick by `r` decides when the other side enabled notifications at count p and
      entry p has been published since: it notifies exactly when the entries published since
      the last kick, counted modulo 2^16, reach back to p. */
  lemma KickDecision(w: World, r: Role)
    requires Inv(w)
    ensures r.DeviceRole? && w.h.driverArmed.Some? && w.h.driverArmed.value < w.h.usedCount ==>
              (MustNotify(w.q, r) <==>
               !w.q.eventIdx || Wrap(w.h.usedCount - w.h.driverArmed.value - 1) < Wrap(w.h.usedCount - w.h.deviceKick))
    ensures r.DriverRole? && w.h.deviceArmed.Some? && w.h.deviceArmed.value < w.h.availCount ==>
              (MustNotify(w.q, r) <==>
               !w.q.eventIdx || Wrap(w.h.availCount - w.h.deviceArmed.value - 1) < Wrap(w.h.availCount - w.h.driverKick))
  {
    hide FreeOk, ChainsOk, AvailOk, UsedOk, HeldOk, FillOk, CookieOk, LogOk, Wrap, Slot, ChainOk;
    var h := w.h;
    if h.driverArmed.Some? {
      NeedEventOfCounts(h.driverArmed.value, h.usedCount, h.deviceKick);
    }
    if h.deviceArmed.Some? {
      NeedEventOfCounts(h.deviceArmed.value, h.availCount, h.driverKick);
    }
  }

  lemma NeedEventOfCounts(event: int, new_: nat, kick: nat)
    ensures NeedEvent(Wrap(event), Wrap(new_), Wrap(Wrap(new_) - Wrap(new_ - kick))) <==>
            Wrap(new_ - event - 1) < Wrap(new_ - kick)
  {
    hide Wrap;
    WrapSum(Wrap(new_) - 1, event);
    WrapSum(new_, 0 - event - 1);
    assert Wrap(new_) - 1 - event == Wrap(new_) + (0 - event - 1);
    assert Wrap(Wrap(new_) - Wrap(event) - 1) == Wrap(new_ - event - 1) by {
      assert Wrap(new_) - Wrap(event) - 1 == Wrap(new_) - 1 - Wrap(event);
      assert new_ + (0 - event - 1) == new_ - event - 1;
    }
    var old_ := Wrap(Wrap(new_) - Wrap(new_ - kick));
    WrapSum(Wrap(new_), new_ - kick);
    var d: int := kick - new_;
    WrapSum(new_, d);
    assert Wrap(new_) - (new_ - kick) == Wrap(new_) + d && new_ + d == kick;
    assert old_ == Wrap(kick);
    WrapSum(Wrap(new_), kick);
    var m: int := 0 - kick;
    WrapSum(new_, m);
    assert Wrap(new_) - kick == Wrap(new_) + m && new_ + m == new_ - kick;
  }

  /** No notification is lost, in flag mode and in event-index mode, for both roles: after
      vq_ring_enable_interrupt saw nothing pending at count p, the peer's first kick with entry
      p published notifies -- provided fewer than 2^16 entries were published since the
      peer's previous kick, so that vq_queued_cnt has not wrapped. */
  lemma NoLostNotification(worlds: seq<World>, acts: seq<Action>, t: nat)
    requires IsRun(worlds, acts) && t <= |acts|
    ensures var w := worlds[t];
            && (w.h.driverArmed.Some? && w.h.driverArmed.value < w.h.usedCount < w.h.deviceKick + U16 ==>
                  MustNotify(w.q, DeviceRole))
            && (w.h.deviceArmed.Some? && w.h.deviceArmed.value < w.h.availCount < w.h.driverKick + U16 ==>
                  MustNotify(w.q, DriverRole))
  {
    var w := worlds[t];
    RunKeeps(worlds, acts, t);
    KickDecision(w, DriverRole);
    KickDecision(w, DeviceRole);
    assert NotifyOk(w.q, w.h);
    hide Inv, MustNotify;
  }

  /** The bound is needed: with event indices, a kick after exactly 2^16 (or any multiple)
      unkicked entries stays silent, whatever the other side asked for. */
  lemma WrappedQueueCountIsSilent(w: World, m: nat)
    requires Inv(w) && w.q.eventIdx
    ensures w.h.usedCount == w.h.deviceKick + m * U16 ==> !MustNotify(w.q, DeviceRole)
    ensures w.h.availCount == w.h.driverKick + m * U16 ==> !MustNotify(w.q, DriverRole)
  {
    hide FreeOk, ChainsOk, AvailOk, UsedOk, HeldOk, FillOk, CookieOk, LogOk, Wrap, Slot, ChainOk;
    WrapIsMod(m * U16);
    ModAddMultiple(0, U16, m);
    assert Wrap(m * U16) == 0;
    SilentAtZero(w.q.sh.usedEvent, w.q.sh.usedIdx);
    SilentAtZero(w.q.sh.availEvent, w.q.sh.availIdx);
  }

  lemma SilentAtZero(event: u16, x: u16)
    ensures !NeedEvent(event, x, Wrap(x - 0))
  {
    assert Wrap(x) == x && Wrap(0) == 0;
  }

  /** After vq_ring_enable_interrupt(vq, 0) returned 0, the promise of NoLostNotification is
      in force from the count it saw. */
  lemma ArmingTakesEffect(w: World, r: Role, w': World)
    requires Inv(w) && Step(w, ArmCheck(r), w') && PendingSeen(w.q, r) == 0
    ensures r.DriverRole? ==> w'.h.driverArmed == Some(w.h.usedCount) && |w.h.reaped| == w.h.usedCount
    ensures r.DeviceRole? ==> w'.h.deviceArmed == Some(w.h.availCount) && |w.h.taken| == w.h.availCount
  {
    hide Inv, Wrap, Slot;
    NothingPending(w);
  }

  // ---- Disabled notifications ----

  /** How much of what the peer published a side has consumed. */
  function Consumed(w: World, r: Role): nat { if r.DriverRole? then |w.h.reaped| else |w.h.taken| }

  /** What the peer of a side has published, and how much of it up to its last kick. */
  function PeerCount(w: World, r: Role): nat { if r.DriverRole? then w.h.usedCount else w.h.availCount }
  function PeerKick(w: World, r: Role): nat { if r.DriverRole? then w.h.deviceKick else w.h.driverKick }
  function Peer(r: Role): Role { if r.DriverRole? then DeviceRole else DriverRole }

  /** If a side's last word on notifications was to disable them: its count at that time. */
  function OffSince(worlds: seq<World>, acts: seq<Action>, t: nat, r: Role): Option<nat>
    requires t <= |acts| < |worlds|
  {
    if t == 0 then None
    else if acts[t - 1] == Disarm(r) then Some(Consumed(worlds[t - 1], r))
    else if acts[t - 1] == Arm(r) then None
    else OffSince(worlds, acts, t - 1, r)
  }

  /** What the side has written for its peer to see. */
  predicate SaysOff(q: Queue, r: Role, p: nat) {
    if r.DriverRole? then if q.eventIdx then q.sh.usedEvent == Wrap(p - (q.n + 1)) else q.sh.noInterrupt
    else if q.eventIdx then q.sh.availEvent == Wrap(p - (q.n + 1)) else q.sh.noNotify
  }

  lemma OthersSayNothing(w: World, a: Action, w': World, r: Role, p: nat)
    requires Step(w, a, w') && a != Arm(r) && a != Disarm(r) && SaysOff(w.q, r, p)
    ensures SaysOff(w'.q, r, p)
  {
    hide Wrap, Slot, FreedFrom, Record;
  }

  lemma CountsGrow(w: World, a: Action, w': World, r: Role)
    requires Step(w, a, w')
    ensures PeerCount(w', r) >= PeerCount(w, r)
  {
    hide Wrap, Slot, FreedFrom, Reown, Apply;
  }

  lemma DisarmSays(w: World, r: Role, w': World)
    requires Inv(w) && Step(w, Disarm(r), w')
    ensures SaysOff(w'.q, r, Consumed(w, r)) && Consumed(w, r) <= PeerCount(w, r)
  {
    hide FreeOk, ChainsOk, AvailOk, UsedOk, HeldOk, FillOk, CookieOk, LogOk, NotifyOk, Wrap, Slot, ChainOk, PowerOfTwo;
    WrapSum(Consumed(w, r), 0 - (w.q.n + 1));
    assert Wrap(Consumed(w, r)) + (0 - (w.q.n + 1)) == Wrap(Consumed(w, r)) - (w.q.n + 1);
    assert Consumed(w, r) + (0 - (w.q.n + 1)) == Consumed(w, r) - (w.q.n + 1);
  }

  lemma {:induction false} OffIsSaid(worlds: seq<World>, acts: seq<Action>, t: nat, r: Role)
    requires IsRun(worlds, acts) && t <= |acts| && OffSince(worlds, acts, t, r).Some?
    ensures var p := OffSince(worlds, acts, t, r).value; SaysOff(worlds[t].q, r, p) && p <= PeerCount(worlds[t], r)
  {
    hide Step, Inv, SaysOff, Initial, PeerCount;
    var w, a, w' := worlds[t - 1], acts[t - 1], worlds[t - 1 + 1];
    assert Step(w, a, w');
    CountsGrow(w, a, w', r);
    if a == Disarm(r) {
      RunKeeps(worlds, acts, t - 1);
      DisarmSays(w, r, w');
    } else {
      OffIsSaid(worlds, acts, t - 1, r);
      OthersSayNothing(w, a, w', r, OffSince(worlds, acts, t, r).value);
    }
  }

  lemma OffDecision(w: World, r: Role, p: nat)
    requires Inv(w) && SaysOff(w.q, r, p)
    ensures MustNotify(w.q, Peer(r)) <==>
            w.q.eventIdx && Wrap(PeerCount(w, r) - p + w.q.n) < Wrap(PeerCount(w, r) - PeerKick(w, r))
  {
    hide FreeOk, ChainsOk, AvailOk, UsedOk, HeldOk, FillOk, CookieOk, LogOk, Wrap, Slot, ChainOk, PowerOfTwo, NeedEvent;
    NeedEventOfCounts(p - (w.q.n + 1), PeerCount(w, r), PeerKick(w, r));
    assert PeerCount(w, r) - (p - (w.q.n + 1)) - 1 == PeerCount(w, r) - p + w.q.n;
  }

  /** What a kick decides when the other side disabled notifications at count p and has not enabled them
      since: in flag mode never to notify; with event indices to notify exactly if the entries since the
      last kick, modulo 2^16, reach back further than a whole ring before p. */
  lemma DisabledKickDecision(worlds: seq<World>, acts: seq<Action>, t: nat, r: Role)
    requires IsRun(worlds, acts) && t <= |acts| && OffSince(worlds, acts, t, r).Some?
    ensures var w, p := worlds[t], OffSince(worlds, acts, t, r).value;
            MustNotify(w.q, Peer(r)) <==>
            w.q.eventIdx && Wrap(PeerCount(w, r) - p + w.q.n) < Wrap(PeerCount(w, r) - PeerKick(w, r))
  {
    hide Step, Inv, SaysOff, Initial, MustNotify;
    OffIsSaid(worlds, acts, t, r);
    RunKeeps(worlds, acts, t);
    OffDecision(worlds[t], r, OffSince(worlds, acts, t, r).value);
  }

  /** So a side that disabled notifications is left alone: always in flag mode, and with event indices as
      long as the peer has not kicked since more than a ring before p nor published 2^16 entries since. */
  lemma DisabledIsSilent(worlds: seq<World>, acts: seq<Action>, t: nat, r: Role)
    requires IsRun(worlds, acts) && t <= |acts| && OffSince(worlds, acts, t, r).Some?
    ensures var w, p := worlds[t], OffSince(worlds, acts, t, r).value;
            !w.q.eventIdx || (p - w.q.n <= PeerKick(w, r) && PeerCount(w, r) < p - w.q.n + U16) ==>
              !MustNotify(w.q, Peer(r))
  {
    hide Step, Inv, MustNotify, Wrap, Initial, OffSince, SaysOff, PeerKick, PeerCount;
    OffIsSaid(worlds, acts, t, r);
    DisabledKickDecision(worlds, acts, t, r);
    KicksBelow(worlds, acts, t, r);
    var w, p := worlds[t], OffSince(worlds, acts, t, r).value;
    if p - w.q.n <= PeerKick(w, r) && PeerCount(w, r) < p - w.q.n + U16 {
      WrapSmall(PeerCount(w, r) - p + w.q.n);
      WrapSmall(PeerCount(w, r) - PeerKick(w, r));
    }
  }

  lemma KicksBelow(worlds: seq<World>, acts: seq<Action>, t: nat, r: Role)
    requires IsRun(worlds, acts) && t <= |acts|
    ensures PeerKick(worlds[t], r) <= PeerCount(worlds[t], r)
  {
    hide Step;
    RunKeeps(worlds, acts, t);
    assert NotifyOk(worlds[t].q, worlds[t].h);
  }
}
