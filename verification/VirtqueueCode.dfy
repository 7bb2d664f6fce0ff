/** The code of the split virtqueue, over rings and tables updated in place.  Every call, made while
    the other party stands between calls, is proved to be exactly the run of protocol actions that
    VirtqueueProtocol gives it; VirtqueueTheorems speaks of those same actions in any interleaving. */
module VirtqueueCode {
  import opened Options
  import opened Bits
  import opened VirtqueueProtocol
  import opened VirtqueueInvariant
  import opened VirtqueueSteps
  import opened VirtqueueTheorems

  const VQUEUE_SUCCESS: int := 0
  const ERROR_VRING_FULL: int := -3001
  const ERROR_VRING_ALIGN: int := -3006
  const ERROR_VRING_NO_BUFF: int := -3007
  const ERROR_VQUEUE_INVLD_PARAM: int := -3008

  function Next(w: World, a: Action): World
    requires Enabled(w.q, a) && Safe(w.q, a)
  {
    World(Apply(w.q, a), Record(w.q, w.h, a))
  }

  /** The actions can be taken from w, one after the other, and lead to w'. */
  predicate Runs(w: World, acts: seq<Action>, w': World)
    decreases |acts|
  {
    if acts == [] then w == w'
    else Enabled(w.q, acts[0]) && Safe(w.q, acts[0]) && Runs(Next(w, acts[0]), acts[1..], w')
  }

  lemma {:induction false} RunsAppend(w: World, acts: seq<Action>, mid: World, more: seq<Action>, w': World)
    requires Runs(w, acts, mid) && Runs(mid, more, w')
    ensures Runs(w, acts + more, w')
    decreases |acts|
  {
    hide Enabled, Safe, Next;
    if acts == [] {
      assert acts + more == more;
    } else {
      RunsAppend(Next(w, acts[0]), acts[1..], mid, more, w');
      assert (acts + more)[1..] == acts[1..] + more;
    }
  }

  /** One action from a reachable world: it is safe, it is a run, and the invariant survives. */
  lemma OneAction(w: World, a: Action)
    requires Inv(w) && Enabled(w.q, a)
    ensures Safe(w.q, a) && Runs(w, [a], Next(w, a)) && Inv(Next(w, a))
  {
    hide Inv;
    EnabledIsSafe(w, a);
    StepKeeps(w, a, Next(w, a));
    assert [a][1..] == [];
  }

  lemma TwoActions(w: World, a: Action, b: Action)
    requires Inv(w) && Enabled(w.q, a) && Safe(w.q, a) && Enabled(Next(w, a).q, b)
    ensures Inv(Next(w, a)) && Safe(Next(w, a).q, b)
    ensures Runs(w, [a, b], Next(Next(w, a), b)) && Inv(Next(Next(w, a), b))
  {
    hide Inv, Runs, Record, Apply;
    OneAction(w, a);
    OneAction(Next(w, a), b);
    RunsAppend(w, [a], Next(w, a), [b], Next(Next(w, a), b));
    assert [a] + [b] == [a, b];
  }

  // ---- The effect of each call's actions, spelled out ----

  lemma BeginCall(w: World, req: Request) returns (w': World)
    requires Inv(w) && Enabled(w.q, AddBegin(req))
    ensures Runs(w, [AddBegin(req)], w') && Inv(w') && w'.h == w.h && w.q.drv.headIdx < w.q.n == |w.q.drv.extra|
    ensures w'.q == w.q.(drv := w.q.drv.(
                      extra := w.q.drv.extra[w.q.drv.headIdx := Extra(Some(req.cookie), |req.bufs|)],
                      pc := Filling(req, w.q.drv.headIdx, 0, w.q.drv.headIdx)))
  {
    hide Inv, Runs, Wrap, Slot;
    OneAction(w, AddBegin(req));
    w' := Next(w, AddBegin(req));
  }

  lemma FillCall(w: World) returns (w': World)
    requires Inv(w) && Enabled(w.q, FillOne)
    ensures Runs(w, [FillOne], w') && Inv(w') && w'.h == w.h && w.q.drv.pc.idx < w.q.n == |w.q.sh.desc|
    ensures var pc, desc := w.q.drv.pc, w.q.sh.desc;
            w'.q == w.q.(sh := w.q.sh.(desc := desc[pc.idx := Filled(desc[pc.idx], pc.req, pc.i)]),
                         drv := w.q.drv.(pc := pc.(i := pc.i + 1, idx := desc[pc.idx].next)))
  {
    hide Inv, Runs, Wrap, Slot;
    OneAction(w, FillOne);
    w' := Next(w, FillOne);
  }

  lemma PublishCall(w: World) returns (w': World)
    requires Inv(w) && Enabled(w.q, WriteSlot)
    ensures Runs(w, [WriteSlot, BumpAvail], w') && Inv(w') && |w.q.drv.pc.req.bufs| <= w.q.drv.freeCnt
    ensures 0 < w.q.n == |w.q.sh.availRing|
    ensures w'.q == w.q.(
              sh := w.q.sh.(availRing := w.q.sh.availRing[Slot(w.q.sh.availIdx, w.q.n) := w.q.drv.pc.head],
                            availIdx := Wrap(w.q.sh.availIdx + 1)),
              drv := w.q.drv.(headIdx := w.q.drv.pc.idx, freeCnt := w.q.drv.freeCnt - |w.q.drv.pc.req.bufs|,
                              queued := Wrap(w.q.drv.queued + 1), pc := DriverIdle))
  {
    hide Inv, Runs, Wrap, Slot, Record;
    OneAction(w, WriteSlot);
    TwoActions(w, WriteSlot, BumpAvail);
    w' := Next(Next(w, WriteSlot), BumpAvail);
  }

  lemma ReapCall(w: World) returns (w': World, ds: seq<nat>)
    requires Inv(w) && w.q.drv.pc.DriverIdle? && w.q.drv.usedCons != w.q.sh.usedIdx
    ensures Runs(w, [ReapCheck, ReapRead], w') && Inv(w') && 0 < w.q.n == |w.q.sh.usedRing|
    ensures |w.q.sh.desc| == |w.q.drv.extra| == w.q.n
    ensures NamesChain(w.q.sh, w.q.drv.extra, Slot(w.q.drv.usedCons, w.q.n), w.q.n, ds)
    ensures var q := w.q;
            var id, last := ds[0], ds[|ds| - 1];
            && id < q.n && last < q.n
            && w'.q == q.(sh := q.sh.(desc := q.sh.desc[last := q.sh.desc[last].(next := q.drv.headIdx)]),
                          drv := q.drv.(usedCons := Wrap(q.drv.usedCons + 1),
                                        freeCnt := Wrap(q.drv.freeCnt + q.drv.extra[id].ndescs), headIdx := id,
                                        extra := q.drv.extra[id := Extra(None, 0)]))
            && w'.h.reaped == w.h.reaped + [q.drv.extra[id].cookie]
  {
    hide Inv, Runs, Wrap, Slot, FreedFrom;
    OneAction(w, ReapCheck);
    TwoActions(w, ReapCheck, ReapRead);
    var w1 := Next(w, ReapCheck);
    var k;
    k, ds := LiveChain(w1);
    w' := Next(w1, ReapRead);
    WrapSmall(0);
    assert |ds| - |ds| == 0;
  }

  lemma TakeCall(w: World) returns (w': World)
    requires Inv(w) && w.q.dev.pc.DeviceIdle? && w.q.dev.availCons != w.q.sh.availIdx
    ensures Runs(w, [TakeCheck, TakeRead, TakeDesc], w') && Inv(w') && 0 < w.q.n == |w.q.sh.availRing| == |w.q.sh.desc|
    ensures var q := w.q;
            var head := q.sh.availRing[Slot(q.dev.availCons, q.n)];
            && head < q.n
            && w'.q == q.(dev := q.dev.(availCons := Wrap(q.dev.availCons + 1), held := q.dev.held + {head}))
            && w'.h.taken == w.h.taken + [Taken(head, q.sh.desc[head].addr, q.sh.desc[head].len)]
  {
    hide Inv, Runs, Wrap, Slot;
    OneAction(w, TakeCheck);
    var w1 := Next(w, TakeCheck);
    TwoActions(w, TakeCheck, TakeRead);
    var w2 := Next(w1, TakeRead);
    OneAction(w2, TakeDesc);
    w' := Next(w2, TakeDesc);
    assert [TakeCheck, TakeRead] + [TakeDesc] == [TakeCheck, TakeRead, TakeDesc];
    RunsAppend(w, [TakeCheck, TakeRead], w2, [TakeDesc], w');
  }

  lemma UseCall(w: World, head: nat, len: nat) returns (w': World)
    requires Inv(w) && Enabled(w.q, UseWrite(head, len))
    ensures Runs(w, [UseWrite(head, len), BumpUsed], w') && Inv(w') && 0 < w.q.n == |w.q.sh.usedRing|
    ensures var q := w.q;
            w'.q == q.(sh := q.sh.(usedRing := q.sh.usedRing[Slot(q.sh.usedIdx, q.n) := UsedElem(head, len)],
                                   usedIdx := Wrap(q.sh.usedIdx + 1)),
                       dev := q.dev.(held := q.dev.held - {head}, queued := Wrap(q.dev.queued + 1)))
  {
    hide Inv, Runs, Wrap, Slot, Record;
    OneAction(w, UseWrite(head, len));
    TwoActions(w, UseWrite(head, len), BumpUsed);
    w' := Next(Next(w, UseWrite(head, len)), BumpUsed);
  }

  /** A check that finds the peer's index equal to its own changes nothing. */
  lemma EmptyCall(w: World, a: Action)
    requires Inv(w) && Enabled(w.q, a)
    requires (a == ReapCheck && w.q.drv.usedCons == w.q.sh.usedIdx) || (a == TakeCheck && w.q.dev.availCons == w.q.sh.availIdx)
    ensures Runs(w, [a], w)
  {
    hide Inv, Runs, Wrap, Slot;
    OneAction(w, a);
    assert Next(w, a) == w;
  }

  lemma ArmCall(w: World, role: Role) returns (w': World)
    requires Inv(w) && Enabled(w.q, Arm(role))
    ensures Runs(w, [Arm(role), ArmCheck(role)], w') && Inv(w')
    ensures w'.q.n == w.q.n && w'.q.eventIdx == w.q.eventIdx && w'.q.drv == w.q.drv && w'.q.dev == w.q.dev
    ensures role.DriverRole? ==>
              w'.q.sh == if w.q.eventIdx then w.q.sh.(usedEvent := w.q.drv.usedCons) else w.q.sh.(noInterrupt := false)
    ensures role.DeviceRole? ==>
              w'.q.sh == if w.q.eventIdx then w.q.sh.(availEvent := w.q.dev.availCons) else w.q.sh.(noNotify := false)
    ensures PendingSeen(w.q, role) == 0 ==>
              if role.DriverRole? then w'.h.driverArmed == Some(w'.h.usedCount)
              else w'.h.deviceArmed == Some(w'.h.availCount)
  {
    hide Inv, Runs, Wrap, Slot;
    OneAction(w, Arm(role));
    TwoActions(w, Arm(role), ArmCheck(role));
    w' := Next(Next(w, Arm(role)), ArmCheck(role));
  }

  /** A used-ring slot names the chain ds: its descriptors are linked in order, flagged NEXT up
      to the last, and counted in the head's extra entry. */
  predicate NamesChain(sh: Shared, extra: seq<Extra>, slot: nat, n: nat, ds: seq<nat>) {
    && |ds| >= 1 && slot < |sh.usedRing| && ds[0] == sh.usedRing[slot].id && ds[0] < |extra|
    && extra[ds[0]].ndescs == |ds| <= n < U16
    && (forall i :: 0 <= i < |ds| ==>
          && ds[i] < |sh.desc| && !sh.desc[ds[i]].indirect && (sh.desc[ds[i]].hasNext <==> i + 1 < |ds|)
          && (i + 1 < |ds| ==> sh.desc[ds[i]].next == ds[i + 1]))
  }

  /** The chain a reap is about to free. */
  lemma LiveChain(w: World) returns (k: nat, ds: seq<nat>)
    requires Inv(w) && w.q.drv.pc.Reaping? && Safe(w.q, ReapRead)
    ensures NamesChain(w.q.sh, w.q.drv.extra, w.q.drv.pc.slot, w.q.n, ds)
    ensures FreedFrom(w.q.sh.desc, ds[0]) == (ds[|ds| - 1], |ds|)
  {
    hide FreeOk, ChainsOk, AvailOk, UsedOk, HeldOk, FillOk, CookieOk, LogOk, Wrap, Slot, NotifyOk, FreedFrom;
    var q, h := w.q, w.h;
    UsedEntry(q.n, q.sh.usedRing, h.chains, h.stage, h.returned, |h.reaped|);
    k := h.returned[|h.reaped|];
    ds := h.chains[k].descs;
    ChainEntry(q.sh.desc, q.drv.extra, h.owner, h.chains, h.stage, k);
    FreedIsLast(q.sh.desc, q.drv.extra, h.owner, k, h.chains[k]);
  }

  /** The run of one virtqueue_add_buffer call. */
  function AddActions(req: Request): seq<Action> {
    [AddBegin(req)] + Fills(|req.bufs|) + [WriteSlot, BumpAvail]
  }

  function Fills(m: nat): (r: seq<Action>)
    ensures |r| == m
  {
    seq(m, i => FillOne)
  }

  class Virtqueue {
    const n: nat
    const eventIdx: bool

    // The ring, shared with the peer.
    const desc: array<Desc>
    const availRing: array<nat>
    var availIdx: u16
    var noInterrupt: bool
    var usedEvent: u16
    const usedRing: array<UsedElem>
    var usedIdx: u16
    var noNotify: bool
    var availEvent: u16

    // The driver's struct virtqueue.
    var freeCnt: nat
    var headIdx: nat
    var usedCons: u16
    var driverQueued: u16
    const extra: array<Extra>

    // The device's struct virtqueue, and the heads it has taken.
    var availCons: u16
    var deviceQueued: u16
    var held: set<nat>

    ghost var hist: Hist

    /** The protocol state of this object, with the two parties at the given positions. */
    ghost function ViewAt(dpc: DriverPc, vpc: DevicePc): Queue
      reads this, desc, availRing, usedRing, extra
    {
      Queue(n, eventIdx,
            Shared(desc[..], availRing[..], availIdx, noInterrupt, usedEvent, usedRing[..], usedIdx, noNotify, availEvent),
            Driver(freeCnt, headIdx, usedCons, driverQueued, extra[..], dpc),
            Device(availCons, deviceQueued, held, vpc))
    }

    /** The world between two calls. */
    ghost function Now(): World
      reads this, desc, availRing, usedRing, extra
    {
      World(ViewAt(DriverIdle, DeviceIdle), hist)
    }

    ghost predicate Valid()
      reads this, desc, availRing, usedRing, extra
    {
      Inv(Now())
    }

    /** virtqueue_create's checks on the ring size. */
    static function CreateStatus(numDescs: u16): (status: int)
      ensures status == VQUEUE_SUCCESS <==> ValidSize(numDescs)
      ensures status != VQUEUE_SUCCESS ==> status == if numDescs == 0 then ERROR_VQUEUE_INVLD_PARAM else ERROR_VRING_ALIGN
    {
      if numDescs == 0 then ERROR_VQUEUE_INVLD_PARAM
      else
        PowerTest(numDescs);
        if And(numDescs, numDescs - 1) != 0 then ERROR_VRING_ALIGN
      else VQUEUE_SUCCESS
    }

    /** virtqueue_create with vq_ring_init, on zeroed indices. */
    constructor (num: u16, eventIdx: bool, memory: array<Desc>, avail: array<nat>, used: array<UsedElem>)
      requires CreateStatus(num) == VQUEUE_SUCCESS
      requires memory.Length == num && avail.Length == num && used.Length == num
      modifies memory
      ensures fresh(extra) && desc == memory && availRing == avail && usedRing == used
      ensures n == num && this.eventIdx == eventIdx && Initial(Now()) && Valid()
    {
      hide Inv, PowerOfTwo;
      n, this.eventIdx := num, eventIdx;
      desc, availRing, usedRing := memory, avail, used;
      availIdx, noInterrupt, usedEvent, usedIdx, noNotify, availEvent := 0, false, 0, 0, false, 0;
      freeCnt, headIdx, usedCons, driverQueued := num, 0, 0, 0;
      extra := new Extra[num](_ => Extra(None, 0));
      availCons, deviceQueued, held := 0, 0, {};
      hist := InitHist(num);
      new;
      for i := 0 to n - 1
        modifies desc
        invariant forall j :: 0 <= j < i ==> desc[j].next == j + 1
      {
        desc[i] := desc[i].(next := i + 1);
      }
      desc[n - 1] := desc[n - 1].(next := CHAIN_END);
      assert forall i :: 0 <= i < n ==> desc[i] == InitDesc(n, i, desc[i]);
      ghost var table := desc[..];
      assert table == seq(n, i requires 0 <= i < n => InitDesc(n, i, table[i]));
      assert extra[..] == seq(n, i => Extra(None, 0));
      InitialKeeps(Now());
    }

    /** virtqueue_add_buffer: the error returns leave the queue alone; success is the run
        AddActions. */
    method AddBuffer(bufs: seq<Buf>, readable: nat, cookie: nat) returns (status: int)
      requires Valid() && readable <= |bufs|
      modifies this, desc, availRing, extra
      ensures Valid()
      ensures status == if |bufs| < 1 then ERROR_VQUEUE_INVLD_PARAM
                        else if old(freeCnt) < |bufs| then ERROR_VRING_FULL
                        else VQUEUE_SUCCESS
      ensures status != VQUEUE_SUCCESS ==> Now() == old(Now())
      ensures status == VQUEUE_SUCCESS ==> Runs(old(Now()), AddActions(Request(bufs, readable, cookie)), Now())
    {
      hide Inv, Runs, Apply, Next, Record, Wrap, Slot, PowerOfTwo, NamesChain, MustNotify, NeedEvent, And;
      if |bufs| < 1 { return ERROR_VQUEUE_INVLD_PARAM; }
      if freeCnt < |bufs| { return ERROR_VRING_FULL; }
      ghost var req := Request(bufs, readable, cookie);
      ghost var w0 := Now();
      assert Enabled(w0.q, AddBegin(req));
      hide Enabled, Safe;
      ghost var w1 := BeginCall(w0, req);
      var head := headIdx;
      extra[head] := Extra(Some(cookie), |bufs|);
      assert w1.q == ViewAt(Filling(req, head, 0, head), DeviceIdle);
      var idx;
      ghost var w2;
      idx, w2 := RingAddBuffer(head, bufs, readable, req, w1);
      headIdx := idx;
      freeCnt := freeCnt - |bufs|;
      UpdateAvail(head, w2);
      RunsAppend(w0, [AddBegin(req)], w1, Fills(|bufs|), w2);
      RunsAppend(w0, [AddBegin(req)] + Fills(|bufs|), w2, [WriteSlot, BumpAvail], Now());
      status := VQUEUE_SUCCESS;
    }

    /** vq_ring_add_buffer: fill one free descriptor per buffer, walking the free list. */
    method RingAddBuffer(head: nat, bufs: seq<Buf>, readable: nat, ghost req: Request, ghost w: World)
      returns (idx: nat, ghost w': World)
      requires req.bufs == bufs && req.readable == readable
      requires Inv(w) && w.q == ViewAt(Filling(req, head, 0, head), DeviceIdle) && w.h == hist
      modifies desc
      ensures Inv(w') && Runs(w, Fills(|bufs|), w')
      ensures w'.q == ViewAt(Filling(req, head, |bufs|, idx), DeviceIdle) && w'.h == hist
      ensures |bufs| <= freeCnt
    {
      hide Inv, Runs, Apply, Next, Record, Wrap, Slot, PowerOfTwo, NamesChain, MustNotify, NeedEvent, And;
      hide Enabled, Safe;
      idx, w' := head, w;
      assert Runs(w, Fills(0), w) by { NoRun(w); }
      for i := 0 to |bufs|
        modifies desc
        invariant Inv(w') && Runs(w, Fills(i), w')
        invariant w'.q == ViewAt(Filling(req, head, i, idx), DeviceIdle) && w'.h == hist
      {
        FillEnabled(w');
        ghost var w1 := FillCall(w');
        RunsAppend(w, Fills(i), w', [FillOne], w1);
        assert Fills(i) + [FillOne] == Fills(i + 1);
        desc[idx] := Desc(bufs[i].addr, bufs[i].len, i < |bufs| - 1, i >= readable, false, desc[idx].next);
        idx := desc[idx].next;
        w' := w1;
      }
      FillLeavesRoom(w');
    }

    /** vq_ring_update_avail: the slot first, then the index. */
    method UpdateAvail(head: nat, ghost w: World)
      requires w.q.drv.pc.Filling? && w.q.drv.pc.head == head && w.q.drv.pc.i == |w.q.drv.pc.req.bufs|
      requires |w.q.drv.pc.req.bufs| <= w.q.drv.freeCnt && w.q.dev.pc.DeviceIdle?
      requires Inv(w) && w.h == hist
      requires ViewAt(w.q.drv.pc, DeviceIdle) ==
               w.q.(drv := w.q.drv.(headIdx := w.q.drv.pc.idx, freeCnt := w.q.drv.freeCnt - |w.q.drv.pc.req.bufs|))
      modifies this, availRing
      ensures Valid() && Runs(w, [WriteSlot, BumpAvail], Now())
    {
      hide Inv, Runs, Apply, Next, Record, Wrap, Slot, PowerOfTwo, NamesChain, MustNotify, NeedEvent, And;
      assert Enabled(w.q, WriteSlot);
      hide Enabled, Safe;
      ghost var w' := PublishCall(w);
      ghost var slot := Masked(w, availIdx);
      availRing[And(availIdx, n - 1)] := head;
      availIdx := Wrap(availIdx + 1);
      driverQueued := Wrap(driverQueued + 1);
      hist := w'.h;
      assert Now() == w';
    }

    /** virtqueue_get_buffer: nothing when the used index is our own, else the cookie of the
        chain the device returned, whose descriptors go back to the free list. */
    method GetBuffer() returns (cookie: Option<nat>, len: nat, slot: nat)
      requires Valid()
      modifies this, desc, extra
      ensures Valid()
      ensures old(usedCons) == old(usedIdx) ==> cookie == None && Runs(old(Now()), [ReapCheck], Now())
      ensures old(usedCons) != old(usedIdx) ==>
                && Runs(old(Now()), [ReapCheck, ReapRead], Now())
                && hist.reaped == old(hist.reaped) + [cookie]
                && slot == Slot(old(usedCons), n) && len == old(usedRing[slot].len)
    {
      hide Inv, Runs, Apply, Next, Record, Wrap, Slot, PowerOfTwo, NamesChain, MustNotify, NeedEvent, And;
      ghost var w := Now();
      if usedCons == usedIdx {
        EmptyCall(w, ReapCheck);
        return None, 0, 0;
      }
      hide Enabled, Safe;
      ghost var w', ds := ReapCall(w);
      ghost var masked := Masked(w, usedCons);
      slot := And(usedCons, n - 1);
      usedCons := Wrap(usedCons + 1);
      var uep := usedRing[slot];
      assert uep.id == ds[0] by { ChainHead(w.q.sh, w.q.drv.extra, slot, n, ds); }
      len := uep.len;
      FreeChain(uep.id, slot, w.q.sh, ds);
      cookie := extra[uep.id].cookie;
      extra[uep.id] := extra[uep.id].(cookie := None);
      hist := w'.h;
      assert desc[..] == w'.q.sh.desc;
      assert extra[..] == w'.q.drv.extra;
      assert Now() == w';
    }

    /** vq_ring_free_chain: walk to the chain's last descriptor, counting it down, and link it
        to the free list. */
    method FreeChain(descIdx: nat, ghost slot: nat, ghost sh: Shared, ghost ds: seq<nat>)
      requires sh.desc == desc[..] && NamesChain(sh, extra[..], slot, n, ds) && descIdx == ds[0]
      modifies `freeCnt, `headIdx, desc, extra
      ensures desc[..] == old(desc[..][ds[|ds| - 1] := desc[ds[|ds| - 1]].(next := headIdx)])
      ensures extra[..] == old(extra[..][descIdx := extra[descIdx].(ndescs := 0)])
      ensures freeCnt == Wrap(old(freeCnt) + old(extra[descIdx].ndescs)) && headIdx == descIdx
    {
      hide Wrap;
      var dp := descIdx;
      var left := extra[descIdx].ndescs;
      freeCnt := Wrap(freeCnt + left);
      WrapSmall(left - 1);
      left := Wrap(left - 1);
      if !desc[dp].indirect {
        ghost var j := 0;
        while desc[dp].hasNext
          invariant 0 <= j < |ds| && dp == ds[j] && left == |ds| - 1 - j
          decreases |ds| - j
          modifies {}
        {
          assert sh.desc[ds[j]].hasNext;
          dp := desc[dp].next;
          j := j + 1;
          WrapSmall(left - 1);
          left := Wrap(left - 1);
        }
        assert !sh.desc[ds[j]].hasNext;
      }
      extra[descIdx] := extra[descIdx].(ndescs := left);
      desc[dp] := desc[dp].(next := headIdx);
      headIdx := descIdx;
    }

    /** virtqueue_get_available_buffer: nothing when the avail index is our own, else the head
        and the first buffer of the next chain. */
    method GetAvailableBuffer() returns (got: Option<Taken>)
      requires Valid()
      modifies this
      ensures Valid()
      ensures old(availCons) == old(availIdx) ==> got == None && Runs(old(Now()), [TakeCheck], Now())
      ensures old(availCons) != old(availIdx) ==>
                && Runs(old(Now()), [TakeCheck, TakeRead, TakeDesc], Now())
                && got.Some? && hist.taken == old(hist.taken) + [got.value]
    {
      hide Inv, Runs, Apply, Next, Record, Wrap, Slot, PowerOfTwo, NamesChain, MustNotify, NeedEvent, And;
      ghost var w := Now();
      if availCons == availIdx {
        EmptyCall(w, TakeCheck);
        return None;
      }
      hide Enabled, Safe;
      ghost var w' := TakeCall(w);
      ghost var slot := Masked(w, availCons);
      var head := availRing[And(availCons, n - 1)];
      availCons := Wrap(availCons + 1);
      got := Some(Taken(head, desc[head].addr, desc[head].len));
      held := held + {head};
      hist := w'.h;
      assert Now() == w';
    }

    /** virtqueue_add_consumed_buffer.  The index is only compared with the ring size: given a head the
        device holds it is the run of one return; given any other it publishes that entry all the same,
        and the protocol's invariant is no longer promised. */
    method AddConsumedBuffer(head: nat, len: nat) returns (status: int)
      requires Valid()
      modifies this, usedRing
      ensures head >= n ==> status == ERROR_VRING_NO_BUFF && Now() == old(Now()) && Valid()
      ensures head < n ==> status == VQUEUE_SUCCESS
      ensures head < n && head in old(held) ==> Valid() && Runs(old(Now()), [UseWrite(head, len), BumpUsed], Now())
      ensures head < n && head !in old(held) ==>
                && n > 0 && usedRing[..] == old(usedRing[..])[Slot(old(usedIdx), n) := UsedElem(head, len)]
                && usedIdx == Wrap(old(usedIdx) + 1) && deviceQueued == Wrap(old(deviceQueued) + 1)
                && Now() == old(Now()).(q := old(Now().q).(
                     sh := old(Now().q.sh).(usedRing := usedRing[..], usedIdx := usedIdx),
                     dev := old(Now().q.dev).(queued := deviceQueued)))
    {
      hide Inv, Runs, Apply, Next, Record, Wrap, Slot, PowerOfTwo, NamesChain, MustNotify, NeedEvent, And;
      if head >= n { return ERROR_VRING_NO_BUFF; }
      ghost var w := Now();
      RingSizes(w);
      if head in held {
        assert Enabled(w.q, UseWrite(head, len));
        hide Enabled, Safe;
        ghost var w' := UseCall(w, head, len);
        PublishUsed(head, len);
        held := held - {head};
        hist := w'.h;
        assert Now() == w';
      } else {
        PublishUsed(head, len);
      }
      status := VQUEUE_SUCCESS;
    }

    /** The stores of virtqueue_add_consumed_buffer: the entry first, then the index. */
    method PublishUsed(head: nat, len: nat)
      requires ValidSize(n) && usedRing.Length == n
      modifies this`usedIdx, this`deviceQueued, usedRing
      ensures usedRing[..] == old(usedRing[..])[Slot(old(usedIdx), n) := UsedElem(head, len)]
      ensures usedIdx == Wrap(old(usedIdx) + 1) && deviceQueued == Wrap(old(deviceQueued) + 1)
    {
      hide Wrap, Slot, And, PowerOfTwo;
      SlotIsMask(usedIdx, n);
      usedRing[And(usedIdx, n - 1)] := UsedElem(head, len);
      usedIdx := Wrap(usedIdx + 1);
      deviceQueued := Wrap(deviceQueued + 1);
    }

    /** vq_ring_enable_interrupt(vq, 0): write the event index or flag, then look once more. */
    method EnableCallback(role: Role) returns (again: bool)
      requires Valid()
      modifies this
      ensures Valid() && Runs(old(Now()), [Arm(role), ArmCheck(role)], Now())
      ensures again <==> old(PendingSeen(ViewAt(DriverIdle, DeviceIdle), role)) > 0
      ensures !again && role.DriverRole? ==> hist.driverArmed == Some(hist.usedCount)
      ensures !again && role.DeviceRole? ==> hist.deviceArmed == Some(hist.availCount)
    {
      hide Inv, Runs, Apply, Next, Record, Wrap, Slot, PowerOfTwo, NamesChain, MustNotify, NeedEvent, And;
      ghost var w := Now();
      assert Enabled(w.q, Arm(role));
      hide Enabled, Safe;
      ghost var w' := ArmCall(w, role);
      if role == DriverRole {
        if eventIdx { usedEvent := usedCons; } else { noInterrupt := false; }
        again := Wrap(usedIdx - usedCons) > 0;
      } else {
        if eventIdx { availEvent := availCons; } else { noNotify := false; }
        again := Wrap(availIdx - availCons) > 0;
      }
      hist := w'.h;
      assert Now() == w';
    }

    /** virtqueue_disable_cb. */
    method DisableCallback(role: Role)
      requires Valid()
      modifies this
      ensures Valid() && Runs(old(Now()), [Disarm(role)], Now())
      ensures SaysOff(Now().q, role, Consumed(old(Now()), role))
    {
      hide Inv, Runs, Record, Wrap;
      ghost var w := Now();
      OneAction(w, Disarm(role));
      DisarmSays(w, role, Next(w, Disarm(role)));
      if role == DriverRole {
        if eventIdx { usedEvent := Wrap(usedCons - (n + 1)); } else { noInterrupt := true; }
      } else {
        if eventIdx { availEvent := Wrap(availCons - (n + 1)); } else { noNotify := true; }
      }
      hist := Next(w, Disarm(role)).h;
      assert Now() == Next(w, Disarm(role));
    }

    /** virtqueue_kick with vq_ring_must_notify: whether the peer is notified. */
    method KickPeer(role: Role) returns (notified: bool)
      requires Valid()
      modifies this
      ensures Valid() && Runs(old(Now()), [Kick(role)], Now())
      ensures notified <==> old(MustNotify(ViewAt(DriverIdle, DeviceIdle), role))
    {
      hide Inv, Runs, Record, Wrap;
      ghost var w := Now();
      OneAction(w, Kick(role));
      if role == DriverRole {
        notified := if eventIdx then NeedEvent(availEvent, availIdx, Wrap(availIdx - driverQueued)) else !noNotify;
        driverQueued := 0;
      } else {
        notified := if eventIdx then NeedEvent(usedEvent, usedIdx, Wrap(usedIdx - deviceQueued)) else !noInterrupt;
        deviceQueued := 0;
      }
      hist := Next(w, Kick(role)).h;
      assert Now() == Next(w, Kick(role));
    }
  }

  lemma Masked(w: World, x: u16) returns (slot: nat)
    requires Inv(w)
    ensures w.q.n > 0 && slot == And(x, w.q.n - 1) == Slot(x, w.q.n) < w.q.n
  {
    hide And, Slot;
    SlotIsMask(x, w.q.n);
    slot := Slot(x, w.q.n);
  }

  lemma RingSizes(w: World)
    requires Inv(w)
    ensures Sized(w.q) && ValidSize(w.q.n)
  {}

  lemma NoRun(w: World)
    ensures Runs(w, [], w)
  {}

  lemma ChainHead(sh: Shared, extra: seq<Extra>, slot: nat, n: nat, ds: seq<nat>)
    requires NamesChain(sh, extra, slot, n, ds)
    ensures |ds| >= 1 && slot < |sh.usedRing| && ds[0] == sh.usedRing[slot].id
  {}

  lemma FillEnabled(w: World)
    requires w.q.drv.pc.Filling? && w.q.drv.pc.i < |w.q.drv.pc.req.bufs|
    ensures Enabled(w.q, FillOne)
  {}

  lemma FillLeavesRoom(w: World)
    requires Inv(w) && w.q.drv.pc.Filling?
    ensures |w.q.drv.pc.req.bufs| <= w.q.drv.freeCnt
  {
    assert FillOk(w.q.sh.desc, w.q.drv.extra, w.q.drv.pc, w.h.free);
    assert FreeOk(w.q.n, w.q.sh.desc, w.q.drv.headIdx, w.q.drv.freeCnt, w.h.free, w.h.owner);
    hide Inv;
  }
}
