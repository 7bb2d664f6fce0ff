/** Every action of either party keeps the virtqueue invariant.  The lemmas come in three
    layers: one part of the invariant over the values it speaks of, then one action over the
    whole invariant, then every action. */
module VirtqueueSteps {
  import opened Options
  import opened Counting
  import opened VirtqueueProtocol
  import opened VirtqueueInvariant

  // ---- The free list ----

  lemma FreeAfterFill(n: nat, desc: seq<Desc>, headIdx: nat, freeCnt: nat, free: seq<nat>, owner: seq<Owner>,
                      idx: nat, d: Desc)
    requires FreeOk(n, desc, headIdx, freeCnt, free, owner)
    requires idx < n && d.next == desc[idx].next
    ensures FreeOk(n, desc[idx := d], headIdx, freeCnt, free, owner)
  {}

  lemma FreeAfterTaking(n: nat, desc: seq<Desc>, headIdx: nat, freeCnt: nat, free: seq<nat>, owner: seq<Owner>,
                        m: nat, k: nat)
    requires FreeOk(n, desc, headIdx, freeCnt, free, owner) && m <= |free|
    ensures FreeOk(n, desc, At(free, m), freeCnt - m, free[m..], Reown(owner, free[..m], In(k)))
  {
    var owner' := Reown(owner, free[..m], In(k));
    forall i | 0 <= i < |free[m..]| ensures owner'[free[m..][i]] == Free {
      assert free[m..][i] == free[m + i];
    }
    forall d | 0 <= d < n && owner'[d] == Free ensures d in free[m..] {
      var i :| 0 <= i < |free| && free[i] == d;
      assert forall j :: 0 <= j < m ==> free[j] in free[..m];
      assert free[m..][i - m] == d;
    }
  }

  /** Putting a chain back in front of the free list, by linking its last descriptor to the
      old head. */
  lemma FreeAfterReturning(n: nat, desc: seq<Desc>, headIdx: nat, freeCnt: nat, free: seq<nat>, owner: seq<Owner>,
                           extra: seq<Extra>, c: Chain, k: nat)
    requires FreeOk(n, desc, headIdx, freeCnt, free, owner) && ChainOk(desc, extra, owner, k, c)
    ensures var ds := c.descs;
            var last := ds[|ds| - 1];
            FreeOk(n, desc[last := desc[last].(next := headIdx)], ds[0], freeCnt + |ds|, ds + free, Reown(owner, ds, Free))
    ensures freeCnt + |c.descs| <= n
  {
    var ds := c.descs;
    var last := ds[|ds| - 1];
    var desc' := desc[last := desc[last].(next := headIdx)];
    var free' := ds + free;
    var owner' := Reown(owner, ds, Free);
    forall i, j | 0 <= i < j < |free'| ensures free'[i] != free'[j] {
      if i < |ds| <= j {
        assert owner[free'[j]] == Free;
      }
    }
    forall i | 0 <= i < |free'| ensures free'[i] < n && owner'[free'[i]] == Free && desc'[free'[i]].next == At(free', i + 1) {
      if i >= |ds| {
        assert owner[free'[i]] == Free && free'[i] == free[i - |ds|];
      }
    }
    forall d | 0 <= d < n && owner'[d] == Free ensures d in free' {}
    DistinctBelow(free', n);
  }

  // ---- The live chains ----

  lemma ChainAfterOther(desc: seq<Desc>, extra: seq<Extra>, owner: seq<Owner>, k: nat, c: Chain,
                        desc': seq<Desc>, extra': seq<Extra>, owner': seq<Owner>)
    requires ChainOk(desc, extra, owner, k, c)
    requires |desc'| == |extra'| == |owner'| == |desc|
    requires forall d :: 0 <= d < |desc| && owner[d] == In(k) ==>
               desc'[d] == desc[d] && extra'[d] == extra[d] && owner'[d] == In(k)
    ensures ChainOk(desc', extra', owner', k, c)
  {
    forall i | 0 <= i < |c.descs|
      ensures desc'[c.descs[i]] == desc[c.descs[i]] && owner'[c.descs[i]] == In(k)
    {
      assert owner[c.descs[i]] == In(k);
    }
    assert owner[c.descs[0]] == In(k);
  }

  /** Writing a free descriptor or its extra entry disturbs no chain. */
  lemma ChainsAfterFreeWrite(desc: seq<Desc>, extra: seq<Extra>, owner: seq<Owner>, chains: seq<Chain>,
                             stage: seq<Stage>, x: nat, d: Desc, e: Extra)
    requires ChainsOk(desc, extra, owner, chains, stage)
    requires |desc| == |extra| == |owner| && x < |desc| && owner[x] == Free
    ensures ChainsOk(desc[x := d], extra[x := e], owner, chains, stage)
  {
    forall k | 0 <= k < |chains| && stage[k] != Reaped
      ensures ChainOk(desc[x := d], extra[x := e], owner, k, chains[k])
    {
      ChainAfterOther(desc, extra, owner, k, chains[k], desc[x := d], extra[x := e], owner);
    }
  }

  lemma ChainsAfterAdding(desc: seq<Desc>, extra: seq<Extra>, owner: seq<Owner>, chains: seq<Chain>,
                          stage: seq<Stage>, c: Chain)
    requires ChainsOk(desc, extra, owner, chains, stage)
    requires |desc| == |extra| == |owner| && 1 <= |c.descs| == |c.req.bufs|
    requires forall i :: 0 <= i < |c.descs| ==> c.descs[i] < |owner| && owner[c.descs[i]] == Free
    requires ChainOk(desc, extra, Reown(owner, c.descs, In(|chains|)), |chains|, c)
    ensures ChainsOk(desc, extra, Reown(owner, c.descs, In(|chains|)), chains + [c], stage + [Available])
  {
    var owner' := Reown(owner, c.descs, In(|chains|));
    forall k | 0 <= k < |chains| && stage[k] != Reaped ensures ChainOk(desc, extra, owner', k, chains[k]) {
      ChainAfterOther(desc, extra, owner, k, chains[k], desc, extra, owner');
    }
  }

  lemma ChainsAfterStage(desc: seq<Desc>, extra: seq<Extra>, owner: seq<Owner>, chains: seq<Chain>,
                         stage: seq<Stage>, k: nat, s: Stage)
    requires ChainsOk(desc, extra, owner, chains, stage)
    requires k < |chains| && stage[k] != Reaped && s != Reaped
    ensures ChainsOk(desc, extra, owner, chains, stage[k := s])
  {}

  lemma ChainsAfterReaping(desc: seq<Desc>, extra: seq<Extra>, owner: seq<Owner>, chains: seq<Chain>,
                           stage: seq<Stage>, k: nat, d: Desc, e: Extra)
    requires ChainsOk(desc, extra, owner, chains, stage)
    requires |desc| == |extra| == |owner|
    requires k < |chains| && stage[k] != Reaped
    ensures var ds := chains[k].descs;
            && (forall i :: 0 <= i < |ds| ==> ds[i] < |desc|)
            && ChainsOk(desc[ds[|ds| - 1] := d], extra[ds[0] := e], Reown(owner, ds, Free), chains, stage[k := Reaped])
  {
    var ds := chains[k].descs;
    assert ChainOk(desc, extra, owner, k, chains[k]);
    var desc', extra', owner' := desc[ds[|ds| - 1] := d], extra[ds[0] := e], Reown(owner, ds, Free);
    assert forall i :: 0 <= i < |ds| ==> owner[ds[i]] == In(k);
    forall j | 0 <= j < |chains| && stage[k := Reaped][j] != Reaped ensures ChainOk(desc', extra', owner', j, chains[j]) {
      forall x | 0 <= x < |desc| && owner[x] == In(j) ensures x !in ds {}
      ChainAfterOther(desc, extra, owner, j, chains[j], desc', extra', owner');
    }
  }

  // ---- The rings, the held heads, the cookies ----

  lemma AvailAfterAdding(n: nat, ring: seq<nat>, chains: seq<Chain>, stage: seq<Stage>, lo: nat, c: Chain)
    requires AvailOk(n, ring, chains, stage, lo) && |c.descs| >= 1 && |chains| - lo < n
    ensures AvailOk(n, ring[Slot(|chains|, n) := c.descs[0]], chains + [c], stage + [Available], lo)
  {
    forall k | lo <= k < |chains| ensures Slot(k, n) != Slot(|chains|, n) {
      SlotsDiffer(n, k, |chains|);
    }
  }

  lemma AvailAfterStage(n: nat, ring: seq<nat>, chains: seq<Chain>, stage: seq<Stage>, lo: nat, k: nat, s: Stage)
    requires AvailOk(n, ring, chains, stage, lo) && k < lo && s != Available
    ensures AvailOk(n, ring, chains, stage[k := s], lo)
  {}

  lemma AvailAfterTaking(n: nat, ring: seq<nat>, chains: seq<Chain>, stage: seq<Stage>, lo: nat)
    requires AvailOk(n, ring, chains, stage, lo) && lo < |chains|
    ensures AvailOk(n, ring, chains, stage[lo := AtDevice], lo + 1)
  {}

  lemma UsedAfterAdding(n: nat, ring: seq<UsedElem>, chains: seq<Chain>, stage: seq<Stage>, returned: seq<nat>,
                        lo: nat, c: Chain)
    requires UsedOk(n, ring, chains, stage, returned, lo) && |c.descs| >= 1
    ensures UsedOk(n, ring, chains + [c], stage + [Available], returned, lo)
  {}

  lemma UsedAfterTaking(n: nat, ring: seq<UsedElem>, chains: seq<Chain>, stage: seq<Stage>, returned: seq<nat>,
                        lo: nat, k: nat)
    requires UsedOk(n, ring, chains, stage, returned, lo) && k < |chains| && stage[k] == Available
    ensures UsedOk(n, ring, chains, stage[k := AtDevice], returned, lo)
  {}

  lemma UsedAfterReturning(n: nat, ring: seq<UsedElem>, chains: seq<Chain>, stage: seq<Stage>, returned: seq<nat>,
                           lo: nat, k: nat, len: nat)
    requires UsedOk(n, ring, chains, stage, returned, lo) && k < |chains| && stage[k] == AtDevice
    requires |returned| - lo < n
    ensures UsedOk(n, ring[Slot(|returned|, n) := UsedElem(chains[k].descs[0], len)], chains, stage[k := InUsedRing],
                   returned + [k], lo)
  {
    forall j | lo <= j < |returned| ensures Slot(j, n) != Slot(|returned|, n) {
      SlotsDiffer(n, j, |returned|);
    }
    var r' := returned + [k];
    forall i | 0 <= i < |chains| && (stage[k := InUsedRing][i].InUsedRing? || stage[k := InUsedRing][i].Reaped?)
      ensures i in r'
    {
      if i != k {
        assert i in returned;
      } else {
        assert r'[|returned|] == k;
      }
    }
  }

  lemma UsedAfterReaping(n: nat, ring: seq<UsedElem>, chains: seq<Chain>, stage: seq<Stage>, returned: seq<nat>, lo: nat)
    requires UsedOk(n, ring, chains, stage, returned, lo) && lo < |returned|
    ensures UsedOk(n, ring, chains, stage[returned[lo] := Reaped], returned, lo + 1)
  {}

  lemma HeldAfterAdding(held: set<nat>, owner: seq<Owner>, chains: seq<Chain>, stage: seq<Stage>, c: Chain)
    requires HeldOk(held, owner, chains, stage) && |c.descs| >= 1
    requires forall i :: 0 <= i < |c.descs| ==> c.descs[i] < |owner| && owner[c.descs[i]] == Free
    ensures HeldOk(held, Reown(owner, c.descs, In(|chains|)), chains + [c], stage + [Available])
  {}

  lemma HeldAfterTaking(held: set<nat>, desc: seq<Desc>, extra: seq<Extra>, owner: seq<Owner>, chains: seq<Chain>,
                        stage: seq<Stage>, k: nat)
    requires HeldOk(held, owner, chains, stage) && k < |chains| && stage[k] == Available
    requires ChainOk(desc, extra, owner, k, chains[k])
    ensures HeldOk(held + {chains[k].descs[0]}, owner, chains, stage[k := AtDevice])
  {}

  lemma HeldAfterReturning(held: set<nat>, desc: seq<Desc>, extra: seq<Extra>, owner: seq<Owner>, chains: seq<Chain>,
                           stage: seq<Stage>, head: nat)
    requires HeldOk(held, owner, chains, stage) && head in held
    requires ChainsOk(desc, extra, owner, chains, stage)
    ensures HeldOk(held - {head}, owner, chains, stage[owner[head].k := InUsedRing])
  {
    forall i | 0 <= i < |chains| && stage[i] == AtDevice && i != owner[head].k ensures chains[i].descs[0] != head {
      assert ChainOk(desc, extra, owner, i, chains[i]);
    }
  }

  lemma HeldAfterReaping(held: set<nat>, desc: seq<Desc>, extra: seq<Extra>, owner: seq<Owner>, chains: seq<Chain>,
                         stage: seq<Stage>, k: nat)
    requires HeldOk(held, owner, chains, stage) && k < |chains| && stage[k] == InUsedRing
    requires ChainOk(desc, extra, owner, k, chains[k])
    ensures HeldOk(held, Reown(owner, chains[k].descs, Free), chains, stage[k := Reaped])
  {}

  lemma CookieAfterReaping(desc: seq<Desc>, extra: seq<Extra>, pc: DriverPc, owner: seq<Owner>, chains: seq<Chain>,
                           k: nat, nd: nat)
    requires CookieOk(extra, pc, owner, chains) && !pc.Filling? && k < |chains|
    requires ChainOk(desc, extra, owner, k, chains[k])
    ensures CookieOk(extra[chains[k].descs[0] := Extra(None, nd)], DriverIdle, Reown(owner, chains[k].descs, Free), chains)
  {}

  lemma CookieAfterBegin(extra: seq<Extra>, pc: DriverPc, owner: seq<Owner>, chains: seq<Chain>, pc': DriverPc, e: Extra)
    requires CookieOk(extra, pc, owner, chains) && !pc.Filling? && pc'.Filling? && pc'.head < |extra|
    ensures CookieOk(extra[pc'.head := e], pc', owner, chains)
  {}

  lemma CookieAfterAdding(extra: seq<Extra>, pc: DriverPc, owner: seq<Owner>, chains: seq<Chain>, c: Chain)
    requires CookieOk(extra, pc, owner, chains) && pc.Filling? && |c.descs| >= 1 && pc.head == c.descs[0]
    requires forall i :: 0 <= i < |c.descs| ==> c.descs[i] < |owner| && owner[c.descs[i]] == Free
    ensures CookieOk(extra, Publishing, Reown(owner, c.descs, In(|chains|)), chains + [c])
  {}

  lemma FillAfterFill(desc: seq<Desc>, extra: seq<Extra>, pc: DriverPc, free: seq<nat>)
    requires FillOk(desc, extra, pc, free) && NoDup(free) && pc.Filling? && pc.i < |pc.req.bufs|
    requires desc[free[pc.i]].next == At(free, pc.i + 1)
    ensures FillOk(desc[pc.idx := Filled(desc[pc.idx], pc.req, pc.i)], extra,
                   pc.(i := pc.i + 1, idx := desc[pc.idx].next), free)
  {}

  /** The chain a finished fill has built. */
  lemma FilledChainOk(n: nat, desc: seq<Desc>, extra: seq<Extra>, drv: Driver, free: seq<nat>, owner: seq<Owner>, k: nat)
    requires FreeOk(n, desc, drv.headIdx, drv.freeCnt, free, owner)
    requires drv.pc.Filling? && drv.pc.i == |drv.pc.req.bufs| && FillOk(desc, extra, drv.pc, free)
    ensures var ds := free[..drv.pc.i];
            && ChainOk(desc, extra, Reown(owner, ds, In(k)), k, Chain(ds, drv.pc.req))
            && (forall i :: 0 <= i < |ds| ==> ds[i] < |owner| && owner[ds[i]] == Free)
  {}

  lemma LogAfterAdding(h: Hist, h': Hist, c: Chain)
    requires LogOk(h) && h'.taken == h.taken && h'.returned == h.returned && h'.reaped == h.reaped
    requires h'.chains == h.chains + [c]
    ensures LogOk(h')
  {}

  lemma LogAfterTaking(h: Hist, h': Hist)
    requires LogOk(h) && |h.taken| < |h.chains|
    requires h'.taken == h.taken + [TakenOf(h.chains[|h.taken|])]
    requires h'.returned == h.returned && h'.reaped == h.reaped && h'.chains == h.chains
    ensures LogOk(h')
  {}

  lemma LogAfterReturning(h: Hist, h': Hist, k: nat)
    requires LogOk(h) && k < |h.chains| && h'.returned == h.returned + [k]
    requires h'.taken == h.taken && h'.reaped == h.reaped && h'.chains == h.chains
    ensures LogOk(h')
  {}

  lemma LogAfterReaping(h: Hist, h': Hist)
    requires LogOk(h) && |h.reaped| < |h.returned|
    requires h'.reaped == h.reaped + [Some(h.chains[h.returned[|h.reaped|]].req.cookie)]
    requires h'.taken == h.taken && h'.returned == h.returned && h'.chains == h.chains
    ensures LogOk(h')
  {}

  // ---- What one part of the invariant says about the entry at hand ----

  lemma FreeEntry(n: nat, desc: seq<Desc>, headIdx: nat, freeCnt: nat, free: seq<nat>, owner: seq<Owner>, i: nat)
    requires FreeOk(n, desc, headIdx, freeCnt, free, owner) && i < |free|
    ensures free[i] < n && owner[free[i]] == Free && desc[free[i]].next == At(free, i + 1)
    ensures NoDup(free)
  {}

  lemma FreeBounds(n: nat, desc: seq<Desc>, headIdx: nat, freeCnt: nat, free: seq<nat>, owner: seq<Owner>)
    requires FreeOk(n, desc, headIdx, freeCnt, free, owner)
    ensures freeCnt == |free| && headIdx == At(free, 0) && |desc| == |owner| == n && forall j :: 0 <= j < |free| ==> free[j] < n
  {}

  lemma ChainEntry(desc: seq<Desc>, extra: seq<Extra>, owner: seq<Owner>, chains: seq<Chain>, stage: seq<Stage>, k: nat)
    requires ChainsOk(desc, extra, owner, chains, stage) && k < |chains| && stage[k] != Reaped
    ensures ChainOk(desc, extra, owner, k, chains[k]) && 1 <= |chains[k].descs| == |chains[k].req.bufs|
    ensures chains[k].descs[0] < |desc| && owner[chains[k].descs[0]] == In(k)
    ensures desc[chains[k].descs[0]].addr == chains[k].req.bufs[0].addr
    ensures desc[chains[k].descs[0]].len == chains[k].req.bufs[0].len
    ensures extra[chains[k].descs[0]] == Extra(Some(chains[k].req.cookie), |chains[k].descs|)
  {}

  lemma AvailEntry(n: nat, ring: seq<nat>, chains: seq<Chain>, stage: seq<Stage>, lo: nat, k: nat)
    requires AvailOk(n, ring, chains, stage, lo) && k < |chains|
    ensures |stage| == |chains| && (stage[k] == Available <==> k >= lo)
    ensures |chains[k].descs| >= 1 && (k >= lo ==> ring[Slot(k, n)] == chains[k].descs[0])
  {}

  lemma UsedEntry(n: nat, ring: seq<UsedElem>, chains: seq<Chain>, stage: seq<Stage>, returned: seq<nat>, lo: nat)
    requires UsedOk(n, ring, chains, stage, returned, lo) && lo < |returned|
    ensures returned[lo] < |chains| == |stage| && stage[returned[lo]] == InUsedRing
    ensures |chains[returned[lo]].descs| >= 1 && ring[Slot(lo, n)].id == chains[returned[lo]].descs[0]
  {}

  lemma HeldEntry(held: set<nat>, owner: seq<Owner>, chains: seq<Chain>, stage: seq<Stage>, d: nat)
    requires HeldOk(held, owner, chains, stage) && d in held
    ensures d < |owner| && owner[d].In? && owner[d].k < |chains| == |stage| && stage[owner[d].k] == AtDevice
    ensures |chains[owner[d].k].descs| >= 1 && chains[owner[d].k].descs[0] == d
  {}

  lemma FillEntry(desc: seq<Desc>, extra: seq<Extra>, pc: DriverPc, free: seq<nat>)
    requires FillOk(desc, extra, pc, free) && pc.Filling?
    ensures 1 <= |pc.req.bufs| <= |free| && pc.i <= |pc.req.bufs| && pc.head == free[0] && pc.idx == At(free, pc.i)
  {}

  lemma FillBegins(desc: seq<Desc>, extra: seq<Extra>, free: seq<nat>, req: Request)
    requires 1 <= |req.bufs| <= |free| && |extra| == |desc|
    requires forall j :: 0 <= j < |free| ==> free[j] < |desc|
    ensures FillOk(desc, extra[free[0] := Extra(Some(req.cookie), |req.bufs|)], Filling(req, free[0], 0, free[0]), free)
  {}

  lemma FillIrrelevant(desc: seq<Desc>, extra: seq<Extra>, pc: DriverPc, free: seq<nat>)
    requires !pc.Filling?
    ensures FillOk(desc, extra, pc, free)
  {}

  lemma CookieIdle(extra: seq<Extra>, pc: DriverPc, owner: seq<Owner>, chains: seq<Chain>, pc': DriverPc)
    requires CookieOk(extra, pc, owner, chains) && !pc.Filling? && !pc'.Filling?
    ensures CookieOk(extra, pc', owner, chains)
  {}

  lemma WrapSmall(a: int)
    requires 0 <= a < U16
    ensures Wrap(a) == a
  {}

  // ---- One action at a time ----

  lemma AddBeginKeeps(w: World, req: Request, w': World)
    requires Inv(w) && Step(w, AddBegin(req), w')
    ensures Inv(w')
  {
    hide ChainOk, Filled, FreeOk, ChainsOk, AvailOk, UsedOk, HeldOk, FillOk, CookieOk, LogOk, Wrap, Slot;
    var q, h := w.q, w.h;
    FreeBounds(q.n, q.sh.desc, q.drv.headIdx, q.drv.freeCnt, h.free, h.owner);
    var x := h.free[0];
    FreeEntry(q.n, q.sh.desc, q.drv.headIdx, q.drv.freeCnt, h.free, h.owner, 0);
    FillBegins(q.sh.desc, q.drv.extra, h.free, req);
    ChainsAfterFreeWrite(q.sh.desc, q.drv.extra, h.owner, h.chains, h.stage, x, q.sh.desc[x], w'.q.drv.extra[x]);
    assert q.sh.desc[x := q.sh.desc[x]] == q.sh.desc;
    CookieAfterBegin(q.drv.extra, q.drv.pc, h.owner, h.chains, w'.q.drv.pc, w'.q.drv.extra[x]);
  }

  lemma FillOneKeeps(w: World, w': World)
    requires Inv(w) && Step(w, FillOne, w')
    ensures Inv(w')
  {
    hide ChainOk, Filled, FreeOk, ChainsOk, AvailOk, UsedOk, HeldOk, FillOk, CookieOk, LogOk, Wrap, Slot;
    var q, h := w.q, w.h;
    var x := q.drv.pc.idx;
    FillEntry(q.sh.desc, q.drv.extra, q.drv.pc, h.free);
    FreeEntry(q.n, q.sh.desc, q.drv.headIdx, q.drv.freeCnt, h.free, h.owner, q.drv.pc.i);
    var d := w'.q.sh.desc[x];
    FilledKeepsNext(q.sh.desc[x], q.drv.pc.req, q.drv.pc.i);
    FillAfterFill(q.sh.desc, q.drv.extra, q.drv.pc, h.free);
    FreeAfterFill(q.n, q.sh.desc, q.drv.headIdx, q.drv.freeCnt, h.free, h.owner, x, d);
    ChainsAfterFreeWrite(q.sh.desc, q.drv.extra, h.owner, h.chains, h.stage, x, d, q.drv.extra[x]);
    assert q.drv.extra[x := q.drv.extra[x]] == q.drv.extra;
    CookieFilling(q.drv.extra, q.drv.pc, h.owner, h.chains, w'.q.drv.pc);
  }

  lemma CookieFilling(extra: seq<Extra>, pc: DriverPc, owner: seq<Owner>, chains: seq<Chain>, pc': DriverPc)
    requires CookieOk(extra, pc, owner, chains) && pc.Filling? && pc'.Filling? && pc'.head == pc.head
    ensures CookieOk(extra, pc', owner, chains)
  {}

  lemma FilledKeepsNext(d: Desc, req: Request, i: nat)
    requires i < |req.bufs|
    ensures Filled(d, req, i).next == d.next
  {}

  lemma WriteSlotCounters(w: World, w': World)
    requires CountersOk(w.q, w.h) && NotifyOk(w.q, w.h) && Step(w, WriteSlot, w') && LogOk(w.h)
    ensures CountersOk(w'.q, w'.h) && NotifyOk(w'.q, w'.h) && |w.h.chains| == w.h.availCount
    ensures w.q.sh.availIdx == Wrap(w.h.availCount)
  {
    hide Wrap, Slot;
  }

  lemma WriteSlotKeeps(w: World, w': World)
    requires Inv(w) && Step(w, WriteSlot, w')
    ensures Inv(w')
  {
    hide CountersOk, NotifyOk;
    WriteSlotCounters(w, w');
    hide ChainOk, Filled, FreeOk, ChainsOk, AvailOk, UsedOk, HeldOk, FillOk, CookieOk, LogOk, Wrap, Slot;
    var q, h := w.q, w.h;
    var m, k := |q.drv.pc.req.bufs|, |h.chains|;
    FillEntry(q.sh.desc, q.drv.extra, q.drv.pc, h.free);
    var c := Chain(h.free[..m], q.drv.pc.req);
    AvailFits(w);
    SlotOfWrapped(q.n, h.availCount);
    FilledChainOk(q.n, q.sh.desc, q.drv.extra, q.drv, h.free, h.owner, k);
    FreeAfterTaking(q.n, q.sh.desc, q.drv.headIdx, q.drv.freeCnt, h.free, h.owner, m, k);
    ChainsAfterAdding(q.sh.desc, q.drv.extra, h.owner, h.chains, h.stage, c);
    AvailAfterAdding(q.n, q.sh.availRing, h.chains, h.stage, |h.taken|, c);
    UsedAfterAdding(q.n, q.sh.usedRing, h.chains, h.stage, h.returned, |h.reaped|, c);
    HeldAfterAdding(q.dev.held, h.owner, h.chains, h.stage, c);
    CookieAfterAdding(q.drv.extra, q.drv.pc, h.owner, h.chains, c);
    LogAfterAdding(h, w'.h, c);
    FillIrrelevant(w'.q.sh.desc, w'.q.drv.extra, w'.q.drv.pc, w'.h.free);
  }

  lemma BumpAvailKeeps(w: World, w': World)
    requires Inv(w) && Step(w, BumpAvail, w')
    ensures Inv(w')
  {
    hide ChainOk, Filled, FreeOk, ChainsOk, AvailOk, UsedOk, HeldOk, FillOk, CookieOk, LogOk, Wrap, Slot;
    WrapSum(w.h.availCount, 1);
    WrapSum(w.h.availCount - w.h.driverKick, 1);
    assert w'.h.availCount - w.h.driverKick == w.h.availCount - w.h.driverKick + 1;
    FillIrrelevant(w'.q.sh.desc, w'.q.drv.extra, w'.q.drv.pc, w'.h.free);
    CookieIdle(w.q.drv.extra, w.q.drv.pc, w.h.owner, w.h.chains, w'.q.drv.pc);
    assert LogOk(w'.h) by { LogUnchanged(w.h, w'.h); }
  }

  lemma LogUnchanged(h: Hist, h': Hist)
    requires LogOk(h) && h'.chains == h.chains && h'.taken == h.taken && h'.returned == h.returned && h'.reaped == h.reaped
    ensures LogOk(h')
  {}

  lemma ReapCheckKeeps(w: World, w': World)
    requires Inv(w) && Step(w, ReapCheck, w')
    ensures Inv(w')
  {
    hide ChainOk, Filled, FreeOk, ChainsOk, AvailOk, UsedOk, HeldOk, FillOk, CookieOk, LogOk, Wrap, Slot;
    SlotOfWrapped(w.q.n, |w.h.reaped|);
    WrapSum(|w.h.reaped|, 1);
    FillIrrelevant(w'.q.sh.desc, w'.q.drv.extra, w'.q.drv.pc, w'.h.free);
    CookieIdle(w.q.drv.extra, w.q.drv.pc, w.h.owner, w.h.chains, w'.q.drv.pc);
  }

  lemma ReapReadCounters(w: World, w': World)
    requires CountersOk(w.q, w.h) && NotifyOk(w.q, w.h) && Step(w, ReapRead, w')
    ensures CountersOk(w'.q, w'.h) && NotifyOk(w'.q, w'.h)
    ensures |w.h.reaped| < |w.h.returned| && w.q.drv.pc.slot == Slot(|w.h.reaped|, w.q.n)
  {
    hide Wrap, Slot, FreedFrom;
  }

  lemma ReapReadKeeps(w: World, w': World)
    requires Inv(w) && Step(w, ReapRead, w')
    ensures Inv(w')
  {
    hide ChainOk, Filled, FreeOk, ChainsOk, AvailOk, UsedOk, HeldOk, FillOk, CookieOk, LogOk, Wrap, Slot;
    hide FreedFrom, CountersOk, NotifyOk;
    ReapReadCounters(w, w');
    var q, h := w.q, w.h;
    UsedEntry(q.n, q.sh.usedRing, h.chains, h.stage, h.returned, |h.reaped|);
    var k := h.returned[|h.reaped|];
    var ds := h.chains[k].descs;
    ChainEntry(q.sh.desc, q.drv.extra, h.owner, h.chains, h.stage, k);
    AvailEntry(q.n, q.sh.availRing, h.chains, h.stage, |h.taken|, k);
    FreedIsLast(q.sh.desc, q.drv.extra, h.owner, k, h.chains[k]);
    FreeAfterReturning(q.n, q.sh.desc, q.drv.headIdx, q.drv.freeCnt, h.free, h.owner, q.drv.extra, h.chains[k], k);
    var last := ds[|ds| - 1];
    ChainsAfterReaping(q.sh.desc, q.drv.extra, h.owner, h.chains, h.stage, k,
                       q.sh.desc[last].(next := q.drv.headIdx), Extra(None, 0));
    AvailAfterStage(q.n, q.sh.availRing, h.chains, h.stage, |h.taken|, k, Reaped);
    UsedAfterReaping(q.n, q.sh.usedRing, h.chains, h.stage, h.returned, |h.reaped|);
    HeldAfterReaping(q.dev.held, q.sh.desc, q.drv.extra, h.owner, h.chains, h.stage, k);
    CookieAfterReaping(q.sh.desc, q.drv.extra, q.drv.pc, h.owner, h.chains, k, 0);
    LogAfterReaping(h, w'.h);
    FillIrrelevant(w'.q.sh.desc, w'.q.drv.extra, w'.q.drv.pc, w'.h.free);
    WrapSmall(q.drv.freeCnt + |ds|);
    WrapSmall(0);
  }

  lemma TakeCheckKeeps(w: World, w': World)
    requires Inv(w) && Step(w, TakeCheck, w')
    ensures Inv(w')
  {
    hide ChainOk, Filled, FreeOk, ChainsOk, AvailOk, UsedOk, HeldOk, FillOk, CookieOk, LogOk, Wrap, Slot;
    SlotOfWrapped(w.q.n, |w.h.taken|);
    WrapSum(|w.h.taken|, 1);
  }

  lemma TakeReadKeeps(w: World, w': World)
    requires Inv(w) && Step(w, TakeRead, w')
    ensures Inv(w')
  {
    hide ChainOk, Filled, FreeOk, ChainsOk, AvailOk, UsedOk, HeldOk, FillOk, CookieOk, LogOk, Wrap, Slot;
    AvailEntry(w.q.n, w.q.sh.availRing, w.h.chains, w.h.stage, |w.h.taken|, |w.h.taken|);
  }

  lemma TakeDescKeeps(w: World, w': World)
    requires Inv(w) && Step(w, TakeDesc, w')
    ensures Inv(w')
  {
    hide ChainOk, Filled, FreeOk, ChainsOk, AvailOk, UsedOk, HeldOk, FillOk, CookieOk, LogOk, Wrap, Slot;
    var q, h := w.q, w.h;
    var k := |h.taken|;
    AvailEntry(q.n, q.sh.availRing, h.chains, h.stage, k, k);
    ChainEntry(q.sh.desc, q.drv.extra, h.owner, h.chains, h.stage, k);
    ChainsAfterStage(q.sh.desc, q.drv.extra, h.owner, h.chains, h.stage, k, AtDevice);
    AvailAfterTaking(q.n, q.sh.availRing, h.chains, h.stage, k);
    UsedAfterTaking(q.n, q.sh.usedRing, h.chains, h.stage, h.returned, |h.reaped|, k);
    HeldAfterTaking(q.dev.held, q.sh.desc, q.drv.extra, h.owner, h.chains, h.stage, k);
    LogAfterTaking(h, w'.h);
  }

  lemma UseWriteKeeps(w: World, head: nat, len: nat, w': World)
    requires Inv(w) && Step(w, UseWrite(head, len), w')
    ensures Inv(w')
  {
    hide ChainOk, Filled, FreeOk, ChainsOk, AvailOk, UsedOk, HeldOk, FillOk, CookieOk, LogOk, Wrap, Slot;
    var q, h := w.q, w.h;
    HeldEntry(q.dev.held, h.owner, h.chains, h.stage, head);
    var k := ChainOf(h, head);
    UsedFits(w);
    SlotOfWrapped(q.n, h.usedCount);
    AvailEntry(q.n, q.sh.availRing, h.chains, h.stage, |h.taken|, k);
    ChainsAfterStage(q.sh.desc, q.drv.extra, h.owner, h.chains, h.stage, k, InUsedRing);
    AvailAfterStage(q.n, q.sh.availRing, h.chains, h.stage, |h.taken|, k, InUsedRing);
    UsedAfterReturning(q.n, q.sh.usedRing, h.chains, h.stage, h.returned, |h.reaped|, k, len);
    HeldAfterReturning(q.dev.held, q.sh.desc, q.drv.extra, h.owner, h.chains, h.stage, head);
    LogAfterReturning(h, w'.h, k);
  }

  lemma BumpUsedKeeps(w: World, w': World)
    requires Inv(w) && Step(w, BumpUsed, w')
    ensures Inv(w')
  {
    hide ChainOk, Filled, FreeOk, ChainsOk, AvailOk, UsedOk, HeldOk, FillOk, CookieOk, LogOk, Wrap, Slot;
    WrapSum(w.h.usedCount, 1);
    WrapSum(w.h.usedCount - w.h.deviceKick, 1);
    assert w'.h.usedCount - w.h.deviceKick == w.h.usedCount - w.h.deviceKick + 1;
    LogUnchanged(w.h, w'.h);
  }

  /** Seeing the peer's index equal to one's own means that nothing is pending: fewer than
      2^16 entries are ever outstanding. */
  lemma NothingPending(w: World)
    requires Inv(w)
    ensures PendingSeen(w.q, DriverRole) == 0 && !w.q.drv.pc.Reaping? ==> |w.h.reaped| == w.h.usedCount
    ensures PendingSeen(w.q, DeviceRole) == 0 && Taking(w.q.dev.pc) == 0 ==> |w.h.taken| == w.h.availCount
  {
    hide ChainOk, Filled, FreeOk, ChainsOk, AvailOk, UsedOk, HeldOk, FillOk, CookieOk, LogOk, Wrap, Slot;
    AvailFits(w);
    UsedFits(w);
    PendingCount(w.h.usedCount, |w.h.reaped|, w.q.n);
    PendingCount(w.h.availCount, |w.h.taken|, w.q.n);
  }

  lemma PendingCount(a: nat, b: nat, n: nat)
    requires b <= a <= b + n && n < U16
    ensures Wrap(Wrap(a) - Wrap(b)) == a - b
  {
    var minus: int := 0 - b;
    WrapSum(Wrap(a), b);
    WrapSum(a, minus);
    assert Wrap(a) - b == Wrap(a) + minus;
  }

  lemma ArmCounters(w: World, r: Role, w': World)
    requires CountersOk(w.q, w.h) && NotifyOk(w.q, w.h) && Step(w, Arm(r), w')
    ensures CountersOk(w'.q, w'.h) && NotifyOk(w'.q, w'.h)
  {
    hide Wrap, Slot;
  }

  lemma DisarmCounters(w: World, r: Role, w': World)
    requires CountersOk(w.q, w.h) && NotifyOk(w.q, w.h) && Step(w, Disarm(r), w')
    ensures CountersOk(w'.q, w'.h) && NotifyOk(w'.q, w'.h)
  {
    hide Wrap, Slot;
  }

  lemma ArmCheckCounters(w: World, r: Role, w': World)
    requires CountersOk(w.q, w.h) && NotifyOk(w.q, w.h) && Step(w, ArmCheck(r), w')
    requires PendingSeen(w.q, DriverRole) == 0 && !w.q.drv.pc.Reaping? ==> |w.h.reaped| == w.h.usedCount
    requires PendingSeen(w.q, DeviceRole) == 0 && Taking(w.q.dev.pc) == 0 ==> |w.h.taken| == w.h.availCount
    ensures CountersOk(w'.q, w'.h) && NotifyOk(w'.q, w'.h)
  {
    hide Wrap, Slot;
  }

  lemma ArmKeeps(w: World, a: Action, w': World)
    requires a.Arm? || a.Disarm? || a.ArmCheck?
    requires Inv(w) && Step(w, a, w')
    ensures Inv(w')
  {
    hide ChainOk, Filled, FreeOk, ChainsOk, AvailOk, UsedOk, HeldOk, FillOk, CookieOk, LogOk, Wrap, Slot;
    hide CountersOk, NotifyOk;
    NothingPending(w);
    match a {
      case Arm(r) => ArmCounters(w, r, w');
      case Disarm(r) => DisarmCounters(w, r, w');
      case ArmCheck(r) => ArmCheckCounters(w, r, w');
    }
    LogUnchanged(w.h, w'.h);
    DriverPcKept(w, w');
  }

  lemma KickCounters(w: World, a: Action, w': World)
    requires a.Kick? && CountersOk(w.q, w.h) && NotifyOk(w.q, w.h) && Step(w, a, w')
    ensures CountersOk(w'.q, w'.h) && NotifyOk(w'.q, w'.h)
  {
    hide Wrap, Slot;
    WrapSmall(0);
  }

  lemma KickKeeps(w: World, a: Action, w': World)
    requires a.Kick? && Inv(w) && Step(w, a, w')
    ensures Inv(w')
  {
    hide ChainOk, Filled, FreeOk, ChainsOk, AvailOk, UsedOk, HeldOk, FillOk, CookieOk, LogOk, Wrap, Slot;
    hide CountersOk, NotifyOk;
    KickCounters(w, a, w');
    LogUnchanged(w.h, w'.h);
    DriverPcKept(w, w');
  }

  lemma DriverPcKept(w: World, w': World)
    requires Inv(w) && w'.q.sh.desc == w.q.sh.desc && w'.q.drv.extra == w.q.drv.extra && w'.h.free == w.h.free
    requires w'.h.owner == w.h.owner && w'.h.chains == w.h.chains
    requires w'.q.drv.pc == w.q.drv.pc || (!w.q.drv.pc.Filling? && !w'.q.drv.pc.Filling?)
    ensures FillOk(w'.q.sh.desc, w'.q.drv.extra, w'.q.drv.pc, w'.h.free)
    ensures CookieOk(w'.q.drv.extra, w'.q.drv.pc, w'.h.owner, w'.h.chains)
  {}

  // ---- Walking a chain ----

  /** Following NEXT flags from a live chain's head ends at its last descriptor, after as many
      descriptors as the chain has. */
  lemma {:induction false} ChainEndIsLast(desc: seq<Desc>, ds: seq<nat>, i: nat, fuel: nat)
    requires i < |ds| && |ds| - i <= fuel
    requires forall j :: 0 <= j < |ds| ==>
               && ds[j] < |desc| && (desc[ds[j]].hasNext <==> j + 1 < |ds|)
               && (j + 1 < |ds| ==> desc[ds[j]].next == ds[j + 1])
    ensures ChainEnd(desc, ds[i], fuel) == (ds[|ds| - 1], |ds| - i)
    decreases fuel
  {
    if i + 1 < |ds| {
      ChainEndIsLast(desc, ds, i + 1, fuel - 1);
    }
  }

  lemma FreedIsLast(desc: seq<Desc>, extra: seq<Extra>, owner: seq<Owner>, k: nat, c: Chain)
    requires ChainOk(desc, extra, owner, k, c)
    ensures FreedFrom(desc, c.descs[0]) == (c.descs[|c.descs| - 1], |c.descs|)
    ensures |c.descs| <= |desc|
  {
    DistinctBelow(c.descs, |desc|);
    ChainEndIsLast(desc, c.descs, 0, |desc|);
  }
}
