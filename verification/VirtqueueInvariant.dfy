/** The inductive invariant of the split virtqueue and the facts it rests on. */
module VirtqueueInvariant {
  import opened Options
  import opened Counting
  import opened Bits
  import opened VirtqueueProtocol

  /** The i-th entry of a list, or the list terminator. */
  function At(free: seq<nat>, i: nat): nat {
    if i < |free| then free[i] else CHAIN_END
  }

  /** The free list: following `next` from the head visits exactly the free descriptors, once
      each, and ends in the terminator after freeCnt of them. */
  predicate FreeOk(n: nat, desc: seq<Desc>, headIdx: nat, freeCnt: nat, free: seq<nat>, owner: seq<Owner>) {
    && |desc| == n && |owner| == n
    && freeCnt == |free| && headIdx == At(free, 0) && NoDup(free)
    && (forall i :: 0 <= i < |free| ==>
          free[i] < n && owner[free[i]] == Free && desc[free[i]].next == At(free, i + 1))
    && (forall d :: 0 <= d < n && owner[d] == Free ==> d in free)
  }

  /** A chain's descriptors carry its request, are linked in order and belong to it alone. */
  predicate ChainOk(desc: seq<Desc>, extra: seq<Extra>, owner: seq<Owner>, k: nat, c: Chain) {
    && |desc| == |extra| == |owner|
    && 1 <= |c.descs| == |c.req.bufs| && NoDup(c.descs)
    && (forall i :: 0 <= i < |c.descs| ==>
          && c.descs[i] < |desc| && owner[c.descs[i]] == In(k)
          && desc[c.descs[i]] == Filled(desc[c.descs[i]], c.req, i)
          && (i + 1 < |c.descs| ==> desc[c.descs[i]].next == c.descs[i + 1]))
    && extra[c.descs[0]] == Extra(Some(c.req.cookie), |c.descs|)
  }

  predicate ChainsOk(desc: seq<Desc>, extra: seq<Extra>, owner: seq<Owner>, chains: seq<Chain>, stage: seq<Stage>) {
    && |stage| == |chains|
    && (forall k :: 0 <= k < |chains| ==> 1 <= |chains[k].descs| == |chains[k].req.bufs|)
    && (forall k :: 0 <= k < |chains| && stage[k] != Reaped ==> ChainOk(desc, extra, owner, k, chains[k]))
    && (forall d :: 0 <= d < |owner| && owner[d].In? ==>
          owner[d].k < |chains| && stage[owner[d].k] != Reaped && d in chains[owner[d].k].descs)
  }

  /** Slots of the avail ring from the first chain not yet taken hold the chains' heads in order. */
  predicate AvailOk(n: nat, ring: seq<nat>, chains: seq<Chain>, stage: seq<Stage>, lo: nat) {
    && 0 < n == |ring| && lo <= |chains| == |stage|
    && (forall k :: 0 <= k < |chains| ==> |chains[k].descs| >= 1)
    && (forall k :: lo <= k < |chains| ==> ring[Slot(k, n)] == chains[k].descs[0])
    && (forall k :: 0 <= k < |chains| ==> (stage[k] == Available <==> k >= lo))
  }

  /** Slots of the used ring from the first chain not yet reaped name the returned chains in order. */
  predicate UsedOk(n: nat, ring: seq<UsedElem>, chains: seq<Chain>, stage: seq<Stage>, returned: seq<nat>, lo: nat) {
    && 0 < n == |ring| && lo <= |returned| && |chains| == |stage| && NoDup(returned)
    && (forall k :: 0 <= k < |chains| ==> |chains[k].descs| >= 1)
    && (forall j :: 0 <= j < |returned| ==> returned[j] < |chains|)
    && (forall j :: 0 <= j < lo ==> stage[returned[j]] == Reaped)
    && (forall j :: lo <= j < |returned| ==>
          stage[returned[j]] == InUsedRing && ring[Slot(j, n)].id == chains[returned[j]].descs[0])
    && (forall k :: 0 <= k < |chains| && (stage[k].InUsedRing? || stage[k].Reaped?) ==> k in returned)
  }

  predicate HeldOk(held: set<nat>, owner: seq<Owner>, chains: seq<Chain>, stage: seq<Stage>) {
    && |chains| == |stage|
    && (forall k :: 0 <= k < |chains| ==> |chains[k].descs| >= 1)
    && (forall d :: d in held ==>
          && d < |owner| && owner[d].In? && owner[d].k < |chains|
          && chains[owner[d].k].descs[0] == d && stage[owner[d].k] == AtDevice)
    && (forall k :: 0 <= k < |chains| && stage[k] == AtDevice ==> chains[k].descs[0] in held)
  }

  predicate FillOk(desc: seq<Desc>, extra: seq<Extra>, pc: DriverPc, free: seq<nat>) {
    pc.Filling? ==>
      && 1 <= |pc.req.bufs| <= |free| && pc.i <= |pc.req.bufs|
      && pc.head == free[0] && pc.idx == At(free, pc.i)
      && (forall j :: 0 <= j < |free| ==> free[j] < |desc|) && |extra| == |desc|
      && (forall j :: 0 <= j < pc.i ==> desc[free[j]] == Filled(desc[free[j]], pc.req, j))
      && extra[pc.head] == Extra(Some(pc.req.cookie), |pc.req.bufs|)
  }

  /** Only the head of a live chain, or of the chain being filled, has a cookie. */
  predicate CookieOk(extra: seq<Extra>, pc: DriverPc, owner: seq<Owner>, chains: seq<Chain>) {
    && |extra| == |owner|
    && (forall k :: 0 <= k < |chains| ==> |chains[k].descs| >= 1)
    && (forall d :: 0 <= d < |extra| && extra[d].cookie.Some? ==>
          || (pc.Filling? && d == pc.head)
          || (owner[d].In? && owner[d].k < |chains| && chains[owner[d].k].descs[0] == d))
  }

  function Taking(pc: DevicePc): nat { if pc.ReadingSlot? || pc.ReadingDesc? then 1 else 0 }

  function Reaping1(pc: DriverPc): nat { if pc.Reaping? then 1 else 0 }

  /** The wrapping indices are the unbounded counts modulo 2^16. */
  predicate CountersOk(q: Queue, h: Hist) {
    && |h.chains| == h.availCount + (if q.drv.pc.Publishing? then 1 else 0)
    && |h.returned| == h.usedCount + (if q.dev.pc.Returning? then 1 else 0)
    && q.sh.availIdx == Wrap(h.availCount) && q.sh.usedIdx == Wrap(h.usedCount)
    && |h.taken| + Taking(q.dev.pc) <= h.availCount && |h.reaped| + Reaping1(q.drv.pc) <= h.usedCount
    && q.dev.availCons == Wrap(|h.taken| + Taking(q.dev.pc))
    && q.drv.usedCons == Wrap(|h.reaped| + Reaping1(q.drv.pc))
    && (q.drv.pc.Reaping? ==> q.n > 0 && q.drv.pc.slot == Slot(|h.reaped|, q.n))
    && (q.dev.pc.ReadingSlot? ==> q.n > 0 && q.dev.pc.slot == Slot(|h.taken|, q.n))
    && (q.dev.pc.ReadingDesc? ==> |h.chains[|h.taken|].descs| >= 1 && q.dev.pc.head == h.chains[|h.taken|].descs[0])
  }

  /** What the k-th successful take returned is the k-th published chain; what the j-th
      successful reap returned is the cookie of the j-th chain the device gave back. */
  predicate LogOk(h: Hist) {
    && |h.taken| <= |h.chains| && |h.reaped| <= |h.returned|
    && (forall k :: 0 <= k < |h.taken| ==> h.taken[k] == TakenOf(h.chains[k]))
    && (forall j :: 0 <= j < |h.returned| ==> h.returned[j] < |h.chains|)
    && (forall j :: 0 <= j < |h.reaped| ==> h.reaped[j] == Some(h.chains[h.returned[j]].req.cookie))
  }

  /** The answer virtqueue_get_available_buffer owes for a chain: its head and its first buffer. */
  function TakenOf(c: Chain): Taken {
    if c.descs == [] || c.req.bufs == [] then Taken(0, 0, 0)
    else Taken(c.descs[0], c.req.bufs[0].addr, c.req.bufs[0].len)
  }

  /** Once a side has enabled notifications and seen nothing pending at count p, the event
      index (or flag) still asks for entry p, and the peer has not kicked past p. */
  predicate NotifyOk(q: Queue, h: Hist) {
    && h.driverKick <= h.availCount && q.drv.queued == Wrap(h.availCount - h.driverKick)
    && h.deviceKick <= h.usedCount && q.dev.queued == Wrap(h.usedCount - h.deviceKick)
    && (h.driverArmed.Some? ==>
          && h.deviceKick <= h.driverArmed.value <= h.usedCount
          && (if q.eventIdx then q.sh.usedEvent == Wrap(h.driverArmed.value) else !q.sh.noInterrupt))
    && (h.deviceArmed.Some? ==>
          && h.driverKick <= h.deviceArmed.value <= h.availCount
          && (if q.eventIdx then q.sh.availEvent == Wrap(h.deviceArmed.value) else !q.sh.noNotify))
    && (q.drv.pc.DriverArming? ==> if q.eventIdx then q.sh.usedEvent == q.drv.usedCons else !q.sh.noInterrupt)
    && (q.dev.pc.DeviceArming? ==> if q.eventIdx then q.sh.availEvent == q.dev.availCons else !q.sh.noNotify)
  }

  predicate Inv(w: World) {
    var q, h := w.q, w.h;
    && ValidSize(q.n) && Sized(q)
    && FreeOk(q.n, q.sh.desc, q.drv.headIdx, q.drv.freeCnt, h.free, h.owner)
    && ChainsOk(q.sh.desc, q.drv.extra, h.owner, h.chains, h.stage)
    && AvailOk(q.n, q.sh.availRing, h.chains, h.stage, |h.taken|)
    && UsedOk(q.n, q.sh.usedRing, h.chains, h.stage, h.returned, |h.reaped|)
    && HeldOk(q.dev.held, h.owner, h.chains, h.stage)
    && FillOk(q.sh.desc, q.drv.extra, q.drv.pc, h.free)
    && CookieOk(q.drv.extra, q.drv.pc, h.owner, h.chains)
    && CountersOk(q, h) && LogOk(h) && NotifyOk(q, h)
  }

  // ---- Arithmetic of the wrapping indices ----

  lemma PowersOfTwo()
    ensures PowerOfTwo(U16) && forall n: nat :: ValidSize(n) ==> n <= CHAIN_END
  {
    assert PowerOfTwo(16);
    assert PowerOfTwo(256);
    assert PowerOfTwo(4096);
    assert PowerOfTwo(U16);
    forall n: nat | ValidSize(n) ensures n <= CHAIN_END {
      if n > CHAIN_END {
        NoPowerBetween(n, CHAIN_END);
      }
    }
  }

  lemma {:induction false} NoPowerBetween(n: nat, m: nat)
    requires PowerOfTwo(n) && PowerOfTwo(m) && m < n
    ensures n >= 2 * m
  {
    if m > 1 {
      NoPowerBetween(n / 2, m / 2);
    }
  }

  lemma {:induction false} WrapIsMod(a: int)
    ensures Wrap(a) == a % U16
    decreases a < 0, if a < 0 then -a else a
  {
    if a < 0 { WrapIsMod(a + U16); } else if a >= U16 { WrapIsMod(a - U16); }
  }

  lemma WrapSum(a: int, b: int)
    ensures Wrap(Wrap(a) + b) == Wrap(a + b)
    ensures Wrap(a - Wrap(b)) == Wrap(a - b)
  {
    hide Wrap;
    WrapDrops(a, b);
    WrapDrops(b, a);
  }

  lemma WrapDrops(a: int, b: int)
    ensures Wrap(Wrap(a) + b) == Wrap(a + b) && Wrap(b - Wrap(a)) == Wrap(b - a)
  {
    hide Wrap;
    WrapIsMod(a);
    var k := a / U16;
    assert a == Wrap(a) + U16 * k;
    WrapIsMod(Wrap(a) + b);
    WrapIsMod(a + b);
    ModAddMultiple(Wrap(a) + b, U16, k);
    WrapIsMod(b - Wrap(a));
    WrapIsMod(b - a);
    ModAddMultiple(b - a, U16, k);
  }

  lemma {:induction false} SlotIsMod(a: nat, n: nat)
    requires n > 0
    ensures Slot(a, n) == a % n
  {
    if a >= n {
      SlotIsMod(a - n, n);
      ModAddMultiple(a - n, n, 1);
    }
  }

  /** The code's mask finds the slot. */
  lemma SlotIsMask(a: nat, n: nat)
    requires PowerOfTwo(n)
    ensures n > 0 && And(a, n - 1) == Slot(a, n)
  {
    MaskIsMod(a, n);
    SlotIsMod(a, n);
  }

  /** Masking the 16-bit index finds the slot of the unbounded count, because the ring size
      divides 2^16. */
  lemma SlotOfWrapped(n: nat, a: nat)
    requires ValidSize(n)
    ensures And(Wrap(a), n - 1) == Slot(Wrap(a), n) == Slot(a, n)
  {
    hide Wrap, Slot, And;
    SlotIsMask(Wrap(a), n);
    assert exists m: nat :: U16 == n * m by {
      PowersOfTwo();
      SmallerPowerDivides(n, U16);
      assert U16 == n * (U16 / n);
    }
    var m: nat :| U16 == n * m;
    WrapIsMod(a);
    assert a == Wrap(a) + U16 * (a / U16);
    assert n * (m * (a / U16)) == U16 * (a / U16);
    ModAddMultiple(Wrap(a), n, m * (a / U16));
    SlotIsMod(Wrap(a), n);
    SlotIsMod(a, n);
  }

  /** Counts less than one ring apart sit in different slots. */
  lemma SlotsDiffer(n: nat, a: nat, b: nat)
    requires 0 < n && a < b < a + n
    ensures Slot(a, n) != Slot(b, n)
  {
    RemaindersDiffer(n, a, b);
    SlotIsMod(a, n);
    SlotIsMod(b, n);
  }

  // ---- Counting by pigeonhole ----

  /** The heads of the given live chains, as a list. */
  function Heads(chains: seq<Chain>, ids: seq<nat>): (r: seq<nat>)
    requires forall i :: 0 <= i < |ids| ==> ids[i] < |chains| && |chains[ids[i]].descs| >= 1
    ensures |r| == |ids| && forall i :: 0 <= i < |ids| ==> r[i] == chains[ids[i]].descs[0]
  {
    seq(|ids|, i requires 0 <= i < |ids| => chains[ids[i]].descs[0])
  }

  /** Distinct live chains number at most n, and fewer while a descriptor is free. */
  lemma LiveChainsFit(w: World, ids: seq<nat>)
    requires Inv(w) && NoDup(ids)
    requires forall i :: 0 <= i < |ids| ==> ids[i] < |w.h.chains| && w.h.stage[ids[i]] != Reaped
    ensures |ids| <= w.q.n && (|w.h.free| > 0 ==> |ids| < w.q.n)
  {
    var h := w.h;
    forall i | 0 <= i < |ids| ensures ChainOk(w.q.sh.desc, w.q.drv.extra, h.owner, ids[i], h.chains[ids[i]]) {}
    var hs := Heads(h.chains, ids);
    forall i, j | 0 <= i < j < |hs| ensures hs[i] != hs[j] {
      assert h.owner[hs[i]] == In(ids[i]) && h.owner[hs[j]] == In(ids[j]);
    }
    DistinctBelow(hs, w.q.n);
    if |h.free| > 0 {
      var gs := hs + [h.free[0]];
      forall i, j | 0 <= i < j < |gs| ensures gs[i] != gs[j] {
        assert h.owner[gs[i]] == In(ids[i]);
        assert h.owner[h.free[0]] == Free;
      }
      DistinctBelow(gs, w.q.n);
    }
  }

  function Range(lo: nat, hi: nat): (r: seq<nat>)
    requires lo <= hi
    ensures |r| == hi - lo && forall i :: 0 <= i < |r| ==> r[i] == lo + i
  {
    seq(hi - lo, i requires 0 <= i < hi - lo => lo + i)
  }

  /** The avail ring never holds more than n chains that the device has not taken. */
  lemma AvailFits(w: World)
    requires Inv(w)
    ensures |w.h.chains| - |w.h.taken| <= w.q.n
    ensures |w.h.free| > 0 ==> |w.h.chains| - |w.h.taken| < w.q.n
  {
    LiveChainsFit(w, Range(|w.h.taken|, |w.h.chains|));
  }

  /** The used ring never holds more than n chains that the driver has not reaped, and fewer
      while the device still holds one. */
  lemma UsedFits(w: World)
    requires Inv(w)
    ensures |w.h.returned| - |w.h.reaped| <= w.q.n
    ensures w.q.dev.held != {} ==> |w.h.returned| - |w.h.reaped| < w.q.n
  {
    var h := w.h;
    ReturnedIds(w.q.n, w.q.sh.usedRing, h.chains, h.stage, h.returned, |h.reaped|);
    var ids := h.returned[|h.reaped|..];
    LiveChainsFit(w, ids);
    if w.q.dev.held != {} {
      var d :| d in w.q.dev.held;
      var k := h.owner[d].k;
      assert k < |h.chains| && h.stage[k] == AtDevice;
      hide *;
      LiveChainsFit(w, ids + [k]);
    }
  }

  lemma ReturnedIds(n: nat, ring: seq<UsedElem>, chains: seq<Chain>, stage: seq<Stage>, returned: seq<nat>, lo: nat)
    requires UsedOk(n, ring, chains, stage, returned, lo)
    ensures var ids := returned[lo..];
            && NoDup(ids) && |stage| == |chains|
            && (forall i :: 0 <= i < |ids| ==> ids[i] < |chains| && stage[ids[i]] == InUsedRing)
            && (forall k :: 0 <= k < |stage| && stage[k] == AtDevice ==> NoDup(ids + [k]))
  {}
}
