/** rpmsg over virtio in driver role: who owns each buffer carved from the shared-memory pool. */
module RpmsgBuffers {
  import opened Options
  import opened Counting
  import opened VirtqueueProtocol
  import opened VirtqueueInvariant
  import opened VirtqueueTheorems
  import opened RingOwnership

  // struct rpmsg_virtio_shm_pool
  datatype PoolData = Pool(base: nat, size: nat, avail: nat)
  type Pool = p: PoolData | p.avail <= p.size witness Pool(0, 0, 0)

  // The part of a pool already given out ends here.
  function Top(p: Pool): int { p.base + p.size - p.avail }

  /** rpmsg_virtio_shm_pool_get_buffer: the buffer and the pool after it. */
  function PoolGet(p: Pool, size: nat): Option<(nat, Pool)> {
    if size == 0 || p.avail < size then None
    else Some((p.base + p.size - p.avail, p.(avail := p.avail - size)))
  }

  // h2r_buf_size, r2h_buf_size, split_shpool
  datatype Config = Config(h2r: nat, r2h: nat, split: bool)

  /** The peer writes receive buffers of r2h_buf_size and reads transmit buffers of h2r_buf_size. */
  function RxUse(cfg: Config): Use { Use(cfg.r2h, true) }
  function TxUse(cfg: Config): Use { Use(cfg.h2r, false) }

  // `appRx` maps a received buffer to the index kept in its header; the application holds it until
  // the release that balances its holds.  `rxFull` and `txFull` say that a call found the ring full.
  // `rxCarved` and `txCarved` record what the pools have given out.
  datatype State = State(
    cfg: Config, rx: World, tx: World, rxPool: Pool, txPool: Pool, filled: nat,
    appRx: map<nat, nat>, appTx: set<nat>, reclaimer: seq<nat>,
    rxFull: bool, txFull: bool, rxCarved: set<nat>, txCarved: set<nat>)

  datatype Move =
    // Any action of the peer, and the driver's own actions that go on with a call or notify.
    | OnQueue(tx: bool, a: Action)
    // One turn of the loop in rpmsg_init_vdev_with_config that fills the receive queue.
    | InitialFill
    // rpmsg_virtio_get_tx_buffer, and its second half when the used ring had an entry.
    | TakeTx
    | TakeTxRead
    // rpmsg_virtio_send_offchannel_nocopy and rpmsg_virtio_release_tx_buffer.
    | SendTx(buf: nat)
    | ReleaseTx(buf: nat)
    // rpmsg_virtio_get_rx_buffer in rx_callback, and rpmsg_virtio_release_rx_buffer_nolock.
    | TakeRx
    | TakeRxRead
    | ReturnRx(buf: nat)

  function PoolOfTx(s: State): Pool { if s.cfg.split then s.txPool else s.rxPool }

  function WithTxPool(s: State, p: Pool): State { if s.cfg.split then s.(txPool := p) else s.(rxPool := p) }

  predicate Running(s: State) { s.filled == s.rx.q.n }

  /** What the last virtqueue_get_buffer returned. */
  function LastReaped(w: World): Option<nat> { if w.h.reaped == [] then None else w.h.reaped[|w.h.reaped| - 1] }

  function RxRequest(buf: nat, len: nat): Request { Request([Buf(buf, len)], 0, buf) }

  function TxRequest(buf: nat, len: nat): Request { Request([Buf(buf, len)], 1, buf) }

  /** One move.  The driver's calls hold the device lock, so between two of them its position in
      each queue is idle; the peer's actions fall anywhere. */
  predicate Moves(s: State, m: Move, s': State) {
    && !s.rxFull && !s.txFull
    && match m
       case OnQueue(tx, a) =>
         && !a.AddBegin? && !a.ReapCheck? && !a.ReapRead?
         && if tx then Step(s.tx, a, s'.tx) && s' == s.(tx := s'.tx)
            else Step(s.rx, a, s'.rx) && s' == s.(rx := s'.rx)
       case InitialFill =>
         && s.filled < s.rx.q.n && s.rx.q.drv.pc.DriverIdle?
         && (match PoolGet(s.rxPool, s.cfg.r2h)
             case None => s' == s
             case Some((b, pool)) =>
               if s.rx.q.drv.freeCnt == 0 then s' == s.(rxFull := true)
               else
                 && Step(s.rx, AddBegin(RxRequest(b, s.cfg.r2h)), s'.rx)
                 && s' == s.(rx := s'.rx, rxPool := pool, filled := s.filled + 1, rxCarved := s.rxCarved + {b}))
       case TakeTx => Running(s) && s.tx.q.drv.pc.DriverIdle? && TakesTx(s, s')
       case TakeTxRead =>
         && Step(s.tx, ReapRead, s'.tx)
         && (match LastReaped(s'.tx)
             case None => s' == s.(tx := s'.tx)
             case Some(b) => s' == s.(tx := s'.tx, appTx := s.appTx + {b}))
       case SendTx(b) =>
         && Running(s) && s.tx.q.drv.pc.DriverIdle? && b in s.appTx
         && if s.tx.q.drv.freeCnt == 0 then s' == s.(txFull := true)
            else Step(s.tx, AddBegin(TxRequest(b, s.cfg.h2r)), s'.tx) && s' == s.(tx := s'.tx, appTx := s.appTx - {b})
       case ReleaseTx(b) =>
         b in s.appTx && s' == s.(appTx := s.appTx - {b}, reclaimer := s.reclaimer + [b])
       case TakeRx => Running(s) && Step(s.rx, ReapCheck, s'.rx) && s' == s.(rx := s'.rx)
       case TakeRxRead =>
         && Step(s.rx, ReapRead, s'.rx)
         && (match LastReaped(s'.rx)
             case None => s' == s.(rx := s'.rx)
             case Some(b) => s' == s.(rx := s'.rx, appRx := s.appRx[b := s.rx.q.drv.pc.slot]))
       case ReturnRx(b) =>
         && s.rx.q.drv.pc.DriverIdle? && b in s.appRx && s.appRx[b] < |s.rx.q.sh.desc|
         && if s.rx.q.drv.freeCnt == 0 then s' == s.(rxFull := true)
            else
              // the length is looked up by the index in the header, a used-ring slot
              && Step(s.rx, AddBegin(RxRequest(b, s.rx.q.sh.desc[s.appRx[b]].len)), s'.rx)
              && s' == s.(rx := s'.rx, appRx := s.appRx - {b})
  }

  /** The reclaimed buffers first, then the used ring, then a new one if a descriptor is free. */
  predicate TakesTx(s: State, s': State) {
    if s.reclaimer != [] then
      s' == s.(appTx := s.appTx + {s.reclaimer[0]}, reclaimer := s.reclaimer[1..])
    else
      && Step(s.tx, ReapCheck, s'.tx)
      && match Carved(s)
         case None => s' == s.(tx := s'.tx)
         case Some((b, pool)) =>
           s' == WithTxPool(s, pool).(tx := s'.tx, appTx := s.appTx + {b}, txCarved := s.txCarved + {b})
  }

  /** The new buffer rpmsg_virtio_get_tx_buffer takes from the pool, if it takes one. */
  function Carved(s: State): Option<(nat, Pool)> {
    if s.reclaimer == [] && s.tx.q.drv.usedCons == s.tx.q.sh.usedIdx && s.tx.q.drv.freeCnt > 0
    then PoolGet(PoolOfTx(s), s.cfg.h2r) else None
  }

  predicate Start(s: State) {
    && Initial(s.rx) && Initial(s.tx)
    && s.rxPool.avail == s.rxPool.size && s.txPool.avail == s.txPool.size
    && (s.cfg.split ==> s.rxPool.base + s.rxPool.size <= s.txPool.base || s.txPool.base + s.txPool.size <= s.rxPool.base)
    && s.filled == 0 && s.appRx == map[] && s.appTx == {} && s.reclaimer == []
    && !s.rxFull && !s.txFull && s.rxCarved == {} && s.txCarved == {}
  }

  predicate IsHistory(states: seq<State>, moves: seq<Move>) {
    && |states| == |moves| + 1 && Start(states[0])
    && forall i :: 0 <= i < |moves| ==> Moves(states[i], moves[i], states[i + 1])
  }

  // ---- Exactly one owner ----

  /** Every buffer of `all` is at exactly one place: in the queue (on its way to the peer, with it
      or on its way back), with the application, or set aside for reuse. */
  predicate Owned(all: set<nat>, queue: multiset<nat>, app: set<nat>, aside: seq<nat>) {
    multiset(all) == queue + multiset(app) + multiset(aside)
  }

  lemma OwnedOnce(all: set<nat>, queue: multiset<nat>, app: set<nat>, aside: seq<nat>, b: nat)
    requires Owned(all, queue, app, aside)
    ensures queue[b] + (if b in app then 1 else 0) + multiset(aside)[b] == if b in all then 1 else 0
    ensures |all| == |queue| + |app| + |aside|
  {
    var sum := queue + multiset(app) + multiset(aside);
    assert sum[b] == queue[b] + multiset(app)[b] + multiset(aside)[b];
    assert |sum| == |queue| + |app| + |aside|;
  }

  lemma OwnedSend(all: set<nat>, queue: multiset<nat>, app: set<nat>, aside: seq<nat>, b: nat)
    requires Owned(all, queue, app, aside) && b in app
    ensures Owned(all, queue + multiset{b}, app - {b}, aside)
  {
    assert multiset(app) == multiset(app - {b}) + multiset{b};
    assert queue + multiset{b} + multiset(app - {b}) == queue + multiset(app);
  }

  lemma OwnedReap(all: set<nat>, queue: multiset<nat>, app: set<nat>, aside: seq<nat>, queue': multiset<nat>, b: nat)
    requires Owned(all, queue, app, aside) && queue == queue' + multiset{b}
    ensures b !in app && Owned(all, queue', app + {b}, aside)
  {
    OwnedOnce(all, queue, app, aside, b);
    assert multiset(app + {b}) == multiset(app) + multiset{b};
    assert queue' + multiset(app + {b}) == queue + multiset(app);
  }

  lemma OwnedCarve(all: set<nat>, queue: multiset<nat>, app: set<nat>, aside: seq<nat>, b: nat)
    requires Owned(all, queue, app, aside) && b !in all
    ensures b !in app && Owned(all + {b}, queue, app + {b}, aside)
    ensures Owned(all + {b}, queue + multiset{b}, app, aside)
  {
    OwnedOnce(all, queue, app, aside, b);
    assert multiset(app + {b}) == multiset(app) + multiset{b};
    assert multiset(all + {b}) == multiset(all) + multiset{b};
    assert queue + multiset(app + {b}) + multiset(aside) == queue + multiset(app) + multiset(aside) + multiset{b};
    assert queue + multiset{b} + multiset(app) + multiset(aside) == queue + multiset(app) + multiset(aside) + multiset{b};
  }

  lemma OwnedRelease(all: set<nat>, queue: multiset<nat>, app: set<nat>, aside: seq<nat>, b: nat)
    requires Owned(all, queue, app, aside) && b in app
    ensures Owned(all, queue, app - {b}, aside + [b])
  {
    assert multiset(app) == multiset(app - {b}) + multiset{b};
    assert multiset(aside + [b]) == multiset(aside) + multiset{b};
    assert queue + multiset(app - {b}) + multiset(aside + [b]) == queue + multiset(app) + multiset(aside);
  }

  lemma OwnedReclaim(all: set<nat>, queue: multiset<nat>, app: set<nat>, aside: seq<nat>)
    requires Owned(all, queue, app, aside) && aside != []
    ensures aside[0] !in app && Owned(all, queue, app + {aside[0]}, aside[1..])
  {
    var b := aside[0];
    assert aside == [b] + aside[1..];
    assert multiset(aside) == multiset{b} + multiset(aside[1..]);
    OwnedOnce(all, queue, app, aside, b);
    assert multiset(app + {b}) == multiset(app) + multiset{b};
    assert queue + multiset(app + {b}) + multiset(aside[1..]) == queue + multiset(app) + multiset(aside);
  }

  // ---- The pools ----

  predicate Apart(bufs: set<nat>, len: nat) {
    forall a, b :: a in bufs && b in bufs && a != b ==> a + len <= b || b + len <= a
  }

  predicate Within(bufs: set<nat>, len: nat, p: Pool) {
    forall a :: a in bufs ==> p.base <= a && a + len <= Top(p)
  }

  /** No two buffers overlap, whichever pools they come from. */
  predicate PoolsOk(cfg: Config, rxPool: Pool, txPool: Pool, rx: set<nat>, tx: set<nat>) {
    && Apart(rx, cfg.r2h) && Apart(tx, cfg.h2r)
    && Within(rx, cfg.r2h, rxPool) && Within(tx, cfg.h2r, if cfg.split then txPool else rxPool)
    && (cfg.split ==> rxPool.base + rxPool.size <= txPool.base || txPool.base + txPool.size <= rxPool.base)
    && (forall a, b :: a in rx && b in tx ==> a + cfg.r2h <= b || b + cfg.h2r <= a)
  }

  predicate StatePools(s: State) { PoolsOk(s.cfg, s.rxPool, s.txPool, s.rxCarved, s.txCarved) }

  lemma CarveRx(s: State, b: nat, pool: Pool)
    requires StatePools(s) && PoolGet(s.rxPool, s.cfg.r2h) == Some((b, pool))
    ensures b !in s.rxCarved && StatePools(s.(rxPool := pool, rxCarved := s.rxCarved + {b}))
  {}

  lemma CarveTx(s: State, b: nat, pool: Pool)
    requires StatePools(s) && PoolGet(PoolOfTx(s), s.cfg.h2r) == Some((b, pool))
    ensures b !in s.txCarved && StatePools(WithTxPool(s, pool).(txCarved := s.txCarved + {b}))
  {
    assert forall a :: a in s.txCarved ==> a + s.cfg.h2r <= b;
    assert !s.cfg.split ==> forall a :: a in s.rxCarved ==> a + s.cfg.r2h <= b;
  }

  // ---- The invariant ----

  /** Once a receive buffer has come out of the queue, every descriptor carries r2h_buf_size. */
  predicate LensOk(s: State) {
    && (s.appRx.Keys != {} || s.rx.q.drv.pc.Reaping? ==> Running(s) && AllLens(s.rx.q.sh.desc, s.cfg.r2h))
    && (forall b :: b in s.appRx ==> s.appRx[b] < s.rx.q.n)
  }

  predicate BufInv(s: State) {
    && RingInv(s.rx, RxUse(s.cfg)) && RingInv(s.tx, TxUse(s.cfg))
    && Owned(s.rxCarved, Holds(s.rx), s.appRx.Keys, [])
    && Owned(s.txCarved, Holds(s.tx), s.appTx, s.reclaimer)
    && StatePools(s) && LensOk(s)
    && s.filled == |s.rxCarved| <= s.rx.q.n
    && !s.rxFull && (s.txFull ==> |s.txCarved| > s.tx.q.n)
  }

  lemma StartKeeps(s: State)
    requires Start(s)
    ensures BufInv(s)
  {
    hide Initial, Inv, Cookies;
    InitialHolds(s.rx, RxUse(s.cfg));
    InitialHolds(s.tx, TxUse(s.cfg));
    StartIdle(s.rx);
  }

  lemma StartIdle(w: World)
    requires Initial(w)
    ensures w.q.drv.pc.DriverIdle?
  {}

  lemma QueueKeeps(s: State, tx: bool, a: Action, s': State)
    requires BufInv(s) && Moves(s, OnQueue(tx, a), s')
    ensures BufInv(s')
  {
    hide Inv, Step, Owned, PoolsOk, AllLens, Cookies, Holds, Singles, CountOk;
    if tx {
      StepKeeps(s.tx, a, s'.tx);
      OtherHolds(s.tx, a, s'.tx, TxUse(s.cfg));
    } else {
      StepKeeps(s.rx, a, s'.rx);
      OtherHolds(s.rx, a, s'.rx, RxUse(s.cfg));
    }
  }

  /** How full a queue is when the driver is between calls. */
  lemma RoomWhenIdle(w: World, use: Use)
    requires RingInv(w, use) && !w.q.drv.pc.Filling?
    ensures |Holds(w)| + w.q.drv.freeCnt == w.q.n
  {
    hide Inv, Cookies;
  }

  lemma InitialFillKeeps(s: State, s': State)
    requires BufInv(s) && Moves(s, InitialFill, s')
    ensures BufInv(s')
  {
    hide Inv, Step, Owned, PoolsOk, AllLens, Cookies, Holds, Singles, CountOk, PoolGet;
    if PoolGet(s.rxPool, s.cfg.r2h).Some? {
      var (b, pool) := PoolGet(s.rxPool, s.cfg.r2h).value;
      RoomWhenIdle(s.rx, RxUse(s.cfg));
      OwnedOnce(s.rxCarved, Holds(s.rx), s.appRx.Keys, [], b);
      CarveRx(s, b, pool);
      OwnedCarve(s.rxCarved, Holds(s.rx), s.appRx.Keys, [], b);
      var req := RxRequest(b, s.cfg.r2h);
      StepKeeps(s.rx, AddBegin(req), s'.rx);
      AddBeginHolds(s.rx, req, s'.rx, RxUse(s.cfg));
    }
  }

  lemma TakeTxKeeps(s: State, s': State)
    requires BufInv(s) && Moves(s, TakeTx, s')
    ensures BufInv(s')
  {
    hide Inv, Step, Owned, PoolsOk, AllLens, Cookies, Holds, Singles, CountOk, PoolGet;
    if s.reclaimer != [] {
      OwnedReclaim(s.txCarved, Holds(s.tx), s.appTx, s.reclaimer);
    } else {
      StepKeeps(s.tx, ReapCheck, s'.tx);
      OtherHolds(s.tx, ReapCheck, s'.tx, TxUse(s.cfg));
      if Carved(s).Some? {
        var (b, pool) := Carved(s).value;
        CarveTx(s, b, pool);
        OwnedCarve(s.txCarved, Holds(s.tx), s.appTx, s.reclaimer, b);
      }
    }
  }

  lemma TakeTxReadKeeps(s: State, s': State)
    requires BufInv(s) && Moves(s, TakeTxRead, s')
    ensures BufInv(s')
  {
    hide Inv, Step, Owned, PoolsOk, AllLens, Cookies, Holds, Singles, CountOk;
    StepKeeps(s.tx, ReapRead, s'.tx);
    var b := ReapReadHolds(s.tx, s'.tx, TxUse(s.cfg));
    OwnedReap(s.txCarved, Holds(s.tx), s.appTx, s.reclaimer, Holds(s'.tx), b);
  }

  lemma SendTxKeeps(s: State, b: nat, s': State)
    requires BufInv(s) && Moves(s, SendTx(b), s')
    ensures BufInv(s')
  {
    hide Inv, Step, Owned, PoolsOk, AllLens, Cookies, Holds, Singles, CountOk;
    RoomWhenIdle(s.tx, TxUse(s.cfg));
    OwnedOnce(s.txCarved, Holds(s.tx), s.appTx, s.reclaimer, b);
    if s.tx.q.drv.freeCnt == 0 {
      assert |s.appTx| > 0;
    } else {
      var req := TxRequest(b, s.cfg.h2r);
      StepKeeps(s.tx, AddBegin(req), s'.tx);
      AddBeginHolds(s.tx, req, s'.tx, TxUse(s.cfg));
      OwnedSend(s.txCarved, Holds(s.tx), s.appTx, s.reclaimer, b);
    }
  }

  lemma TakeRxKeeps(s: State, s': State)
    requires BufInv(s) && Moves(s, TakeRx, s')
    ensures BufInv(s')
  {
    hide Inv, Owned, PoolsOk, AllLens, Cookies, Holds, Singles, CountOk, Apply, Record;
    assert s.rx.q.drv.pc.DriverIdle?;
    hide Step;
    StepKeeps(s.rx, ReapCheck, s'.rx);
    OtherHolds(s.rx, ReapCheck, s'.rx, RxUse(s.cfg));
    if s.appRx.Keys == {} {
      RoomWhenIdle(s.rx, RxUse(s.cfg));
      OwnedOnce(s.rxCarved, Holds(s.rx), s.appRx.Keys, [], 0);
      FullMeansAllLens(s.rx, RxUse(s.cfg));
    }
  }

  lemma TakeRxReadKeeps(s: State, s': State)
    requires BufInv(s) && Moves(s, TakeRxRead, s')
    ensures BufInv(s')
  {
    hide Inv, Owned, PoolsOk, AllLens, Cookies, Holds, Singles, CountOk, Apply, Record;
    assert s.rx.q.drv.pc.Reaping?;
    hide Step;
    StepKeeps(s.rx, ReapRead, s'.rx);
    var b := ReapReadHolds(s.rx, s'.rx, RxUse(s.cfg));
    OwnedReap(s.rxCarved, Holds(s.rx), s.appRx.Keys, [], Holds(s'.rx), b);
    assert s'.appRx.Keys == s.appRx.Keys + {b};
  }

  lemma ReturnRxKeeps(s: State, b: nat, s': State)
    requires BufInv(s) && Moves(s, ReturnRx(b), s')
    ensures BufInv(s')
  {
    hide Inv, Step, Owned, PoolsOk, Cookies, Holds, Singles, CountOk;
    RoomWhenIdle(s.rx, RxUse(s.cfg));
    OwnedOnce(s.rxCarved, Holds(s.rx), s.appRx.Keys, [], b);
    assert |s.appRx.Keys| > 0;
    var req := RxRequest(b, s.cfg.r2h);
    StepKeeps(s.rx, AddBegin(req), s'.rx);
    AddBeginHolds(s.rx, req, s'.rx, RxUse(s.cfg));
    OwnedSend(s.rxCarved, Holds(s.rx), s.appRx.Keys, [], b);
    assert s'.appRx.Keys == s.appRx.Keys - {b};
  }

  lemma MoveKeeps(s: State, m: Move, s': State)
    requires BufInv(s) && Moves(s, m, s')
    ensures BufInv(s')
  {
    hide BufInv, Moves;
    match m
    case OnQueue(tx, a) => QueueKeeps(s, tx, a, s');
    case InitialFill => InitialFillKeeps(s, s');
    case TakeTx => TakeTxKeeps(s, s');
    case TakeTxRead => TakeTxReadKeeps(s, s');
    case SendTx(b) => SendTxKeeps(s, b, s');
    case ReleaseTx(b) => ReleaseTxKeeps(s, b, s');
    case TakeRx => TakeRxKeeps(s, s');
    case TakeRxRead => TakeRxReadKeeps(s, s');
    case ReturnRx(b) => ReturnRxKeeps(s, b, s');
  }

  lemma ReleaseTxKeeps(s: State, b: nat, s': State)
    requires BufInv(s) && Moves(s, ReleaseTx(b), s')
    ensures BufInv(s')
  {
    hide Inv, Step, Owned, PoolsOk, AllLens, Cookies, Holds, Singles, CountOk;
    OwnedRelease(s.txCarved, Holds(s.tx), s.appTx, s.reclaimer, b);
  }

  lemma {:induction false} HistoryKeeps(states: seq<State>, moves: seq<Move>, t: nat)
    requires IsHistory(states, moves) && t <= |moves|
    ensures BufInv(states[t])
  {
    hide BufInv, Moves, Start;
    if t == 0 {
      StartKeeps(states[0]);
    } else {
      HistoryKeeps(states, moves, t - 1);
      assert Moves(states[t - 1], moves[t - 1], states[t - 1 + 1]);
      MoveKeeps(states[t - 1], moves[t - 1], states[t]);
    }
  }

  // ---- What every history guarantees ----

  /** Every buffer the pools gave out is in exactly one place -- the queue, the application or the
      reclaimer list -- and no two buffers overlap. */
  lemma OneOwner(states: seq<State>, moves: seq<Move>, t: nat, b: nat)
    requires IsHistory(states, moves) && t <= |moves|
    ensures var s := states[t];
            && Holds(s.tx)[b] + (if b in s.appTx then 1 else 0) + multiset(s.reclaimer)[b] == (if b in s.txCarved then 1 else 0)
            && Holds(s.rx)[b] + (if b in s.appRx then 1 else 0) == (if b in s.rxCarved then 1 else 0)
            && StatePools(s)
  {
    hide Moves, Start, StatePools, Holds, RingInv, LensOk;
    HistoryKeeps(states, moves, t);
    var s := states[t];
    OwnedOnce(s.txCarved, Holds(s.tx), s.appTx, s.reclaimer, b);
    OwnedOnce(s.rxCarved, Holds(s.rx), s.appRx.Keys, [], b);
  }

  // Where a buffer can be.  On a published chain its stage tells more: in a ring while Available or
  // InUsedRing, with the peer while AtDevice.
  datatype Place = WithApplication | SetAside(i: nat) | BeingAdded | OnPublished(k: nat)

  predicate IsAt(w: World, app: set<nat>, aside: seq<nat>, b: nat, p: Place) {
    match p
    case WithApplication => b in app
    case SetAside(i) => i < |aside| && aside[i] == b
    case BeingAdded => IsOn(w, b, OnFilling)
    case OnPublished(k) => IsOn(w, b, OnChain(k))
  }

  lemma OnePlace(w: World, all: set<nat>, app: set<nat>, aside: seq<nat>, b: nat)
    requires Inv(w) && Owned(all, Holds(w), app, aside)
    ensures b in all ==> exists p :: IsAt(w, app, aside, b, p) && forall q :: IsAt(w, app, aside, b, q) ==> q == p
    ensures b !in all ==> forall q :: !IsAt(w, app, aside, b, q)
  {
    hide Inv, Holds, IsOn, Owned;
    OwnedOnce(all, Holds(w), app, aside, b);
    forall q | IsAt(w, app, aside, b, q)
      ensures q.BeingAdded? || q.OnPublished? ==> Holds(w)[b] > 0
      ensures q.SetAside? ==> multiset(aside)[b] > 0
    {
      if q.BeingAdded? { NoSpot(w, b, OnFilling); }
      if q.OnPublished? { NoSpot(w, b, OnChain(q.k)); }
      if q.SetAside? { assert aside[q.i] in multiset(aside); }
    }
    if b in all {
      if b in app {
        assert IsAt(w, app, aside, b, WithApplication);
      } else if Holds(w)[b] == 1 {
        var spot := OneSpot(w, b);
        var p := if spot.OnFilling? then BeingAdded else OnPublished(spot.k);
        assert IsAt(w, app, aside, b, p);
      } else {
        var i :| 0 <= i < |aside| && aside[i] == b;
        OnceInList(aside, b, i);
        assert IsAt(w, app, aside, b, SetAside(i));
      }
    }
  }

  lemma OnceInList(s: seq<nat>, b: nat, i: nat)
    requires multiset(s)[b] == 1 && i < |s| && s[i] == b
    ensures forall j :: 0 <= j < |s| && s[j] == b ==> j == i
  {
    forall j | 0 <= j < |s| && s[j] == b ensures j == i {
      if j != i { TwiceInList(s, if i < j then i else j, if i < j then j else i); }
    }
  }

  lemma TwiceInList(s: seq<nat>, i: nat, j: nat)
    requires i < j < |s| && s[i] == s[j]
    ensures multiset(s)[s[i]] >= 2
  {
    assert s == s[..j] + s[j..];
    assert s[..j][i] in multiset(s[..j]) && s[j..][0] in multiset(s[j..]);
  }

  /** Every buffer carved for transmission is at exactly one place -- with the application, set aside,
      being added, or on one published chain, in a ring or with the peer as its stage says -- and every
      buffer carved for reception likewise; what was not carved is nowhere. */
  lemma OnePlaceEach(states: seq<State>, moves: seq<Move>, t: nat, b: nat)
    requires IsHistory(states, moves) && t <= |moves|
    ensures var s := states[t];
            && (b in s.txCarved ==>
                  exists p :: IsAt(s.tx, s.appTx, s.reclaimer, b, p) && forall q :: IsAt(s.tx, s.appTx, s.reclaimer, b, q) ==> q == p)
            && (b !in s.txCarved ==> forall q :: !IsAt(s.tx, s.appTx, s.reclaimer, b, q))
            && (b in s.rxCarved ==>
                  exists p :: IsAt(s.rx, s.appRx.Keys, [], b, p) && forall q :: IsAt(s.rx, s.appRx.Keys, [], b, q) ==> q == p)
            && (b !in s.rxCarved ==> forall q :: !IsAt(s.rx, s.appRx.Keys, [], b, q))
  {
    hide Moves, Start, StatePools, Holds, LensOk, Inv, IsAt, Owned, Singles, CountOk;
    HistoryKeeps(states, moves, t);
    var s := states[t];
    OnePlace(s.tx, s.txCarved, s.appTx, s.reclaimer, b);
    OnePlace(s.rx, s.rxCarved, s.appRx.Keys, [], b);
  }

  /** In driver role a call that gives a receive buffer back, or that first fills the queue, never
      finds it full; and the length it looks up by used-ring slot is always r2h_buf_size. */
  lemma ReceiveQueueNeverFull(states: seq<State>, moves: seq<Move>, t: nat)
    requires IsHistory(states, moves) && t <= |moves|
    ensures !states[t].rxFull
    ensures t < |moves| && moves[t].ReturnRx? ==>
              && moves[t].buf in states[t].appRx && states[t].appRx[moves[t].buf] < |states[t].rx.q.sh.desc|
              && states[t].rx.q.sh.desc[states[t].appRx[moves[t].buf]].len == states[t].cfg.r2h
              && !states[t + 1].rxFull && states[t + 1].rx.q.drv.pc.Filling?
              && states[t + 1].rx.q.drv.pc.req == RxRequest(moves[t].buf, states[t].cfg.r2h)
  {
    hide Start, StatePools, Holds, Owned, Inv, Singles, CountOk, Record;
    HistoryKeeps(states, moves, t);
    if t < |moves| && moves[t].ReturnRx? {
      assert Moves(states[t], moves[t], states[t + 1]);
      HistoryKeeps(states, moves, t + 1);
      assert LensOk(states[t]);
    }
  }

  /** In every descriptor the peer may look at: the buffer's own address, its queue's length and nothing
      after it; writable on the receive queue, only readable on the transmit queue. */
  lemma DirectionsAreRight(states: seq<State>, moves: seq<Move>, t: nat, k: nat)
    requires IsHistory(states, moves) && t <= |moves|
    ensures var s := states[t];
            && (k < |s.rx.h.chains| && k < |s.rx.h.stage| && Live(s.rx.h.stage[k]) ==>
                  var c := s.rx.h.chains[k];
                  && |c.descs| == 1 && c.descs[0] < |s.rx.q.sh.desc|
                  && var d := s.rx.q.sh.desc[c.descs[0]];
                     d.addr == c.req.cookie && d.len == s.cfg.r2h && d.writable && !d.hasNext)
            && (k < |s.tx.h.chains| && k < |s.tx.h.stage| && Live(s.tx.h.stage[k]) ==>
                  var c := s.tx.h.chains[k];
                  && |c.descs| == 1 && c.descs[0] < |s.tx.q.sh.desc|
                  && var d := s.tx.q.sh.desc[c.descs[0]];
                     d.addr == c.req.cookie && d.len == s.cfg.h2r && !d.writable && !d.hasNext)
  {
    hide Moves, Start, StatePools, RingInv, LensOk, Owned, Live;
    HistoryKeeps(states, moves, t);
    var s := states[t];
    if k < |s.rx.h.chains| && k < |s.rx.h.stage| && Live(s.rx.h.stage[k]) { LiveDescriptor(s.rx, RxUse(s.cfg), k); }
    if k < |s.tx.h.chains| && k < |s.tx.h.stage| && Live(s.tx.h.stage[k]) { LiveDescriptor(s.tx, TxUse(s.cfg), k); }
  }

  /** Transmit buffers that are with the application or in the queue. */
  function InUse(s: State): nat { |s.appTx| + |Holds(s.tx)| }

  lemma CarvedAreInUseOrAside(s: State)
    requires BufInv(s)
    ensures |s.txCarved| == InUse(s) + |s.reclaimer|
  {
    hide RingInv, Owned, Holds, StatePools, LensOk;
    OwnedOnce(s.txCarved, Holds(s.tx), s.appTx, s.reclaimer, 0);
  }

  /** A new transmit buffer is carved only by a take, with nothing set aside before or after it and
      everything that the peer has published as used already taken back. */
  lemma CarvedOnlyAtNeed(s: State, m: Move, s': State)
    requires BufInv(s) && Moves(s, m, s') && s'.txCarved != s.txCarved
    ensures m.TakeTx? && s.txCarved <= s'.txCarved && s.reclaimer == [] && s'.reclaimer == []
    ensures |s.tx.h.reaped| == s.tx.h.usedCount
  {
    hide Step, PoolGet, Holds, Owned, StatePools, LensOk, Inv, Singles, CountOk;
    if !m.TakeTx? {
      OtherMovesCarveNothing(s, m, s');
    } else {
      EmptyRings(s.tx);
    }
  }

  /** So buffers are reused before new ones are carved: over every history there are as many transmit
      buffers as were in use at one time at most. */
  lemma {:induction false} CarvedIsHighWater(states: seq<State>, moves: seq<Move>, t: nat)
    requires IsHistory(states, moves) && t <= |moves|
    ensures forall j :: 0 <= j <= t ==> InUse(states[j]) <= |states[t].txCarved|
    ensures exists j :: 0 <= j <= t && InUse(states[j]) == |states[t].txCarved|
  {
    hide Moves, BufInv, InUse;
    HistoryKeeps(states, moves, t);
    CarvedAreInUseOrAside(states[t]);
    if t > 0 {
      CarvedIsHighWater(states, moves, t - 1);
      HistoryKeeps(states, moves, t - 1);
      var s, s' := states[t - 1], states[t - 1 + 1];
      assert Moves(s, moves[t - 1], s');
      hide Start;
      if s'.txCarved != s.txCarved {
        CarvedOnlyAtNeed(s, moves[t - 1], s');
        SubsetSize(s.txCarved, s'.txCarved);
      }
    }
  }

  /** Between calls: the application's and the reclaimed buffers fit the free descriptors exactly
      as long as no more buffers were carved than there are descriptors. */
  lemma RoomExactly(s: State)
    requires BufInv(s) && !s.tx.q.drv.pc.Filling?
    ensures |s.appTx| + |s.reclaimer| <= s.tx.q.drv.freeCnt <==> |s.txCarved| <= s.tx.q.n
    ensures |s.txCarved| + s.tx.q.drv.freeCnt == s.tx.q.n + |s.appTx| + |s.reclaimer|
  {
    hide StatePools, Holds, Inv, Singles, LensOk, Owned;
    RoomWhenIdle(s.tx, TxUse(s.cfg));
    OwnedOnce(s.txCarved, Holds(s.tx), s.appTx, s.reclaimer, 0);
  }

  /** Taking a buffer leaves room for all, unless it carves a new one while the application already
      holds as many as there are free descriptors. */
  lemma TakeKeepsRoom(s: State, s': State)
    requires BufInv(s) && Moves(s, TakeTx, s') && |s.txCarved| <= s.tx.q.n
    ensures |s'.txCarved| <= s'.tx.q.n <==> (Carved(s).None? || |s.appTx| < s.tx.q.drv.freeCnt)
  {
    hide Step, PoolGet, RingInv, Owned, StatePools, LensOk;
    RoomExactly(s);
    if s.reclaimer == [] { SameSize(s.tx, ReapCheck, s'.tx); }
    if Carved(s).Some? {
      CarveTx(s, Carved(s).value.0, Carved(s).value.1);
    }
  }

  lemma SameSize(w: World, a: Action, w': World)
    requires Step(w, a, w')
    ensures w'.q.n == w.q.n
  {
    hide Wrap, Slot, FreedFrom, Record;
  }

  lemma OtherMovesCarveNothing(s: State, m: Move, s': State)
    requires Moves(s, m, s') && !m.TakeTx?
    ensures s'.txCarved == s.txCarved && s'.tx.q.n == s.tx.q.n
  {
    hide Step, PoolGet;
    match m {
      case OnQueue(tx, a) => if tx { SameSize(s.tx, a, s'.tx); }
      case TakeTxRead => SameSize(s.tx, ReapRead, s'.tx);
      case SendTx(b) => if s.tx.q.drv.freeCnt > 0 { SameSize(s.tx, AddBegin(TxRequest(b, s.cfg.h2r)), s'.tx); }
      case _ =>
    }
  }

  /** A caller that has a new buffer carved only while it holds fewer than there are free
      descriptors. */
  predicate Careful(states: seq<State>, moves: seq<Move>)
    requires |states| == |moves| + 1
  {
    forall i :: 0 <= i < |moves| && moves[i].TakeTx? ==>
      Carved(states[i]).None? || |states[i].appTx| < states[i].tx.q.drv.freeCnt
  }

  /** Then enqueueing never finds the ring full. */
  lemma {:induction false} SendNeverFull(states: seq<State>, moves: seq<Move>, t: nat)
    requires IsHistory(states, moves) && t <= |moves| && Careful(states, moves)
    ensures |states[t].txCarved| <= states[t].tx.q.n && !states[t].txFull
  {
    hide Moves, RingInv, Owned, StatePools, LensOk, PoolGet, Initial, Carved;
    HistoryKeeps(states, moves, t);
    if t > 0 {
      var s, m, s' := states[t - 1], moves[t - 1], states[t - 1 + 1];
      assert Moves(s, m, s');
      SendNeverFull(states, moves, t - 1);
      HistoryKeeps(states, moves, t - 1);
      hide Start, BufInv;
      if m.TakeTx? { TakeKeepsRoom(s, s'); } else { OtherMovesCarveNothing(s, m, s'); }
    }
  }

  /** A caller that sends or releases each buffer before it takes the next is careful. */
  lemma OneAtATimeNeverFull(states: seq<State>, moves: seq<Move>, t: nat)
    requires IsHistory(states, moves) && t <= |moves|
    requires forall i :: 0 <= i < |moves| && moves[i].TakeTx? ==> states[i].appTx == {}
    ensures !states[t].txFull
  {
    hide Moves, Start, PoolGet;
    assert Careful(states, moves) by {
      forall i | 0 <= i < |moves| && moves[i].TakeTx? && Carved(states[i]).Some?
        ensures |states[i].appTx| < states[i].tx.q.drv.freeCnt
      {
        assert |states[i].appTx| == 0;
      }
    }
    SendNeverFull(states, moves, t);
  }

  // ---- And exactly then ----

  predicate Path(states: seq<State>, moves: seq<Move>) {
    && |states| == |moves| + 1
    && forall i :: 0 <= i < |moves| ==> Moves(states[i], moves[i], states[i + 1])
  }

  lemma Join(states: seq<State>, moves: seq<Move>, states': seq<State>, moves': seq<Move>)
    requires Path(states, moves) && Path(states', moves') && states[|moves|] == states'[0]
    ensures Path(states + states'[1..], moves + moves')
  {
    hide Moves;
    var all, acts := states + states'[1..], moves + moves';
    forall i | 0 <= i < |acts| ensures Moves(all[i], acts[i], all[i + 1]) {
      if i < |moves| {
        assert Moves(states[i], moves[i], states[i + 1]);
      } else {
        var j := i - |moves|;
        assert Moves(states'[j], moves'[j], states'[j + 1]);
      }
    }
  }

  lemma SendRun(w: World, req: Request) returns (w1: World, w2: World, w3: World, w4: World)
    requires Inv(w) && w.q.drv.pc.DriverIdle? && |req.bufs| == 1 && req.readable <= 1 && w.q.drv.freeCnt >= 1
    ensures Step(w, AddBegin(req), w1) && Step(w1, FillOne, w2) && Step(w2, WriteSlot, w3) && Step(w3, BumpAvail, w4)
    ensures w4.q.drv.pc.DriverIdle? && w4.q.drv.freeCnt == w.q.drv.freeCnt - 1 && w4.q.n == w.q.n
  {
    hide Inv, Record, Wrap, Slot;
    EnabledIsSafe(w, AddBegin(req));
    w1 := World(Apply(w.q, AddBegin(req)), Record(w.q, w.h, AddBegin(req)));
    StepKeeps(w, AddBegin(req), w1);
    EnabledIsSafe(w1, FillOne);
    w2 := World(Apply(w1.q, FillOne), Record(w1.q, w1.h, FillOne));
    StepKeeps(w1, FillOne, w2);
    EnabledIsSafe(w2, WriteSlot);
    w3 := World(Apply(w2.q, WriteSlot), Record(w2.q, w2.h, WriteSlot));
    StepKeeps(w2, WriteSlot, w3);
    EnabledIsSafe(w3, BumpAvail);
    w4 := World(Apply(w3.q, BumpAvail), Record(w3.q, w3.h, BumpAvail));
  }

  predicate Ready(s: State) {
    BufInv(s) && Running(s) && !s.txFull && s.tx.q.drv.pc.DriverIdle?
  }

  /** From any state between calls in which more buffers were carved than there are descriptors,
      sending what the application and the reclaimer hold runs into a full ring, unless the peer
      gives something back meanwhile. */
  lemma {:induction false} TooManyRunInto(s: State) returns (states: seq<State>, moves: seq<Move>)
    requires Ready(s) && |s.txCarved| > s.tx.q.n
    ensures Path(states, moves) && states[0] == s && states[|moves|].txFull
    decreases s.tx.q.drv.freeCnt, |s.reclaimer|
  {
    hide RingInv, Owned, StatePools, LensOk, PoolGet, Moves, Step;
    RoomExactly(s);
    var states', moves';
    if s.appTx == {} {
      var s1 := s.(appTx := {s.reclaimer[0]}, reclaimer := s.reclaimer[1..]);
      assert Moves(s, TakeTx, s1) by { TakeAside(s); }
      MoveKeeps(s, TakeTx, s1);
      states', moves' := TooManyRunInto(s1);
      Join([s, s1], [TakeTx], states', moves');
      return [s, s1] + states'[1..], [TakeTx] + moves';
    }
    var b :| b in s.appTx;
    if s.tx.q.drv.freeCnt == 0 {
      states, moves := [s, s.(txFull := true)], [SendTx(b)];
      SendFails(s, b);
    } else {
      var path, acts := SendAll(s, b);
      states', moves' := TooManyRunInto(path[4]);
      Join(path, acts, states', moves');
      return path + states'[1..], acts + moves';
    }
  }

  lemma TakeAside(s: State)
    requires Ready(s) && s.appTx == {} && s.reclaimer != []
    ensures Moves(s, TakeTx, s.(appTx := {s.reclaimer[0]}, reclaimer := s.reclaimer[1..]))
  {
    hide RingInv, Owned, StatePools, LensOk, Step, PoolGet;
  }

  lemma SendFails(s: State, b: nat)
    requires Ready(s) && b in s.appTx && s.tx.q.drv.freeCnt == 0
    ensures Moves(s, SendTx(b), s.(txFull := true))
  {
    hide RingInv, Owned, StatePools, LensOk, Step;
  }

  lemma SendAll(s: State, b: nat) returns (path: seq<State>, acts: seq<Move>)
    requires Ready(s) && b in s.appTx && s.tx.q.drv.freeCnt > 0
    ensures |acts| == 4 && Path(path, acts) && path[0] == s && Ready(path[4])
    ensures path[4].tx.q.drv.freeCnt == s.tx.q.drv.freeCnt - 1 && path[4].txCarved == s.txCarved
    ensures path[4].tx.q.n == s.tx.q.n
  {
    hide Owned, StatePools, LensOk, Step, Inv, Singles, CountOk;
    var w1, w2, w3, w4 := SendRun(s.tx, TxRequest(b, s.cfg.h2r));
    var s1 := s.(tx := w1, appTx := s.appTx - {b});
    path := [s, s1, s1.(tx := w2), s1.(tx := w3), s1.(tx := w4)];
    acts := [SendTx(b), OnQueue(true, FillOne), OnQueue(true, WriteSlot), OnQueue(true, BumpAvail)];
    assert Moves(s, SendTx(b), path[1]);
    hide Moves;
    MoveKeeps(s, acts[0], path[1]);
    MoveKeeps(path[1], acts[1], path[2]);
    MoveKeeps(path[2], acts[2], path[3]);
    MoveKeeps(path[3], acts[3], path[4]);
  }
}
