/** The driver-role code of rpmsg over virtio, on top of the virtqueue code.  Every call is proved
    to be a sequence of the moves of RpmsgBuffers, so what holds of every history holds of it. */
module RpmsgVirtioCode {
  import opened Options
  import opened Bits
  import opened VirtqueueProtocol
  import opened VirtqueueInvariant
  import opened VirtqueueTheorems
  import opened VirtqueueCode
  import opened RingOwnership
  import opened RpmsgBuffers
  import H = RpmsgHold

  const RPMSG_SUCCESS: int := 0
  const RPMSG_ERR_NO_BUFF: int := -2002

  /** The moves can be made from s, one after the other, and lead to s'. */
  ghost predicate Goes(s: State, moves: seq<Move>, s': State) {
    exists states :: Path(states, moves) && states[0] == s && states[|moves|] == s'
  }

  lemma OneMove(s: State, m: Move, s': State)
    requires BufInv(s) && Moves(s, m, s')
    ensures Goes(s, [m], s') && BufInv(s')
  {
    hide Moves, BufInv;
    MoveKeeps(s, m, s');
    assert Path([s, s'], [m]);
  }

  lemma GoesJoin(s: State, moves: seq<Move>, mid: State, more: seq<Move>, s': State)
    requires Goes(s, moves, mid) && Goes(mid, more, s')
    ensures Goes(s, moves + more, s')
  {
    hide Moves;
    var states :| Path(states, moves) && states[0] == s && states[|moves|] == mid;
    var states' :| Path(states', more) && states'[0] == mid && states'[|more|] == s';
    Join(states, moves, states', more);
    var all := states + states'[1..];
    assert all[0] == s && all[|moves + more|] == s' by {
      if |more| > 0 { assert all[|moves| + |more|] == states'[1..][|more| - 1]; }
    }
  }

  lemma RunsOne(w: World, acts: seq<Action>, w': World) returns (w1: World)
    requires Runs(w, acts, w') && acts != []
    ensures Step(w, acts[0], w1) && Runs(w1, acts[1..], w')
  {
    hide Apply, Record;
    w1 := Next(w, acts[0]);
  }

  /** virtqueue_add_buffer with one buffer, action by action. */
  lemma AddRun(w: World, req: Request, w': World) returns (w1: World, w2: World, w3: World)
    requires |req.bufs| == 1 && Runs(w, AddActions(req), w')
    ensures Step(w, AddBegin(req), w1) && Step(w1, FillOne, w2) && Step(w2, WriteSlot, w3) && Step(w3, BumpAvail, w')
  {
    hide Step, Runs;
    var acts := [AddBegin(req), FillOne, WriteSlot, BumpAvail];
    assert AddActions(req) == acts;
    w1 := RunsOne(w, acts, w');
    assert acts[1..] == [FillOne, WriteSlot, BumpAvail];
    w2 := RunsOne(w1, acts[1..], w');
    assert acts[1..][1..] == [WriteSlot, BumpAvail];
    w3 := RunsOne(w2, [WriteSlot, BumpAvail], w');
    assert [WriteSlot, BumpAvail][1..] == [BumpAvail];
    var w4 := RunsOne(w3, [BumpAvail], w');
    assert [BumpAvail][1..] == [];
    NoMore(w4, w');
  }

  lemma NoMore(w: World, w': World)
    requires Runs(w, [], w')
    ensures w == w'
  {}

  /** The rest of an add_buffer call, after the move that began it. */
  function Rest(tx: bool): seq<Move> { [OnQueue(tx, FillOne), OnQueue(tx, WriteSlot), OnQueue(tx, BumpAvail)] }

  function OnSide(s: State, tx: bool, w: World): State { if tx then s.(tx := w) else s.(rx := w) }

  function Side(s: State, tx: bool): World { if tx then s.tx else s.rx }

  predicate Fine(s: State) { BufInv(s) && !s.txFull }

  lemma QueueMove(s: State, tx: bool, a: Action, w: World)
    requires Fine(s) && Step(Side(s, tx), a, w) && !a.AddBegin? && !a.ReapCheck? && !a.ReapRead?
    ensures Goes(s, [OnQueue(tx, a)], OnSide(s, tx, w)) && Fine(OnSide(s, tx, w))
  {
    hide Step, RingInv, Owned, StatePools, LensOk, Goes;
    var s' := OnSide(s, tx, w);
    assert Moves(s, OnQueue(tx, a), s');
    hide Moves, BufInv;
    OneMove(s, OnQueue(tx, a), s');
  }

  lemma RestGoes(s: State, tx: bool, w1: World, w2: World, w3: World)
    requires Fine(s)
    requires Step(Side(s, tx), FillOne, w1) && Step(w1, WriteSlot, w2) && Step(w2, BumpAvail, w3)
    ensures Goes(s, Rest(tx), OnSide(s, tx, w3)) && Fine(OnSide(s, tx, w3))
  {
    hide Step, Fine, Moves, Goes;
    var s1, s2, s3 := OnSide(s, tx, w1), OnSide(s, tx, w2), OnSide(s, tx, w3);
    QueueMove(s, tx, FillOne, w1);
    QueueMove(s1, tx, WriteSlot, w2);
    QueueMove(s2, tx, BumpAvail, w3);
    GoesJoin(s, [OnQueue(tx, FillOne)], s1, [OnQueue(tx, WriteSlot)], s2);
    GoesJoin(s, [OnQueue(tx, FillOne)] + [OnQueue(tx, WriteSlot)], s2, [OnQueue(tx, BumpAvail)], s3);
    assert [OnQueue(tx, FillOne)] + [OnQueue(tx, WriteSlot)] + [OnQueue(tx, BumpAvail)] == Rest(tx);
  }

  // ---- Each call as moves ----

  function SendMoves(b: nat): seq<Move> { [SendTx(b)] + Rest(true) }

  lemma SendGoes(s: State, b: nat, w': World)
    requires Fine(s) && Running(s) && s.tx.q.drv.pc.DriverIdle? && b in s.appTx && s.tx.q.drv.freeCnt > 0
    requires Runs(s.tx, AddActions(TxRequest(b, s.cfg.h2r)), w')
    ensures Goes(s, SendMoves(b), s.(tx := w', appTx := s.appTx - {b}))
    ensures Fine(s.(tx := w', appTx := s.appTx - {b}))
  {
    hide Step, RingInv, Owned, StatePools, LensOk, Goes, Runs, AddActions, PoolGet;
    var w1, w2, w3 := AddRun(s.tx, TxRequest(b, s.cfg.h2r), w');
    var s1 := s.(tx := w1, appTx := s.appTx - {b});
    assert Moves(s, SendTx(b), s1);
    hide Moves, BufInv;
    OneMove(s, SendTx(b), s1);
    RestGoes(s1, true, w2, w3, w');
    GoesJoin(s, [SendTx(b)], s1, Rest(true), s.(tx := w', appTx := s.appTx - {b}));
  }

  lemma SendFullGoes(s: State, b: nat)
    requires Fine(s) && Running(s) && s.tx.q.drv.pc.DriverIdle? && b in s.appTx && s.tx.q.drv.freeCnt == 0
    ensures Goes(s, [SendTx(b)], s.(txFull := true)) && BufInv(s.(txFull := true)) && |s.txCarved| > s.tx.q.n
  {
    hide Step, RingInv, Owned, StatePools, LensOk, Goes, PoolGet;
    assert Moves(s, SendTx(b), s.(txFull := true));
    hide Moves;
    OneMove(s, SendTx(b), s.(txFull := true));
  }

  lemma ReturnRoom(s: State, b: nat)
    requires Fine(s) && s.rx.q.drv.pc.DriverIdle? && b in s.appRx
    ensures s.rx.q.drv.freeCnt > 0 && s.appRx[b] < s.rx.q.n == |s.rx.q.sh.desc|
    ensures s.rx.q.sh.desc[s.appRx[b]].len == s.cfg.r2h
  {
    hide Inv, Step, StatePools, Cookies, Singles, Owned;
    assert Sized(s.rx.q) by { RingSized(s.rx, RxUse(s.cfg)); }
    RoomWhenIdle(s.rx, RxUse(s.cfg));
    OwnedOnce(s.rxCarved, Holds(s.rx), s.appRx.Keys, [], b);
    assert |s.appRx.Keys| > 0;
  }

  lemma RingSized(w: World, use: Use)
    requires RingInv(w, use)
    ensures Sized(w.q)
  {}

  function ReturnMoves(b: nat): seq<Move> { [ReturnRx(b)] + Rest(false) }

  lemma ReturnGoes(s: State, b: nat, w': World)
    requires Fine(s) && s.rx.q.drv.pc.DriverIdle? && b in s.appRx
    requires Runs(s.rx, AddActions(RxRequest(b, s.cfg.r2h)), w')
    ensures Goes(s, ReturnMoves(b), s.(rx := w', appRx := s.appRx - {b}))
    ensures Fine(s.(rx := w', appRx := s.appRx - {b}))
  {
    hide Step, RingInv, Owned, StatePools, LensOk, Goes, Runs, AddActions, PoolGet;
    ReturnRoom(s, b);
    var w1, w2, w3 := AddRun(s.rx, RxRequest(b, s.cfg.r2h), w');
    var s1 := s.(rx := w1, appRx := s.appRx - {b});
    assert Moves(s, ReturnRx(b), s1);
    hide Moves, BufInv;
    OneMove(s, ReturnRx(b), s1);
    RestGoes(s1, false, w2, w3, w');
    GoesJoin(s, [ReturnRx(b)], s1, Rest(false), s.(rx := w', appRx := s.appRx - {b}));
  }

  function FillMoves(): seq<Move> { [InitialFill] + Rest(false) }

  function AfterFill(s: State, b: nat, pool: Pool, w: World): State {
    s.(rx := w, rxPool := pool, filled := s.filled + 1, rxCarved := s.rxCarved + {b})
  }

  lemma FillGoes(s: State, b: nat, pool: Pool, w': World)
    requires Fine(s) && s.rx.q.drv.pc.DriverIdle? && s.filled < s.rx.q.n && s.rx.q.drv.freeCnt > 0
    requires PoolGet(s.rxPool, s.cfg.r2h) == Some((b, pool)) && Runs(s.rx, AddActions(RxRequest(b, s.cfg.r2h)), w')
    ensures Goes(s, FillMoves(), AfterFill(s, b, pool, w')) && Fine(AfterFill(s, b, pool, w'))
  {
    hide Step, RingInv, Owned, StatePools, LensOk, Goes, Runs, AddActions, PoolGet;
    var w1, w2, w3 := AddRun(s.rx, RxRequest(b, s.cfg.r2h), w');
    var s1 := AfterFill(s, b, pool, w1);
    assert Moves(s, InitialFill, s1);
    hide Moves, BufInv;
    OneMove(s, InitialFill, s1);
    RestGoes(s1, false, w2, w3, w');
    GoesJoin(s, [InitialFill], s1, Rest(false), AfterFill(s, b, pool, w'));
  }

  lemma FillRoom(s: State)
    requires Fine(s) && s.rx.q.drv.pc.DriverIdle? && s.filled < s.rx.q.n
    ensures s.rx.q.drv.freeCnt > 0
  {
    hide Inv, Step, StatePools, Cookies, Singles, Owned;
    RoomWhenIdle(s.rx, RxUse(s.cfg));
    OwnedOnce(s.rxCarved, Holds(s.rx), s.appRx.Keys, [], 0);
  }

  lemma ReclaimGoes(s: State)
    requires Fine(s) && Running(s) && s.tx.q.drv.pc.DriverIdle? && s.reclaimer != []
    ensures var s' := s.(appTx := s.appTx + {s.reclaimer[0]}, reclaimer := s.reclaimer[1..]);
            Goes(s, [TakeTx], s') && Fine(s') && s.reclaimer[0] !in s.appTx
  {
    hide Step, RingInv, Owned, StatePools, LensOk, Goes, PoolGet;
    var s' := s.(appTx := s.appTx + {s.reclaimer[0]}, reclaimer := s.reclaimer[1..]);
    assert Moves(s, TakeTx, s');
    OwnedReclaim(s.txCarved, Holds(s.tx), s.appTx, s.reclaimer);
    hide Moves, BufInv;
    OneMove(s, TakeTx, s');
  }

  lemma ReleaseGoes(s: State, b: nat)
    requires Fine(s) && b in s.appTx
    ensures var s' := s.(appTx := s.appTx - {b}, reclaimer := s.reclaimer + [b]);
            Goes(s, [ReleaseTx(b)], s') && Fine(s')
  {
    hide Step, RingInv, Owned, StatePools, LensOk, Goes, PoolGet;
    var s' := s.(appTx := s.appTx - {b}, reclaimer := s.reclaimer + [b]);
    assert Moves(s, ReleaseTx(b), s');
    hide Moves, BufInv;
    OneMove(s, ReleaseTx(b), s');
  }

  function AfterCarve(s: State): State {
    if Carved(s).None? then s
    else WithTxPool(s, Carved(s).value.1).(appTx := s.appTx + {Carved(s).value.0},
                                           txCarved := s.txCarved + {Carved(s).value.0})
  }

  /** The used ring is empty: a new buffer, if there is a descriptor and room in the pool. */
  lemma CarveGoes(s: State)
    requires Fine(s) && Running(s) && s.tx.q.drv.pc.DriverIdle? && s.reclaimer == [] && s.tx.q.drv.usedCons == s.tx.q.sh.usedIdx
    ensures Goes(s, [TakeTx], AfterCarve(s)) && Fine(AfterCarve(s))
    ensures Carved(s).Some? ==> Carved(s).value.0 !in s.appTx
  {
    hide RingInv, Owned, StatePools, LensOk, Goes, PoolGet, Apply, Record;
    StepsOnEmpty(s.tx, TxUse(s.cfg));
    hide Step;
    assert Moves(s, TakeTx, AfterCarve(s));
    if Carved(s).Some? {
      CarveTx(s, Carved(s).value.0, Carved(s).value.1);
      OwnedCarve(s.txCarved, Holds(s.tx), s.appTx, s.reclaimer, Carved(s).value.0);
    }
    hide Moves, BufInv;
    OneMove(s, TakeTx, AfterCarve(s));
  }

  /** What is carved, spelled out. */
  lemma CarveResult(s: State)
    requires s.reclaimer == [] && s.tx.q.drv.usedCons == s.tx.q.sh.usedIdx
    ensures var pool := PoolOfTx(s);
            if s.tx.q.drv.freeCnt == 0 || s.cfg.h2r == 0 || pool.avail < s.cfg.h2r
            then Carved(s) == None && AfterCarve(s) == s
            else
              var b := pool.base + pool.size - pool.avail;
              && Carved(s) == Some((b, pool.(avail := pool.avail - s.cfg.h2r)))
              && AfterCarve(s) == WithTxPool(s, pool.(avail := pool.avail - s.cfg.h2r)).(
                                    appTx := s.appTx + {b}, txCarved := s.txCarved + {b})
  {}

  lemma StepsOnEmpty(w: World, use: Use)
    requires RingInv(w, use) && w.q.drv.pc.DriverIdle? && w.q.drv.usedCons == w.q.sh.usedIdx
    ensures Step(w, ReapCheck, w)
  {
    hide Inv, Cookies;
    EnabledIsSafe(w, ReapCheck);
  }

  function AfterReap(s: State, tx: bool, w: World, b: nat): State {
    if tx then s.(tx := w, appTx := s.appTx + {b})
    else s.(rx := w, appRx := s.appRx[b := if s.rx.q.n > 0 then Slot(s.rx.q.drv.usedCons, s.rx.q.n) else 0])
  }

  lemma ReapStarts(s: State, tx: bool, w1: World)
    requires Fine(s) && Running(s) && Side(s, tx).q.drv.pc.DriverIdle? && (tx ==> s.reclaimer == [])
    requires Side(s, tx).q.drv.usedCons != Side(s, tx).q.sh.usedIdx && Step(Side(s, tx), ReapCheck, w1)
    ensures Moves(s, if tx then TakeTx else TakeRx, OnSide(s, tx, w1))
  {
    hide RingInv, Owned, StatePools, LensOk, PoolGet, Step;
  }

  lemma ReapEnds(s: State, tx: bool, w1: World, w': World, b: nat)
    requires Fine(s) && Step(w1, ReapRead, w') && w'.h.reaped == w1.h.reaped + [Some(b)]
    requires Side(s, tx).q.n > 0 && w1.q.drv.pc == Reaping(Slot(Side(s, tx).q.drv.usedCons, Side(s, tx).q.n))
    ensures Moves(OnSide(s, tx, w1), if tx then TakeTxRead else TakeRxRead, AfterReap(s, tx, w', b))
  {
    hide RingInv, Owned, StatePools, LensOk, PoolGet, Step, Slot;
  }

  /** The used ring has an entry: the buffer it names. */
  lemma ReapGoes(s: State, tx: bool, w': World) returns (b: nat)
    requires Fine(s) && Running(s)
    requires var q := Side(s, tx).q; q.drv.pc.DriverIdle? && q.drv.usedCons != q.sh.usedIdx
    requires tx ==> s.reclaimer == []
    requires Runs(Side(s, tx), [ReapCheck, ReapRead], w')
    ensures w'.h.reaped == Side(s, tx).h.reaped + [Some(b)]
    ensures Goes(s, if tx then [TakeTx, TakeTxRead] else [TakeRx, TakeRxRead], AfterReap(s, tx, w', b))
    ensures Fine(AfterReap(s, tx, w', b)) && (tx ==> b !in s.appTx) && (!tx ==> b !in s.appRx)
  {
    hide RingInv, Owned, StatePools, LensOk, Goes, PoolGet, Runs, Step;
    var w := Side(s, tx);
    var w1 := ReapTwo(w, w');
    var s1 := OnSide(s, tx, w1);
    var m1, m2 := if tx then TakeTx else TakeRx, if tx then TakeTxRead else TakeRxRead;
    ReapStarts(s, tx, w1);
    hide Moves;
    OneMove(s, m1, s1);
    b := ReapReadHolds(w1, w', if tx then TxUse(s.cfg) else RxUse(s.cfg));
    var s2 := AfterReap(s, tx, w', b);
    ReapEnds(s, tx, w1, w', b);
    OneMove(s1, m2, s2);
    ReapedIsFree(s1, tx, w', b);
    hide BufInv;
    GoesJoin(s, [m1], s1, [m2], s2);
    assert [m1] + [m2] == [m1, m2];
  }

  lemma SameLast(a: seq<Option<nat>>, x: Option<nat>, y: Option<nat>)
    requires a + [x] == a + [y]
    ensures x == y
  {
    assert (a + [x])[|a|] == x;
  }

  lemma ReapedIsFree(s: State, tx: bool, w': World, b: nat)
    requires BufInv(s) && Holds(Side(s, tx)) == Holds(w') + multiset{b}
    ensures (tx ==> b !in s.appTx) && (!tx ==> b !in s.appRx)
  {
    hide RingInv, StatePools, LensOk, Holds, Owned;
    if tx {
      OwnedReap(s.txCarved, Holds(s.tx), s.appTx, s.reclaimer, Holds(w'), b);
    } else {
      OwnedReap(s.rxCarved, Holds(s.rx), s.appRx.Keys, [], Holds(w'), b);
    }
  }

  lemma EmptyReap(w: World, w': World)
    requires Runs(w, [ReapCheck], w') && w.q.drv.usedCons == w.q.sh.usedIdx
    ensures w' == w
  {
    assert [ReapCheck][1..] == [];
  }

  lemma ReapTwo(w: World, w': World) returns (w1: World)
    requires Runs(w, [ReapCheck, ReapRead], w') && w.q.drv.usedCons != w.q.sh.usedIdx
    ensures Step(w, ReapCheck, w1) && Step(w1, ReapRead, w')
    ensures w.q.n > 0 && w1.q.drv.pc == Reaping(Slot(w.q.drv.usedCons, w.q.n)) && w1.h == w.h
  {
    hide Wrap, Slot, FreedFrom;
    w1 := World(Apply(w.q, ReapCheck), Record(w.q, w.h, ReapCheck));
    assert [ReapCheck, ReapRead][1..] == [ReapRead] && [ReapRead][1..] == [];
    assert Runs(w1, [ReapRead], w');
  }

  function Product(n: nat, size: nat): nat { n * size }

  lemma NextProduct(i: nat, n: nat, size: nat)
    ensures Product(0, size) == 0 && Product(i + 1, size) == Product(i, size) + size && Product(n, size) == n * size
    ensures i < n ==> Product(i + 1, size) <= Product(n, size)
  {
    if i < n { assert n * size == (i + 1) * size + (n - i - 1) * size; }
  }

  /** The fields of a virtqueue object, seen through its protocol state. */
  lemma Fields(v: Virtqueue)
    ensures var q := v.Now().q;
            && q.n == v.n && q.drv.freeCnt == v.freeCnt && q.drv.usedCons == v.usedCons && q.sh.usedIdx == v.usedIdx
            && q.drv.pc.DriverIdle? && q.sh.desc == v.desc[..] && v.Now().h == v.hist
  {}

  // ---- Lengths offered to the application ----

  // sizeof(struct rpmsg_hdr); the range of the 32-bit length
  const HEADER: nat := 16
  const LENGTHS: nat := 0x1_0000_0000

  /** The length in the used entry the driver reads next. */
  function UsedLen(q: Queue): nat {
    var slot := if q.n > 0 then Slot(q.drv.usedCons, q.n) else 0;
    if slot < |q.sh.usedRing| then q.sh.usedRing[slot].len else 0
  }

  /** The length that comes with a transmit buffer: h2r_buf_size with a reclaimed or a new one, but what
      the peer reported with one it gave back. */
  function Offered(s: State): nat {
    if s.reclaimer == [] && s.tx.q.drv.usedCons != s.tx.q.sh.usedIdx then UsedLen(s.tx.q) else s.cfg.h2r
  }

  /** What is left of it for the payload, as a 32-bit difference. */
  function Payload(len: nat): nat { (len - HEADER) % LENGTHS }

  /** The payload offered lies inside a buffer of h2r_buf_size exactly if the length it comes from covers
      the header and is no more than that. */
  lemma PayloadFits(len: nat, h2r: nat)
    requires len < LENGTHS && h2r < LENGTHS
    ensures HEADER + Payload(len) <= h2r <==> HEADER <= len <= h2r
    ensures HEADER <= len ==> HEADER + Payload(len) == len
    ensures Payload(0) == LENGTHS - HEADER
  {
    if len < HEADER { assert Payload(len) == len - HEADER + LENGTHS; }
  }

  lemma UsedLenRead(v: Virtqueue)
    requires Inv(v.Now())
    ensures v.n > 0 && Slot(v.usedCons, v.n) < v.usedRing.Length
    ensures UsedLen(v.Now().q) == v.usedRing[Slot(v.usedCons, v.n)].len
  {
    hide Slot;
    EnabledIsSafe(v.Now(), ReapCheck);
    hide Inv;
  }

  // ---- The code ----

  /** struct rpmsg_virtio_device in driver role.  `reserved` is the word in the header of each received
      buffer the application holds: its hold counter and its index.  `txWords` is the same word of
      transmit buffers; while a buffer is set aside it holds the index in the reclaimer's entry. */
  class RpmsgVirtio {
    const cfg: Config
    const rvq: Virtqueue
    const svq: Virtqueue
    var rxPool: Pool
    var txPool: Pool
    var filled: nat
    var reserved: map<nat, H.u32>
    var reclaimer: seq<nat>
    var txWords: map<nat, H.u32>

    ghost var index: map<nat, nat>
    ghost var txFull: bool
    ghost var appTx: set<nat>
    ghost var rxCarved: set<nat>
    ghost var txCarved: set<nat>

    ghost function Now(): State
      reads this, rvq, rvq.desc, rvq.availRing, rvq.usedRing, rvq.extra
      reads svq, svq.desc, svq.availRing, svq.usedRing, svq.extra
    {
      State(cfg, rvq.Now(), svq.Now(), rxPool, txPool, filled, index, appTx, reclaimer, false, txFull, rxCarved, txCarved)
    }

    /** The two queues share no memory. */
    ghost predicate Separate() {
      && rvq != svq && rvq.desc != svq.desc && rvq.availRing != svq.availRing
      && rvq.usedRing != svq.usedRing && rvq.extra != svq.extra
    }

    ghost predicate Valid()
      reads this, rvq, rvq.desc, rvq.availRing, rvq.usedRing, rvq.extra
      reads svq, svq.desc, svq.availRing, svq.usedRing, svq.extra
    {
      Sound() && TxPacked(appTx, reclaimer, txWords)
    }

    /** Valid, apart from the headers of transmit buffers. */
    ghost predicate Sound()
      reads this, rvq, rvq.desc, rvq.availRing, rvq.usedRing, rvq.extra
      reads svq, svq.desc, svq.availRing, svq.usedRing, svq.extra
    {
      Separate() && Fine(Now()) && Packed(index, reserved)
    }

    constructor (cfg: Config, rvq: Virtqueue, svq: Virtqueue, shpool: Pool, shpool1: Pool)
      requires rvq != svq && rvq.desc != svq.desc && rvq.availRing != svq.availRing
      requires rvq.usedRing != svq.usedRing && rvq.extra != svq.extra
      requires Initial(rvq.Now()) && Initial(svq.Now())
      requires shpool.avail == shpool.size && shpool1.avail == shpool1.size
      requires cfg.split ==> shpool.base + shpool.size <= shpool1.base || shpool1.base + shpool1.size <= shpool.base
      ensures this.cfg == cfg && this.rvq == rvq && this.svq == svq && filled == 0 && rxPool == shpool
      ensures Start(Now()) && Valid()
    {
      hide Initial, BufInv;
      this.cfg, this.rvq, this.svq := cfg, rvq, svq;
      rxPool, txPool, filled, reserved, reclaimer := shpool, shpool1, 0, map[], [];
      txWords := map[];
      index, txFull, appTx, rxCarved, txCarved := map[], false, {}, {}, {};
      new;
      StartKeeps(Now());
    }

    /** The loop of rpmsg_init_vdev_with_config: one receive buffer per descriptor.  It succeeds
        exactly when the pool has room for all of them. */
    method FillReceiveQueue() returns (status: int)
      requires Valid() && filled == 0 && rxPool.avail == rxPool.size
      modifies this, rvq, rvq.desc, rvq.availRing, rvq.extra
      ensures Valid() && Now().tx == old(Now().tx)
      ensures status == RPMSG_SUCCESS || status == RPMSG_ERR_NO_BUFF
      ensures status == RPMSG_SUCCESS ==> Running(Now()) && rxPool.avail == old(rxPool.avail) - rvq.n * cfg.r2h
      ensures status == RPMSG_SUCCESS <==> rvq.n == 0 || (cfg.r2h > 0 && rvq.n * cfg.r2h <= old(rxPool.avail))
    {
      hide Fine, Goes, Product, Packed, TxPacked;
      NextProduct(0, rvq.n, cfg.r2h);
      for idx := 0 to rvq.n
        modifies this, rvq, rvq.desc, rvq.availRing, rvq.extra
        invariant Valid() && filled == idx && Now().tx == old(Now().tx)
        invariant rxPool.avail + Product(idx, cfg.r2h) == old(rxPool.avail) && (idx > 0 ==> cfg.r2h > 0)
      {
        NextProduct(idx, rvq.n, cfg.r2h);
        var filledOne := FillOneBuffer();
        if !filledOne { return RPMSG_ERR_NO_BUFF; }
      }
      status := RPMSG_SUCCESS;
    }

    /** One turn of that loop: rpmsg_virtio_shm_pool_get_buffer and virtqueue_add_buffer, which has
        room. */
    method FillOneBuffer() returns (ok: bool)
      requires Valid() && filled < rvq.n
      modifies this, rvq, rvq.desc, rvq.availRing, rvq.extra
      ensures Valid() && Now().tx == old(Now().tx)
      ensures ok <==> cfg.r2h > 0 && old(rxPool.avail) >= cfg.r2h
      ensures !ok ==> Now() == old(Now())
      ensures ok ==> Goes(old(Now()), FillMoves(), Now())
      ensures ok ==> filled == old(filled) + 1 && rxPool.avail == old(rxPool.avail) - cfg.r2h
    {
      hide Fine, Runs, AddActions, Goes, Inv, Packed, TxPacked;
      ghost var s := Now();
      if cfg.r2h == 0 || rxPool.avail < cfg.r2h { return false; }
      var buffer := rxPool.base + rxPool.size - rxPool.avail;
      var pool := rxPool.(avail := rxPool.avail - cfg.r2h);
      FillRoom(s);
      QueueValid(s);
      var added := rvq.AddBuffer([Buf(buffer, cfg.r2h)], 0, buffer);
      FillGoes(s, buffer, pool, rvq.Now());
      rxPool := pool;
      filled := filled + 1;
      rxCarved := rxCarved + {buffer};
      assert Now() == AfterFill(s, buffer, pool, rvq.Now());
      ok := true;
    }

    /** rpmsg_virtio_get_tx_payload_buffer without waiting: a buffer the application did not hold, with
        its index and one hold in its header, and the length left for the payload. */
    method GetTxPayloadBuffer() returns (data: Option<nat>, len: nat)
      requires Valid() && Running(Now())
      modifies this, svq, svq.desc, svq.extra
      ensures Valid() && Running(Now())
      ensures data.None? ==> Now() == old(Now()) && Carved(Now()).None? && reclaimer == [] && svq.usedCons == svq.usedIdx
      ensures data.Some? ==>
                && Goes(old(Now()), if old(reclaimer) == [] && old(svq.usedCons) != old(svq.usedIdx)
                                    then [TakeTx, TakeTxRead] else [TakeTx], Now())
                && data.value !in old(appTx) && appTx == old(appTx) + {data.value}
                && data.value in txWords && H.Counter(txWords[data.value]) == 1
      ensures data.Some? && old(reclaimer) != [] ==>
                data.value == old(reclaimer[0]) && data.value in old(txWords)
                && H.Index(txWords[data.value]) == old(txWords)[data.value]
      ensures data.Some? ==> len == Payload(Offered(old(Now())))
    {
      hide Fine, Goes, Inv, Packed, TxPacked, Offered, Payload, Virtqueue.Now, Virtqueue.ViewAt;
      if reclaimer != [] { TakesAside(appTx, reclaimer, txWords); }
      ghost var app := appTx;
      var idx;
      data, len, idx := GetTxBuffer();
      if data.Some? {
        var word := H.HeldInc(idx);
        NotAside(Now(), data.value);
        TakesOne(app, old(reclaimer), reclaimer, txWords, data.value, word);
        txWords := txWords[data.value := word];
        len := Payload(len);
      }
    }

    /** rpmsg_virtio_get_tx_buffer: a reclaimed buffer, else one the peer gave back, else a new one;
        its length, and the index that goes to its header. */
    method GetTxBuffer() returns (data: Option<nat>, len: nat, idx: nat)
      requires Sound() && Running(Now())
      requires reclaimer != [] ==> reclaimer[0] in txWords && txWords[reclaimer[0]] < H.UNIT
      modifies this, svq, svq.desc, svq.extra
      ensures Sound() && Running(Now()) && txWords == old(txWords) && idx < H.UNIT
      ensures data.None? ==> Now() == old(Now()) && Carved(Now()).None? && reclaimer == [] && svq.usedCons == svq.usedIdx
      ensures data.Some? ==>
                && Goes(old(Now()), if old(reclaimer) == [] && old(svq.usedCons) != old(svq.usedIdx)
                                    then [TakeTx, TakeTxRead] else [TakeTx], Now())
                && data.value !in old(appTx) && appTx == old(appTx) + {data.value}
      ensures if old(reclaimer) == [] then reclaimer == []
              else data == Some(old(reclaimer[0])) && idx == txWords[data.value] && reclaimer == old(reclaimer)[1..]
      ensures data.Some? ==> len == Offered(old(Now()))
    {
      hide Fine, Runs, Goes, Inv, Wrap, Cookies, NamesChain, Apply, Record, Next, PowerOfTwo, Packed, Carved;
      hide Virtqueue.Now, Virtqueue.ViewAt;
      hide UsedLen;
      ghost var s := Now();
      Fields(svq);
      QueueValid(s);
      if reclaimer != [] {
        ReclaimGoes(s);
        len := cfg.h2r;
        data, idx := Some(reclaimer[0]), txWords[reclaimer[0]];
        appTx := appTx + {reclaimer[0]};
        reclaimer := reclaimer[1..];
        return;
      }
      UsedLenRead(svq);
      data, len, idx := svq.GetBuffer();
      Fields(svq);
      if s.tx.q.drv.usedCons != s.tx.q.sh.usedIdx {
        ghost var b := ReapGoes(s, true, svq.Now());
        SameLast(s.tx.h.reaped, data, Some(b));
        SizeBound(s.tx);
        appTx := appTx + {b};
        assert Now() == AfterReap(s, true, svq.Now(), b);
      } else {
        EmptyReap(s.tx, svq.Now());
      }
      if data.None? {
        data := CarveTxBuffer();
        len, idx := cfg.h2r, 0;
      }
    }

    /** The last resort of rpmsg_virtio_get_tx_buffer: rpmsg_virtio_shm_pool_get_buffer, if a
        descriptor is free. */
    method CarveTxBuffer() returns (data: Option<nat>)
      requires Sound() && Running(Now()) && reclaimer == [] && svq.usedCons == svq.usedIdx
      modifies this`txPool, this`rxPool, this`appTx, this`txCarved
      ensures Sound() && Goes(old(Now()), [TakeTx], Now()) && Now() == AfterCarve(old(Now()))
      ensures data.None? ==> Now() == old(Now()) && Carved(Now()).None?
      ensures data.Some? ==> data.value !in old(appTx) && appTx == old(appTx) + {data.value}
    {
      hide Fine, Runs, Goes, Inv, Wrap, Cookies, Packed, AfterCarve, Carved, PoolGet, Virtqueue.Now, Virtqueue.ViewAt;
      ghost var s := Now();
      Fields(svq);
      CarveGoes(s);
      CarveResult(s);
      var pool := if cfg.split then txPool else rxPool;
      if svq.freeCnt == 0 || cfg.h2r == 0 || pool.avail < cfg.h2r {
        return None;
      }
      var buffer := pool.base + pool.size - pool.avail;
      pool := pool.(avail := pool.avail - cfg.h2r);
      if cfg.split { txPool := pool; } else { rxPool := pool; }
      appTx := appTx + {buffer};
      txCarved := txCarved + {buffer};
      data := Some(buffer);
      assert Now() == AfterCarve(s);
    }

    /** rpmsg_virtio_send_offchannel_nocopy's enqueue of a buffer the application took: it fails
        only when more buffers have been carved than the ring has descriptors. */
    method SendNocopy(buffer: nat) returns (status: int)
      requires Valid() && Running(Now()) && buffer in appTx
      modifies this, svq, svq.desc, svq.availRing, svq.extra
      ensures status == VQUEUE_SUCCESS ==>
                Valid() && Running(Now()) && Goes(old(Now()), SendMoves(buffer), Now()) && appTx == old(appTx) - {buffer}
      ensures status != VQUEUE_SUCCESS ==>
                && status == ERROR_VRING_FULL && |txCarved| > svq.n && appTx == old(appTx)
                && Goes(old(Now()), [SendTx(buffer)], Now()) && txFull
    {
      hide Fine, Runs, AddActions, Goes, Inv, Packed, TxPacked, Virtqueue.Now, Virtqueue.ViewAt;
      ghost var s := Now();
      Fields(svq);
      QueueValid(s);
      WordChanges(appTx, reclaimer, txWords, buffer, 0);
      txWords := txWords[buffer := 0];
      status := svq.AddBuffer([Buf(buffer, cfg.h2r)], 1, buffer);
      if status == VQUEUE_SUCCESS {
        SendGoes(s, buffer, svq.Now());
        FewerWords(appTx, reclaimer, txWords, buffer);
        appTx := appTx - {buffer};
      } else {
        SendFullGoes(s, buffer);
        txFull := true;
      }
    }

    /** rpmsg_virtio_release_tx_buffer: the buffer goes to the end of the reclaimer list exactly at the
        release that finds one hold left; otherwise only the word changes. */
    method ReleaseTxBuffer(buffer: nat) returns (reclaimed: bool)
      requires Valid() && buffer in appTx && buffer in txWords
      modifies this
      ensures Valid() && (reclaimed <==> H.Counter(old(txWords[buffer])) == 1)
      ensures reclaimed ==>
                && Goes(old(Now()), [ReleaseTx(buffer)], Now())
                && appTx == old(appTx) - {buffer} && reclaimer == old(reclaimer) + [buffer]
                && txWords == old(txWords)[buffer := H.Index(old(txWords[buffer]))]
      ensures !reclaimed ==>
                Now() == old(Now()) && txWords == old(txWords)[buffer := H.After(old(txWords[buffer]), H.ReleaseOp).0]
    {
      hide Fine, Goes, Packed, TxPacked;
      var word;
      word, reclaimed := H.DecTest(txWords[buffer]);
      NotAside(Now(), buffer);
      if reclaimed {
        ReleaseGoes(Now(), buffer);
        SetsAside(appTx, reclaimer, txWords, buffer, H.Index(word));
        txWords := txWords[buffer := H.Index(word)];
        appTx := appTx - {buffer};
        reclaimer := reclaimer + [buffer];
      } else {
        WordChanges(appTx, reclaimer, txWords, buffer, word);
        txWords := txWords[buffer := word];
      }
    }

    /** rpmsg_virtio_get_rx_buffer, with the index and the first hold rx_callback puts in the header. */
    method GetRxBuffer() returns (data: Option<nat>)
      requires Valid() && Running(Now())
      modifies this, rvq, rvq.desc, rvq.extra
      ensures Valid() && Running(Now())
      ensures data.None? <==> old(rvq.usedCons) == old(rvq.usedIdx)
      ensures data.None? ==> Now() == old(Now()) && reserved == old(reserved)
      ensures data.Some? ==>
                && Goes(old(Now()), [TakeRx, TakeRxRead], Now())
                && data.value !in old(reserved) && data.value in reserved && H.Counter(reserved[data.value]) == 1
                && reserved == old(reserved)[data.value := reserved[data.value]]
    {
      hide Fine, Runs, Goes, Inv, Wrap, Cookies, NamesChain, Apply, Record, Next, PowerOfTwo, Slot, Packed, TxPacked;
      hide Virtqueue.Now, Virtqueue.ViewAt;
      ghost var s := Now();
      Fields(rvq);
      QueueValid(s);
      var len, slot;
      data, len, slot := rvq.GetBuffer();
      Fields(rvq);
      ghost var w := rvq.Now();
      if s.rx.q.drv.usedCons == s.rx.q.sh.usedIdx {
        EmptyReap(s.rx, w);
      } else {
        ghost var b := ReapGoes(s, false, w);
        SameLast(s.rx.h.reaped, data, Some(b));
      }
      if data.Some? {
        FirstWord(s, slot, index, reserved, data.value);
        reserved := reserved[data.value := slot + H.UNIT];
        index := index[data.value := slot];
        assert Now() == AfterReap(s, false, w, data.value);
      }
    }

    /** rpmsg_virtio_hold_rx_buffer: ownership does not change. */
    method HoldRxBuffer(buffer: nat)
      requires Valid() && buffer in reserved
      modifies this`reserved
      ensures Valid() && Now() == old(Now())
      ensures buffer in reserved && reserved == old(reserved)[buffer := reserved[buffer]]
      ensures H.Counter(reserved[buffer]) == (H.Counter(old(reserved[buffer])) + 1) % H.UNIT
      ensures H.Index(reserved[buffer]) == H.Index(old(reserved[buffer]))
    {
      hide Fine, TxPacked;
      var word := H.HeldInc(reserved[buffer]);
      reserved := reserved[buffer := word];
    }

    /** rpmsg_virtio_release_rx_buffer: the buffer goes back to the queue exactly at the release that
        finds one hold left, and nothing else happens otherwise. */
    method ReleaseRxBuffer(buffer: nat) returns (returned: bool)
      requires Valid() && buffer in reserved
      modifies this, rvq, rvq.desc, rvq.availRing, rvq.extra
      ensures Valid() && (returned <==> H.Counter(old(reserved[buffer])) == 1)
      ensures returned ==> Goes(old(Now()), ReturnMoves(buffer), Now()) && reserved == old(reserved) - {buffer}
      ensures !returned ==>
                && Now() == old(Now())
                && reserved == old(reserved)[buffer := H.After(old(reserved[buffer]), H.ReleaseOp).0]
    {
      hide Fine, Goes, TxPacked;
      var word;
      word, returned := H.DecTest(reserved[buffer]);
      reserved := reserved[buffer := word];
      if returned {
        var status := ReturnRxBuffer(buffer);
      }
    }

    /** rpmsg_virtio_release_rx_buffer_nolock with rpmsg_virtio_return_buffer: the length comes from
        the descriptor whose number is in the header, and the ring has room. */
    method ReturnRxBuffer(buffer: nat) returns (status: int)
      requires Valid() && buffer in reserved
      modifies this, rvq, rvq.desc, rvq.availRing, rvq.extra
      ensures Valid() && status == VQUEUE_SUCCESS
      ensures Goes(old(Now()), ReturnMoves(buffer), Now())
      ensures index == old(index) - {buffer} && reserved == old(reserved) - {buffer}
    {
      hide Fine, Runs, AddActions, Goes, Inv, TxPacked;
      ghost var s := Now();
      QueueValid(s);
      ReturnRoom(s, buffer);
      var len := rvq.desc[H.Index(reserved[buffer])].len;
      status := rvq.AddBuffer([Buf(buffer, len)], 0, buffer);
      ReturnGoes(s, buffer, rvq.Now());
      index, reserved := index - {buffer}, reserved - {buffer};
    }
  }

  /** Each header's word carries the buffer's index. */
  predicate Packed(index: map<nat, nat>, reserved: map<nat, H.u32>) {
    index.Keys == reserved.Keys && forall b :: b in reserved ==> H.Index(reserved[b]) == index[b]
  }

  /** Each transmit buffer of the application has a word; those set aside have an index in it. */
  predicate TxPacked(app: set<nat>, aside: seq<nat>, words: map<nat, H.u32>) {
    && (forall b :: b in app ==> b in words)
    && (forall i :: 0 <= i < |aside| ==> aside[i] in words && words[aside[i]] < H.UNIT)
  }

  lemma TakesAside(app: set<nat>, aside: seq<nat>, words: map<nat, H.u32>)
    requires TxPacked(app, aside, words) && aside != []
    ensures aside[0] in words && words[aside[0]] < H.UNIT && TxPacked(app + {aside[0]}, aside[1..], words)
  {}

  lemma TakesOne(app: set<nat>, aside0: seq<nat>, aside: seq<nat>, words: map<nat, H.u32>, b: nat, word: H.u32)
    requires TxPacked(app, aside0, words) && b !in aside && aside == (if aside0 == [] then [] else aside0[1..])
    ensures TxPacked(app + {b}, aside, words[b := word])
  {}

  lemma WordChanges(app: set<nat>, aside: seq<nat>, words: map<nat, H.u32>, b: nat, word: H.u32)
    requires TxPacked(app, aside, words) && (b !in aside || word < H.UNIT)
    ensures TxPacked(app, aside, words[b := word])
  {}

  lemma FewerWords(app: set<nat>, aside: seq<nat>, words: map<nat, H.u32>, b: nat)
    requires TxPacked(app, aside, words)
    ensures TxPacked(app - {b}, aside, words)
  {}

  lemma SetsAside(app: set<nat>, aside: seq<nat>, words: map<nat, H.u32>, b: nat, idx: nat)
    requires TxPacked(app, aside, words) && idx < H.UNIT
    ensures TxPacked(app - {b}, aside + [b], words[b := idx])
  {}

  /** A buffer with the application is not set aside as well. */
  lemma NotAside(s: State, b: nat)
    requires Fine(s) && b in s.appTx
    ensures b !in s.reclaimer
  {
    hide RingInv, StatePools, LensOk, Holds, Owned;
    OwnedOnce(s.txCarved, Holds(s.tx), s.appTx, s.reclaimer, b);
  }

  /** A received buffer's first word: slots fit the lower half. */
  lemma FirstWord(s: State, slot: nat, index: map<nat, nat>, reserved: map<nat, H.u32>, b: nat)
    requires Fine(s) && slot < s.rx.q.n && Packed(index, reserved)
    ensures slot + H.UNIT < H.WORD && H.Counter(slot + H.UNIT) == 1
    ensures Packed(index[b := slot], reserved[b := slot + H.UNIT]) && (b in index <==> b in reserved)
  {
    hide Fine, Inv;
    QueueValid(s);
    SizeBound(s.rx);
  }

  lemma SizeBound(w: World)
    requires Inv(w)
    ensures 0 < w.q.n <= CHAIN_END
  {
    PowersOfTwo();
  }

  lemma QueueValid(s: State)
    requires Fine(s)
    ensures Inv(s.rx) && Inv(s.tx)
  {
    hide Inv;
  }
}
