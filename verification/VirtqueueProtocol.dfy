/** The split virtqueue as a two-party protocol.

    A driver and a device share a descriptor table, an avail ring and a used ring.  Every
    action below performs at most one access that the other party can observe, so that a
    run is any interleaving of the two parties' accesses.  In particular "write the ring
    slot" and "advance the ring index" are separate actions.

    Indices are the free-running 16-bit indices of the ring: they wrap at 2^16. */
module VirtqueueProtocol {
  import opened Options
  import opened Bits

  const U16: nat := 0x1_0000

  type u16 = x: int | 0 <= x < 0x1_0000

  // VQ_RING_DESC_CHAIN_END
  const CHAIN_END: nat := 0x8000

  // A buffer handed to the ring, by physical address.
  datatype Buf = Buf(addr: nat, len: nat)

  // What one call of virtqueue_add_buffer asks for.
  datatype Request = Request(bufs: seq<Buf>, readable: nat, cookie: nat)

  datatype Desc = Desc(addr: nat, len: nat, hasNext: bool, writable: bool, indirect: bool, next: nat)

  // struct vq_desc_extra
  datatype Extra = Extra(cookie: Option<nat>, ndescs: nat)

  datatype UsedElem = UsedElem(id: nat, len: nat)

  datatype Role = DriverRole | DeviceRole

  // The memory both parties see.
  datatype Shared = Shared(
    desc: seq<Desc>,
    availRing: seq<nat>, availIdx: u16, noInterrupt: bool, usedEvent: u16,
    usedRing: seq<UsedElem>, usedIdx: u16, noNotify: bool, availEvent: u16)

  // Where the driver stands inside a call.
  datatype DriverPc =
    | DriverIdle
    | Filling(req: Request, head: nat, i: nat, idx: nat)
    | Publishing
    | Reaping(slot: nat)
    | DriverArming

  datatype Driver = Driver(
    freeCnt: nat, headIdx: nat, usedCons: u16, queued: u16, extra: seq<Extra>, pc: DriverPc)

  // Where the device stands inside a call.
  datatype DevicePc =
    | DeviceIdle
    | ReadingSlot(slot: nat)
    | ReadingDesc(head: nat)
    | Returning
    | DeviceArming

  // `held` are the heads the device has taken and not yet returned.
  datatype Device = Device(availCons: u16, queued: u16, held: set<nat>, pc: DevicePc)

  datatype Queue = Queue(n: nat, eventIdx: bool, sh: Shared, drv: Driver, dev: Device)

  datatype Action =
    // virtqueue_add_buffer
    | AddBegin(req: Request)
    | FillOne
    | WriteSlot
    | BumpAvail
    // virtqueue_get_buffer
    | ReapCheck
    | ReapRead
    // virtqueue_get_available_buffer
    | TakeCheck
    | TakeRead
    | TakeDesc
    // virtqueue_add_consumed_buffer
    | UseWrite(head: nat, len: nat)
    | BumpUsed
    // vq_ring_enable_interrupt(vq, 0), its write and its read; virtqueue_disable_cb; virtqueue_kick
    | Arm(role: Role)
    | ArmCheck(role: Role)
    | Disarm(role: Role)
    | Kick(role: Role)

  /** Sizes virtqueue_create accepts in its 16-bit num_descs. */
  predicate ValidSize(n: nat) {
    PowerOfTwo(n) && n < U16
  }

  /** The 16-bit value of an integer expression, as the cast to uint16_t gives it. */
  function Wrap(a: int): u16
    decreases a < 0, if a < 0 then -a else a
  {
    if a < 0 then Wrap(a + U16) else if a < U16 then a else Wrap(a - U16)
  }

  /** The ring slot of a count in a ring of n slots.  The code computes it as index & (n - 1). */
  function Slot(a: nat, n: nat): nat
    requires n > 0
    ensures Slot(a, n) < n
  {
    if a < n then a else Slot(a - n, n)
  }

  /** vring_need_event. */
  predicate NeedEvent(event: u16, new_: u16, old_: u16) {
    Wrap(new_ - event - 1) < Wrap(new_ - old_)
  }

  /** vq_ring_must_notify for the given role. */
  predicate MustNotify(q: Queue, role: Role) {
    match role
    case DriverRole =>
      if q.eventIdx then NeedEvent(q.sh.availEvent, q.sh.availIdx, Wrap(q.sh.availIdx - q.drv.queued))
      else !q.sh.noNotify
    case DeviceRole =>
      if q.eventIdx then NeedEvent(q.sh.usedEvent, q.sh.usedIdx, Wrap(q.sh.usedIdx - q.dev.queued))
      else !q.sh.noInterrupt
  }

  /** The descriptor vq_ring_add_buffer writes for the i-th buffer of a request; `next` is kept. */
  function Filled(d: Desc, req: Request, i: nat): Desc
    requires i < |req.bufs|
  {
    Desc(req.bufs[i].addr, req.bufs[i].len, i + 1 < |req.bufs|, i >= req.readable, false, d.next)
  }

  /** The last descriptor of the chain that vq_ring_free_chain walks by following NEXT flags,
      with the number of descriptors passed; `fuel` bounds the walk by the table size. */
  function ChainEnd(desc: seq<Desc>, idx: nat, fuel: nat): (r: (nat, nat))
    requires idx < |desc|
    ensures r.0 < |desc|
    decreases fuel
  {
    if fuel == 0 || !desc[idx].hasNext || desc[idx].next >= |desc| then (idx, 1)
    else
      var (e, k) := ChainEnd(desc, desc[idx].next, fuel - 1);
      (e, k + 1)
  }

  function FreedFrom(desc: seq<Desc>, head: nat): (nat, nat)
    requires head < |desc|
  {
    if desc[head].indirect then (head, 1) else ChainEnd(desc, head, |desc|)
  }

  function InitDesc(n: nat, i: nat, garbage: Desc): Desc {
    garbage.(next := if i + 1 < n then i + 1 else CHAIN_END)
  }

  /** The queue right after both sides ran virtqueue_create on zeroed ring indices; the
      descriptors' other fields hold whatever the memory held. */
  function Init(n: nat, eventIdx: bool, memory: seq<Desc>, avail: seq<nat>, used: seq<UsedElem>): Queue
    requires |memory| == n
  {
    Queue(n, eventIdx,
          Shared(seq(n, i requires 0 <= i < n => InitDesc(n, i, memory[i])), avail, 0, false, 0, used, 0, false, 0),
          Driver(n, 0, 0, 0, seq(n, i => Extra(None, 0)), DriverIdle),
          Device(0, 0, {}, DeviceIdle))
  }

  /** When a party may take an action: the API's own guards and the position inside a call.
      The device returns only heads it holds. */
  predicate Enabled(q: Queue, a: Action) {
    match a
    case AddBegin(req) =>
      q.drv.pc.DriverIdle? && 1 <= |req.bufs| <= q.drv.freeCnt && req.readable <= |req.bufs|
    case FillOne => q.drv.pc.Filling? && q.drv.pc.i < |q.drv.pc.req.bufs|
    case WriteSlot => q.drv.pc.Filling? && q.drv.pc.i == |q.drv.pc.req.bufs|
    case BumpAvail => q.drv.pc.Publishing?
    case ReapCheck => q.drv.pc.DriverIdle?
    case ReapRead => q.drv.pc.Reaping?
    case TakeCheck => q.dev.pc.DeviceIdle?
    case TakeRead => q.dev.pc.ReadingSlot?
    case TakeDesc => q.dev.pc.ReadingDesc?
    case UseWrite(head, len) => q.dev.pc.DeviceIdle? && head in q.dev.held
    case BumpUsed => q.dev.pc.Returning?
    case Arm(r) => if r.DriverRole? then q.drv.pc.DriverIdle? else q.dev.pc.DeviceIdle?
    case ArmCheck(r) => if r.DriverRole? then q.drv.pc.DriverArming? else q.dev.pc.DeviceArming?
    case Disarm(r) => if r.DriverRole? then q.drv.pc.DriverIdle? else q.dev.pc.DeviceIdle?
    case Kick(r) => if r.DriverRole? then q.drv.pc.DriverIdle? else q.dev.pc.DeviceIdle?
  }

  predicate Sized(q: Queue) {
    && q.n > 0
    && |q.sh.desc| == q.n && |q.sh.availRing| == q.n && |q.sh.usedRing| == q.n && |q.drv.extra| == q.n
  }

  /** The action indexes no table out of bounds. */
  predicate Safe(q: Queue, a: Action) {
    && Sized(q)
    && match a
       case AddBegin(_) => q.drv.headIdx < q.n
       case FillOne => q.drv.pc.Filling? && q.drv.pc.idx < q.n
       case WriteSlot => q.drv.pc.Filling? && |q.drv.pc.req.bufs| <= q.drv.freeCnt
       case ReapRead => q.drv.pc.Reaping? && q.drv.pc.slot < q.n && q.sh.usedRing[q.drv.pc.slot].id < q.n
       case TakeRead => q.dev.pc.ReadingSlot? && q.dev.pc.slot < q.n
       case TakeDesc => q.dev.pc.ReadingDesc? && q.dev.pc.head < q.n
       case _ => true
  }

  function ApplyDriver(q: Queue, a: Action): Queue
    requires Enabled(q, a) && Safe(q, a)
    requires a.AddBegin? || a.FillOne? || a.WriteSlot? || a.BumpAvail? || a.ReapCheck? || a.ReapRead?
  {
    var sh, d := q.sh, q.drv;
    match a
    case AddBegin(req) =>
      q.(drv := d.(extra := d.extra[d.headIdx := Extra(Some(req.cookie), |req.bufs|)],
                   pc := Filling(req, d.headIdx, 0, d.headIdx)))
    case FillOne =>
      var idx := d.pc.idx;
      q.(sh := sh.(desc := sh.desc[idx := Filled(sh.desc[idx], d.pc.req, d.pc.i)]),
         drv := d.(pc := d.pc.(i := d.pc.i + 1, idx := sh.desc[idx].next)))
    case WriteSlot =>
      q.(sh := sh.(availRing := sh.availRing[Slot(sh.availIdx, q.n) := d.pc.head]),
         drv := d.(headIdx := d.pc.idx, freeCnt := d.freeCnt - |d.pc.req.bufs|, pc := Publishing))
    case BumpAvail =>
      q.(sh := sh.(availIdx := Wrap(sh.availIdx + 1)), drv := d.(queued := Wrap(d.queued + 1), pc := DriverIdle))
    case ReapCheck =>
      if d.usedCons == sh.usedIdx then q
      else q.(drv := d.(usedCons := Wrap(d.usedCons + 1), pc := Reaping(Slot(d.usedCons, q.n))))
    case ReapRead =>
      var id := sh.usedRing[d.pc.slot].id;
      var (last, walked) := FreedFrom(sh.desc, id);
      q.(sh := sh.(desc := sh.desc[last := sh.desc[last].(next := d.headIdx)]),
         drv := d.(freeCnt := Wrap(d.freeCnt + d.extra[id].ndescs),
                   headIdx := id,
                   extra := d.extra[id := Extra(None, Wrap(d.extra[id].ndescs - walked))],
                   pc := DriverIdle))
  }

  function ApplyDevice(q: Queue, a: Action): Queue
    requires Enabled(q, a) && Safe(q, a)
    requires a.TakeCheck? || a.TakeRead? || a.TakeDesc? || a.UseWrite? || a.BumpUsed?
  {
    var sh, v := q.sh, q.dev;
    match a
    case TakeCheck =>
      if v.availCons == sh.availIdx then q
      else q.(dev := v.(availCons := Wrap(v.availCons + 1), pc := ReadingSlot(Slot(v.availCons, q.n))))
    case TakeRead => q.(dev := v.(pc := ReadingDesc(sh.availRing[v.pc.slot])))
    case TakeDesc => q.(dev := v.(held := v.held + {v.pc.head}, pc := DeviceIdle))
    case UseWrite(head, len) =>
      q.(sh := sh.(usedRing := sh.usedRing[Slot(sh.usedIdx, q.n) := UsedElem(head, len)]),
         dev := v.(held := v.held - {head}, pc := Returning))
    case BumpUsed =>
      q.(sh := sh.(usedIdx := Wrap(sh.usedIdx + 1)), dev := v.(queued := Wrap(v.queued + 1), pc := DeviceIdle))
  }

  function ApplyNotify(q: Queue, a: Action): Queue
    requires Enabled(q, a) && Safe(q, a)
    requires a.Arm? || a.ArmCheck? || a.Disarm? || a.Kick?
  {
    var sh, d, v := q.sh, q.drv, q.dev;
    match a
    case Arm(DriverRole) =>
      q.(sh := if q.eventIdx then sh.(usedEvent := d.usedCons) else sh.(noInterrupt := false),
         drv := d.(pc := DriverArming))
    case Arm(DeviceRole) =>
      q.(sh := if q.eventIdx then sh.(availEvent := v.availCons) else sh.(noNotify := false),
         dev := v.(pc := DeviceArming))
    case ArmCheck(DriverRole) => q.(drv := d.(pc := DriverIdle))
    case ArmCheck(DeviceRole) => q.(dev := v.(pc := DeviceIdle))
    case Disarm(DriverRole) =>
      q.(sh := if q.eventIdx then sh.(usedEvent := Wrap(d.usedCons - (q.n + 1))) else sh.(noInterrupt := true))
    case Disarm(DeviceRole) =>
      q.(sh := if q.eventIdx then sh.(availEvent := Wrap(v.availCons - (q.n + 1))) else sh.(noNotify := true))
    case Kick(DriverRole) => q.(drv := d.(queued := 0))
    case Kick(DeviceRole) => q.(dev := v.(queued := 0))
  }

  /** The queue after one action. */
  function Apply(q: Queue, a: Action): Queue
    requires Enabled(q, a) && Safe(q, a)
  {
    match a
    case AddBegin(_) => ApplyDriver(q, a)
    case FillOne => ApplyDriver(q, a)
    case WriteSlot => ApplyDriver(q, a)
    case BumpAvail => ApplyDriver(q, a)
    case ReapCheck => ApplyDriver(q, a)
    case ReapRead => ApplyDriver(q, a)
    case TakeCheck => ApplyDevice(q, a)
    case TakeRead => ApplyDevice(q, a)
    case TakeDesc => ApplyDevice(q, a)
    case UseWrite(_, _) => ApplyDevice(q, a)
    case BumpUsed => ApplyDevice(q, a)
    case _ => ApplyNotify(q, a)
  }

  /** The number vq_ring_enable_interrupt compares with 0: what the peer has published
      and this side has not consumed. */
  function PendingSeen(q: Queue, r: Role): nat {
    if r.DriverRole? then Wrap(q.sh.usedIdx - q.drv.usedCons) else Wrap(q.sh.availIdx - q.dev.availCons)
  }

  // ---- What an outside observer records of a run.  No action reads any of it. ----

  // A chain in the order of publication: the descriptors it occupies and the request behind it.
  datatype Chain = Chain(descs: seq<nat>, req: Request)

  // Where a chain is in its life.
  datatype Stage = Available | AtDevice | InUsedRing | Reaped

  datatype Owner = Free | In(k: nat)

  // What virtqueue_get_available_buffer returned.
  datatype Taken = Taken(head: nat, addr: nat, len: nat)

  datatype Hist = Hist(
    free: seq<nat>, owner: seq<Owner>,
    chains: seq<Chain>, stage: seq<Stage>,
    returned: seq<nat>, taken: seq<Taken>, reaped: seq<Option<nat>>,
    availCount: nat, usedCount: nat,
    driverKick: nat, deviceKick: nat,
    driverArmed: Option<nat>, deviceArmed: Option<nat>)

  function InitHist(n: nat): Hist {
    Hist(seq(n, i => i), seq(n, i => Free), [], [], [], [], [], 0, 0, 0, 0, None, None)
  }

  function Reown(owner: seq<Owner>, ds: seq<nat>, w: Owner): (r: seq<Owner>)
    ensures |r| == |owner|
    ensures forall d :: 0 <= d < |owner| ==> r[d] == if d in ds then w else owner[d]
  {
    seq(|owner|, d requires 0 <= d < |owner| => if d in ds then w else owner[d])
  }

  /** The chain a descriptor belongs to, as far as the record knows. */
  function ChainOf(h: Hist, d: nat): nat {
    if d < |h.owner| && h.owner[d].In? then h.owner[d].k else |h.chains|
  }

  function SetStage(h: Hist, k: nat, s: Stage): seq<Stage> {
    if k < |h.stage| then h.stage[k := s] else h.stage
  }

  /** The record after one action. */
  function Record(q: Queue, h: Hist, a: Action): Hist
    requires Enabled(q, a) && Safe(q, a)
  {
    match a
    case WriteSlot =>
      var m := if |q.drv.pc.req.bufs| <= |h.free| then |q.drv.pc.req.bufs| else |h.free|;
      h.(free := h.free[m..],
         owner := Reown(h.owner, h.free[..m], In(|h.chains|)),
         chains := h.chains + [Chain(h.free[..m], q.drv.pc.req)],
         stage := h.stage + [Available])
    case BumpAvail => h.(availCount := h.availCount + 1)
    case ReapRead =>
      var id := q.sh.usedRing[q.drv.pc.slot].id;
      var k := ChainOf(h, id);
      var ds := if k < |h.chains| then h.chains[k].descs else [];
      h.(free := ds + h.free, owner := Reown(h.owner, ds, Free),
         stage := SetStage(h, k, Reaped),
         reaped := h.reaped + [q.drv.extra[id].cookie])
    case TakeDesc =>
      var head := q.dev.pc.head;
      h.(stage := SetStage(h, ChainOf(h, head), AtDevice),
         taken := h.taken + [Taken(head, q.sh.desc[head].addr, q.sh.desc[head].len)])
    case UseWrite(head, len) =>
      h.(stage := SetStage(h, ChainOf(h, head), InUsedRing), returned := h.returned + [ChainOf(h, head)])
    case BumpUsed => h.(usedCount := h.usedCount + 1)
    case Arm(r) => if r.DriverRole? then h.(driverArmed := None) else h.(deviceArmed := None)
    case Disarm(r) => if r.DriverRole? then h.(driverArmed := None) else h.(deviceArmed := None)
    case ArmCheck(r) =>
      if PendingSeen(q, r) != 0 then h
      else if r.DriverRole? then h.(driverArmed := Some(h.usedCount)) else h.(deviceArmed := Some(h.availCount))
    case Kick(DriverRole) =>
      h.(driverKick := h.availCount,
         deviceArmed := if h.deviceArmed.Some? && h.deviceArmed.value < h.availCount then None else h.deviceArmed)
    case Kick(DeviceRole) =>
      h.(deviceKick := h.usedCount,
         driverArmed := if h.driverArmed.Some? && h.driverArmed.value < h.usedCount then None else h.driverArmed)
    case _ => h
  }

  // ---- Runs ----

  datatype World = World(q: Queue, h: Hist)

  predicate Initial(w: World) {
    && ValidSize(w.q.n) && Sized(w.q)
    && w.q == Init(w.q.n, w.q.eventIdx, w.q.sh.desc, w.q.sh.availRing, w.q.sh.usedRing)
    && w.h == InitHist(w.q.n)
  }

  predicate Step(w: World, a: Action, w': World) {
    && Enabled(w.q, a) && Safe(w.q, a)
    && w' == World(Apply(w.q, a), Record(w.q, w.h, a))
  }

  /** A run: worlds[i] goes to worlds[i+1] by acts[i], in any interleaving of the two parties. */
  predicate IsRun(worlds: seq<World>, acts: seq<Action>) {
    && |worlds| == |acts| + 1
    && Initial(worlds[0])
    && forall i :: 0 <= i < |acts| ==> Step(worlds[i], acts[i], worlds[i + 1])
  }
}
