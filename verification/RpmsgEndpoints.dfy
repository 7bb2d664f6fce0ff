/** rpmsg endpoints: addresses from a bitmap, registration, reference counts and callbacks. */
module RpmsgEndpoints {

  const ANY: nat := 0xFFFF_FFFF         // RPMSG_ADDR_ANY
  const RESERVED: nat := 1024           // RPMSG_RESERVED_ADDRESSES
  const BMP_SIZE: nat := 128            // RPMSG_ADDR_BMP_SIZE
  const RPMSG_SUCCESS: int := 0
  const RPMSG_ERR_PARAM: int := -2003
  const RPMSG_ERR_ADDR: int := -2007

  // One entry per bit.
  type Bitmap = s: seq<bool> | |s| == 128 witness seq(128, i => false)

  predicate Full(b: Bitmap) { forall i :: 0 <= i < BMP_SIZE ==> b[i] }

  /** How many set bits a cyclic scan from `start` passes, looking at no more than `left` bits. */
  function Skipped(b: Bitmap, start: nat, left: nat): nat
    decreases left
  {
    if left == 0 || !b[start % BMP_SIZE] then 0 else 1 + Skipped(b, start + 1, left - 1)
  }

  /** metal_bitmap_next_clear_bit. */
  function NextClear(b: Bitmap, start: nat): nat { (start + Skipped(b, start, BMP_SIZE)) % BMP_SIZE }

  method NextClearBit(bits: array<bool>, start: nat) returns (bit: nat)
    requires bits.Length == BMP_SIZE
    ensures bit == NextClear(bits[..], start)
  {
    var at := start;
    while at < BMP_SIZE + start && bits[at % BMP_SIZE]
      invariant start <= at <= BMP_SIZE + start
      invariant at + Skipped(bits[..], at, BMP_SIZE + start - at) == start + Skipped(bits[..], start, BMP_SIZE)
    {
      at := at + 1;
    }
    bit := at % BMP_SIZE;
  }

  predicate BitAt(b: Bitmap, at: nat) { b[at % BMP_SIZE] }

  lemma {:induction false} SkippedBits(b: Bitmap, start: nat, left: nat)
    ensures Skipped(b, start, left) <= left
    ensures forall at: nat :: start <= at < start + Skipped(b, start, left) ==> BitAt(b, at)
    ensures Skipped(b, start, left) < left ==> !BitAt(b, start + Skipped(b, start, left))
    decreases left
  {
    if left > 0 && b[start % BMP_SIZE] {
      SkippedBits(b, start + 1, left - 1);
      assert Skipped(b, start, left) == 1 + Skipped(b, start + 1, left - 1);
      hide Skipped;
      assert BitAt(b, start);
    }
  }

  /** A window of BMP_SIZE bits covers the whole map. */
  lemma WindowCovers(start: nat, i: nat) returns (at: nat)
    requires i < BMP_SIZE
    ensures start <= at < start + BMP_SIZE && at % BMP_SIZE == i
  {
    at := start + (i - start) % BMP_SIZE;
  }

  /** How far the scan from `start` has to go, cyclically, to come to `bit`. */
  function Distance(start: nat, bit: nat): nat { (bit - start) % BMP_SIZE }

  /** The cyclic scan finds the first clear bit from `start` on when there is one: every bit met on the
      way to it is set.  When all bits are set it comes back to start itself. */
  lemma NextClearIsFirst(b: Bitmap, start: nat)
    ensures NextClear(b, start) < BMP_SIZE
    ensures !b[NextClear(b, start)] <==> !Full(b)
    ensures Full(b) ==> NextClear(b, start) == start % BMP_SIZE
    ensures forall at: nat :: start <= at < start + Distance(start, NextClear(b, start)) ==> BitAt(b, at)
  {
    hide Skipped, BitAt, NextClear, Distance;
    SkippedBits(b, start, BMP_SIZE);
    WhereItStops(b, start);
    if Skipped(b, start, BMP_SIZE) == BMP_SIZE { AllSkipped(b, start); }
  }

  /** Going `steps` on from `start`, once around at most. */
  lemma GoingOn(start: nat, steps: nat)
    requires steps <= BMP_SIZE
    ensures Distance(start, (start + steps) % BMP_SIZE) == if steps == BMP_SIZE then 0 else steps
    ensures steps == BMP_SIZE ==> (start + steps) % BMP_SIZE == start % BMP_SIZE
  {
    var q := (start + steps) / BMP_SIZE;
    assert (start + steps) % BMP_SIZE - start == steps - BMP_SIZE * q;
  }

  lemma WhereItStops(b: Bitmap, start: nat)
    requires Skipped(b, start, BMP_SIZE) <= BMP_SIZE
    ensures NextClear(b, start) < BMP_SIZE
    ensures BitAt(b, start + Skipped(b, start, BMP_SIZE)) == b[NextClear(b, start)]
    ensures Skipped(b, start, BMP_SIZE) == BMP_SIZE ==> NextClear(b, start) == start % BMP_SIZE
    ensures Distance(start, NextClear(b, start)) <= Skipped(b, start, BMP_SIZE)
  {
    hide Skipped, Distance;
    GoingOn(start, Skipped(b, start, BMP_SIZE));
  }

  lemma AllSkipped(b: Bitmap, start: nat)
    requires forall at: nat :: start <= at < start + BMP_SIZE ==> BitAt(b, at)
    ensures Full(b)
  {
    forall i | 0 <= i < BMP_SIZE ensures b[i] {
      var at := WindowCovers(start, i);
      assert BitAt(b, at);
    }
  }

  // ---- Endpoints ----

  // An endpoint the application created: its address, its reference count, whether it is in the
  // device's list, how many receive callbacks are running on it, and how often it was released.
  datatype Endpoint = Endpoint(addr: nat, refcnt: int, registered: bool, inFlight: nat, released: nat)

  datatype Device = Device(bitmap: Bitmap, bitnext: nat, epts: seq<Endpoint>)

  datatype Step =
    | Create(src: nat)             // rpmsg_create_ept
    | Destroy(id: nat)             // rpmsg_destroy_ept, or the unregistration after a failed announcement
    | Receive(addr: nat, id: nat)  // rx_callback finds endpoint id for a message to addr and counts itself in
    | CallbackDone(id: nat)        // rx_callback after the endpoint's callback returned

  function InRange(addr: nat): bool { RESERVED <= addr < RESERVED + BMP_SIZE }

  /** rpmsg_get_address: the address and the bitmap with its bit set. */
  function GetAddress(d: Device): (nat, Bitmap)
    ensures GetAddress(d).0 == RESERVED + NextClear(d.bitmap, d.bitnext)
  {
    NextClearIsFirst(d.bitmap, d.bitnext);
    var bit := NextClear(d.bitmap, d.bitnext);
    (RESERVED + bit, d.bitmap[bit := true])
  }

  /** The status rpmsg_create_ept returns before any announcement. */
  function CreateStatus(d: Device, src: nat): int {
    if src == ANY || src < RESERVED then RPMSG_SUCCESS
    else if !InRange(src) then RPMSG_ERR_PARAM
    else if d.bitmap[src - RESERVED] then RPMSG_ERR_ADDR
    else RPMSG_SUCCESS
  }

  predicate Enabled(d: Device, a: Step) {
    match a
    case Create(_) => true
    // one destroy per create
    case Destroy(id) => id < |d.epts| && d.epts[id].registered
    // the lookup finds the first endpoint of the list with that address
    case Receive(addr, id) => id < |d.epts| && d.epts[id].registered && d.epts[id].addr == addr && addr != ANY
    case CallbackDone(id) => id < |d.epts| && d.epts[id].inFlight > 0
  }

  /** rpmsg_ept_decref: the endpoint is released when the count comes to 0. */
  function DecRefed(e: Endpoint): Endpoint {
    e.(refcnt := e.refcnt - 1, released := if e.refcnt - 1 == 0 then e.released + 1 else e.released)
  }

  function Apply(d: Device, a: Step): Device
    requires Enabled(d, a)
  {
    match a
    case Create(src) =>
      if CreateStatus(d, src) != RPMSG_SUCCESS then d
      else if src == ANY then
        var (addr, bitmap) := GetAddress(d);
        Device(bitmap, (addr + 1) % BMP_SIZE, d.epts + [Endpoint(addr, 1, true, 0, 0)])
      else
        d.(bitmap := if InRange(src) then d.bitmap[src - RESERVED := true] else d.bitmap,
           epts := d.epts + [Endpoint(src, 1, true, 0, 0)])
    case Destroy(id) =>
      var addr := d.epts[id].addr;
      d.(bitmap := if InRange(addr) then d.bitmap[addr - RESERVED := false] else d.bitmap,
         epts := d.epts[id := DecRefed(d.epts[id]).(registered := false)])
    case Receive(addr, id) =>
      d.(epts := d.epts[id := d.epts[id].(refcnt := d.epts[id].refcnt + 1, inFlight := d.epts[id].inFlight + 1)])
    case CallbackDone(id) =>
      d.(epts := d.epts[id := DecRefed(d.epts[id]).(inFlight := d.epts[id].inFlight - 1)])
  }

  predicate Initial(d: Device) { (forall i :: 0 <= i < BMP_SIZE ==> !d.bitmap[i]) && d.bitnext < BMP_SIZE && d.epts == [] }

  predicate IsRun(devs: seq<Device>, steps: seq<Step>) {
    && |devs| == |steps| + 1 && Initial(devs[0])
    && forall i :: 0 <= i < |steps| ==> Enabled(devs[i], steps[i]) && devs[i + 1] == Apply(devs[i], steps[i])
  }

  // ---- Reference counts ----

  /** The count is the registration plus the callbacks in flight, and the endpoint has been released
      exactly when that is nothing. */
  predicate RefOk(e: Endpoint) {
    && e.refcnt == (if e.registered then 1 else 0) + e.inFlight
    && e.released == if e.refcnt == 0 then 1 else 0
  }

  lemma {:induction false} RefCounts(devs: seq<Device>, steps: seq<Step>, i: nat)
    requires IsRun(devs, steps) && i <= |steps|
    ensures forall id :: 0 <= id < |devs[i].epts| ==> RefOk(devs[i].epts[id])
  {
    if i > 0 {
      hide NextClear, Skipped;
      RefCounts(devs, steps, i - 1);
      assert devs[i - 1 + 1] == Apply(devs[i - 1], steps[i - 1]);
    }
  }

  /** An endpoint is released at most once, never while a callback runs on it or while it is
      registered, and it has been released as soon as neither is the case -- also when its own
      callback destroyed it. */
  lemma ReleasedOnceAndLate(devs: seq<Device>, steps: seq<Step>, i: nat, id: nat)
    requires IsRun(devs, steps) && i <= |steps| && id < |devs[i].epts|
    ensures var e := devs[i].epts[id];
            && e.released <= 1 && (e.released == 1 <==> !e.registered && e.inFlight == 0)
            && e.refcnt >= 0
  {
    RefCounts(devs, steps, i);
  }

  // ---- Addresses ----

  /** A bit is set exactly when a registered endpoint has its address, and then only one has. */
  predicate AddressesOk(d: Device) {
    && (forall i, j :: 0 <= i < j < |d.epts| && d.epts[i].registered && d.epts[j].registered && InRange(d.epts[i].addr) ==>
          d.epts[i].addr != d.epts[j].addr)
    && (forall i :: 0 <= i < |d.epts| && d.epts[i].registered && InRange(d.epts[i].addr) ==>
          d.bitmap[d.epts[i].addr - RESERVED])
    && (forall k :: 0 <= k < BMP_SIZE && d.bitmap[k] ==> HasAddress(d, RESERVED + k))
    && (forall i :: 0 <= i < |d.epts| ==> d.epts[i].addr < RESERVED || InRange(d.epts[i].addr))
  }

  predicate HasAddress(d: Device, addr: nat) {
    exists i :: 0 <= i < |d.epts| && d.epts[i].registered && d.epts[i].addr == addr
  }

  /** The one step that can break it: asking for any address when all are taken. */
  predicate Exhausted(d: Device, a: Step) { a == Create(ANY) && Full(d.bitmap) }

  lemma AddressWitness(d: Device, d': Device, addr: nat, gone: int)
    requires |d.epts| <= |d'.epts|
    requires forall i :: 0 <= i < |d.epts| && i != gone ==>
               d'.epts[i].registered == d.epts[i].registered && d'.epts[i].addr == d.epts[i].addr
    requires HasAddress(d, addr) && (0 <= gone < |d.epts| ==> d.epts[gone].addr != addr || !d.epts[gone].registered)
    ensures HasAddress(d', addr)
  {
    var i :| 0 <= i < |d.epts| && d.epts[i].registered && d.epts[i].addr == addr;
    assert d'.epts[i].registered && d'.epts[i].addr == addr;
  }

  lemma HasLast(d: Device, addr: nat)
    requires |d.epts| > 0 && d.epts[|d.epts| - 1].registered && d.epts[|d.epts| - 1].addr == addr
    ensures HasAddress(d, addr)
  { }

  /** A newly registered endpoint whose address no other registered endpoint has. */
  lemma NewAddress(d: Device, d': Device, addr: nat)
    requires AddressesOk(d) && d'.epts == d.epts + [Endpoint(addr, 1, true, 0, 0)] && (addr < RESERVED || InRange(addr))
    requires InRange(addr) ==> !d.bitmap[addr - RESERVED] && d'.bitmap == d.bitmap[addr - RESERVED := true]
    requires addr < RESERVED ==> d'.bitmap == d.bitmap
    ensures AddressesOk(d')
  {
    hide HasAddress;
    forall k | 0 <= k < BMP_SIZE && d'.bitmap[k] ensures HasAddress(d', RESERVED + k) {
      if RESERVED + k == addr {
        HasLast(d', addr);
      } else {
        AddressWitness(d, d', RESERVED + k, -1);
      }
    }
  }

  lemma CreateAnyKeeps(d: Device)
    requires AddressesOk(d)
    ensures AddressesOk(Apply(d, Create(ANY))) <==> !Full(d.bitmap)
  {
    NextClearIsFirst(d.bitmap, d.bitnext);
    var d' := Apply(d, Create(ANY));
    var addr := GetAddress(d).0;
    if Full(d.bitmap) {
      assert HasAddress(d, addr);
      var i :| 0 <= i < |d.epts| && d.epts[i].registered && d.epts[i].addr == addr;
      assert d'.epts[i] == d.epts[i] && d'.epts[|d.epts|].addr == addr;
    } else {
      hide NextClear;
      NewAddress(d, d', addr);
    }
  }

  lemma CreateKeeps(d: Device, src: nat)
    requires AddressesOk(d) && src != ANY
    ensures AddressesOk(Apply(d, Create(src)))
  {
    hide HasAddress, AddressesOk;
    if CreateStatus(d, src) == RPMSG_SUCCESS { NewAddress(d, Apply(d, Create(src)), src); }
  }

  lemma DestroyKeeps(d: Device, id: nat)
    requires AddressesOk(d) && id < |d.epts| && d.epts[id].registered
    ensures AddressesOk(Apply(d, Destroy(id)))
  {
    hide HasAddress;
    var d' := Apply(d, Destroy(id));
    forall k | 0 <= k < BMP_SIZE && d'.bitmap[k] ensures HasAddress(d', RESERVED + k) {
      AddressWitness(d, d', RESERVED + k, id);
    }
  }

  // A step that changes no address, no registration and no bit.
  lemma CountingKeeps(d: Device, d': Device)
    requires AddressesOk(d) && d'.bitmap == d.bitmap && |d'.epts| == |d.epts|
    requires forall i :: 0 <= i < |d.epts| ==>
               d'.epts[i].registered == d.epts[i].registered && d'.epts[i].addr == d.epts[i].addr
    ensures AddressesOk(d')
  {
    hide HasAddress;
    forall k | 0 <= k < BMP_SIZE && d'.bitmap[k] ensures HasAddress(d', RESERVED + k) {
      AddressWitness(d, d', RESERVED + k, -1);
    }
  }

  lemma StepKeepsAddresses(d: Device, a: Step)
    requires AddressesOk(d) && Enabled(d, a)
    ensures AddressesOk(Apply(d, a)) <==> !Exhausted(d, a)
  {
    hide AddressesOk, Full, NextClear, CreateStatus;
    match a {
      case Create(src) => if src == ANY { CreateAnyKeeps(d); } else { CreateKeeps(d, src); }
      case Destroy(id) => DestroyKeeps(d, id);
      case Receive(_, _) => CountingKeeps(d, Apply(d, a));
      case CallbackDone(_) => CountingKeeps(d, Apply(d, a));
    }
  }

  /** Across every history of creates, destroys and receptions in which no address is asked for
      while all are taken: a bit is set exactly when one live endpoint has its address, and all
      addresses from RPMSG_RESERVED_ADDRESSES up are distinct. */
  lemma {:induction false} AddressesAreUnique(devs: seq<Device>, steps: seq<Step>, i: nat)
    requires IsRun(devs, steps) && i <= |steps|
    requires forall j :: 0 <= j < i ==> !Exhausted(devs[j], steps[j])
    ensures AddressesOk(devs[i])
  {
    if i > 0 {
      hide Enabled, Exhausted, NextClear, AddressesOk, Apply;
      AddressesAreUnique(devs, steps, i - 1);
      StepKeepsAddresses(devs[i - 1], steps[i - 1]);
      assert devs[i - 1 + 1] == Apply(devs[i - 1], steps[i - 1]);
    }
  }

  /** What rpmsg_create_ept answers, by the endpoints there are: an address of the map is refused exactly
      if a live endpoint has it, a higher one always, RPMSG_ADDR_ANY and the reserved ones never. */
  lemma CreateSucceedsExactly(d: Device, src: nat)
    requires AddressesOk(d)
    ensures InRange(src) ==> CreateStatus(d, src) == if HasAddress(d, src) then RPMSG_ERR_ADDR else RPMSG_SUCCESS
    ensures src == ANY || src < RESERVED ==> CreateStatus(d, src) == RPMSG_SUCCESS
    ensures src != ANY && src >= RESERVED + BMP_SIZE ==> CreateStatus(d, src) == RPMSG_ERR_PARAM
    ensures CreateStatus(d, src) != RPMSG_SUCCESS ==> Apply(d, Create(src)) == d
  {
    if InRange(src) && d.bitmap[src - RESERVED] {
      assert HasAddress(d, RESERVED + (src - RESERVED));
    }
  }

  /** A destroyed endpoint's address can be asked for again. */
  lemma DestroyFreesAddress(d: Device, id: nat)
    requires AddressesOk(d) && id < |d.epts| && d.epts[id].registered && InRange(d.epts[id].addr)
    ensures var d' := Apply(d, Destroy(id));
            !HasAddress(d', d.epts[id].addr) && CreateStatus(d', d.epts[id].addr) == RPMSG_SUCCESS
  {
    DestroyKeeps(d, id);
    CreateSucceedsExactly(Apply(d, Destroy(id)), d.epts[id].addr);
  }

  // ---- Addresses are reused as late as possible ----

  /** Step k gives the address of `bit` to an endpoint that asked for any. */
  predicate Given(devs: seq<Device>, steps: seq<Step>, k: nat, bit: nat)
    requires k < |steps| < |devs|
  {
    steps[k] == Create(ANY) && |devs[k].epts| < |devs[k + 1].epts| &&
    devs[k + 1].epts[|devs[k].epts|].addr == RESERVED + bit
  }

  /** An endpoint that asked for any address at step k got the one of `bit`, or `bit` was taken. */
  predicate Met(devs: seq<Device>, steps: seq<Step>, k: nat, bit: nat)
    requires k < |steps| < |devs| && bit < BMP_SIZE
  {
    steps[k] == Create(ANY) && (devs[k].bitmap[bit] || Given(devs, steps, k, bit))
  }

  predicate MetBetween(devs: seq<Device>, steps: seq<Step>, i: nat, j: nat, at: nat)
    requires j <= |steps| < |devs|
  {
    exists k :: i < k < j && Met(devs, steps, k, at % BMP_SIZE)
  }

  lemma GivenExactly(devs: seq<Device>, steps: seq<Step>, k: nat, bit: nat)
    requires IsRun(devs, steps) && k < |steps| && steps[k] == Create(ANY)
    ensures Given(devs, steps, k, bit) <==> bit == NextClear(devs[k].bitmap, devs[k].bitnext)
    ensures NextClear(devs[k].bitmap, devs[k].bitnext) < BMP_SIZE
    ensures devs[k + 1].bitnext == (NextClear(devs[k].bitmap, devs[k].bitnext) + 1) % BMP_SIZE
  {
    hide NextClear;
    NextClearIsFirst(devs[k].bitmap, devs[k].bitnext);
    assert devs[k + 1] == Apply(devs[k], steps[k]);
    NextStart(NextClear(devs[k].bitmap, devs[k].bitnext));
  }

  lemma OnlyAnyMovesTheScan(devs: seq<Device>, steps: seq<Step>, k: nat)
    requires IsRun(devs, steps) && k < |steps| && steps[k] != Create(ANY)
    ensures devs[k + 1].bitnext == devs[k].bitnext
  {
    hide NextClear;
    assert devs[k + 1] == Apply(devs[k], steps[k]);
  }

  /** Where the scan stands before step k, counted on without wrapping since it gave out `bit` at
      step i: everything it has come by since was met. */
  lemma {:induction false} ScanPosition(devs: seq<Device>, steps: seq<Step>, i: nat, k: nat, bit: nat) returns (at: nat)
    requires IsRun(devs, steps) && i < k <= |steps| && Given(devs, steps, i, bit) && bit < BMP_SIZE
    ensures at > bit && at % BMP_SIZE == devs[k].bitnext
    ensures forall x: nat :: bit < x < at ==> MetBetween(devs, steps, i, k, x)
    decreases k
  {
    hide IsRun, Given, Met, NextClear, BitAt, Distance;
    Sized(devs, steps);
    if k == i + 1 {
      AskedForAny(devs, steps, i, bit);
      GivenExactly(devs, steps, i, bit);
      at := bit + 1;
    } else {
      var was := ScanPosition(devs, steps, i, k - 1, bit);
      if steps[k - 1] == Create(ANY) {
        at := ScanOn(devs, steps, k - 1, was);
      } else {
        OnlyAnyMovesTheScan(devs, steps, k - 1);
        at := was;
      }
      forall x: nat | bit < x < at ensures MetBetween(devs, steps, i, k, x) {
        if x < was {
          assert MetBetween(devs, steps, i, k - 1, x);
        } else {
          assert Met(devs, steps, k - 1, x % BMP_SIZE);
        }
      }
    }
  }

  lemma AskedForAny(devs: seq<Device>, steps: seq<Step>, k: nat, bit: nat)
    requires k < |steps| < |devs| && Given(devs, steps, k, bit)
    ensures steps[k] == Create(ANY)
  {}

  lemma Sized(devs: seq<Device>, steps: seq<Step>)
    requires IsRun(devs, steps)
    ensures |devs| == |steps| + 1
  {}

  /** The scan position and the scan start name the same bits. */
  lemma SameBits(was: nat, x: nat)
    requires was <= x
    ensures (x - (was - was % BMP_SIZE)) % BMP_SIZE == x % BMP_SIZE
  {
    var q := was / BMP_SIZE;
    assert x - (was - was % BMP_SIZE) == x - BMP_SIZE * q;
  }

  lemma DistanceLeads(was: nat, bit: nat)
    requires bit < BMP_SIZE
    ensures (was + Distance(was % BMP_SIZE, bit)) % BMP_SIZE == bit
  {
    var q, d := was / BMP_SIZE, bit - was % BMP_SIZE;
    assert was + d == BMP_SIZE * q + bit;
  }

  /** One request for any address moves the scan past the bit it gives out, over taken ones only. */
  lemma ScanOn(devs: seq<Device>, steps: seq<Step>, k: nat, was: nat) returns (at: nat)
    requires IsRun(devs, steps) && k < |steps| && steps[k] == Create(ANY) && was % BMP_SIZE == devs[k].bitnext
    ensures at > was && at % BMP_SIZE == devs[k + 1].bitnext
    ensures (at - 1) % BMP_SIZE == NextClear(devs[k].bitmap, devs[k].bitnext)
    ensures forall x: nat :: was <= x < at ==> Met(devs, steps, k, x % BMP_SIZE)
  {
    hide IsRun, Given, NextClear, Distance;
    Sized(devs, steps);
    var b, start := devs[k].bitmap, devs[k].bitnext;
    var bit := NextClear(b, start);
    GivenExactly(devs, steps, k, bit);
    NextClearIsFirst(b, start);
    at := was + Distance(start, bit) + 1;
    DistanceLeads(was, bit);
    NextAfter(at - 1);
    forall x: nat | was <= x < at ensures Met(devs, steps, k, x % BMP_SIZE) {
      SameBits(was, x);
      if x < at - 1 { assert BitAt(b, x - (was - start)); }
    }
  }

  lemma NextAfter(x: nat)
    ensures (x + 1) % BMP_SIZE == (x % BMP_SIZE + 1) % BMP_SIZE
  {}

  /** An address given out to an endpoint that asked for any is given out so again only after every
      other address has been given out, or was found taken, by such a request in between. */
  lemma ReusedAfterAllOthers(devs: seq<Device>, steps: seq<Step>, i: nat, j: nat, bit: nat, other: nat)
    requires IsRun(devs, steps) && i < j < |steps| && bit < BMP_SIZE && other < BMP_SIZE && other != bit
    requires Given(devs, steps, i, bit) && Given(devs, steps, j, bit)
    ensures exists k :: i < k <= j && Met(devs, steps, k, other)
  {
    hide IsRun, Given, Met, NextClear;
    Sized(devs, steps);
    AskedForAny(devs, steps, j, bit);
    GivenExactly(devs, steps, j, bit);
    var was := ScanPosition(devs, steps, i, j, bit);
    var at := ScanOn(devs, steps, j, was);
    var x := if other > bit then other else other + BMP_SIZE;
    assert x % BMP_SIZE == other;
    assert (at - 1) % BMP_SIZE == bit && bit < at - 1 && bit < x < bit + BMP_SIZE <= at - 1;
    if x < was {
      assert MetBetween(devs, steps, i, j, x);
    } else {
      assert Met(devs, steps, j, x % BMP_SIZE);
    }
  }

  // ---- A history that gives an address out twice ----

  function FirstBits(k: nat): (b: Bitmap)
    ensures forall i :: 0 <= i < BMP_SIZE ==> (b[i] <==> i < k)
  {
    seq(BMP_SIZE, i => i < k)
  }

  function Numbered(k: nat): (epts: seq<Endpoint>)
    ensures |epts| == k && forall i :: 0 <= i < k ==> epts[i] == Endpoint(RESERVED + i, 1, true, 0, 0)
  {
    seq(k, i requires 0 <= i < k => Endpoint(RESERVED + i, 1, true, 0, 0))
  }

  /** The device after k endpoints asked for any address, none of which was destroyed. */
  function Crowded(k: nat): Device
    requires k <= BMP_SIZE
  {
    Device(FirstBits(k), k % BMP_SIZE, Numbered(k))
  }

  lemma ClearAtOnce(b: Bitmap, start: nat)
    requires start < BMP_SIZE && !b[start]
    ensures NextClear(b, start) == start
  {
    assert start % BMP_SIZE == start;
    assert Skipped(b, start, BMP_SIZE) == 0;
    hide Skipped;
  }

  /** While a bit is clear the next one is taken. */
  lemma OneMore(k: nat)
    requires k < BMP_SIZE
    ensures Apply(Crowded(k), Create(ANY)) == Crowded(k + 1)
  {
    hide Skipped, FirstBits, Numbered, NextClear;
    var d := Crowded(k);
    ClearAtOnce(d.bitmap, k);
    NextBits(k);
    NextEndpoint(k);
    NextStart(k);
  }

  lemma NextBits(k: nat)
    requires k < BMP_SIZE
    ensures FirstBits(k)[k := true] == FirstBits(k + 1)
  {}

  lemma NextEndpoint(k: nat)
    ensures Numbered(k) + [Endpoint(RESERVED + k, 1, true, 0, 0)] == Numbered(k + 1)
  {}

  lemma NextStart(k: nat)
    ensures (RESERVED + k + 1) % BMP_SIZE == (k + 1) % BMP_SIZE
    ensures k < BMP_SIZE ==> k % BMP_SIZE == k
  {}

  /** With all of them set, the first address is given out again. */
  lemma OneTooMany()
    ensures var d := Apply(Crowded(BMP_SIZE), Create(ANY));
            && |d.epts| == BMP_SIZE + 1 && d.epts[0].registered && d.epts[BMP_SIZE].registered
            && d.epts[0].addr == d.epts[BMP_SIZE].addr == RESERVED
  {
    var d := Crowded(BMP_SIZE);
    assert Full(d.bitmap);
    NextClearIsFirst(d.bitmap, d.bitnext);
    hide NextClear, Full;
  }

  /** 129 endpoints created with RPMSG_ADDR_ANY: the first and the last have the same address. */
  lemma AddressCanBeTakenTwice()
    ensures exists devs: seq<Device>, steps: seq<Step> ::
              && IsRun(devs, steps) && |steps| == BMP_SIZE + 1
              && var d := devs[BMP_SIZE + 1];
                 && |d.epts| == BMP_SIZE + 1 && d.epts[0].registered && d.epts[BMP_SIZE].registered
                 && d.epts[0].addr == d.epts[BMP_SIZE].addr
  {
    hide Apply, CreateStatus;
    var steps := seq(BMP_SIZE + 1, _ => Create(ANY));
    var last := Apply(Crowded(BMP_SIZE), Create(ANY));
    var devs := seq(BMP_SIZE + 1, k requires 0 <= k < BMP_SIZE + 1 => Crowded(k)) + [last];
    OneTooMany();
    forall i | 0 <= i < |steps| ensures Enabled(devs[i], steps[i]) && devs[i + 1] == Apply(devs[i], steps[i]) {
      if i < BMP_SIZE { OneMore(i); }
    }
    assert Initial(devs[0]) by { assert Crowded(0).epts == []; }
    hide Crowded, Initial;
    assert IsRun(devs, steps);
  }

  // ---- The device object ----

  /** struct rpmsg_device: the address bitmap, where the next scan starts, the endpoints. */
  class RpmsgDevice {
    const bitmap: array<bool>
    var bitnext: nat
    var epts: seq<Endpoint>

    ghost predicate Valid() reads this { bitmap.Length == BMP_SIZE }

    ghost function Now(): Device
      requires Valid()
      reads this, bitmap
    {
      Device(bitmap[..], bitnext, epts)
    }

    constructor ()
      ensures Valid() && fresh(bitmap) && Initial(Now())
    {
      bitmap := new bool[BMP_SIZE](_ => false);
      bitnext := 0;
      epts := [];
    }

    /** rpmsg_create_ept up to the announcement. */
    method CreateEpt(src: nat) returns (status: int, addr: nat)
      requires Valid()
      modifies this, bitmap
      ensures Valid() && Now() == Apply(old(Now()), Create(src))
      ensures status == CreateStatus(old(Now()), src)
      ensures status == RPMSG_SUCCESS ==> |epts| == old(|epts|) + 1 && epts[old(|epts|)].addr == addr
      ensures status == RPMSG_SUCCESS && src != ANY ==> addr == src
    {
      hide Skipped;
      addr := src;
      if src == ANY {
        var bit := NextClearBit(bitmap, bitnext);
        addr := RESERVED + bit;
        bitmap[bit] := true;
        bitnext := (addr + 1) % BMP_SIZE;
      } else if src >= RESERVED {
        if src - RESERVED >= BMP_SIZE {
          return RPMSG_ERR_PARAM, addr;
        } else if bitmap[src - RESERVED] {
          return RPMSG_ERR_ADDR, addr;
        }
        bitmap[src - RESERVED] := true;
      }
      epts := epts + [Endpoint(addr, 1, true, 0, 0)];
      status := RPMSG_SUCCESS;
    }

    /** rpmsg_unregister_endpoint. */
    method Unregister(id: nat)
      requires Valid() && Enabled(Now(), Destroy(id))
      modifies this, bitmap
      ensures Valid() && Now() == Apply(old(Now()), Destroy(id))
    {
      var addr := epts[id].addr;
      if addr >= RESERVED && addr - RESERVED < BMP_SIZE {
        bitmap[addr - RESERVED] := false;
      }
      epts := epts[id := epts[id].(registered := false)];
      DecRef(id);
    }

    /** rpmsg_ept_decref. */
    method DecRef(id: nat)
      requires Valid() && id < |epts|
      modifies this`epts
      ensures Valid() && epts == old(epts)[id := DecRefed(old(epts[id]))]
    {
      epts := epts[id := epts[id].(refcnt := epts[id].refcnt - 1)];
      if epts[id].refcnt == 0 {
        epts := epts[id := epts[id].(released := epts[id].released + 1)];
      }
    }

    /** The lookup in rx_callback, with rpmsg_get_endpoint by address: the first endpoint of the
        list that has the address is counted in before its callback runs. */
    method BeginReceive(addr: nat) returns (id: int)
      requires Valid()
      modifies this`epts
      ensures Valid()
      ensures id < 0 ==> Now() == old(Now()) && forall i: nat :: !Enabled(old(Now()), Receive(addr, i))
      ensures id >= 0 ==> Enabled(old(Now()), Receive(addr, id)) && Now() == Apply(old(Now()), Receive(addr, id))
      ensures forall i: nat :: i < id ==> !Enabled(old(Now()), Receive(addr, i))
    {
      id := 0;
      while id < |epts|
        invariant 0 <= id <= |epts| && epts == old(epts)
        invariant forall i :: 0 <= i < id ==> !Enabled(Now(), Receive(addr, i))
      {
        if epts[id].registered && addr != ANY && epts[id].addr == addr {
          epts := epts[id := epts[id].(refcnt := epts[id].refcnt + 1, inFlight := epts[id].inFlight + 1)];
          return;
        }
        id := id + 1;
      }
      id := -1;
    }

    /** rx_callback after the callback returned. */
    method EndReceive(id: nat)
      requires Valid() && Enabled(Now(), CallbackDone(id))
      modifies this`epts
      ensures Valid() && Now() == Apply(old(Now()), CallbackDone(id))
    {
      epts := epts[id := epts[id].(inFlight := epts[id].inFlight - 1)];
      DecRef(id);
    }
  }
}
