/** A virtqueue as a keeper of buffers: which cookies it holds, when every request is a single
    buffer of one length, as rpmsg uses it. */
module RingOwnership {
  import opened Options
  import opened Bits
  import opened VirtqueueProtocol
  import opened VirtqueueInvariant
  import opened VirtqueueSteps
  import opened VirtqueueTheorems

  function CookieOf(e: Extra): multiset<nat> {
    if e.cookie.Some? then multiset{e.cookie.value} else multiset{}
  }

  function Cookies(extra: seq<Extra>): multiset<nat> {
    if extra == [] then multiset{} else Cookies(extra[..|extra| - 1]) + CookieOf(extra[|extra| - 1])
  }

  /** The cookies a queue holds for its caller: of chains being filled, available, at the peer or
      waiting in the used ring. */
  function Holds(w: World): multiset<nat> { Cookies(w.q.drv.extra) }

  lemma Exchange(a: multiset<nat>, b: multiset<nat>, c: multiset<nat>, d: multiset<nat>, x: multiset<nat>)
    requires a + b == c + d
    ensures (a + x) + b == (c + x) + d
  {
    assert (a + x) + b == (a + b) + x;
  }

  lemma Moved(before: multiset<nat>, after: multiset<nat>, c: nat)
    requires after + multiset{} == before + multiset{c}
    ensures after == before + multiset{c} && |after| == |before| + 1
  {
    assert after == after + multiset{};
  }

  lemma CookiesSnoc(extra: seq<Extra>, x: Extra)
    ensures Cookies(extra + [x]) == Cookies(extra) + CookieOf(x)
  {
    assert (extra + [x])[..|extra|] == extra;
  }

  lemma {:induction false} CookiesUpdate(extra: seq<Extra>, i: nat, e: Extra)
    requires i < |extra|
    ensures Cookies(extra[i := e]) + CookieOf(extra[i]) == Cookies(extra) + CookieOf(e)
  {
    hide Cookies, CookieOf;
    var m := |extra| - 1;
    var front, x := extra[..m], extra[m];
    assert extra == front + [x];
    CookiesSnoc(front, x);
    if i == m {
      assert extra[i := e] == front + [e];
      CookiesSnoc(front, e);
    } else {
      assert extra[i := e] == front[i := e] + [x];
      CookiesSnoc(front[i := e], x);
      CookiesUpdate(front, i, e);
      Exchange(Cookies(front[i := e]), CookieOf(extra[i]), Cookies(front), CookieOf(e), CookieOf(x));
    }
  }

  lemma {:induction false} NoCookies(extra: seq<Extra>)
    requires forall i :: 0 <= i < |extra| ==> extra[i].cookie == None
    ensures Cookies(extra) == multiset{}
  {
    if extra != [] { NoCookies(extra[..|extra| - 1]); }
  }

  // How a queue is used: the length of its buffers, and whether the device writes them or reads them.
  datatype Use = Use(len: nat, writable: bool)

  /** One buffer, the one the cookie names. */
  predicate Single(req: Request, use: Use) {
    && |req.bufs| == 1 && req.bufs[0] == Buf(req.cookie, use.len)
    && (use.writable <==> req.readable == 0) && req.readable <= 1
  }

  /** Every request so far is of that kind. */
  predicate Singles(w: World, use: Use) {
    && (forall k :: 0 <= k < |w.h.chains| ==> Single(w.h.chains[k].req, use))
    && (w.q.drv.pc.Filling? ==> Single(w.q.drv.pc.req, use))
  }

  function BeingFilled(pc: DriverPc): nat { if pc.Filling? then 1 else 0 }

  /** Each descriptor is free or holds one cookie; the one being filled is still counted free. */
  predicate CountOk(w: World) {
    |Holds(w)| + w.q.drv.freeCnt == w.q.n + BeingFilled(w.q.drv.pc)
  }

  predicate AllLens(desc: seq<Desc>, len: nat) { forall d :: 0 <= d < |desc| ==> desc[d].len == len }

  predicate RingInv(w: World, use: Use) { Inv(w) && Singles(w, use) && CountOk(w) }

  lemma InitialHolds(w: World, use: Use)
    requires Initial(w)
    ensures RingInv(w, use) && Holds(w) == multiset{}
  {
    InitialKeeps(w);
    NoCookies(w.q.drv.extra);
    hide Inv, Cookies;
  }

  // ---- The two actions that move a cookie ----

  lemma HeadHasNoCookie(w: World)
    requires Inv(w) && w.q.drv.pc.DriverIdle? && w.q.drv.freeCnt >= 1
    ensures w.q.drv.headIdx < |w.q.drv.extra| && w.q.drv.extra[w.q.drv.headIdx].cookie == None
  {
    hide ChainsOk, AvailOk, UsedOk, HeldOk, FillOk, CountersOk, LogOk, NotifyOk, PowerOfTwo;
    assert w.h.owner[w.h.free[0]] == Free;
  }

  lemma AddBeginHolds(w: World, req: Request, w': World, use: Use)
    requires RingInv(w, use) && Step(w, AddBegin(req), w') && Single(req, use)
    ensures Singles(w', use) && CountOk(w') && Holds(w') == Holds(w) + multiset{req.cookie}
    ensures w'.q.sh == w.q.sh && w'.q.n == w.q.n && w'.q.drv.pc.Filling?
  {
    hide Inv, Cookies;
    HeadHasNoCookie(w);
    CookiesUpdate(w.q.drv.extra, w.q.drv.headIdx, Extra(Some(req.cookie), |req.bufs|));
    Moved(Holds(w), Holds(w'), req.cookie);
  }

  /** The chain the driver is about to reap. */
  lemma ReapedChain(w: World, use: Use) returns (id: nat)
    requires RingInv(w, use) && w.q.drv.pc.Reaping? && Safe(w.q, ReapRead)
    ensures id == w.q.sh.usedRing[w.q.drv.pc.slot].id < w.q.n == |w.q.drv.extra|
    ensures w.q.drv.extra[id].cookie.Some? && w.q.drv.extra[id].ndescs == 1 && w.q.drv.freeCnt < w.q.n < U16
    ensures w.q.drv.pc.slot < w.q.n
  {
    hide FreeOk, ChainsOk, AvailOk, UsedOk, HeldOk, FillOk, CookieOk, LogOk, Wrap, Slot, NotifyOk, PowerOfTwo, Cookies;
    var q, h := w.q, w.h;
    UsedEntry(q.n, q.sh.usedRing, h.chains, h.stage, h.returned, |h.reaped|);
    var k := h.returned[|h.reaped|];
    ChainEntry(q.sh.desc, q.drv.extra, h.owner, h.chains, h.stage, k);
    FreeAfterReturning(q.n, q.sh.desc, q.drv.headIdx, q.drv.freeCnt, h.free, h.owner, q.drv.extra, h.chains[k], k);
    id := q.sh.usedRing[q.drv.pc.slot].id;
    ChainEntryOne(q.sh.desc, q.drv.extra, h.owner, k, h.chains[k]);
  }

  lemma ChainEntryOne(desc: seq<Desc>, extra: seq<Extra>, owner: seq<Owner>, k: nat, c: Chain)
    requires ChainOk(desc, extra, owner, k, c) && |c.req.bufs| == 1
    ensures c.descs[0] < |desc| && extra[c.descs[0]] == Extra(Some(c.req.cookie), 1)
    ensures desc[c.descs[0]].addr == c.req.bufs[0].addr && desc[c.descs[0]].len == c.req.bufs[0].len
    ensures desc[c.descs[0]].writable == (c.req.readable == 0) && !desc[c.descs[0]].hasNext
    ensures |c.descs| == 1
  {}

  lemma FreedBounds(desc: seq<Desc>, head: nat)
    requires head < |desc|
    ensures FreedFrom(desc, head).0 < |desc|
  {}

  lemma ReapReadHolds(w: World, w': World, use: Use) returns (cookie: nat)
    requires RingInv(w, use) && Step(w, ReapRead, w')
    ensures Singles(w', use) && CountOk(w') && Holds(w) == Holds(w') + multiset{cookie}
    ensures w'.h.reaped == w.h.reaped + [Some(cookie)] && w.q.drv.pc.slot < w.q.n
    ensures w'.q.n == w.q.n && w'.q.drv.pc.DriverIdle? && w'.q.drv.freeCnt == w.q.drv.freeCnt + 1
    ensures AllLens(w.q.sh.desc, use.len) ==> AllLens(w'.q.sh.desc, use.len)
  {
    hide Inv, Cookies, FreedFrom, Reown, Slot, Wrap;
    var id := ReapedChain(w, use);
    WrapSmall(w.q.drv.freeCnt + 1);
    FreedBounds(w.q.sh.desc, id);
    cookie := w.q.drv.extra[id].cookie.value;
    CookiesUpdate(w.q.drv.extra, id, Extra(None, Wrap(1 - FreedFrom(w.q.sh.desc, id).1)));
    Moved(Holds(w'), Holds(w), cookie);
  }

  /** All other actions leave the cookies where they are. */
  lemma OtherHolds(w: World, a: Action, w': World, use: Use)
    requires RingInv(w, use) && Step(w, a, w') && !a.AddBegin? && !a.ReapRead?
    ensures Singles(w', use) && CountOk(w') && Holds(w') == Holds(w) && w'.q.n == w.q.n
    ensures AllLens(w.q.sh.desc, use.len) ==> AllLens(w'.q.sh.desc, use.len)
    ensures w'.q.drv.pc.Reaping? ==> w.q.drv.pc.Reaping? || a.ReapCheck?
  {
    hide Inv, Cookies, FreedFrom, Reown, Slot, Wrap;
  }

  /** When nothing is free, every descriptor carries the length all requests carry. */
  lemma FullMeansAllLens(w: World, use: Use)
    requires RingInv(w, use) && w.q.drv.freeCnt == 0
    ensures AllLens(w.q.sh.desc, use.len)
  {
    var q, h := w.q, w.h;
    hide AvailOk, UsedOk, HeldOk, FillOk, CookieOk, LogOk, Wrap, Slot, NotifyOk, PowerOfTwo, Cookies, CountersOk, ChainOk;
    forall d | 0 <= d < q.n ensures q.sh.desc[d].len == use.len {
      assert h.owner[d] != Free;
      var k := h.owner[d].k;
      assert ChainOk(q.sh.desc, q.drv.extra, h.owner, k, h.chains[k]);
      ChainEntryOne(q.sh.desc, q.drv.extra, h.owner, k, h.chains[k]);
    }
  }

  /** The descriptor of a live chain: the buffer its cookie names, of the queue's length, in the queue's
      direction, and alone. */
  lemma LiveDescriptor(w: World, use: Use, k: nat)
    requires RingInv(w, use) && k < |w.h.chains| && k < |w.h.stage| && Live(w.h.stage[k])
    ensures var c := w.h.chains[k];
            && |c.descs| == 1 && c.descs[0] < |w.q.sh.desc|
            && var d := w.q.sh.desc[c.descs[0]];
               d.addr == c.req.cookie && d.len == use.len && d.writable == use.writable && !d.hasNext
  {
    var q, h := w.q, w.h;
    hide AvailOk, UsedOk, HeldOk, FillOk, CookieOk, LogOk, Wrap, Slot, NotifyOk, PowerOfTwo, Cookies, CountersOk, ChainOk, ChainsOk, FreeOk;
    ChainEntry(q.sh.desc, q.drv.extra, h.owner, h.chains, h.stage, k);
    ChainEntryOne(q.sh.desc, q.drv.extra, h.owner, k, h.chains[k]);
  }

  // ---- What holding a cookie means ----

  lemma {:induction false} CookiesAreEntries(extra: seq<Extra>, c: nat)
    ensures Cookies(extra)[c] > 0 <==> exists d :: 0 <= d < |extra| && extra[d].cookie == Some(c)
  {
    hide Cookies;
    if extra == [] {
      NoCookies(extra);
    } else {
      var m := |extra| - 1;
      var front, x := extra[..m], extra[m];
      CookiesAreEntries(front, c);
      assert extra == front + [x];
      CookiesSnoc(front, x);
      if d :| 0 <= d < |extra| && extra[d].cookie == Some(c) {
        if d < m { assert front[d].cookie == Some(c); }
      }
      if d :| 0 <= d < m && front[d].cookie == Some(c) {
        assert extra[d].cookie == Some(c);
      }
    }
  }

  /** The queue holds a cookie exactly when some request with it is being filled in or is a chain
      the driver has not got back: available, at the peer, or in the used ring. */
  lemma HeldIsLive(w: World, c: nat)
    requires Inv(w)
    ensures Holds(w)[c] > 0 <==>
              || (w.q.drv.pc.Filling? && w.q.drv.pc.req.cookie == c)
              || exists k :: 0 <= k < |w.h.chains| && k < |w.h.stage| && Live(w.h.stage[k]) && w.h.chains[k].req.cookie == c
  {
    var q, h := w.q, w.h;
    hide AvailOk, UsedOk, HeldOk, LogOk, Wrap, Slot, NotifyOk, PowerOfTwo, Cookies, CountersOk, ChainOk;
    CookiesAreEntries(q.drv.extra, c);
    if d :| 0 <= d < |q.drv.extra| && q.drv.extra[d].cookie == Some(c) {
      if !(q.drv.pc.Filling? && d == q.drv.pc.head) {
        var k := h.owner[d].k;
        ChainEntry(q.sh.desc, q.drv.extra, h.owner, h.chains, h.stage, k);
        assert Live(h.stage[k]) && h.chains[k].req.cookie == c;
      }
    }
    forall k | 0 <= k < |h.chains| && Live(h.stage[k]) && h.chains[k].req.cookie == c
      ensures exists d :: 0 <= d < |q.drv.extra| && q.drv.extra[d].cookie == Some(c)
    {
      ChainEntry(q.sh.desc, q.drv.extra, h.owner, h.chains, h.stage, k);
      assert q.drv.extra[h.chains[k].descs[0]].cookie == Some(c);
    }
    if q.drv.pc.Filling? && q.drv.pc.req.cookie == c {
      assert q.drv.extra[q.drv.pc.head].cookie == Some(c);
    }
  }

  lemma CookiesTwice(extra: seq<Extra>, d: nat, e: nat, c: nat)
    requires d < |extra| && e < |extra| && d != e && extra[d].cookie == Some(c) == extra[e].cookie
    ensures Cookies(extra)[c] >= 2
  {
    hide Cookies;
    var without := extra[d := extra[d].(cookie := None)];
    CookiesUpdate(extra, d, extra[d].(cookie := None));
    assert without[e].cookie == Some(c);
    CookiesAreEntries(without, c);
    assert (Cookies(without) + CookieOf(extra[d]))[c] == Cookies(without)[c] + 1;
  }

  // Where the queue has a cookie: on the chain being filled in, or on a published one.
  datatype Spot = OnFilling | OnChain(k: nat)

  predicate IsOn(w: World, c: nat, spot: Spot) {
    match spot
    case OnFilling => w.q.drv.pc.Filling? && w.q.drv.pc.req.cookie == c
    case OnChain(k) => k < |w.h.chains| == |w.h.stage| && Live(w.h.stage[k]) && w.h.chains[k].req.cookie == c
  }

  /** The descriptor that carries the cookie. */
  lemma SpotHead(w: World, c: nat, spot: Spot) returns (d: nat)
    requires Inv(w) && IsOn(w, c, spot)
    ensures d < |w.q.drv.extra| && w.q.drv.extra[d].cookie == Some(c)
    ensures d < |w.h.owner| && w.h.owner[d] == if spot.OnFilling? then Free else In(spot.k)
  {
    var q, h := w.q, w.h;
    hide AvailOk, UsedOk, HeldOk, LogOk, Wrap, Slot, NotifyOk, PowerOfTwo, CountersOk, ChainOk, ChainsOk, CookieOk;
    if spot.OnFilling? {
      d := q.drv.pc.head;
      FillEntry(q.sh.desc, q.drv.extra, q.drv.pc, h.free);
      FreeEntry(q.n, q.sh.desc, q.drv.headIdx, q.drv.freeCnt, h.free, h.owner, 0);
    } else {
      ChainEntry(q.sh.desc, q.drv.extra, h.owner, h.chains, h.stage, spot.k);
      d := h.chains[spot.k].descs[0];
      FreeBounds(q.n, q.sh.desc, q.drv.headIdx, q.drv.freeCnt, h.free, h.owner);
    }
  }

  /** A cookie the queue holds once is on exactly one chain. */
  lemma OneSpot(w: World, c: nat) returns (spot: Spot)
    requires Inv(w) && Holds(w)[c] == 1
    ensures IsOn(w, c, spot) && forall s :: IsOn(w, c, s) ==> s == spot
  {
    hide Inv, Cookies;
    HeldIsLive(w, c);
    ChainsHaveStages(w);
    if w.q.drv.pc.Filling? && w.q.drv.pc.req.cookie == c {
      spot := OnFilling;
    } else {
      var k :| 0 <= k < |w.h.chains| && k < |w.h.stage| && Live(w.h.stage[k]) && w.h.chains[k].req.cookie == c;
      spot := OnChain(k);
    }
    var d := SpotHead(w, c, spot);
    forall s | IsOn(w, c, s) ensures s == spot {
      var e := SpotHead(w, c, s);
      if d != e { CookiesTwice(w.q.drv.extra, d, e, c); }
    }
  }

  lemma ChainsHaveStages(w: World)
    requires Inv(w)
    ensures |w.h.chains| == |w.h.stage|
  {}

  /** And one it does not hold is on none. */
  lemma NoSpot(w: World, c: nat, spot: Spot)
    requires Inv(w) && IsOn(w, c, spot)
    ensures Holds(w)[c] > 0
  {
    hide Inv, Cookies;
    var d := SpotHead(w, c, spot);
    CookiesAreEntries(w.q.drv.extra, c);
  }
}
