/** hugetlbfs_morecore: an sbrk-like allocator over huge pages.  The system calls' outcomes are
    parameters of each call. */
module Morecore {
  import opened Options
  import opened Counting
  import opened Bits

  // Outcomes of the system calls of one call: where mmap put the new pages (None: MAP_FAILED),
  // whether the pages could be faulted in, whether munmap succeeded.
  datatype Env = Env(mmap: Option<int>, prefault: bool, munmap: bool)

  datatype Heap = Heap(base: int, top: int, mapsize: int)

  function Length(h: Heap): int { h.top - h.base }

  /** ALIGN: the next multiple of the page size, rounding towards plus infinity as the two's
      complement mask does, also for negative x. */
  function AlignUp(x: int, page: nat): int
    requires page > 0
  {
    (x + page - 1) / page * page
  }

  lemma AlignUpMultiple(x: int, page: nat)
    requires page > 0
    ensures AlignUp(x, page) % page == 0
  {
    var q := (x + page - 1) / page;
    ModUnique(page * q, page, q, 0);
  }

  lemma AlignUpBounds(x: int, page: nat)
    requires page > 0
    ensures x <= AlignUp(x, page) < x + page
  {
    var q, r := (x + page - 1) / page, (x + page - 1) % page;
    assert x + page - 1 == page * q + r;
  }

  lemma AlignUpMonotone(x: int, y: int, page: nat)
    requires page > 0 && x <= y
    ensures AlignUp(x, page) <= AlignUp(y, page)
  {
    hide AlignUp;
    AlignUpBounds(x, page);
    AlignUpBounds(y, page);
    AlignUpMultiple(x, page);
    AlignUpMultiple(y, page);
    if AlignUp(y, page) < AlignUp(x, page) {
      RemaindersDiffer(page, AlignUp(y, page), AlignUp(x, page));
    }
  }

  lemma AlignUpSign(x: int, page: nat)
    requires page > 0
    ensures AlignUp(x, page) > 0 <==> x > 0
  {
    var q, r := (x + page - 1) / page, (x + page - 1) % page;
    assert x + page - 1 == page * q + r;
    MulBounds(page, q);
  }

  /** The only multiple of the page size in [x, x + page). */
  lemma AlignUpUnique(x: int, page: nat, m: int)
    requires page > 0 && m % page == 0 && x <= m < x + page
    ensures m == AlignUp(x, page)
  {
    hide AlignUp;
    AlignUpBounds(x, page);
    AlignUpMultiple(x, page);
    var a := AlignUp(x, page);
    if a < m { RemaindersDiffer(page, a, m); }
    if m < a { RemaindersDiffer(page, m, a); }
  }

  lemma AlignUpTwice(x: int, page: nat)
    requires page > 0
    ensures AlignUp(AlignUp(x, page), page) == AlignUp(x, page) && AlignUp(0, page) == 0
  {
    hide AlignUp;
    AlignUpMultiple(x, page);
    AlignUpUnique(AlignUp(x, page), page, AlignUp(x, page));
    AlignUpUnique(0, page, 0);
  }

  lemma AlignUpShift(x: int, page: nat, m: int)
    requires page > 0 && m % page == 0
    ensures AlignUp(x - m, page) == AlignUp(x, page) - m
  {
    hide AlignUp;
    AlignUpBounds(x, page);
    AlignUpMultiple(x, page);
    var a := AlignUp(x, page);
    assert a - m == page * (a / page - m / page);
    ModUnique(a - m, page, a / page - m / page, 0);
    AlignUpUnique(x - m, page, a - m);
  }

  // ---- ALIGN as the mask on 64-bit words ----

  const WORD: nat := 0x1_0000_0000_0000_0000

  function Signed(w: nat): int { if w < WORD / 2 then w else w - WORD }

  /** ALIGN(x, page): ((x) + (page) - 1) & ~((page) - 1) on longs. */
  function AlignMask(x: int, page: nat): int
    requires page <= WORD
  {
    Signed(And((x + page - 1) % WORD, WORD - page))
  }

  lemma WordIsPower()
    ensures PowerOfTwo(WORD) && PowerOfTwo(WORD / 2)
  {
    PowerUp(0x8000);
    PowerUp(0x8000_0000);
    PowerUp(0x8000_0000_0000);
    PowerUp(0x8000_0000_0000_0000);
  }

  lemma PowerUp(n: nat)
    ensures n == 0x8000 ==> PowerOfTwo(n)
    ensures n % 0x1_0000 == 0 && PowerOfTwo(n / 0x1_0000) ==> PowerOfTwo(n)
    ensures PowerOfTwo(n) ==> PowerOfTwo(2 * n)
  {
    assert PowerOfTwo(8);
    assert PowerOfTwo(0x80);
    assert PowerOfTwo(0x800);
    assert PowerOfTwo(0x8000);
    assert (2 * n) / 2 == n;
    if n % 0x1_0000 == 0 && PowerOfTwo(n / 0x1_0000) {
      Four(n / 0x1_0000);
      Four(n / 0x1000);
      Four(n / 0x100);
      Four(n / 0x10);
    }
  }

  lemma Four(n: nat)
    ensures PowerOfTwo(n) ==> PowerOfTwo(16 * n)
  {
    assert (2 * n) / 2 == n && (4 * n) / 2 == 2 * n && (8 * n) / 2 == 4 * n && (16 * n) / 2 == 8 * n;
    if PowerOfTwo(n) {
      assert PowerOfTwo(2 * n);
      assert PowerOfTwo(4 * n);
      assert PowerOfTwo(8 * n);
    }
  }

  /** For huge page sizes and lengths that fit a long, the mask is the rounding. */
  lemma AlignIsMask(x: int, page: nat)
    requires PowerOfTwo(page) && page <= WORD / 2 && 0 - WORD / 2 <= x && x + page - 1 < WORD / 2
    ensures page > 0 && AlignMask(x, page) == AlignUp(x, page)
  {
    hide And, PowerOfTwo;
    WordIsPower();
    PositivePower(page);
    var y := x + page - 1;
    ClearLow(y % WORD, page, WORD);
    SmallerPowerDivides(page, WORD);
    SmallerPowerDivides(page, WORD / 2);
    RemainderOfWord(y, page);
    FloorAbove(y, page, 0 - WORD / 2, 0 - (WORD / 2) / page);
    if y >= 0 { FloorAbove(y, page, 0, 0); }
    SignedFloor(y, y - y % page);
    RoundsDown(x, page);
    hide AlignUp;
  }

  lemma RoundsDown(x: int, p: nat)
    requires p > 0
    ensures AlignUp(x, p) == (x + p - 1) - (x + p - 1) % p
  {
    var y := x + p - 1;
    assert y == p * (y / p) + y % p;
  }

  lemma RemainderOfWord(y: int, page: nat)
    requires page > 0 && WORD % page == 0 && 0 - WORD / 2 <= y < WORD / 2
    ensures y % WORD == (if y < 0 then y + WORD else y) && (y % WORD) % page == y % page
  {
    if y < 0 {
      var k := WORD / page;
      assert WORD == page * k;
      ModAddMultiple(y, page, k);
    }
  }

  /** A multiple just below y is told by its word. */
  lemma SignedFloor(y: int, m: int)
    requires 0 - WORD / 2 <= m <= y < WORD / 2 && (y >= 0 ==> m >= 0)
    ensures Signed(if y < 0 then m + WORD else m) == m
  {}

  lemma PositivePower(n: nat)
    requires PowerOfTwo(n)
    ensures n > 0
  {}

  /** Rounding down does not pass a multiple. */
  lemma FloorAbove(y: int, p: nat, m: int, k: int)
    requires p > 0 && m == p * k && m <= y
    ensures y - y % p >= m
  {
    var q := y / p;
    assert y == p * q + y % p;
    MulBounds(p, q - k);
    assert p * (q - k) == p * q - p * k;
  }

  /** The heap invariant: the mapping is the heap's length rounded up to a huge page. */
  predicate HeapOk(h: Heap, page: nat) {
    page > 0 && 0 <= Length(h) && h.mapsize == AlignUp(Length(h), page)
  }

  /** What every call keeps, also after a munmap has failed: whole pages mapped, and an empty heap when
      there are none. */
  predicate Tracked(h: Heap, page: nat) {
    page > 0 && 0 <= h.mapsize && h.mapsize % page == 0 && (h.mapsize == 0 ==> Length(h) == 0)
  }

  /** What one call means, told by the wanted length instead of the code's delta. */
  predicate Call(page: nat, shrinkOk: bool, h: Heap, increment: int, env: Env, h': Heap, result: Option<int>)
    requires page > 0
  {
    var wanted := Length(h) + increment;
    if AlignUp(wanted, page) > h.mapsize then
      var refused := env.mmap == None || !env.prefault || (h.mapsize != 0 && env.mmap.value != h.base + h.mapsize);
      if refused then
        // An empty heap has already moved to where the refused pages were.
        result == None && h' == if h.mapsize == 0 && env.mmap.Some? then Heap(env.mmap.value, env.mmap.value, 0) else h
      else
        var base := if h.mapsize == 0 then env.mmap.value else h.base;
        && h' == Heap(base, base + wanted, AlignUp(wanted, page))
        && result == Some(base + Length(h))
    else if AlignUp(wanted, page) < h.mapsize then
      if !shrinkOk || h.mapsize == 0 then h' == h && result == None
      else
        var keep := if AlignUp(wanted, page) < 0 then 0 else AlignUp(wanted, page);
        && result == Some(h.top)
        && (if env.munmap then h' == Heap(h.base, h.base + keep, keep)
            else h' == h.(top := if AlignUp(wanted, page) < 0 then h.base else h.base + wanted))
    else
      h' == h.(top := if increment < 0 then h.top else h.top + increment) && result == Some(h.top)
  }

  // ---- The code ----

  class Allocator {
    const page: nat
    const shrinkOk: bool
    var heapbase: int
    var heaptop: int
    var mapsize: int

    ghost function View(): Heap reads this { Heap(heapbase, heaptop, mapsize) }

    ghost predicate Valid() reads this { Tracked(View(), page) }

    constructor (page: nat, shrinkOk: bool, heapaddr: int)
      requires page > 0
      ensures Valid() && HeapOk(View(), page)
      ensures View() == Heap(heapaddr, heapaddr, 0) && this.page == page && this.shrinkOk == shrinkOk
    {
      this.page, this.shrinkOk := page, shrinkOk;
      heapbase, heaptop, mapsize := heapaddr, heapaddr, 0;
      AlignUpUnique(0, page, 0);
    }

    method Morecore(request: int, env: Env) returns (result: Option<int>)
      requires Valid()
      modifies this
      ensures Call(page, shrinkOk, old(View()), request, env, View(), result) && Valid()
    {
      var increment := request;
      var delta := (heaptop - heapbase) + increment - mapsize;
      AlignUpMultiple(Length(View()) + increment, page);
      AlignUpShift((heaptop - heapbase) + increment, page, mapsize);
      delta := AlignUp(delta, page);
      hide AlignUp;
      if delta > 0 {
        if env.mmap == None {
          return None;
        }
        var p := env.mmap.value;
        if mapsize == 0 {
          heapbase, heaptop := p, p;
        } else if p != heapbase + mapsize {
          return None;
        }
        if !env.prefault {
          return None;
        }
        mapsize := mapsize + delta;
      } else if delta < 0 {
        if !shrinkOk {
          return None;
        }
        if mapsize == 0 {
          return None;
        }
        if mapsize + delta < 0 {
          delta := -mapsize;
          increment := heapbase - heaptop;
        }
        if env.munmap {
          mapsize := mapsize + delta;
          increment := heapbase - heaptop + mapsize;
        }
      } else if increment < 0 {
        increment := 0;
      }
      result := Some(heaptop);
      heaptop := heaptop + increment;
    }
  }

  // ---- Every run ----

  predicate InRange(x: int, lo: int, hi: int) { lo <= x < hi }

  /** The bytes handed out since they were mapped, after a call: what is still mapped of the
      earlier ones, and everything between the base and the new top. */
  ghost function HandedOut(h: Heap, handed: iset<int>, h': Heap): iset<int> {
    iset x: int | InRange(x, h'.base, h'.base + h'.mapsize) &&
                  ((x in handed && InRange(x, h.base, h.base + h.mapsize)) || InRange(x, h'.base, h'.top))
  }

  datatype Event = Event(increment: int, env: Env, result: Option<int>)

  predicate IsRun(page: nat, shrinkOk: bool, heaps: seq<Heap>, events: seq<Event>) {
    && page > 0 && |heaps| == |events| + 1
    && heaps[0].top == heaps[0].base && heaps[0].mapsize == 0
    && forall i :: 0 <= i < |events| ==>
         Call(page, shrinkOk, heaps[i], events[i].increment, events[i].env, heaps[i + 1], events[i].result)
  }

  ghost function HandedAt(heaps: seq<Heap>, i: nat): iset<int>
    requires i < |heaps|
  {
    if i == 0 then iset{} else HandedOut(heaps[i - 1], HandedAt(heaps, i - 1), heaps[i])
  }

  /** Exactly when a call keeps the heap invariant: always, unless munmap fails while shrinking
      by at least a page. */
  predicate LosesTrack(page: nat, shrinkOk: bool, h: Heap, increment: int, env: Env)
    requires page > 0
  {
    AlignUp(Length(h) + increment, page) < h.mapsize && shrinkOk && h.mapsize != 0 && !env.munmap
  }

  lemma CallKeeps(page: nat, shrinkOk: bool, h: Heap, increment: int, env: Env, h': Heap, result: Option<int>)
    requires HeapOk(h, page) && Call(page, shrinkOk, h, increment, env, h', result)
    ensures HeapOk(h', page) <==> !LosesTrack(page, shrinkOk, h, increment, env)
  {
    hide AlignUp;
    var wanted := Length(h) + increment;
    AlignUpBounds(Length(h), page);
    AlignUpBounds(wanted, page);
    AlignUpTwice(wanted, page);
    AlignUpSign(wanted, page);
  }

  /** No byte at or above the top has been handed out since it was mapped. */
  ghost predicate Clean(h: Heap, handed: iset<int>) {
    forall x: int :: x in handed ==> InRange(x, h.base, h.top)
  }

  /** Everything below the top has been. */
  ghost predicate Used(h: Heap, handed: iset<int>) {
    forall x: int :: InRange(x, h.base, h.top) ==> x in handed
  }

  /** A call leaves handed-out bytes at or above the top exactly if it loses track. */
  lemma CallKeepsClean(page: nat, shrinkOk: bool, h: Heap, increment: int, env: Env, h': Heap, result: Option<int>,
                       handed: iset<int>)
    requires HeapOk(h, page) && Clean(h, handed) && Used(h, handed) && Call(page, shrinkOk, h, increment, env, h', result)
    ensures Clean(h', HandedOut(h, handed, h')) <==> !LosesTrack(page, shrinkOk, h, increment, env)
    ensures !LosesTrack(page, shrinkOk, h, increment, env) ==> Used(h', HandedOut(h, handed, h'))
  {
    hide AlignUp;
    AlignUpBounds(Length(h) + increment, page);
    AlignUpSign(Length(h) + increment, page);
    AlignUpBounds(Length(h), page);
    if increment <= 0 { AlignUpMonotone(Length(h) + increment, Length(h), page); }
    if LosesTrack(page, shrinkOk, h, increment, env) {
      if increment >= 0 { AlignUpMonotone(Length(h), Length(h) + increment, page); }
      AlignUpSign(Length(h), page);
      assert h.top - 1 in handed;
      assert h.top - 1 in HandedOut(h, handed, h');
    }
  }

  /** None of the first n calls loses track. */
  predicate NoLostTrack(page: nat, shrinkOk: bool, heaps: seq<Heap>, events: seq<Event>, n: nat)
    requires page > 0 && |heaps| > |events| >= n
  {
    forall i :: 0 <= i < n ==> !LosesTrack(page, shrinkOk, heaps[i], events[i].increment, events[i].env)
  }

  /** Up to the first munmap that fails while the heap shrinks, the mapping is the heap's length
      rounded up to a huge page, and the mapped bytes handed out since they were mapped are those
      below the top. */
  lemma {:induction false} RunKeeps(page: nat, shrinkOk: bool, heaps: seq<Heap>, events: seq<Event>, i: nat)
    requires IsRun(page, shrinkOk, heaps, events) && i <= |events| && NoLostTrack(page, shrinkOk, heaps, events, i)
    ensures HeapOk(heaps[i], page) && Clean(heaps[i], HandedAt(heaps, i)) && Used(heaps[i], HandedAt(heaps, i))
  {
    if i == 0 {
      AlignUpUnique(0, page, 0);
    } else {
      RunKeeps(page, shrinkOk, heaps, events, i - 1);
      var e := events[i - 1];
      assert Call(page, shrinkOk, heaps[i - 1], e.increment, e.env, heaps[i - 1 + 1], e.result);
      hide Call, LosesTrack, Clean, Used, HeapOk, HandedOut;
      CallKeeps(page, shrinkOk, heaps[i - 1], e.increment, e.env, heaps[i], e.result);
      CallKeepsClean(page, shrinkOk, heaps[i - 1], e.increment, e.env, heaps[i], e.result, HandedAt(heaps, i - 1));
    }
  }

  /** And that call breaks both: the first failed munmap is where the promise of fresh memory ends. */
  lemma CleanExactly(page: nat, shrinkOk: bool, heaps: seq<Heap>, events: seq<Event>, i: nat)
    requires IsRun(page, shrinkOk, heaps, events) && i < |events| && NoLostTrack(page, shrinkOk, heaps, events, i)
    ensures Clean(heaps[i + 1], HandedAt(heaps, i + 1)) <==>
            !LosesTrack(page, shrinkOk, heaps[i], events[i].increment, events[i].env)
    ensures HeapOk(heaps[i + 1], page) <==> !LosesTrack(page, shrinkOk, heaps[i], events[i].increment, events[i].env)
  {
    RunKeeps(page, shrinkOk, heaps, events, i);
    var e := events[i];
    assert Call(page, shrinkOk, heaps[i], e.increment, e.env, heaps[i + 1], e.result);
    hide Call, LosesTrack, Clean, Used, HeapOk, HandedOut;
    CallKeeps(page, shrinkOk, heaps[i], e.increment, e.env, heaps[i + 1], e.result);
    CallKeepsClean(page, shrinkOk, heaps[i], e.increment, e.env, heaps[i + 1], e.result, HandedAt(heaps, i));
  }

  /** What malloc relies on: the block a successful growth hands out lies inside the mapping, and none
      of its bytes was handed out since it was mapped -- so they are still zero.  It continues the heap
      at the previous top exactly if something was mapped, or mmap put the first pages at the old base. */
  lemma GrowthIsFresh(page: nat, shrinkOk: bool, heaps: seq<Heap>, events: seq<Event>, i: nat, x: int)
    requires IsRun(page, shrinkOk, heaps, events) && i < |events| && NoLostTrack(page, shrinkOk, heaps, events, i)
    requires events[i].increment > 0 && events[i].result.Some?
    ensures events[i].result.value == heaps[i].top <==> heaps[i].mapsize != 0 || events[i].env.mmap == Some(heaps[i].base)
    ensures heaps[i].mapsize != 0 ==> heaps[i + 1].base == heaps[i].base
    ensures heaps[i + 1].top == events[i].result.value + events[i].increment <= heaps[i + 1].base + heaps[i + 1].mapsize
    ensures events[i].result.value <= x < heaps[i + 1].top ==> x !in HandedAt(heaps, i)
  {
    hide AlignUp;
    var h, e, h' := heaps[i], events[i], heaps[i + 1];
    RunKeeps(page, shrinkOk, heaps, events, i);
    assert Call(page, shrinkOk, h, e.increment, e.env, h', e.result);
    AlignUpBounds(Length(h), page);
    AlignUpBounds(Length(h) + e.increment, page);
    AlignUpSign(Length(h) + e.increment, page);
    AlignUpMonotone(Length(h), Length(h) + e.increment, page);
  }

  // ---- What a caller gets ----

  /** A call is refused exactly if it needs more pages than are mapped and they cannot be had next to
      the heap, or if it would give back at least a page and may not or has none. */
  predicate Refused(page: nat, shrinkOk: bool, h: Heap, wanted: int, env: Env) {
    || (wanted > h.mapsize && !(env.mmap.Some? && env.prefault && (h.mapsize == 0 || env.mmap.value == h.base + h.mapsize)))
    || (wanted <= h.mapsize - page && (!shrinkOk || h.mapsize == 0))
  }

  lemma MoreOrFewerPages(h: Heap, wanted: int, page: nat)
    requires HeapOk(h, page)
    ensures AlignUp(wanted, page) > h.mapsize <==> wanted > h.mapsize
    ensures AlignUp(wanted, page) < h.mapsize <==> wanted <= h.mapsize - page
    ensures AlignUp(wanted, page) < h.mapsize ==> AlignUp(wanted, page) <= h.mapsize - page
    ensures AlignUp(wanted, page) < 0 <==> wanted <= 0 - page
  {
    hide AlignUp;
    AlignUpBounds(wanted, page);
    AlignUpMultiple(wanted, page);
    AlignUpMultiple(Length(h), page);
    var a := AlignUp(wanted, page);
    if a > h.mapsize && wanted <= h.mapsize { RemaindersDiffer(page, h.mapsize, a); }
    if a < h.mapsize && a > h.mapsize - page { RemaindersDiffer(page, a, h.mapsize); }
    if 0 - page < a < 0 { RemaindersDiffer(page, a, 0); }
  }

  /** What one call does for its caller: exactly when it is refused; refused, it changes neither length
      nor mapping; granted, it returns the old top (or where the first pages are), leaves the heap at
      least as long as asked for -- exactly so long when it grows, less than a page longer when it shrinks
      and unmaps -- and all of it mapped.  Only when a munmap fails that was to give back everything and
      less than a page more does the top fall below the base. */
  lemma CallGives(page: nat, shrinkOk: bool, h: Heap, increment: int, env: Env, h': Heap, result: Option<int>)
    requires HeapOk(h, page) && Call(page, shrinkOk, h, increment, env, h', result)
    ensures result.None? <==> Refused(page, shrinkOk, h, Length(h) + increment, env)
    ensures result.None? ==> Length(h') == Length(h) && h'.mapsize == h.mapsize && (h.mapsize > 0 ==> h' == h)
    ensures result.Some? ==>
              && result.value == (if h.mapsize == 0 && increment > 0 then env.mmap.value else h.top)
              && (h.mapsize > 0 ==> h'.base == h.base)
              && Length(h') <= h'.mapsize && Length(h) + increment <= Length(h')
              && (increment >= 0 ==> Length(h') == Length(h) + increment)
              && (increment < 0 ==> Length(h') <= Length(h))
              && (Length(h) + increment <= h.mapsize - page && env.munmap && Length(h) + increment >= 0 ==>
                    Length(h') == h'.mapsize < Length(h) + increment + page)
    ensures Length(h') < 0 <==>
              LosesTrack(page, shrinkOk, h, increment, env) && 0 - page < Length(h) + increment < 0
  {
    hide AlignUp;
    var wanted := Length(h) + increment;
    MoreOrFewerPages(h, wanted, page);
    AlignUpBounds(wanted, page);
    AlignUpBounds(Length(h), page);
    AlignUpSign(Length(h), page);
    AlignUpSign(wanted, page);
    if increment <= 0 { AlignUpMonotone(wanted, Length(h), page); } else { AlignUpMonotone(Length(h), wanted, page); }
  }

  /** Over every run, up to and including the first failed munmap: a byte that was handed out and lies
      below the length asked for is still mapped and handed out after the call. */
  lemma KeepsWhatIsInUse(page: nat, shrinkOk: bool, heaps: seq<Heap>, events: seq<Event>, i: nat, x: int)
    requires IsRun(page, shrinkOk, heaps, events) && i < |events| && NoLostTrack(page, shrinkOk, heaps, events, i)
    requires x in HandedAt(heaps, i) && x < heaps[i].base + Length(heaps[i]) + events[i].increment
    ensures x in HandedAt(heaps, i + 1) && InRange(x, heaps[i + 1].base, heaps[i + 1].base + heaps[i + 1].mapsize)
  {
    hide Call, AlignUp;
    RunKeeps(page, shrinkOk, heaps, events, i);
    var h, e, h' := heaps[i], events[i], heaps[i + 1];
    assert Call(page, shrinkOk, h, e.increment, e.env, h', e.result);
    AlignUpBounds(Length(h), page);
    AlignUpSign(Length(h), page);
    CallGives(page, shrinkOk, h, e.increment, e.env, h', e.result);
  }

  /** A heap that has shrunk to nothing can move: grown by a page at 0, given back, and grown again with
      mmap answering another address, the growth does not return the previous top. */
  lemma RegrowthCanMove(page: nat)
    requires page > 0
    ensures exists heaps: seq<Heap>, events: seq<Event> ::
              && IsRun(page, true, heaps, events) && |events| == 3 && NoLostTrack(page, true, heaps, events, 3)
              && events[2].increment > 0 && events[2].result.Some? && events[2].result.value != heaps[2].top
  {
    hide AlignUp, Call;
    var h0, h1, h3 := Heap(0, 0, 0), Heap(0, page, page), Heap(page, 2 * page, page);
    var grow := Event(page, Env(Some(0), true, true), Some(0));
    var shrink := Event(0 - page, Env(None, true, true), Some(page));
    var again := Event(page, Env(Some(page), true, true), Some(page));
    var heaps, events := [h0, h1, h0, h3], [grow, shrink, again];
    GrowByPage(page, 0);
    GrowByPage(page, page);
    ShrinkByPage(page, true);
    assert IsRun(page, true, heaps, events);
  }

  /** A failed munmap breaks the promise: after growing by a page, handing out its bytes and
      failing to unmap it, the page is above the top and not clean. */
  lemma FailedUnmapIsDirty(page: nat)
    requires page > 0
    ensures exists heaps: seq<Heap>, events: seq<Event> ::
              && IsRun(page, true, heaps, events) && |events| == 2
              && !Clean(heaps[2], HandedAt(heaps, 2)) && heaps[2].mapsize == page && Length(heaps[2]) == 0
  {
    hide AlignUp, Call, HandedOut, HandedAt;
    var h0, h1, h2 := Heap(0, 0, 0), Heap(0, page, page), Heap(0, 0, page);
    var grow := Event(page, Env(Some(0), true, true), Some(0));
    var shrink := Event(0 - page, Env(None, true, false), Some(page));
    var heaps, events := [h0, h1, h2], [grow, shrink];
    GrowByPage(page, 0);
    ShrinkByPage(page, false);
    assert IsRun(page, true, heaps, events);
    HandedNext(heaps, 0, 0);
    HandedNext(heaps, 1, 0);
  }

  /** And the top can end up below the base: after growing by a page, giving back one byte more than that
      with a munmap that fails. */
  lemma TopCanFallBelowBase(page: nat)
    requires page > 1
    ensures exists heaps: seq<Heap>, events: seq<Event> ::
              IsRun(page, true, heaps, events) && |events| == 2 && heaps[2].top < heaps[2].base
  {
    hide AlignUp, Call;
    var h0, h1, h2 := Heap(0, 0, 0), Heap(0, page, page), Heap(0, -1, page);
    var grow := Event(page, Env(Some(0), true, true), Some(0));
    var shrink := Event(0 - page - 1, Env(None, true, false), Some(page));
    GrowByPage(page, 0);
    ShrinkTooFar(page);
    assert IsRun(page, true, [h0, h1, h2], [grow, shrink]);
  }

  lemma ShrinkTooFar(page: nat)
    requires page > 1
    ensures Call(page, true, Heap(0, page, page), 0 - page - 1, Env(None, true, false), Heap(0, -1, page), Some(page))
  {
    hide AlignUp;
    AlignUpBounds(-1, page);
    AlignUpMultiple(-1, page);
    if AlignUp(-1, page) > 0 { RemaindersDiffer(page, 0, AlignUp(-1, page)); }
    if AlignUp(-1, page) < 0 { RemaindersDiffer(page, AlignUp(-1, page), 0); }
  }

  lemma GrowByPage(page: nat, at: int)
    requires page > 0
    ensures Call(page, true, Heap(0, 0, 0), page, Env(Some(at), true, true), Heap(at, at + page, page), Some(at))
  {
    hide AlignUp, Call;
    OnePage(page);
    EmptyGrows(page, Heap(0, 0, 0), page, at, page);
  }

  /** The first growth of an empty heap. */
  lemma EmptyGrows(page: nat, h: Heap, increment: int, at: int, size: int)
    requires page > 0 && h.mapsize == 0 && Length(h) == 0 && AlignUp(increment, page) == size > 0
    ensures Call(page, true, h, increment, Env(Some(at), true, true), Heap(at, at + increment, size), Some(at))
  {
    hide AlignUp;
    assert Length(h) + increment == increment;
  }

  lemma OnePage(page: nat)
    requires page > 0
    ensures AlignUp(page, page) == page && AlignUp(0, page) == 0
  {
    hide AlignUp;
    ModUnique(page, page, 1, 0);
    AlignUpUnique(page, page, page);
    AlignUpUnique(0, page, 0);
  }

  lemma ShrinkByPage(page: nat, unmapped: bool)
    requires page > 0
    ensures Call(page, true, Heap(0, page, page), 0 - page, Env(None, true, unmapped),
                 Heap(0, 0, if unmapped then 0 else page), Some(page))
  {
    hide AlignUp;
    OnePage(page);
  }

  /** A byte below the new top, or handed out before and still mapped, is handed out after the call. */
  lemma HandedNext(heaps: seq<Heap>, i: nat, x: int)
    requires i + 1 < |heaps| && InRange(x, heaps[i + 1].base, heaps[i + 1].base + heaps[i + 1].mapsize)
    requires InRange(x, heaps[i + 1].base, heaps[i + 1].top) ||
             (x in HandedAt(heaps, i) && InRange(x, heaps[i].base, heaps[i].base + heaps[i].mapsize))
    ensures x in HandedAt(heaps, i + 1)
  {}
}
