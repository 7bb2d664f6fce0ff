/** remoteproc_load as the client of the ELF loader: its header loop and its data loop. */
module RemoteprocLoad {
  import opened Options
  import opened ElfFormat
  import opened ElfLoader

  // ---- Emitting segments ----

  /** The segment counter of the load state has eight bits: a loadable segment at index 255 or later
      leaves it wrong, unless it is the last program header. */
  predicate WithinMask(image: Bytes)
    requires HasPhdrs(image)
  {
    forall i :: 0 <= i < Count(image) && IsLoad(image, i) ==> i < SEGMENTS - 1 || i == Count(image) - 1
  }

  /** The loadable segments a state still has to give out. */
  function Left(image: Bytes, s: LoadState): seq<nat>
    requires HasPhdrs(image)
  {
    if s.At? && s.stage == Ready then Loads(image, s.seg) else []
  }

  lemma FoundIsFirst(image: Bytes, from: nat, found: Option<Segment>, nseg: nat)
    requires HasPhdrs(image) && NextLoad(image, from, found, nseg)
    ensures found.Some? ==> Loads(image, from) == [nseg - 1] + Loads(image, nseg)
    ensures found.None? ==> Loads(image, from) == []
  {
    hide HasPhdrs, IsLoad, Count, SegmentAt;
    if found.Some? {
      LoadsSkip(image, from, nseg - 1 - from);
    } else if from <= Count(image) {
      LoadsSkip(image, from, Count(image) - from);
    }
  }

  /** Within the mask, each call gives out exactly the next loadable segment and strictly moves on;
      the call that finds none, or gives out the last program header, ends the emission. */
  lemma EmitIsNext(image: Bytes, s: LoadState, s': LoadState, da: nat, want: Range, nmemsize: nat)
    requires HasPhdrs(image) && WithinMask(image) && s.At? && s.stage == Ready && EmitStep(image, s, s', da, want, nmemsize)
    requires s.seg <= Count(image)
    ensures s'.At? && s'.phase == s.phase && s'.stage != NotReady
    ensures s'.stage == Complete ==> Left(image, s) == [] && da == ANYADDR && want.len == 0
    ensures s'.stage != Complete ==>
              && Left(image, s) != [] && Left(image, s)[1..] == Left(image, s')
              && Left(image, s)[0] < Count(image)
              && var g := SegmentAt(image, Left(image, s)[0]);
                 da == g.paddr && want == Range(g.offset, g.filesz) && nmemsize == g.memsz
    ensures s'.stage == Ready ==> s.seg < s'.seg < Count(image)
  {
    hide HasPhdrs, IsLoad, Count, SegmentAt;
    var found: Option<Segment>, nseg: nat :| NextLoad(image, s.seg, found, nseg)
      && s' == At(if nseg == Count(image) then if found.Some? then PostData else Complete else Ready, s.phase, nseg % SEGMENTS)
      && match found
         case None => da == ANYADDR && want.len == 0
         case Some(g) => da == g.paddr && want == Range(g.offset, g.filesz) && nmemsize == g.memsz;
    FoundIsFirst(image, s.seg, found, nseg);
  }

  /** Beyond the mask the emission never ends, and gives segments out again: every call leaves the
      loader ready to give out more. */
  lemma {:induction false} EmissionNeverEnds(image: Bytes, states: seq<LoadState>, k: nat)
    requires HasPhdrs(image) && !WithinMask(image) && k < |states|
    requires states[0].At? && states[0].stage == Ready && states[0].seg < SEGMENTS
    requires forall j :: 0 <= j < |states| - 1 ==> states[j].At? && Emits(image, states[j], states[j + 1])
    ensures states[k].At? && states[k].stage == Ready && states[k].seg < SEGMENTS
  {
    if k > 0 {
      EmissionNeverEnds(image, states, k - 1);
      assert Emits(image, states[k - 1], states[k - 1 + 1]);
      EmitsAgain(image, states[k - 1], states[k]);
    }
  }

  ghost predicate Emits(image: Bytes, s: LoadState, s': LoadState)
    requires HasPhdrs(image) && s.At?
  {
    exists da: nat, want: Range, nmemsize: nat :: EmitStep(image, s, s', da, want, nmemsize)
  }

  lemma EmitsAgain(image: Bytes, s: LoadState, s': LoadState)
    requires HasPhdrs(image) && !WithinMask(image) && s.At? && s.stage == Ready && s.seg < SEGMENTS && Emits(image, s, s')
    ensures s'.At? && s'.stage == Ready && s'.seg < SEGMENTS
  {
    hide HasPhdrs, IsLoad, Count, SegmentAt;
    var i :| 0 <= i < Count(image) && IsLoad(image, i) && !(i < SEGMENTS - 1 || i == Count(image) - 1);
    var da: nat, want: Range, nmemsize: nat :| EmitStep(image, s, s', da, want, nmemsize);
  }

  // ---- Images that the loader does not load as the format says ----

  /** A 32-bit image of two program headers of 33 bytes, one more than the structure: the second is
      PT_LOAD, but the loader reads it one byte too early. */
  function WideByte(at: nat): byte {
    if at == 4 then 1            // EI_CLASS
    else if at == 28 then 52     // e_phoff
    else if at == 42 then 33     // e_phentsize
    else if at == 44 then 2      // e_phnum
    else if at == 85 then 1      // p_type of the second entry
    else 0
  }

  function WideImage(): (image: Bytes)
    ensures |image| == 52 + 66
    ensures forall at :: 0 <= at < |image| ==> image[at] == WideByte(at)
  {
    seq(52 + 66, at requires 0 <= at => WideByte(at))
  }

  lemma WideEntriesAreMisread()
    ensures var image := WideImage();
            && HasPhdrs(image) && Count(image) == 2
            && FormatSegment(image, 1).ptype == PT_LOAD && !IsLoad(image, 1) && Loads(image, 0) == []
  {
    hide Le, WideImage;
    var image := WideImage();
    var h := Header(image);
    assert |h| == 52 && forall at :: 0 <= at < 52 ==> h[at] == WideByte(at);
    Le4(h, 28);
    Le2(h, 42);
    Le2(h, 44);
    Le2(h, 46);
    Le2(h, 48);
    Le4(image, 52);
    Le4(image, 84);
    Le4(image, 85);
    assert !IsLoad(image, 0) && !IsLoad(image, 1);
    LoadsSkip(image, 0, 2);
  }

  /** A 64-bit image of two program headers, both PT_LOAD and without bytes in the file, the first at
      the address RPROC_LOAD_ANYADDR: the data loop takes it for the end and writes neither. */
  function AnywhereByte(at: nat): byte {
    if at == 4 then 2                       // EI_CLASS
    else if at == 32 then 64                // e_phoff
    else if at == 54 then 56                // e_phentsize
    else if at == 56 then 2                 // e_phnum
    else if at == 64 || at == 120 then 1    // p_type
    else if 88 <= at < 96 then 255          // p_paddr of the first entry
    else 0
  }

  function AnywhereImage(): (image: Bytes)
    ensures |image| == 64 + 112
    ensures forall at :: 0 <= at < |image| ==> image[at] == AnywhereByte(at)
  {
    seq(64 + 112, at requires 0 <= at => AnywhereByte(at))
  }

  lemma LeOnes(b: Bytes, at: nat)
    requires at + 8 <= |b| && forall i :: at <= i < at + 8 ==> b[i] == 255
    ensures Le(b, at, 8) == ANYADDR
  {
    assert Le(b, at + 8, 0) == 0;
    assert Le(b, at + 7, 1) == 0xFF;
    assert Le(b, at + 6, 2) == 0xFFFF;
    assert Le(b, at + 5, 3) == 0xFF_FFFF;
    assert Le(b, at + 4, 4) == 0xFFFF_FFFF;
    assert Le(b, at + 3, 5) == 0xFF_FFFF_FFFF;
    assert Le(b, at + 2, 6) == 0xFFFF_FFFF_FFFF;
    assert Le(b, at + 1, 7) == 0xFF_FFFF_FFFF_FFFF;
  }

  lemma LeZeros(b: Bytes, at: nat, n: nat)
    requires at + n <= |b| && forall i :: at <= i < at + n ==> b[i] == 0
    ensures Le(b, at, n) == 0
    decreases n
  {
    if n > 0 { LeZeros(b, at + 1, n - 1); }
  }

  lemma AnywhereHeader()
    ensures var image := AnywhereImage();
            && HasPhdrs(image) && Is64(Header(image)) && Phoff(Header(image)) == 64 && Count(image) == 2
  {
    hide Le, AnywhereImage;
    var image := AnywhereImage();
    var h := Header(image);
    assert |h| == 64 && forall at :: 0 <= at < 64 ==> h[at] == AnywhereByte(at);
    Le4(h, 32);
    LeZeros(h, 36, 4);
    Le8(h, 32);
    Le2(h, 54);
    Le2(h, 56);
    Le2(h, 58);
    Le2(h, 60);
  }

  lemma Le8(b: Bytes, at: nat)
    requires at + 8 <= |b| && forall i :: at + 1 <= i < at + 8 ==> b[i] == 0
    ensures Le(b, at, 8) == b[at]
  {
    LeZeros(b, at + 1, 7);
  }

  lemma AnywhereStopsTheLoad()
    ensures var image := AnywhereImage(); HasPhdrs(image) && Loads(image, 0) == [0, 1] && Written(image) == []
  {
    hide Le, AnywhereImage, HasPhdrs, Count;
    var image := AnywhereImage();
    AnywhereHeader();
    Le4(image, 64);
    Le4(image, 120);
    LeOnes(image, 88);
    LeZeros(image, 96, 8);
    assert SegmentAt(image, 0).ptype == PT_LOAD && SegmentAt(image, 1).ptype == PT_LOAD;
    assert SegmentAt(image, 0).paddr == ANYADDR && SegmentAt(image, 0).filesz == 0;
    hide SegmentAt;
    assert Loads(image, 2) == [];
    assert Loads(image, 1) == [1];
    assert Loads(image, 0) == [0, 1];
  }

  // ---- An image beyond the mask ----

  const HEADERS: nat := 257

  /** A 32-bit image of 257 program headers, all of them PT_LOAD and empty, and no sections. */
  function CrowdedByte(at: nat): byte {
    if at == 4 then 1                     // EI_CLASS
    else if at == 28 then 52              // e_phoff
    else if at == 42 then 32              // e_phentsize
    else if at == 44 || at == 45 then 1   // e_phnum
    else if at == 46 then 40              // e_shentsize
    else if at >= 52 && (at - 52) % 32 == 0 then 1
    else 0
  }

  function CrowdedImage(): (image: Bytes)
    ensures |image| == 52 + HEADERS * 32
    ensures forall at :: 0 <= at < |image| ==> image[at] == CrowdedByte(at)
  {
    seq(52 + HEADERS * 32, at requires 0 <= at => CrowdedByte(at))
  }

  lemma Le2(b: Bytes, at: nat)
    requires at + 2 <= |b|
    ensures Le(b, at, 2) == (b[at] as int) + 256 * (b[at + 1] as int)
  {
    assert Le(b, at + 2, 0) == 0;
    assert Le(b, at + 1, 1) == b[at + 1];
  }

  lemma Le4(b: Bytes, at: nat)
    requires at + 4 <= |b| && b[at + 2] == 0 && b[at + 3] == 0
    ensures Le(b, at, 4) == (b[at] as int) + 256 * (b[at + 1] as int)
  {
    assert Le(b, at + 4, 0) == 0;
    assert Le(b, at + 3, 1) == 0;
    assert Le(b, at + 2, 2) == 0;
    assert Le(b, at + 1, 3) == b[at + 1];
  }

  lemma CrowdedHeader()
    ensures var image := CrowdedImage();
            && HasPhdrs(image) && !Is64(Header(image)) && Phoff(Header(image)) == 52 && Phentsize(Header(image)) == 32
            && Count(image) == HEADERS
  {
    hide Le, CrowdedImage;
    var image := CrowdedImage();
    var h := Header(image);
    assert |h| == 52 && forall at :: 0 <= at < 52 ==> h[at] == CrowdedByte(at);
    Le4(h, 28);
    Le2(h, 42);
    Le2(h, 44);
    Le2(h, 46);
  }

  lemma CrowdedLoads(i: nat)
    requires i < HEADERS && HasPhdrs(CrowdedImage()) && Count(CrowdedImage()) == HEADERS
    ensures IsLoad(CrowdedImage(), i)
  {
    hide Le, CrowdedImage;
    var image := CrowdedImage();
    CrowdedHeader();
    var at := 52 + i * 32;
    EntryInside(HEADERS, 32, i, 32);
    Le4(image, at);
  }

  /** It is outside the mask. */
  lemma CrowdedImageIsOutside()
    ensures HasPhdrs(CrowdedImage()) && !WithinMask(CrowdedImage())
  {
    hide HasPhdrs, IsLoad, Count, CrowdedImage;
    CrowdedHeader();
    CrowdedLoads(255);
  }

  // ---- The header loop ----

  /** All the header tables are in the image. */
  predicate HeadersPresent(image: Bytes) {
    && HasPhdrs(image)
    && (Shnum(Header(image)) == 0 ||
        (Inside(image, ShdrRange(Header(image))) && NamesFound(image) && Inside(image, NameTable(image))))
  }

  function Ahead(last: LoadState): nat { if last.Init? then 4 else 3 - Rank(last.phase) }

  /** What one turn of the header loop finds. */
  lemma Turn(image: Bytes, p0: Phase, stage0: Stage, seg0: nat, w: Window, mem: nat, s: LoadState, ret: Ret, want0: Range, want: Range)
    requires HasEhdr(image) && HeaderStep(image, p0, stage0, seg0, w, mem, s, ret, want0, want) && p0 != HdrsComplete
    requires p0 == WaitShstrtab ==> Shnum(Header(image)) > 0
    ensures ret.Error? ==> mem < 3 || (Stuck(image, WaitShstrtab) && Shnum(Header(image)) > 0)
    ensures ret.State? ==>
              && ret.s == s && s.At? && s.seg == (if p0 == WaitPhdrs then 0 else seg0) && Rank(s.phase) >= Rank(p0)
              && (Covers(w, Wanted(image, p0)) ==> Rank(s.phase) > Rank(p0))
              && s.stage == (if s.phase == WaitPhdrs then NotReady else if p0 == WaitPhdrs then Ready else stage0)
              && (s.phase == HdrsComplete ==> want.len == 0)
              && (Rank(s.phase) == 1 || Rank(s.phase) == 2 ==> Shnum(Header(image)) > 0)
              && (s.phase != HdrsComplete ==> want == Wanted(image, s.phase))
  {
    hide Wanted, NamesFound;
    AnsweredAdvances(image, p0, w);
    EnoughMemory(image, p0, w, mem);
    hide ReachWith, Copies;
  }

  lemma WantedInside(image: Bytes, p: Phase)
    requires HeadersPresent(image) && p != HdrsComplete && (p == WaitShstrtab || p == WaitShdrs ==> Shnum(Header(image)) > 0)
    ensures Inside(image, Wanted(image, p))
  {}

  lemma SameClass(image: Bytes, w: Window)
    requires PartOf(w, image) && w.offset == 0 && |w.data| > EI_CLASS
    ensures EhdrSize(w.data) == EhdrSize(image) && (HeadersPresent(image) ==> EhdrSize(image) <= |image|)
  {}

  lemma NotStuck(image: Bytes)
    requires HeadersPresent(image) && Shnum(Header(image)) > 0
    ensures !Stuck(image, WaitShstrtab)
  {}

  /** Where the header loop stands: the loader's own state, and a window that answers its request. */
  predicate Standing(image: Bytes, w: Window, last: LoadState) {
    && PartOf(w, image)
    && if last.Init? then w.offset == 0 && |w.data| > EI_CLASS
       else
         && HasEhdr(image) && Covers(w, Wanted(image, last.phase)) && last.phase != HdrsComplete && last.seg == 0
         && (last.phase != WaitPhdrs ==> last.stage == Ready && Shnum(Header(image)) > 0)
  }

  /** One call of load_header in the loop. */
  method HeaderTurn(info: ElfInfo, w: Window, last: LoadState, want0: Range, mem: nat, ghost image: Bytes)
    returns (ret: Ret, want: Range)
    requires Indexable(image) && info.Consistent(image) && Standing(image, w, last)
    requires if last.Init? then !info.present else info.present && info.state == last
    modifies info
    ensures info.Consistent(image)
    ensures ret.Error? ==> mem < 4 || !HeadersPresent(image)
    ensures ret.State? && ret.s.Init? ==>
              && !info.present && want == Range(0, EhdrSize(image)) && last.Init? && |w.data| < EhdrSize(image)
              && (HeadersPresent(image) ==> Inside(image, want))
    ensures ret.State? && ret.s.At? ==>
              && info.present && info.state == ret.s && HasEhdr(image) && ret.s.seg == 0
              && Ahead(ret.s) < Ahead(last) && ret.s.stage == (if ret.s.phase == WaitPhdrs then NotReady else Ready)
              && (ret.s.phase == HdrsComplete ==> want.len == 0)
              && (ret.s.phase != HdrsComplete ==> want == Wanted(image, ret.s.phase))
              && (Rank(ret.s.phase) == 1 || Rank(ret.s.phase) == 2 ==> Shnum(Header(image)) > 0)
              && (HeadersPresent(image) && ret.s.phase != HdrsComplete ==> Inside(image, want))
  {
    hide Wanted, NamesFound, HasPhdrs, Saved, Header, EntriesFit, HeaderStep, HeadersPresent, Shnum, Stuck;
    ret, want := info.LoadHeader(w, last, want0, mem, image);
    if last.Init? { SameClass(image, w); }
    if last.At? || (|w.data| >= EhdrSize(w.data) && mem > 0) {
      ghost var p0 := if last.Init? then WaitPhdrs else last.phase;
      Turn(image, p0, if last.Init? then NotReady else last.stage, if last.Init? then 0 else last.seg,
           w, if last.Init? && mem > 0 then mem - 1 else mem, info.state, ret, want0, want);
      if HeadersPresent(image) {
        if ret.Error? && mem >= 4 { NotStuck(image); }
        if ret.State? && ret.s.phase != HdrsComplete { WantedInside(image, ret.s.phase); }
      }
    }
  }

  /** The loop over load_header: `first` is how much of the image the store gave first, `seek`
      whether it can go elsewhere. */
  method LoadHeaders(image: Bytes, first: nat, seek: bool, mem: nat) returns (info: ElfInfo, ok: bool, last: LoadState)
    requires EI_CLASS < first <= |image| && Indexable(image)
    ensures fresh(info) && info.Consistent(image)
    ensures ok ==> info.present && info.state == last && last.At? && last.stage == Ready && last.seg == 0 && HasPhdrs(image)
    ensures ok && seek ==> last.phase == HdrsComplete || (HasEhdr(image) && Wanted(image, last.phase).len == 0)
    ensures mem >= 4 && HeadersPresent(image) ==> ok
  {
    hide Wanted, NamesFound, HasPhdrs, Saved, Header, EntriesFit, HeadersPresent, Shnum;
    info := new ElfInfo();
    var w := Window(0, image[..first]);
    var want := Range(0, 0);
    last := Init;
    while true
      invariant fresh(info) && info.Consistent(image) && Standing(image, w, last)
      invariant if last.Init? then !info.present else info.present && info.state == last
      decreases Ahead(last), if last.Init? && |w.data| < EhdrSize(image) then 1 else 0
    {
      var ret;
      ret, want := HeaderTurn(info, w, last, want, mem, image);
      if ret.Error? { return info, false, last; }
      last := ret.s;
      if last.At? && last.stage == Ready {
        info.TablesSaved(image);
        if want.len == 0 || (want.offset > w.offset + |w.data| && !seek) {
          return info, true, last;
        }
      }
      if !Inside(image, want) { return info, false, last; }
      w := Window(want.offset, Cut(image, want));
    }
  }

  // ---- The data loop ----

  // Bytes written to the target at a device address, and the zeros after them.
  datatype Chunk = Chunk(da: nat, data: Bytes, zeros: nat)

  function ChunkOf(image: Bytes, i: nat): Chunk
    requires HasPhdrs(image) && i < Count(image)
  {
    var g := SegmentAt(image, i);
    Chunk(g.paddr, if Inside(image, Range(g.offset, g.filesz)) then Cut(image, Range(g.offset, g.filesz)) else [],
          if g.memsz > g.filesz then g.memsz - g.filesz else 0)
  }

  /** A chunk is the segment's bytes in the file and then zeros up to its size in memory. */
  lemma ChunkFillsSegment(image: Bytes, i: nat)
    requires HasPhdrs(image) && i < Count(image)
    requires var g := SegmentAt(image, i); g.filesz == 0 || Inside(image, Range(g.offset, g.filesz))
    ensures var g, c := SegmentAt(image, i), ChunkOf(image, i);
            && c.da == g.paddr && |c.data| == g.filesz && (forall j :: 0 <= j < g.filesz ==> c.data[j] == image[g.offset + j])
            && |c.data| + c.zeros == if g.memsz > g.filesz then g.memsz else g.filesz
  {
    hide SegmentAt, HasPhdrs, Count;
  }

  /** Which of the given segments the data loop writes.  An address of RPROC_LOAD_ANYADDR says that there
      is nothing to write: the loop only fetches such a segment's bytes -- and if it has none, takes it
      for the end and stops. */
  function Writes(image: Bytes, segments: seq<nat>): (r: seq<nat>)
    requires HasPhdrs(image)
  {
    if segments == [] || segments[0] >= Count(image) then []
    else
      var g := SegmentAt(image, segments[0]);
      if g.paddr != ANYADDR then [segments[0]] + Writes(image, segments[1..])
      else if g.filesz == 0 then []
      else Writes(image, segments[1..])
  }

  function Written(image: Bytes): seq<nat>
    requires HasPhdrs(image)
  {
    Writes(image, Loads(image, 0))
  }

  /** No loadable segment sits at the address that means "no address". */
  predicate RealAddresses(image: Bytes)
    requires HasPhdrs(image)
  {
    forall i :: 0 <= i < Count(image) && IsLoad(image, i) ==> SegmentAt(image, i).paddr != ANYADDR
  }

  lemma {:induction false} WritesAllOf(image: Bytes, segments: seq<nat>)
    requires HasPhdrs(image) && forall k :: 0 <= k < |segments| ==> segments[k] < Count(image)
    ensures |Writes(image, segments)| <= |segments|
    ensures Writes(image, segments) == segments <==>
            forall k :: 0 <= k < |segments| ==> SegmentAt(image, segments[k]).paddr != ANYADDR
  {
    hide HasPhdrs, Count, SegmentAt;
    if segments != [] {
      var rest := segments[1..];
      WritesAllOf(image, rest);
      assert forall k :: 0 < k < |segments| ==> segments[k] == rest[k - 1];
      assert segments == [segments[0]] + rest;
    }
  }

  /** All loadable segments are written exactly if all have real addresses. */
  lemma WrittenIsAll(image: Bytes)
    requires HasPhdrs(image)
    ensures Written(image) == Loads(image, 0) <==> RealAddresses(image)
  {
    hide HasPhdrs, Count, SegmentAt, Loads, Writes, IsLoad;
    LoadsAreAll(image, 0);
    WritesAllOf(image, Loads(image, 0));
    var loads := Loads(image, 0);
    if RealAddresses(image) {
      forall k | 0 <= k < |loads| ensures SegmentAt(image, loads[k]).paddr != ANYADDR { assert IsLoad(image, loads[k]); }
    }
    if forall k :: 0 <= k < |loads| ==> SegmentAt(image, loads[k]).paddr != ANYADDR {
      forall i | 0 <= i < Count(image) && IsLoad(image, i) ensures SegmentAt(image, i).paddr != ANYADDR {
        assert i in loads;
      }
    }
  }

  /** Every loadable segment has its bytes in the image and its address, if it has one, mapped. */
  predicate Loadable(image: Bytes, mapped: nat -> bool)
    requires HasPhdrs(image)
  {
    forall i :: 0 <= i < Count(image) && IsLoad(image, i) ==>
      var g := SegmentAt(image, i);
      (g.paddr != ANYADDR ==> mapped(g.paddr)) && (g.filesz > 0 ==> Inside(image, Range(g.offset, g.filesz)))
  }

  /** The chunks are those of the first segments to be written. */
  predicate Prefix(image: Bytes, chunks: seq<Chunk>)
    requires HasPhdrs(image)
  {
    && |chunks| <= |Written(image)|
    && forall k :: 0 <= k < |chunks| ==> Written(image)[k] < Count(image) && chunks[k] == ChunkOf(image, Written(image)[k])
  }

  /** And the state has the others left. */
  predicate Sofar(image: Bytes, chunks: seq<Chunk>, s: LoadState)
    requires HasPhdrs(image)
  {
    Prefix(image, chunks) && Written(image)[|chunks|..] == Writes(image, Left(image, s))
  }

  lemma LeftAreLoads(image: Bytes, s: LoadState)
    requires HasPhdrs(image) && Left(image, s) != []
    ensures Left(image, s)[0] < Count(image) && IsLoad(image, Left(image, s)[0])
  {
    hide HasPhdrs, Count, SegmentAt, Loads, IsLoad;
    LoadsAreAll(image, s.seg);
  }

  /** The next segment given out, in the three ways the loop can take it. */
  lemma OneMore(image: Bytes, chunks: seq<Chunk>, s: LoadState, s': LoadState)
    requires HasPhdrs(image) && Sofar(image, chunks, s) && Left(image, s) != [] && Left(image, s)[1..] == Left(image, s')
    requires Left(image, s)[0] < Count(image)
    ensures var g := SegmentAt(image, Left(image, s)[0]);
            if g.paddr != ANYADDR then Sofar(image, chunks + [ChunkOf(image, Left(image, s)[0])], s')
            else if g.filesz == 0 then |chunks| == |Written(image)|
            else Sofar(image, chunks, s')
  {
    hide HasPhdrs, Count, SegmentAt, ChunkOf, Loads, Left, Written;
    var left := Left(image, s);
    var rest := Written(image)[|chunks|..];
    if SegmentAt(image, left[0]).paddr != ANYADDR {
      assert rest == [left[0]] + Writes(image, Left(image, s'));
      assert rest[0] == Written(image)[|chunks|] && rest[1..] == Written(image)[|chunks| + 1..];
    }
  }

  /** One call after the last segment. */
  lemma FinishTurn(image: Bytes, s: LoadState, w: Window, mem: nat, s': LoadState, ret: Ret, want: Range)
    requires HasEhdr(image) && s.At? && FinishStep(image, s, w, mem, s', ret, want)
    requires s.phase == WaitShstrtab ==> Shnum(Header(image)) > 0
    ensures ret.Error? ==> mem < 4 || (Stuck(image, WaitShstrtab) && Shnum(Header(image)) > 0 && s.phase != HdrsComplete)
    ensures ret.State? ==>
              && ret.s == s' && s'.At? && s'.seg == s.seg
              && ((s'.stage == Complete && s'.phase == HdrsComplete && want.len == 0) ||
                  (s'.stage == PostData && s'.phase != HdrsComplete && want == Wanted(image, s'.phase)
                   && Rank(s'.phase) >= Rank(s.phase) && (Covers(w, Wanted(image, s.phase)) ==> Rank(s'.phase) > Rank(s.phase))
                   && (s'.phase == WaitShstrtab ==> Shnum(Header(image)) > 0)))
  {
    hide Wanted, NamesFound;
    AnsweredAdvances(image, s.phase, w);
    EnoughMemory(image, s.phase, w, mem);
    hide ReachWith, Copies;
  }

  /** The loop over load_data: what it writes to the target is, for every image, the segments Written
      says in header order, each once; all of them when it succeeds. */
  method LoadData(info: ElfInfo, image: Bytes, state0: LoadState, mapped: nat -> bool, mem: nat)
    returns (ok: bool, chunks: seq<Chunk>)
    requires info.present && info.Consistent(image) && info.state == state0
    requires state0.At? && state0.stage == Ready && state0.seg == 0
    requires HasPhdrs(image) && WithinMask(image)
    modifies info
    ensures info.Consistent(image)
    ensures |chunks| <= |Written(image)|
    ensures forall k :: 0 <= k < |chunks| ==> Written(image)[k] < Count(image) && chunks[k] == ChunkOf(image, Written(image)[k])
    ensures ok ==> |chunks| == |Written(image)|
    ensures mem >= 4 && Loadable(image, mapped) && (state0.phase == HdrsComplete || HeadersPresent(image)) ==> ok
  {
    hide HasPhdrs, Sofar, Prefix, WithinMask, Loadable, Written, Count, ChunkOf, HeadersPresent, Turns, Left;
    var w, last, more := Window(0, []), state0, true;
    ok, chunks := true, [];
    SofarNone(image, state0);
    SofarFacts(image, [], state0);
    DataStart(info, image);
    while more
      invariant DataOk(image, w, last, chunks, more) && info.Consistent(image) && info.present
      invariant more ==> info.state == last && ok
      invariant state0.phase == HdrsComplete && more ==> last.phase == HdrsComplete
      invariant mem >= 4 && Loadable(image, mapped) && (state0.phase == HdrsComplete || HeadersPresent(image)) ==> ok
      invariant !more && ok ==> |chunks| == |Written(image)|
      decreases more, if more then Turns(image, w, last) else 0
    {
      more, ok, w, last, chunks := DataStep(info, image, w, last, chunks, mapped, mem);
    }
    PrefixEntries(image, chunks);
  }

  /** Where the data loop stands. */
  predicate DataOk(image: Bytes, w: Window, last: LoadState, chunks: seq<Chunk>, more: bool)
    requires HasPhdrs(image)
  {
    && Prefix(image, chunks)
    && (more ==>
          && last.At? && Sofar(image, chunks, last)
          && PartOf(w, image) && (last.stage == Ready || last.stage == PostData)
          && (last.stage == Ready ==> last.seg <= Count(image))
          && (last.phase == WaitShstrtab ==> Shnum(Header(image)) > 0))
  }

  lemma DataStart(info: ElfInfo, image: Bytes)
    requires info.present && info.Consistent(image) && info.state.stage == Ready
    ensures HasPhdrs(image) && Indexable(image) && PartOf(Window(0, []), image)
    ensures info.state.phase == WaitShstrtab ==> Shnum(Header(image)) > 0
  {
    info.TablesSaved(image);
  }

  /** One turn of the data loop. */
  method DataStep(info: ElfInfo, image: Bytes, w0: Window, last0: LoadState, chunks0: seq<Chunk>, mapped: nat -> bool, mem: nat)
    returns (more: bool, ok: bool, w: Window, last: LoadState, chunks: seq<Chunk>)
    requires info.present && info.Consistent(image) && info.state == last0 && Indexable(image)
    requires HasPhdrs(image) && WithinMask(image) && DataOk(image, w0, last0, chunks0, true)
    modifies info
    ensures info.present && info.Consistent(image) && DataOk(image, w, last, chunks, more)
    ensures more ==> info.state == last && ok && Turns(image, w, last) < Turns(image, w0, last0)
    ensures more && last0.phase == HdrsComplete ==> last.phase == HdrsComplete
    ensures mem >= 4 && Loadable(image, mapped) && (last0.phase == HdrsComplete || HeadersPresent(image)) ==> ok
    ensures !more && ok ==> |chunks| == |Written(image)|
  {
    hide Wanted, NamesFound, HasPhdrs, Header, EntriesFit, HeadersPresent, Shnum, Stuck, Saved;
    hide Sofar, Prefix, WithinMask, Written, Loadable, EmitStep, FinishStep, Left, Loads, Count, ChunkOf, SegmentAt;
    chunks, w, last := chunks0, w0, last0;
    var ret, da, want, nmemsize := info.Load(w, last, mem, image);
    if last.stage == Ready {
      DataTurn(image, chunks, last, info.state, da, want, nmemsize, mapped);
    } else {
      DataStart1(image);
      FinishTurn(image, last, w, mem, info.state, ret, want);
      StillDone(image, chunks, last, info.state);
      if HeadersPresent(image) && ret.Error? && mem >= 4 { NotStuck(image); }
    }
    if ret.Error? { return false, false, w, last, chunks; }
    if da != ANYADDR {
      if !mapped(da) || (want.len > 0 && !Inside(image, want)) { return false, false, w, last, chunks; }
      chunks := chunks + [Chunk(da, if want.len > 0 then Cut(image, want) else [],
                                if nmemsize > want.len then nmemsize - want.len else 0)];
      SofarFacts(image, chunks, ret.s);
      return true, true, w, ret.s, chunks;
    }
    last := ret.s;
    if want.len == 0 { return false, true, w, last, chunks; }
    if !Inside(image, want) { return false, last.stage == PostData, w, last, chunks; }
    more, ok, w := true, true, Window(want.offset, Cut(image, want));
  }

  lemma DataStart1(image: Bytes)
    requires HasPhdrs(image)
    ensures HasEhdr(image)
  {}

  lemma StillDone(image: Bytes, chunks: seq<Chunk>, s: LoadState, s': LoadState)
    requires HasPhdrs(image) && Sofar(image, chunks, s) && s.At? && s.stage != Ready
    ensures Prefix(image, chunks) && |chunks| == |Written(image)|
    ensures s'.At? && s'.stage != Ready ==> Sofar(image, chunks, s')
  {
    hide Written, Prefix;
    PrefixEntries(image, chunks);
  }

  lemma PrefixEntries(image: Bytes, chunks: seq<Chunk>)
    requires HasPhdrs(image) && Prefix(image, chunks)
    ensures |chunks| <= |Written(image)|
    ensures forall k :: 0 <= k < |chunks| ==> Written(image)[k] < Count(image) && chunks[k] == ChunkOf(image, Written(image)[k])
  {
    hide Written, ChunkOf, Count;
  }

  /** A bound on the turns of the data loop still to come. */
  function Turns(image: Bytes, w: Window, s: LoadState): nat
    requires HasPhdrs(image) && (s.At? && s.stage == Ready ==> s.seg <= Count(image))
  {
    if s.At? && s.stage == Ready then 10 + Count(image) - s.seg
    else 2 * Ahead(s) + if s.At? && Covers(w, Wanted(image, s.phase)) then 0 else 1
  }

  lemma SofarNone(image: Bytes, s: LoadState)
    requires HasPhdrs(image) && s.At? && s.stage == Ready && s.seg == 0
    ensures Sofar(image, [], s)
  {
    hide Loads, Writes;
    assert Written(image)[0..] == Written(image);
  }

  /** One call that gives out a segment. */
  lemma DataTurn(image: Bytes, chunks: seq<Chunk>, s: LoadState, s': LoadState, da: nat, want: Range, nmemsize: nat,
                 mapped: nat -> bool)
    requires HasPhdrs(image) && WithinMask(image) && s.At? && s.stage == Ready && s.seg <= Count(image)
    requires EmitStep(image, s, s', da, want, nmemsize) && Sofar(image, chunks, s)
    ensures s'.At? && s'.phase == s.phase && s'.stage != NotReady && Prefix(image, chunks)
    ensures s'.stage == Complete ==> da == ANYADDR && want.len == 0
    ensures s'.stage == Ready ==> s.seg < s'.seg <= Count(image)
    ensures Loadable(image, mapped) ==> (da != ANYADDR ==> mapped(da)) && (want.len > 0 ==> Inside(image, want))
    ensures da == ANYADDR && want.len == 0 ==> |chunks| == |Written(image)|
    ensures da == ANYADDR && want.len > 0 ==> Sofar(image, chunks, s') && (s'.stage == PostData ==> |chunks| == |Written(image)|)
    ensures da != ANYADDR && (want.len == 0 || Inside(image, want)) ==>
              Sofar(image, chunks + [Chunk(da, if want.len > 0 then Cut(image, want) else [],
                                           if nmemsize > want.len then nmemsize - want.len else 0)], s')
  {
    hide HasPhdrs, Count, SegmentAt, Loads, Left, Prefix, Sofar, Written, EmitStep, IsLoad;
    EmitIsNext(image, s, s', da, want, nmemsize);
    SofarFacts(image, chunks, s);
    if s'.stage != Complete {
      LeftAreLoads(image, s);
      OneMore(image, chunks, s, s');
      assert IsLoad(image, Left(image, s)[0]);
      if want.len == 0 { assert Inside(image, want) ==> Cut(image, want) == []; }
      if da == ANYADDR && want.len > 0 { SofarFacts(image, chunks, s'); }
    }
  }

  /** With nothing left, everything is written. */
  lemma SofarFacts(image: Bytes, chunks: seq<Chunk>, s: LoadState)
    requires HasPhdrs(image) && Sofar(image, chunks, s)
    ensures Prefix(image, chunks)
    ensures Left(image, s) == [] || !(s.At? && s.stage == Ready) ==> |chunks| == |Written(image)|
  {
    hide Written, Prefix, Loads;
    PrefixEntries(image, chunks);
  }
}
