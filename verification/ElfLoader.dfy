/** The resumable ELF loader: elf_load_header and elf_load, fed windows of an image. */
module ElfLoader {
  import opened Options
  import opened ElfFormat

  const RPROC_ENOMEM: int := 1
  const RPROC_EINVAL: int := 2
  const ANYADDR: nat := 0xFFFF_FFFF_FFFF_FFFF   // RPROC_LOAD_ANYADDR
  const SEGMENTS: nat := 256                    // ELF_NEXT_SEGMENT_MASK + 1

  // The load state word: ELF_STATE_MASK, RPROC_LOADER_MASK and ELF_NEXT_SEGMENT_MASK select its
  // three fields; the word 0 is ELF_STATE_INIT.
  datatype Phase = WaitPhdrs | WaitShdrs | WaitShstrtab | HdrsComplete
  datatype Stage = NotReady | Ready | PostData | Complete
  datatype LoadState = Init | At(stage: Stage, phase: Phase, seg: nat)

  function StageBits(s: Stage): nat {
    match s case NotReady => 0 case Ready => 0x1_0000 case PostData => 0x2_0000 case Complete => 0x4_0000
  }

  function PhaseBits(p: Phase): nat {
    match p case WaitPhdrs => 0x100 case WaitShdrs => 0x200 case WaitShstrtab => 0x400 case HdrsComplete => 0x800
  }

  function Word(s: LoadState): nat { if s.Init? then 0 else StageBits(s.stage) + PhaseBits(s.phase) + s.seg }

  /** The three fields do not overlap: comparing words is comparing states. */
  lemma WordsAreStates(s: LoadState, t: LoadState)
    requires (s.At? ==> s.seg < SEGMENTS) && (t.At? ==> t.seg < SEGMENTS)
    ensures Word(s) == Word(t) <==> s == t
  {}

  datatype Ret = State(s: LoadState) | Error(code: int)

  // len bytes of the image from offset on
  datatype Window = Window(offset: nat, data: Bytes)

  predicate PartOf(w: Window, image: Bytes) {
    w.offset + |w.data| <= |image| && w.data == image[w.offset..w.offset + |w.data|]
  }

  /** The loader's test that a table lies in the window it was given. */
  predicate Covers(w: Window, r: Range) { w.offset <= r.offset && r.offset + r.len <= w.offset + |w.data| }

  // ---- How far a window takes the headers ----

  function Rank(p: Phase): nat {
    match p case WaitPhdrs => 0 case WaitShdrs => 1 case WaitShstrtab => 2 case HdrsComplete => 3
  }

  /** The section table of the image is there and its e_shstrndx is an entry. */
  predicate NamesFound(image: Bytes) {
    && HasEhdr(image) && EntriesFit(Header(image))
    && Inside(image, ShdrRange(Header(image))) && Shstrndx(Header(image)) < Shnum(Header(image))
  }

  function NameTable(image: Bytes): Range
    requires NamesFound(image)
  {
    StrRange(Header(image), Cut(image, ShdrRange(Header(image))))
  }

  /** The table a phase waits for. */
  function Wanted(image: Bytes, p: Phase): Range
    requires HasEhdr(image)
  {
    match p
    case WaitPhdrs => PhdrRange(Header(image))
    case WaitShdrs => ShdrRange(Header(image))
    case WaitShstrtab => if NamesFound(image) then NameTable(image) else Range(0, 0)
    case HdrsComplete => Range(0, 0)
  }

  function Reach(image: Bytes, p: Phase, w: Window): Phase
    requires HasEhdr(image)
    decreases 3 - Rank(p)
  {
    match p
    case WaitPhdrs => if Covers(w, Wanted(image, p)) then Reach(image, WaitShdrs, w) else p
    case WaitShdrs =>
      if Shnum(Header(image)) == 0 then HdrsComplete
      else if Covers(w, Wanted(image, p)) then Reach(image, WaitShstrtab, w) else p
    case WaitShstrtab => if NamesFound(image) && Covers(w, Wanted(image, p)) then HdrsComplete else p
    case HdrsComplete => p
  }

  /** How many tables the window lets the loader copy, each into memory of its own. */
  function Copies(image: Bytes, p: Phase, w: Window): nat
    requires HasEhdr(image)
    decreases 3 - Rank(p)
  {
    match p
    case WaitPhdrs => if Covers(w, Wanted(image, p)) then 1 + Copies(image, WaitShdrs, w) else 0
    case WaitShdrs =>
      if Shnum(Header(image)) != 0 && Covers(w, Wanted(image, p)) then 1 + Copies(image, WaitShstrtab, w) else 0
    case WaitShstrtab => if NamesFound(image) && Covers(w, Wanted(image, p)) then 1 else 0
    case HdrsComplete => 0
  }

  /** How far it gets with memory for `mem` tables. */
  function ReachWith(image: Bytes, p: Phase, w: Window, mem: nat): Phase
    requires HasEhdr(image)
    decreases 3 - Rank(p)
  {
    match p
    case WaitPhdrs => if Covers(w, Wanted(image, p)) && mem > 0 then ReachWith(image, WaitShdrs, w, mem - 1) else p
    case WaitShdrs =>
      if Shnum(Header(image)) == 0 then HdrsComplete
      else if Covers(w, Wanted(image, p)) && mem > 0 then ReachWith(image, WaitShstrtab, w, mem - 1) else p
    case WaitShstrtab => if NamesFound(image) && Covers(w, Wanted(image, p)) && mem > 0 then HdrsComplete else p
    case HdrsComplete => p
  }

  /** Memory is short exactly if there is less of it than tables to copy, and never with three. */
  lemma EnoughMemory(image: Bytes, p: Phase, w: Window, mem: nat)
    requires HasEhdr(image)
    ensures Copies(image, p, w) <= 3 - Rank(p)
    ensures mem >= Copies(image, p, w) ==> ReachWith(image, p, w, mem) == Reach(image, p, w)
    ensures mem < Copies(image, p, w) ==> Rank(p) <= Rank(ReachWith(image, p, w, mem)) < Rank(Reach(image, p, w))
    decreases 3 - Rank(p)
  {
    hide NamesFound, Wanted, Shnum, Header;
    AnsweredAdvances(image, p, w);
    if p == WaitPhdrs {
      EnoughMemory(image, WaitShdrs, w, if mem > 0 then mem - 1 else 0);
      AnsweredAdvances(image, WaitShdrs, w);
    }
    if p == WaitShdrs {
      EnoughMemory(image, WaitShstrtab, w, if mem > 0 then mem - 1 else 0);
      AnsweredAdvances(image, WaitShstrtab, w);
    }
  }

  /** The loader cannot go on: the section-name index is out of the section table. */
  predicate Stuck(image: Bytes, p: Phase) { p == WaitShstrtab && !NamesFound(image) }

  /** A window that holds what was asked for always advances the state, unless it is stuck for good. */
  lemma AnsweredAdvances(image: Bytes, p: Phase, w: Window)
    requires HasEhdr(image)
    ensures Rank(Reach(image, p, w)) >= Rank(p)
    ensures Covers(w, Wanted(image, p)) && p != HdrsComplete && !Stuck(image, p) ==> Rank(Reach(image, p, w)) > Rank(p)
    decreases 3 - Rank(p)
  {
    hide NamesFound, Wanted, Shnum, Header;
    match p
    case WaitPhdrs =>
      if Covers(w, Wanted(image, p)) {
        AnsweredAdvances(image, WaitShdrs, w);
      }
    case WaitShdrs =>
      if Covers(w, Wanted(image, p)) && Shnum(Header(image)) != 0 {
        AnsweredAdvances(image, WaitShstrtab, w);
      }
    case _ =>
  }

  function Whole(image: Bytes): Window { Window(0, image) }

  /** Where a sequence of windows leaves the headers. */
  function Fold(image: Bytes, p: Phase, ws: seq<Window>): Phase
    requires HasEhdr(image)
    decreases |ws|
  {
    if ws == [] then p else Fold(image, Reach(image, p, ws[0]), ws[1..])
  }

  /** What is reachable with one window is reachable with any larger one. */
  lemma ReachMonotone(image: Bytes, p: Phase, w: Window, v: Window)
    requires HasEhdr(image) && v.offset <= w.offset && w.offset + |w.data| <= v.offset + |v.data|
    ensures Reach(image, Reach(image, p, w), v) == Reach(image, p, v)
    decreases 3 - Rank(p)
  {
    hide NamesFound, Wanted, Shnum, Header;
    match p
    case WaitPhdrs => if Covers(w, Wanted(image, p)) { ReachMonotone(image, WaitShdrs, w, v); }
    case WaitShdrs =>
      if Shnum(Header(image)) != 0 && Covers(w, Wanted(image, p)) { ReachMonotone(image, WaitShstrtab, w, v); }
    case _ =>
  }

  predicate Windows(image: Bytes, ws: seq<Window>) { forall i :: 0 <= i < |ws| ==> PartOf(ws[i], image) }

  /** Nothing more will happen to the headers. */
  predicate Settled(image: Bytes, p: Phase) { p == HdrsComplete || Stuck(image, p) }

  /** The headers do not depend on how the image is chunked.  Whatever windows of the image are given,
      whether or not they hold what was asked for, no progress is lost to the order: the whole image
      would still take the loader where it would have taken it at first.  So as soon as the headers
      are settled they stand where one window with the whole image puts them. */
  lemma {:induction false} ChunksDoNotMatter(image: Bytes, p: Phase, ws: seq<Window>)
    requires HasEhdr(image) && Windows(image, ws)
    ensures Reach(image, Fold(image, p, ws), Whole(image)) == Reach(image, p, Whole(image))
    ensures Settled(image, Fold(image, p, ws)) ==> Fold(image, p, ws) == Reach(image, p, Whole(image))
    decreases |ws|
  {
    hide NamesFound, Wanted, Shnum, Header, Reach;
    if ws != [] {
      assert PartOf(ws[0], image);
      ReachMonotone(image, p, ws[0], Whole(image));
      ChunksDoNotMatter(image, Reach(image, p, ws[0]), ws[1..]);
    }
    SettledStays(image, Fold(image, p, ws), Whole(image));
  }

  lemma SettledStays(image: Bytes, p: Phase, w: Window)
    requires HasEhdr(image)
    ensures Settled(image, p) ==> Reach(image, p, w) == p
  {
    hide NamesFound;
  }

  /** Each window holds what the loader asked for before it, as long as it asks. */
  predicate Answering(image: Bytes, p: Phase, ws: seq<Window>)
    requires HasEhdr(image)
    decreases |ws|
  {
    ws == [] ||
    (&& PartOf(ws[0], image) && (Settled(image, p) || Covers(ws[0], Wanted(image, p)))
     && Answering(image, Reach(image, p, ws[0]), ws[1..]))
  }

  /** Three answered requests, or as many as there are phases left, settle the headers. */
  lemma {:induction false} AnswersSettle(image: Bytes, p: Phase, ws: seq<Window>)
    requires HasEhdr(image) && Answering(image, p, ws) && |ws| >= 3 - Rank(p)
    ensures Windows(image, ws) && Settled(image, Fold(image, p, ws))
    ensures Fold(image, p, ws) == Reach(image, p, Whole(image))
    decreases |ws|
  {
    hide NamesFound, Wanted, Shnum, Header, Reach;
    if ws != [] {
      AnsweredAdvances(image, p, ws[0]);
      SettledStays(image, p, ws[0]);
      if Settled(image, p) { StaysSettled(image, p, ws); } else { AnswersSettle(image, Reach(image, p, ws[0]), ws[1..]); }
      assert Windows(image, ws[1..]) ==> Windows(image, ws) by {
        if Windows(image, ws[1..]) {
          forall i | 0 <= i < |ws| ensures PartOf(ws[i], image) { if i > 0 { assert ws[i] == ws[1..][i - 1]; } }
        }
      }
    }
    ChunksDoNotMatter(image, p, ws);
  }

  lemma {:induction false} StaysSettled(image: Bytes, p: Phase, ws: seq<Window>)
    requires HasEhdr(image) && Settled(image, p) && Answering(image, p, ws)
    ensures Fold(image, p, ws) == p && Windows(image, ws)
    decreases |ws|
  {
    hide NamesFound, Wanted, Reach;
    if ws != [] {
      SettledStays(image, p, ws[0]);
      StaysSettled(image, p, ws[1..]);
      forall i | 0 <= i < |ws| ensures PartOf(ws[i], image) { if i > 0 { assert ws[i] == ws[1..][i - 1]; } }
    }
  }

  // ---- The loader's saved information ----

  /** The image the loader may be given: its table entries are no smaller than the loader's structures. */
  predicate Indexable(image: Bytes) { HasEhdr(image) ==> EntriesFit(Header(image)) }

  /** Which tables are saved in each phase, and that they are the image's own. */
  predicate Saved(image: Bytes, p: Phase, ehdr: Bytes, phdrs: Option<Bytes>, shdrs: Option<Bytes>, shstrtab: Option<Bytes>) {
    && HasEhdr(image) && EntriesFit(Header(image)) && ehdr == Header(image)
    && (p != WaitPhdrs ==> HasPhdrs(image) && phdrs == Some(Cut(image, PhdrRange(ehdr))))
    && (p == WaitShstrtab ==> Shnum(ehdr) > 0 && Inside(image, ShdrRange(ehdr)) && shdrs == Some(Cut(image, ShdrRange(ehdr))))
    && (p == HdrsComplete && Shnum(ehdr) > 0 ==>
          && NamesFound(image) && shdrs == Some(Cut(image, ShdrRange(ehdr)))
          && Inside(image, NameTable(image)) && shstrtab == Some(Cut(image, NameTable(image))))
  }

  /** The result of one elf_load_header call that found the ELF header, from phase p0 on, with memory for
      `mem` tables: it fails for lack of memory exactly if there are more to copy. */
  predicate HeaderStep(image: Bytes, p0: Phase, stage0: Stage, seg0: nat, w: Window, mem: nat,
                       s: LoadState, ret: Ret, want0: Range, want: Range)
    requires HasEhdr(image)
  {
    var p, short := ReachWith(image, p0, w, mem), mem < Copies(image, p0, w);
    && s == At(if p == WaitPhdrs then NotReady else if p0 == WaitPhdrs then Ready else stage0, p,
               if p0 == WaitPhdrs then 0 else seg0)
    && ret == (if short then Error(-RPROC_ENOMEM) else if Stuck(image, p) then Error(-RPROC_EINVAL) else State(s))
    && want == (if p0 == HdrsComplete || short || Stuck(image, p) then want0
                else if p == HdrsComplete then want0.(len := 0)
                else Wanted(image, p))
  }

  lemma CutWindow(image: Bytes, w: Window, r: Range)
    requires PartOf(w, image) && Covers(w, r)
    ensures Inside(image, r) && w.data[r.offset - w.offset..][..r.len] == Cut(image, r)
  {}

  class ElfInfo {
    var present: bool          // whether *img_info has been allocated
    var ehdr: Bytes
    var phdrs: Option<Bytes>
    var shdrs: Option<Bytes>
    var shstrtab: Option<Bytes>
    var state: LoadState

    ghost predicate Consistent(image: Bytes)
      reads this
    {
      present ==>
        && state.At? && state.seg < SEGMENTS && (state.stage == NotReady <==> state.phase == WaitPhdrs)
        && (state.phase == WaitPhdrs ==> state.seg == 0)
        && Saved(image, state.phase, ehdr, phdrs, shdrs, shstrtab)
    }

    lemma TablesSaved(image: Bytes)
      requires present && Consistent(image) && state.stage != NotReady
      ensures HasPhdrs(image) && (state.phase == WaitShstrtab ==> Shnum(Header(image)) > 0)
    {}

    constructor ()
      ensures !present
    {
      present, ehdr, phdrs, shdrs, shstrtab, state := false, [], None, None, None, Init;
    }

    /** elf_load_header.  `mem` is the number of allocations that succeed; (noffset, nlen) is the
        caller's request, before and after. */
    method LoadHeader(w: Window, last: LoadState, want0: Range, mem: nat, ghost image: Bytes) returns (ret: Ret, want: Range)
      requires Indexable(image) && Consistent(image) && PartOf(w, image)
      requires last.Init? || present
      requires last.Init? ==> w.offset == 0 && |w.data| > EI_CLASS
      modifies this
      ensures Consistent(image) && (old(present) ==> present)
      ensures last.At? && last != old(state) ==>
                ret == Error(-RPROC_EINVAL) && want == want0 && state == old(state)
      ensures last.Init? && |w.data| < EhdrSize(w.data) ==>
                ret == State(Init) && want == Range(0, EhdrSize(w.data)) && state == old(state) && present == old(present)
      ensures last.Init? && |w.data| >= EhdrSize(w.data) && !old(present) && mem == 0 ==>
                ret == Error(-RPROC_ENOMEM) && want == want0 && state == old(state) && !present
      ensures last.Init? && |w.data| >= EhdrSize(w.data) && (old(present) || mem > 0) ==>
                && HasEhdr(image) && present
                && HeaderStep(image, WaitPhdrs, NotReady, 0, w, if old(present) then mem else mem - 1, state, ret, want0, want)
      ensures last.At? && last == old(state) ==>
                && HasEhdr(image)
                && HeaderStep(image, last.phase, last.stage, last.seg, w, mem, state, ret, want0, want)
      ensures ret.Error? ==> ret.code == -RPROC_EINVAL || ret.code == -RPROC_ENOMEM
    {
      hide Saved, Wanted, NamesFound, EntriesFit, Reach, HeaderStep;
      var left := mem;
      if last == Init {
        var size := EhdrSize(w.data);
        if |w.data| < size { return State(Init), Range(0, size); }
        if !present {
          if left == 0 { return Error(-RPROC_ENOMEM), want0; }
          left := left - 1;
          present := true;
        }
        ehdr := w.data[..size];
        state := At(NotReady, WaitPhdrs, 0);
        HeaderSaved(image, w, phdrs, shdrs, shstrtab);
      } else if last != state {
        return Error(-RPROC_EINVAL), want0;
      }
      ret, want := LoadTables(w, want0, left, image);
    }

    /** The rest of elf_load_header: the tables, as far as the window holds them. */
    method LoadTables(w: Window, want0: Range, mem: nat, ghost image: Bytes) returns (ret: Ret, want: Range)
      requires present && Consistent(image) && PartOf(w, image)
      modifies this
      ensures present && Consistent(image) && HasEhdr(image)
      ensures HeaderStep(image, old(state.phase), old(state.stage), old(state.seg), w, mem, state, ret, want0, want)
      ensures ret.Error? ==> ret.code == -RPROC_EINVAL || ret.code == -RPROC_ENOMEM
    {
      hide Saved, Wanted, NamesFound, EntriesFit, Reach, Header, HeaderStep, PhdrRange, Stuck;
      ghost var stage0, phase0, seg0 := state.stage, state.phase, state.seg;
      SavedHeader(image, phase0, ehdr, phdrs, shdrs, shstrtab);
      if state.phase == WaitPhdrs {
        var r := PhdrRange(ehdr);
        StepFromPhdrs(image, stage0, seg0, w, mem, want0);
        if !Covers(w, r) { return State(state), r; }
        if mem == 0 { return Error(-RPROC_ENOMEM), want0; }
        CutWindow(image, w, r);
        SavePhdrs(image, ehdr, phdrs, shdrs, shstrtab);
        phdrs := Some(w.data[r.offset - w.offset..][..r.len]);
        state := At(Ready, WaitShdrs, 0);
        ret, want := LoadSections(w, want0, mem - 1, image);
      } else {
        ret, want := LoadSections(w, want0, mem, image);
      }
    }

    /** The section headers and their names. */
    method LoadSections(w: Window, want0: Range, mem: nat, ghost image: Bytes) returns (ret: Ret, want: Range)
      requires present && Consistent(image) && PartOf(w, image) && state.phase != WaitPhdrs
      modifies this
      ensures present && Consistent(image) && HasEhdr(image) && phdrs == old(phdrs)
      ensures HeaderStep(image, old(state.phase), old(state.stage), old(state.seg), w, mem, state, ret, want0, want)
      ensures ret.Error? ==> ret.code == -RPROC_EINVAL || ret.code == -RPROC_ENOMEM
    {
      hide Saved, Wanted, NamesFound, EntriesFit, Reach, Header, HeaderStep, ShdrRange, Stuck, Shnum;
      ghost var stage0, phase0, seg0 := state.stage, state.phase, state.seg;
      SavedHeader(image, phase0, ehdr, phdrs, shdrs, shstrtab);
      if state.phase == WaitShdrs {
        var r := ShdrRange(ehdr);
        StepFromShdrs(image, stage0, seg0, w, mem, want0);
        if Shnum(ehdr) == 0 {
          SaveNone(image, ehdr, phdrs, shdrs, shstrtab);
          state := state.(phase := HdrsComplete);
          return State(state), want0.(len := 0);
        }
        if !Covers(w, r) { return State(state), r; }
        if mem == 0 { return Error(-RPROC_ENOMEM), want0; }
        CutWindow(image, w, r);
        SaveShdrs(image, ehdr, phdrs, shdrs, shstrtab);
        shdrs := Some(w.data[r.offset - w.offset..][..r.len]);
        state := state.(phase := WaitShstrtab);
        ret, want := LoadNames(w, want0, mem - 1, image);
      } else if state.phase == WaitShstrtab {
        ret, want := LoadNames(w, want0, mem, image);
      } else {
        StepFromComplete(image, state.stage, state.seg, w, mem, want0);
        return State(state), want0;
      }
    }

    /** The section-name table. */
    method LoadNames(w: Window, want0: Range, mem: nat, ghost image: Bytes) returns (ret: Ret, want: Range)
      requires present && Consistent(image) && PartOf(w, image) && state.phase == WaitShstrtab
      modifies this
      ensures present && Consistent(image) && HasEhdr(image) && phdrs == old(phdrs)
      ensures HeaderStep(image, WaitShstrtab, old(state.stage), old(state.seg), w, mem, state, ret, want0, want)
      ensures ret.Error? ==> ret.code == -RPROC_EINVAL || ret.code == -RPROC_ENOMEM
    {
      hide Saved, Wanted, NamesFound, NameTable, EntriesFit, Reach, Header, HeaderStep, ShdrRange, StrRange, Stuck, Shnum, Shstrndx, Shentsize;
      SavedHeader(image, state.phase, ehdr, phdrs, shdrs, shstrtab);
      SavedNames(image, ehdr, phdrs, shdrs, shstrtab);
      StepFromNames(image, state.stage, state.seg, w, mem, want0);
      if Shstrndx(ehdr) >= Shnum(ehdr) { return Error(-RPROC_EINVAL), want0; }
      var r := StrRange(ehdr, shdrs.value);
      if !Covers(w, r) { return State(state), r; }
      if mem == 0 { return Error(-RPROC_ENOMEM), want0; }
      CutWindow(image, w, r);
      SaveNames(image, ehdr, phdrs, shdrs, shstrtab);
      shstrtab := Some(w.data[r.offset - w.offset..][..r.len]);
      state := state.(phase := HdrsComplete);
      return State(state), want0.(len := 0);
    }

    /** elf_next_load_segment: the first loadable segment from index nseg0 on, and the index after
        it; or the number of segments. */
    method NextLoadSegment(nseg0: nat, ghost image: Bytes) returns (found: Option<Segment>, nseg: nat)
      requires present && Consistent(image) && state.phase != WaitPhdrs
      ensures HasPhdrs(image) && NextLoad(image, nseg0, found, nseg)
    {
      hide Saved, HasPhdrs, SegmentAt, ParseSegment, Count;
      SavedTable(image, state.phase, ehdr, phdrs, shdrs, shstrtab);
      nseg := nseg0;
      while nseg < Phnum(ehdr)
        invariant nseg0 <= nseg && (nseg0 <= Count(image) ==> nseg <= Count(image))
        invariant forall i :: nseg0 <= i < nseg && i < Count(image) ==> !IsLoad(image, i)
        invariant nseg > nseg0 ==> nseg <= Count(image)
        decreases Count(image) - nseg
      {
        TableEntry(image, nseg);
        var phdr := ParseSegment(Is64(ehdr), phdrs.value, nseg * PhdrSize(Is64(ehdr)));
        nseg := nseg + 1;
        if phdr.ptype == PT_LOAD { return Some(phdr), nseg; }
      }
      found := None;
    }

    /** elf_load while segments remain: give out the next one and remember, in eight bits, where
        to go on. */
    method EmitNext(ghost image: Bytes) returns (da: nat, want: Range, nmemsize: nat)
      requires present && Consistent(image) && state.stage == Ready
      modifies this`state
      ensures Consistent(image) && HasPhdrs(image)
      ensures EmitStep(image, old(state), state, da, want, nmemsize)
    {
      hide Saved, HasPhdrs, NextLoad, Count;
      SavedTable(image, state.phase, ehdr, phdrs, shdrs, shstrtab);
      da, want, nmemsize := ANYADDR, Range(0, 0), 0;
      var found, nsegment := NextLoadSegment(state.seg, image);
      ghost var s0 := state;
      if found.Some? {
        da, want, nmemsize := found.value.paddr, Range(found.value.offset, found.value.filesz), found.value.memsz;
      }
      if nsegment == Phnum(ehdr) {
        state := state.(stage := if found.Some? then PostData else Complete);
      }
      state := state.(seg := nsegment % SEGMENTS);
      assert NextLoad(image, s0.seg, found, nsegment);
    }

    /** elf_load after the last segment: what is missing of the section headers. */
    method FinishHeaders(w: Window, last: LoadState, mem: nat, ghost image: Bytes) returns (ret: Ret, want: Range)
      requires Indexable(image) && present && Consistent(image) && state.stage == PostData && PartOf(w, image) && last.At?
      modifies this
      ensures present && Consistent(image) && HasEhdr(image)
      ensures last == old(state) ==> FinishStep(image, last, w, mem, state, ret, want)
      ensures ret.State? ==> ret.s == state
    {
      hide Saved, Reach, ReachWith, Copies, Wanted, NamesFound, EntriesFit;
      SavedHeader(image, state.phase, ehdr, phdrs, shdrs, shstrtab);
      want := Range(0, 0);
      ghost var s0 := state;
      if state.phase != HdrsComplete {
        NotBack(image, s0.phase, w, mem);
        ShortIsBefore(image, s0.phase, w, mem);
        ret, want := LoadHeader(w, last, want, mem, image);
        if ret.Error? { return; }
        if state.phase == HdrsComplete {
          state := state.(stage := Complete);
          want := want.(len := 0);
        }
      } else {
        state := state.(stage := Complete);
        ReachComplete(image, w);
      }
      ret := State(state);
    }

    /** elf_load. */
    method Load(w: Window, last: LoadState, mem: nat, ghost image: Bytes)
      returns (ret: Ret, da: nat, want: Range, nmemsize: nat)
      requires Indexable(image) && Consistent(image) && PartOf(w, image)
      requires last.Init? ==> w.offset == 0 && |w.data| > EI_CLASS && (present || mem > 0)
      requires last.At? ==> present
      modifies this
      ensures Consistent(image)
      ensures last.At? && last == old(state) && last.stage != NotReady ==> present && HasPhdrs(image)
      ensures last.At? && last == old(state) && last.stage == Ready ==>
                EmitStep(image, last, state, da, want, nmemsize) && ret == State(state)
      ensures last.At? && last == old(state) && last.stage == PostData ==>
                FinishStep(image, last, w, mem, state, ret, want) && da == ANYADDR
      ensures last.At? && last == old(state) && last.stage == Complete ==>
                state == last && ret == State(state) && da == ANYADDR && want.len == 0
      ensures last.Init? && |w.data| < EhdrSize(w.data) ==>
                && ret == State(Init) && da == ANYADDR && want == Range(0, EhdrSize(w.data))
                && state == old(state) && present == old(present)
      ensures mem >= 4 && ((last.Init? && |w.data| >= EhdrSize(w.data)) ||
                           (last.At? && last == old(state) && last.stage == NotReady)) ==>
                HasEhdr(image) && StartStep(image, w, state, ret, da, want, nmemsize)
      ensures last.At? && last.stage == NotReady && old(state.At? && state.stage == Ready) ==>
                HasPhdrs(image) && EmitStep(image, old(state), state, da, want, nmemsize) && ret == State(state)
    {
      hide Saved, HasPhdrs, EmitStep, FinishStep, HeaderStep;
      da, want, nmemsize := ANYADDR, Range(0, 0), 0;
      var last1 := last;
      if present { SavedTable(image, state.phase, ehdr, phdrs, shdrs, shstrtab); }
      if last.Init? || last.stage == NotReady {
        ghost var want0 := want;
        ret, want := LoadHeader(w, last, want, mem, image);
        if (last.At? && last == old(state)) || (last.Init? && |w.data| >= EhdrSize(w.data)) {
          Started(image, if last.Init? then 0 else last.seg, w, if last.Init? && !old(present) then mem - 1 else mem, state, ret, want0, want);
        }
        if present { SavedTable(image, state.phase, ehdr, phdrs, shdrs, shstrtab); }
        if ret.State? && (ret.s.Init? || ret.s.stage == NotReady) { return; }
        // An error from the headers is not looked at here.
        if ret.State? { last1 := ret.s; }
        if last1.Init? { last1 := At(NotReady, WaitPhdrs, 0); }
      }
      if state.stage == Ready {
        da, want, nmemsize := EmitNext(image);
      } else if state.stage == PostData {
        ret, want := FinishHeaders(w, last1, mem, image);
        if ret.Error? { return; }
      }
      ret := State(state);
    }
  }

  /** What the next-segment search returns. */
  predicate NextLoad(image: Bytes, from: nat, found: Option<Segment>, nseg: nat)
    requires HasPhdrs(image)
  {
    match found
    case None =>
      && nseg == (if from <= Count(image) then Count(image) else from)
      && forall i :: from <= i < Count(image) ==> !IsLoad(image, i)
    case Some(segment) =>
      && from < nseg <= Count(image) && IsLoad(image, nseg - 1) && segment == SegmentAt(image, nseg - 1)
      && forall i :: from <= i < nseg - 1 ==> !IsLoad(image, i)
  }

  ghost predicate EmitStep(image: Bytes, s: LoadState, s': LoadState, da: nat, want: Range, nmemsize: nat)
    requires HasPhdrs(image) && s.At?
  {
    exists found: Option<Segment>, nseg: nat ::
      && NextLoad(image, s.seg, found, nseg)
      && s' == At(if nseg == Count(image) then if found.Some? then PostData else Complete else Ready, s.phase, nseg % SEGMENTS)
      && match found
         case None => da == ANYADDR && want.len == 0
         case Some(g) => da == g.paddr && want == Range(g.offset, g.filesz) && nmemsize == g.memsz
  }

  /** The result of an elf_load call that had to read the headers first, with memory enough: a request
      for the program headers, or the first segment -- also when the headers after them are bad. */
  ghost predicate StartStep(image: Bytes, w: Window, s': LoadState, ret: Ret, da: nat, want: Range, nmemsize: nat)
    requires HasEhdr(image)
  {
    var p := Reach(image, WaitPhdrs, w);
    && ret == State(s')
    && if p == WaitPhdrs then s' == At(NotReady, WaitPhdrs, 0) && da == ANYADDR && want == Wanted(image, p)
       else HasPhdrs(image) && EmitStep(image, At(Ready, p, 0), s', da, want, nmemsize)
  }

  lemma Started(image: Bytes, seg0: nat, w: Window, mem: nat, s: LoadState, ret: Ret, want0: Range, want: Range)
    requires HasEhdr(image) && HeaderStep(image, WaitPhdrs, NotReady, seg0, w, mem, s, ret, want0, want)
    ensures mem >= 3 ==>
              var p := Reach(image, WaitPhdrs, w);
              && s == At(if p == WaitPhdrs then NotReady else Ready, p, 0)
              && (p == WaitPhdrs ==> ret == State(s) && want == Wanted(image, p))
              && (ret.State? ==> ret.s == s)
  {
    hide Wanted, NamesFound, Reach, ReachWith, Copies;
    EnoughMemory(image, WaitPhdrs, w, mem);
  }

  predicate FinishStep(image: Bytes, s: LoadState, w: Window, mem: nat, s': LoadState, ret: Ret, want: Range)
    requires HasEhdr(image) && s.At?
  {
    var p, short := ReachWith(image, s.phase, w, mem), mem < Copies(image, s.phase, w);
    && s' == At(if p == HdrsComplete then Complete else PostData, p, s.seg)
    && ret == (if short then Error(-RPROC_ENOMEM) else if Stuck(image, p) then Error(-RPROC_EINVAL) else State(s'))
    && (ret.State? ==> if p == HdrsComplete then want.len == 0 else want == Wanted(image, p))
  }

  lemma ReachComplete(image: Bytes, w: Window)
    requires HasEhdr(image)
    ensures forall mem: nat :: ReachWith(image, HdrsComplete, w, mem) == HdrsComplete && Copies(image, HdrsComplete, w) == 0
  {}

  lemma SavedTable(image: Bytes, p: Phase, ehdr: Bytes, phdrs: Option<Bytes>, shdrs: Option<Bytes>, shstrtab: Option<Bytes>)
    requires Saved(image, p, ehdr, phdrs, shdrs, shstrtab)
    ensures HasEhdr(ehdr)
    ensures p != WaitPhdrs ==>
              && HasPhdrs(image) && Phnum(ehdr) == Count(image) && Is64(ehdr) == Is64(Header(image))
              && phdrs == Some(Cut(image, PhdrRange(Header(image))))
  {}

  /** An entry of the saved table is the image's program header, as the loader reads it. */
  lemma TableEntry(image: Bytes, i: nat)
    requires HasPhdrs(image) && i < Count(image)
    ensures var h := Header(image);
            && i * PhdrSize(Is64(h)) + PhdrSize(Is64(h)) <= |Cut(image, PhdrRange(h))|
            && ParseSegment(Is64(h), Cut(image, PhdrRange(h)), i * PhdrSize(Is64(h))) == SegmentAt(image, i)
  {
    hide Le, ParseSegment;
    var h := Header(image);
    var r := PhdrRange(h);
    EntryInside(Phnum(h), Phentsize(h), i, PhdrSize(Is64(h)));
    ParseSlice(Is64(h), image, r.offset, r.offset + r.len, i * PhdrSize(Is64(h)));
  }

  // ---- One phase of the header at a time ----

  lemma SavedHeader(image: Bytes, p: Phase, ehdr: Bytes, phdrs: Option<Bytes>, shdrs: Option<Bytes>, shstrtab: Option<Bytes>)
    requires Saved(image, p, ehdr, phdrs, shdrs, shstrtab)
    ensures HasEhdr(image) && HasEhdr(ehdr) && EntriesFit(ehdr) && ehdr == Header(image)
    ensures Wanted(image, WaitPhdrs) == PhdrRange(ehdr) && Wanted(image, WaitShdrs) == ShdrRange(ehdr)
  {}

  lemma SavedNames(image: Bytes, ehdr: Bytes, phdrs: Option<Bytes>, shdrs: Option<Bytes>, shstrtab: Option<Bytes>)
    requires Saved(image, WaitShstrtab, ehdr, phdrs, shdrs, shstrtab)
    ensures HasEhdr(ehdr) && ehdr == Header(image) && shdrs.Some? && |shdrs.value| == Shnum(ehdr) * Shentsize(ehdr)
    ensures NamesFound(image) <==> Shstrndx(ehdr) < Shnum(ehdr)
    ensures NamesFound(image) ==> Wanted(image, WaitShstrtab) == NameTable(image) == StrRange(ehdr, shdrs.value)
  {
    hide StrRange, Le;
  }

  lemma SavePhdrs(image: Bytes, ehdr: Bytes, phdrs: Option<Bytes>, shdrs: Option<Bytes>, shstrtab: Option<Bytes>)
    requires Saved(image, WaitPhdrs, ehdr, phdrs, shdrs, shstrtab) && Inside(image, PhdrRange(ehdr))
    ensures Saved(image, WaitShdrs, ehdr, Some(Cut(image, PhdrRange(ehdr))), shdrs, shstrtab)
  {}

  lemma SaveNone(image: Bytes, ehdr: Bytes, phdrs: Option<Bytes>, shdrs: Option<Bytes>, shstrtab: Option<Bytes>)
    requires Saved(image, WaitShdrs, ehdr, phdrs, shdrs, shstrtab) && Shnum(ehdr) == 0
    ensures Saved(image, HdrsComplete, ehdr, phdrs, shdrs, shstrtab)
  {}

  lemma SaveShdrs(image: Bytes, ehdr: Bytes, phdrs: Option<Bytes>, shdrs: Option<Bytes>, shstrtab: Option<Bytes>)
    requires Saved(image, WaitShdrs, ehdr, phdrs, shdrs, shstrtab) && Inside(image, ShdrRange(ehdr)) && Shnum(ehdr) > 0
    ensures Saved(image, WaitShstrtab, ehdr, phdrs, Some(Cut(image, ShdrRange(ehdr))), shstrtab)
  {}

  lemma SaveNames(image: Bytes, ehdr: Bytes, phdrs: Option<Bytes>, shdrs: Option<Bytes>, shstrtab: Option<Bytes>)
    requires Saved(image, WaitShstrtab, ehdr, phdrs, shdrs, shstrtab) && NamesFound(image) && Inside(image, NameTable(image))
    ensures Saved(image, HdrsComplete, ehdr, phdrs, shdrs, Some(Cut(image, NameTable(image))))
  {
    hide NameTable, Le;
  }

  lemma StepFromPhdrs(image: Bytes, stage: Stage, seg: nat, w: Window, mem: nat, want0: Range)
    requires HasEhdr(image)
    ensures !Covers(w, Wanted(image, WaitPhdrs)) ==>
              HeaderStep(image, WaitPhdrs, stage, seg, w, mem, At(NotReady, WaitPhdrs, 0), State(At(NotReady, WaitPhdrs, 0)),
                         want0, Wanted(image, WaitPhdrs))
    ensures Covers(w, Wanted(image, WaitPhdrs)) && mem == 0 ==>
              HeaderStep(image, WaitPhdrs, stage, seg, w, mem, At(NotReady, WaitPhdrs, 0), Error(-RPROC_ENOMEM), want0, want0)
    ensures Covers(w, Wanted(image, WaitPhdrs)) && mem > 0 ==>
              forall s, ret, want :: HeaderStep(image, WaitShdrs, Ready, 0, w, mem - 1, s, ret, want0, want) ==>
                HeaderStep(image, WaitPhdrs, stage, seg, w, mem, s, ret, want0, want)
  {
    hide Wanted, NamesFound;
    if mem > 0 { NotBack(image, WaitShdrs, w, mem - 1); }
  }

  /** Without memory the headers are not complete. */
  lemma ShortIsBefore(image: Bytes, p: Phase, w: Window, mem: nat)
    requires HasEhdr(image)
    ensures mem < Copies(image, p, w) ==> ReachWith(image, p, w, mem) != HdrsComplete
  {
    hide Reach, ReachWith, Copies;
    EnoughMemory(image, p, w, mem);
  }

  lemma NotBack(image: Bytes, p: Phase, w: Window, mem: nat)
    requires HasEhdr(image)
    ensures Rank(ReachWith(image, p, w, mem)) >= Rank(p)
  {
    hide Reach, ReachWith, Copies;
    EnoughMemory(image, p, w, mem);
    AnsweredAdvances(image, p, w);
  }

  lemma StepFromShdrs(image: Bytes, stage: Stage, seg: nat, w: Window, mem: nat, want0: Range)
    requires HasEhdr(image)
    ensures var h := Header(image);
            && (Shnum(h) == 0 ==>
                  HeaderStep(image, WaitShdrs, stage, seg, w, mem, At(stage, HdrsComplete, seg),
                             State(At(stage, HdrsComplete, seg)), want0, want0.(len := 0)))
            && (Shnum(h) != 0 && !Covers(w, Wanted(image, WaitShdrs)) ==>
                  HeaderStep(image, WaitShdrs, stage, seg, w, mem, At(stage, WaitShdrs, seg),
                             State(At(stage, WaitShdrs, seg)), want0, Wanted(image, WaitShdrs)))
            && (Shnum(h) != 0 && Covers(w, Wanted(image, WaitShdrs)) && mem == 0 ==>
                  HeaderStep(image, WaitShdrs, stage, seg, w, mem, At(stage, WaitShdrs, seg), Error(-RPROC_ENOMEM), want0, want0))
            && (Shnum(h) != 0 && Covers(w, Wanted(image, WaitShdrs)) && mem > 0 ==>
                  forall s, ret, want :: HeaderStep(image, WaitShstrtab, stage, seg, w, mem - 1, s, ret, want0, want) ==>
                    HeaderStep(image, WaitShdrs, stage, seg, w, mem, s, ret, want0, want))
  {
    hide Wanted, NamesFound;
    if mem > 0 { NotBack(image, WaitShstrtab, w, mem - 1); }
  }

  lemma StepFromNames(image: Bytes, stage: Stage, seg: nat, w: Window, mem: nat, want0: Range)
    requires HasEhdr(image)
    ensures !NamesFound(image) ==>
              HeaderStep(image, WaitShstrtab, stage, seg, w, mem, At(stage, WaitShstrtab, seg), Error(-RPROC_EINVAL), want0, want0)
    ensures NamesFound(image) && !Covers(w, Wanted(image, WaitShstrtab)) ==>
              HeaderStep(image, WaitShstrtab, stage, seg, w, mem, At(stage, WaitShstrtab, seg),
                         State(At(stage, WaitShstrtab, seg)), want0, Wanted(image, WaitShstrtab))
    ensures NamesFound(image) && Covers(w, Wanted(image, WaitShstrtab)) && mem == 0 ==>
              HeaderStep(image, WaitShstrtab, stage, seg, w, mem, At(stage, WaitShstrtab, seg), Error(-RPROC_ENOMEM), want0, want0)
    ensures NamesFound(image) && Covers(w, Wanted(image, WaitShstrtab)) && mem > 0 ==>
              HeaderStep(image, WaitShstrtab, stage, seg, w, mem, At(stage, HdrsComplete, seg),
                         State(At(stage, HdrsComplete, seg)), want0, want0.(len := 0))
  {
    hide Wanted, NamesFound;
  }

  lemma StepFromComplete(image: Bytes, stage: Stage, seg: nat, w: Window, mem: nat, want0: Range)
    requires HasEhdr(image)
    ensures HeaderStep(image, HdrsComplete, stage, seg, w, mem, At(stage, HdrsComplete, seg),
                       State(At(stage, HdrsComplete, seg)), want0, want0)
  {}

  lemma HeaderSaved(image: Bytes, w: Window, phdrs: Option<Bytes>, shdrs: Option<Bytes>, shstrtab: Option<Bytes>)
    requires Indexable(image) && PartOf(w, image) && w.offset == 0 && |w.data| > EI_CLASS && |w.data| >= EhdrSize(w.data)
    ensures HasEhdr(image) && Saved(image, WaitPhdrs, w.data[..EhdrSize(w.data)], phdrs, shdrs, shstrtab)
  {
    assert w.data[EI_CLASS] == image[EI_CLASS];
    assert w.data[..EhdrSize(w.data)] == Header(image);
  }
}
