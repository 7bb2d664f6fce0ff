/** ELF images as the loader reads them: the header fields and tables of both classes, by byte
    offset (System V ABI, chapters "ELF Header" and "Program Header"), little-endian. */
module ElfFormat {
  type byte = x: int | 0 <= x < 256
  type Bytes = seq<byte>

  const EI_CLASS: nat := 4
  const ELFCLASS64: byte := 2
  const PT_LOAD: nat := 1

  function Le(b: Bytes, at: nat, n: nat): nat
    requires at + n <= |b|
    decreases n
  {
    if n == 0 then 0 else b[at] + 256 * Le(b, at + 1, n - 1)
  }

  lemma {:induction false} LeSlice(b: Bytes, lo: nat, hi: nat, at: nat, n: nat)
    requires lo <= hi <= |b| && lo + at + n <= hi
    ensures Le(b[lo..hi], at, n) == Le(b, lo + at, n)
    decreases n
  {
    if n > 0 { LeSlice(b, lo, hi, at + 1, n - 1); }
  }

  // ---- The ELF header ----

  function Is64(h: Bytes): bool
    requires |h| > EI_CLASS
  {
    h[EI_CLASS] == ELFCLASS64
  }

  function EhdrSize(h: Bytes): nat
    requires |h| > EI_CLASS
  {
    if Is64(h) then 64 else 52
  }

  predicate HasEhdr(h: Bytes) { |h| > EI_CLASS && |h| >= EhdrSize(h) }

  function Phoff(h: Bytes): nat requires HasEhdr(h) { if Is64(h) then Le(h, 32, 8) else Le(h, 28, 4) }
  function Shoff(h: Bytes): nat requires HasEhdr(h) { if Is64(h) then Le(h, 40, 8) else Le(h, 32, 4) }
  function Phentsize(h: Bytes): nat requires HasEhdr(h) { if Is64(h) then Le(h, 54, 2) else Le(h, 42, 2) }
  function Phnum(h: Bytes): nat requires HasEhdr(h) { if Is64(h) then Le(h, 56, 2) else Le(h, 44, 2) }
  function Shentsize(h: Bytes): nat requires HasEhdr(h) { if Is64(h) then Le(h, 58, 2) else Le(h, 46, 2) }
  function Shnum(h: Bytes): nat requires HasEhdr(h) { if Is64(h) then Le(h, 60, 2) else Le(h, 48, 2) }
  function Shstrndx(h: Bytes): nat requires HasEhdr(h) { if Is64(h) then Le(h, 62, 2) else Le(h, 50, 2) }

  // ---- Table entries ----

  datatype Segment = Segment(ptype: nat, offset: nat, paddr: nat, filesz: nat, memsz: nat)

  function PhdrSize(is64: bool): nat { if is64 then 56 else 32 }

  function ShdrSize(is64: bool): nat { if is64 then 64 else 40 }

  /** elf_parse_segment on the entry at a byte offset. */
  function ParseSegment(is64: bool, b: Bytes, at: nat): Segment
    requires at + PhdrSize(is64) <= |b|
  {
    if is64 then Segment(Le(b, at, 4), Le(b, at + 8, 8), Le(b, at + 24, 8), Le(b, at + 32, 8), Le(b, at + 40, 8))
    else Segment(Le(b, at, 4), Le(b, at + 4, 4), Le(b, at + 12, 4), Le(b, at + 16, 4), Le(b, at + 20, 4))
  }

  lemma ParseSlice(is64: bool, b: Bytes, lo: nat, hi: nat, at: nat)
    requires lo <= hi <= |b| && lo + at + PhdrSize(is64) <= hi
    ensures ParseSegment(is64, b[lo..hi], at) == ParseSegment(is64, b, lo + at)
  {
    hide Le;
    LeSlice(b, lo, hi, at, 4);
    if is64 {
      LeSlice(b, lo, hi, at + 8, 8); LeSlice(b, lo, hi, at + 24, 8);
      LeSlice(b, lo, hi, at + 32, 8); LeSlice(b, lo, hi, at + 40, 8);
    } else {
      LeSlice(b, lo, hi, at + 4, 4); LeSlice(b, lo, hi, at + 12, 4);
      LeSlice(b, lo, hi, at + 16, 4); LeSlice(b, lo, hi, at + 20, 4);
    }
  }

  // A part of an image.
  datatype Range = Range(offset: nat, len: nat)

  /** elf_parse_section, its offset and size. */
  function ParseSection(is64: bool, b: Bytes, at: nat): Range
    requires at + ShdrSize(is64) <= |b|
  {
    if is64 then Range(Le(b, at + 24, 8), Le(b, at + 32, 8)) else Range(Le(b, at + 16, 4), Le(b, at + 20, 4))
  }

  // ---- What an image says ----

  function Header(image: Bytes): (h: Bytes)
    requires HasEhdr(image)
    ensures HasEhdr(h) && Is64(h) == Is64(image)
  {
    image[..EhdrSize(image)]
  }

  predicate Inside(image: Bytes, r: Range) { r.offset + r.len <= |image| }

  function Cut(image: Bytes, r: Range): Bytes
    requires Inside(image, r)
  {
    image[r.offset..r.offset + r.len]
  }

  function PhdrRange(h: Bytes): Range requires HasEhdr(h) { Range(Phoff(h), Phnum(h) * Phentsize(h)) }

  function ShdrRange(h: Bytes): Range requires HasEhdr(h) { Range(Shoff(h), Shnum(h) * Shentsize(h)) }

  /** The entries are at least as large as the structures the loader indexes the tables with, so that
      it stays inside the tables it saved. */
  predicate EntriesFit(h: Bytes)
    requires HasEhdr(h)
  {
    && (Phnum(h) == 0 || Phentsize(h) >= PhdrSize(Is64(h)))
    && (Shnum(h) == 0 || Shentsize(h) >= ShdrSize(Is64(h)))
  }

  lemma EntryInside(n: nat, size: nat, i: nat, entry: nat)
    requires i < n && entry <= size
    ensures i * entry + entry <= n * size && i * size + entry <= n * size
  {
    Products(n, size, i + 1);
    Products(size, i + 1, entry);
    assert (i + 1) * entry == i * entry + entry && (i + 1) * size == i * size + size;
  }

  lemma Products(a: nat, b: nat, c: nat)
    requires c <= a
    ensures c * b <= a * b && b * c <= b * a
  {
    assert a * b == c * b + (a - c) * b;
  }

  /** The section-name table, found through entry e_shstrndx of a section table. */
  function StrRange(h: Bytes, shdrs: Bytes): Range
    requires HasEhdr(h) && EntriesFit(h) && |shdrs| == Shnum(h) * Shentsize(h) && Shstrndx(h) < Shnum(h)
  {
    EntryInside(Shnum(h), Shentsize(h), Shstrndx(h), ShdrSize(Is64(h)));
    ParseSection(Is64(h), shdrs, Shstrndx(h) * ShdrSize(Is64(h)))
  }

  predicate HasPhdrs(image: Bytes) {
    HasEhdr(image) && EntriesFit(Header(image)) && Inside(image, PhdrRange(Header(image)))
  }

  /** The number of program headers. */
  function Count(image: Bytes): nat
    requires HasPhdrs(image)
  {
    Phnum(Header(image))
  }

  /** The i-th program header of an image as the loader reads it, at multiples of its structure. */
  function SegmentAt(image: Bytes, i: nat): Segment
    requires HasPhdrs(image) && i < Count(image)
  {
    var h := Header(image);
    EntryInside(Phnum(h), Phentsize(h), i, PhdrSize(Is64(h)));
    ParseSegment(Is64(h), image, Phoff(h) + i * PhdrSize(Is64(h)))
  }

  /** The i-th program header where the format puts it, at multiples of e_phentsize. */
  function FormatSegment(image: Bytes, i: nat): Segment
    requires HasPhdrs(image) && i < Count(image)
  {
    var h := Header(image);
    EntryInside(Phnum(h), Phentsize(h), i, PhdrSize(Is64(h)));
    ParseSegment(Is64(h), image, Phoff(h) + i * Phentsize(h))
  }

  /** The loader reads an entry where the format puts it exactly if it is the first or e_phentsize is
      the size of its structure. */
  lemma ReadsTheFormat(image: Bytes, i: nat)
    requires HasPhdrs(image) && i < Count(image)
    ensures var h := Header(image);
            && (Phoff(h) + i * PhdrSize(Is64(h)) == Phoff(h) + i * Phentsize(h) <==> i == 0 || Phentsize(h) == PhdrSize(Is64(h)))
            && (i == 0 || Phentsize(h) == PhdrSize(Is64(h)) ==> SegmentAt(image, i) == FormatSegment(image, i))
  {
    hide ParseSegment, Phoff, Phentsize, PhdrSize;
    var h := Header(image);
    StridesDiffer(i, PhdrSize(Is64(h)), Phentsize(h));
  }

  lemma StridesDiffer(i: nat, entry: nat, size: nat)
    ensures i * entry == i * size <==> i == 0 || entry == size
  {
    if entry < size && i > 0 {
      Positive(i, size - entry);
      assert i * size == i * entry + i * (size - entry);
    }
    if size < entry && i > 0 {
      Positive(i, entry - size);
      assert i * entry == i * size + i * (entry - size);
    }
  }

  lemma Positive(a: nat, b: nat)
    requires a > 0 && b > 0
    ensures a * b > 0
  {}

  predicate IsLoad(image: Bytes, i: nat)
    requires HasPhdrs(image) && i < Count(image)
  {
    SegmentAt(image, i).ptype == PT_LOAD
  }

  /** The loadable segments from index `from` on, in header order. */
  function Loads(image: Bytes, from: nat): seq<nat>
    requires HasPhdrs(image)
    decreases Count(image) - from
  {
    if from >= Count(image) then []
    else (if IsLoad(image, from) then [from] else []) + Loads(image, from + 1)
  }

  /** Every loadable segment appears exactly once, in increasing order. */
  lemma {:induction false} LoadsAreAll(image: Bytes, from: nat)
    requires HasPhdrs(image)
    ensures forall k :: 0 <= k < |Loads(image, from)| ==>
              from <= Loads(image, from)[k] < Count(image) && IsLoad(image, Loads(image, from)[k])
    ensures forall j, k :: 0 <= j < k < |Loads(image, from)| ==> Loads(image, from)[j] < Loads(image, from)[k]
    ensures forall i :: from <= i < Count(image) && IsLoad(image, i) ==> i in Loads(image, from)
    decreases Count(image) - from
  {
    hide SegmentAt, HasPhdrs, Count, IsLoad;
    if from < Count(image) { LoadsAreAll(image, from + 1); }
  }

  /** Skipping entries that are not loadable. */
  lemma {:induction false} LoadsSkip(image: Bytes, from: nat, steps: nat)
    requires HasPhdrs(image) && from + steps <= Count(image)
    requires forall i :: from <= i < from + steps ==> !IsLoad(image, i)
    ensures Loads(image, from) == Loads(image, from + steps)
    decreases steps
  {
    hide SegmentAt, HasPhdrs, Count, IsLoad;
    if steps > 0 { LoadsSkip(image, from + 1, steps - 1); }
  }
}
