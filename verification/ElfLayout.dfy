/** The layout of ELF structures, told apart from how the loader reads them: each structure is its
    fields laid one after the other, in the format's order and with the format's widths.  What the
    loader reads of any image laid out so is what was laid out. */
module ElfLayout {
  import opened ElfFormat
  import opened ElfLoader

  // ---- Fields ----

  // A number and how many bytes it takes.
  datatype Field = Field(value: nat, width: nat)

  function Power(n: nat): nat { if n == 0 then 1 else 256 * Power(n - 1) }

  predicate Fits(f: Field) { f.value < Power(f.width) }

  /** A number in n bytes, the lowest first. */
  function Put(v: nat, n: nat): (b: Bytes)
    ensures |b| == n
  {
    if n == 0 then [] else [v % 256] + Put(v / 256, n - 1)
  }

  function Lay(fields: seq<Field>): (b: Bytes)
    ensures |b| == Width(fields)
  {
    if fields == [] then [] else Put(fields[0].value, fields[0].width) + Lay(fields[1..])
  }

  function Width(fields: seq<Field>): nat { if fields == [] then 0 else fields[0].width + Width(fields[1..]) }

  /** Where the i-th field begins. */
  function Offset(fields: seq<Field>, i: nat): nat
    requires i <= |fields|
  {
    if i == 0 then 0 else fields[0].width + Offset(fields[1..], i - 1)
  }

  /** b has `part` from byte `at` on. */
  predicate Has(b: Bytes, at: nat, part: Bytes) { at + |part| <= |b| && b[at..at + |part|] == part }

  lemma HasParts(b: Bytes, at: nat, x: Bytes, y: Bytes)
    requires Has(b, at, x + y)
    ensures Has(b, at, x) && Has(b, at + |x|, y)
  {
    var s := b[at..at + |x + y|];
    assert s[..|x|] == x && s[|x|..] == y;
    assert b[at..at + |x|] == s[..|x|];
    assert b[at + |x|..at + |x| + |y|] == s[|x|..];
  }

  /** Reading a number gives back what was put. */
  lemma {:induction false} ReadPut(b: Bytes, at: nat, v: nat, n: nat)
    requires v < Power(n) && Has(b, at, Put(v, n))
    ensures at + n <= |b| && Le(b, at, n) == v
    decreases n
  {
    if n > 0 {
      HasParts(b, at, [v % 256], Put(v / 256, n - 1));
      assert b[at..at + 1] == [v % 256];
      assert b[at] == v % 256;
      ReadPut(b, at + 1, v / 256, n - 1);
    }
  }

  /** Reading a field where it was laid. */
  lemma {:induction false} ReadField(b: Bytes, at: nat, fields: seq<Field>, i: nat)
    requires i < |fields| && Fits(fields[i]) && Has(b, at, Lay(fields))
    ensures at + Offset(fields, i) + fields[i].width <= |b|
    ensures Le(b, at + Offset(fields, i), fields[i].width) == fields[i].value
    decreases i
  {
    hide Le, Power;
    var first := Put(fields[0].value, fields[0].width);
    HasParts(b, at, first, Lay(fields[1..]));
    if i == 0 {
      ReadPut(b, at, fields[0].value, fields[0].width);
    } else {
      ReadField(b, at + fields[0].width, fields[1..], i - 1);
    }
  }

  // ---- Structures ----

  datatype Phdr = Phdr(ptype: nat, flags: nat, offset: nat, vaddr: nat, paddr: nat, filesz: nat, memsz: nat, align: nat)

  function PhdrFields(is64: bool, p: Phdr): seq<Field> {
    if is64 then [Field(p.ptype, 4), Field(p.flags, 4), Field(p.offset, 8), Field(p.vaddr, 8), Field(p.paddr, 8),
                  Field(p.filesz, 8), Field(p.memsz, 8), Field(p.align, 8)]
    else [Field(p.ptype, 4), Field(p.offset, 4), Field(p.vaddr, 4), Field(p.paddr, 4),
          Field(p.filesz, 4), Field(p.memsz, 4), Field(p.flags, 4), Field(p.align, 4)]
  }

  datatype Shdr = Shdr(name: nat, shtype: nat, flags: nat, addr: nat, offset: nat, size: nat, link: nat, info: nat,
                       addralign: nat, entsize: nat)

  function ShdrFields(is64: bool, s: Shdr): seq<Field> {
    var w := if is64 then 8 else 4;
    [Field(s.name, 4), Field(s.shtype, 4), Field(s.flags, w), Field(s.addr, w), Field(s.offset, w), Field(s.size, w),
     Field(s.link, 4), Field(s.info, 4), Field(s.addralign, w), Field(s.entsize, w)]
  }

  // e_ident is sixteen bytes, of which `ident` are the four before and the eleven after EI_CLASS.
  datatype Ehdr = Ehdr(is64: bool, magic: nat, ident: nat, etype: nat, machine: nat, version: nat, entry: nat, phoff: nat,
                       shoff: nat, flags: nat, ehsize: nat, phentsize: nat, phnum: nat, shentsize: nat, shnum: nat,
                       shstrndx: nat)

  function EhdrFields(e: Ehdr): seq<Field> {
    var w := if e.is64 then 8 else 4;
    [Field(e.magic, 4), Field(if e.is64 then 2 else 1, 1), Field(e.ident, 11),
     Field(e.etype, 2), Field(e.machine, 2), Field(e.version, 4), Field(e.entry, w), Field(e.phoff, w), Field(e.shoff, w),
     Field(e.flags, 4), Field(e.ehsize, 2), Field(e.phentsize, 2), Field(e.phnum, 2), Field(e.shentsize, 2),
     Field(e.shnum, 2), Field(e.shstrndx, 2)]
  }

  predicate AllFit(fields: seq<Field>) { forall i :: 0 <= i < |fields| ==> Fits(fields[i]) }

  lemma OffsetStep(fields: seq<Field>, i: nat)
    requires i < |fields|
    ensures Offset(fields, i + 1) == Offset(fields, i) + fields[i].width
    decreases i
  {
    if i > 0 { OffsetStep(fields[1..], i - 1); }
  }

  /** A field by its place: what the loader reads there. */
  lemma ReadAt(b: Bytes, at: nat, fields: seq<Field>, i: nat, offset: nat, width: nat)
    requires AllFit(fields) && i < |fields| && Has(b, at, Lay(fields)) && offset == Offset(fields, i) && width == fields[i].width
    ensures at + offset + width <= |b| && Le(b, at + offset, width) == fields[i].value
  {
    hide Le, Has, Lay, Fits;
    ReadField(b, at, fields, i);
  }

  /** The sum of the widths before a field, for the few fields there are. */
  lemma {:induction false} Offsets(fields: seq<Field>, n: nat)
    requires n <= |fields|
    ensures Offset(fields, 0) == 0
    ensures forall i :: 0 <= i < n ==> Offset(fields, i + 1) == Offset(fields, i) + fields[i].width
    decreases n
  {
    if n > 0 {
      Offsets(fields, n - 1);
      OffsetStep(fields, n - 1);
    }
  }

  lemma {:induction false} WidthIsLast(fields: seq<Field>)
    ensures Width(fields) == Offset(fields, |fields|)
  {
    if fields != [] { WidthIsLast(fields[1..]); }
  }

  /** A program header laid anywhere is read back. */
  lemma PhdrIsRead(is64: bool, b: Bytes, at: nat, p: Phdr)
    requires AllFit(PhdrFields(is64, p)) && Has(b, at, Lay(PhdrFields(is64, p)))
    ensures Width(PhdrFields(is64, p)) == PhdrSize(is64) && at + PhdrSize(is64) <= |b|
    ensures ParseSegment(is64, b, at) == Segment(p.ptype, p.offset, p.paddr, p.filesz, p.memsz)
  {
    hide Le, Lay, Has, Fits, Offset, Width, AllFit;
    var f := PhdrFields(is64, p);
    PhdrOffsets(is64, p);
    HasLength(b, at, f);
    ReadAt(b, at, f, 0, 0, 4);
    if is64 {
      ReadAt(b, at, f, 2, 8, 8);
      ReadAt(b, at, f, 4, 24, 8);
      ReadAt(b, at, f, 5, 32, 8);
      ReadAt(b, at, f, 6, 40, 8);
    } else {
      ReadAt(b, at, f, 1, 4, 4);
      ReadAt(b, at, f, 3, 12, 4);
      ReadAt(b, at, f, 4, 16, 4);
      ReadAt(b, at, f, 5, 20, 4);
    }
  }

  lemma PhdrOffsets(is64: bool, p: Phdr)
    ensures var f := PhdrFields(is64, p);
            && Offset(f, 0) == 0 && Width(f) == PhdrSize(is64)
            && (is64 ==> Offset(f, 2) == 8 && Offset(f, 4) == 24 && Offset(f, 5) == 32 && Offset(f, 6) == 40)
            && (!is64 ==> Offset(f, 1) == 4 && Offset(f, 3) == 12 && Offset(f, 4) == 16 && Offset(f, 5) == 20)
  {
    hide Offset, Width;
    var f := PhdrFields(is64, p);
    Offsets(f, 8);
    WidthIsLast(f);
    assert Offset(f, 0 + 1) == f[0].width && Offset(f, 1 + 1) == Offset(f, 1) + f[1].width;
    assert Offset(f, 2 + 1) == Offset(f, 2) + f[2].width && Offset(f, 3 + 1) == Offset(f, 3) + f[3].width;
    assert Offset(f, 4 + 1) == Offset(f, 4) + f[4].width && Offset(f, 5 + 1) == Offset(f, 5) + f[5].width;
    assert Offset(f, 6 + 1) == Offset(f, 6) + f[6].width && Offset(f, 7 + 1) == Offset(f, 7) + f[7].width;
  }

  lemma HasLength(b: Bytes, at: nat, fields: seq<Field>)
    requires Has(b, at, Lay(fields))
    ensures at + Width(fields) <= |b|
  {}

  /** A section header laid anywhere is read back. */
  lemma ShdrIsRead(is64: bool, b: Bytes, at: nat, s: Shdr)
    requires AllFit(ShdrFields(is64, s)) && Has(b, at, Lay(ShdrFields(is64, s)))
    ensures Width(ShdrFields(is64, s)) == ShdrSize(is64) && at + ShdrSize(is64) <= |b|
    ensures ParseSection(is64, b, at) == Range(s.offset, s.size)
  {
    hide Le, Lay, Has, Fits, Offset, Width, AllFit;
    var f := ShdrFields(is64, s);
    ShdrOffsets(is64, s);
    HasLength(b, at, f);
    ReadAt(b, at, f, 4, if is64 then 24 else 16, if is64 then 8 else 4);
    ReadAt(b, at, f, 5, if is64 then 32 else 20, if is64 then 8 else 4);
  }

  lemma ShdrOffsets(is64: bool, s: Shdr)
    ensures var f := ShdrFields(is64, s);
            Width(f) == ShdrSize(is64) && Offset(f, 4) == (if is64 then 24 else 16) && Offset(f, 5) == if is64 then 32 else 20
  {
    hide Offset, Width;
    var f := ShdrFields(is64, s);
    Offsets(f, 10);
    WidthIsLast(f);
    assert Offset(f, 0 + 1) == f[0].width && Offset(f, 1 + 1) == Offset(f, 1) + f[1].width;
    assert Offset(f, 2 + 1) == Offset(f, 2) + f[2].width && Offset(f, 3 + 1) == Offset(f, 3) + f[3].width;
    assert Offset(f, 4 + 1) == Offset(f, 4) + f[4].width && Offset(f, 5 + 1) == Offset(f, 5) + f[5].width;
    assert Offset(f, 6 + 1) == Offset(f, 6) + f[6].width && Offset(f, 7 + 1) == Offset(f, 7) + f[7].width;
    assert Offset(f, 8 + 1) == Offset(f, 8) + f[8].width && Offset(f, 9 + 1) == Offset(f, 9) + f[9].width;
  }

  lemma EhdrOffsets(e: Ehdr)
    ensures var f := EhdrFields(e);
            var w := if e.is64 then 8 else 4;
            && Offset(f, 1) == 4 && Offset(f, 7) == 24 + w && Offset(f, 8) == 24 + 2 * w
            && Offset(f, 11) == 24 + 3 * w + 6 && Offset(f, 12) == 24 + 3 * w + 8 && Offset(f, 13) == 24 + 3 * w + 10
            && Offset(f, 14) == 24 + 3 * w + 12 && Offset(f, 15) == 24 + 3 * w + 14 && Width(f) == 24 + 3 * w + 16
  {
    hide Offset, Width;
    var f := EhdrFields(e);
    Offsets(f, 16);
    WidthIsLast(f);
    assert Offset(f, 0 + 1) == f[0].width && Offset(f, 1 + 1) == Offset(f, 1) + f[1].width;
    assert Offset(f, 2 + 1) == Offset(f, 2) + f[2].width && Offset(f, 3 + 1) == Offset(f, 3) + f[3].width;
    assert Offset(f, 4 + 1) == Offset(f, 4) + f[4].width && Offset(f, 5 + 1) == Offset(f, 5) + f[5].width;
    assert Offset(f, 6 + 1) == Offset(f, 6) + f[6].width && Offset(f, 7 + 1) == Offset(f, 7) + f[7].width;
    assert Offset(f, 8 + 1) == Offset(f, 8) + f[8].width && Offset(f, 9 + 1) == Offset(f, 9) + f[9].width;
    assert Offset(f, 10 + 1) == Offset(f, 10) + f[10].width && Offset(f, 11 + 1) == Offset(f, 11) + f[11].width;
    assert Offset(f, 12 + 1) == Offset(f, 12) + f[12].width && Offset(f, 13 + 1) == Offset(f, 13) + f[13].width;
    assert Offset(f, 14 + 1) == Offset(f, 14) + f[14].width && Offset(f, 15 + 1) == Offset(f, 15) + f[15].width;
  }

  /** The fields of the header the loader uses. */
  predicate Reads(h: Bytes, e: Ehdr) {
    && HasEhdr(h) && Is64(h) == e.is64 && Phoff(h) == e.phoff && Shoff(h) == e.shoff
    && Phentsize(h) == e.phentsize && Phnum(h) == e.phnum && Shentsize(h) == e.shentsize && Shnum(h) == e.shnum
    && Shstrndx(h) == e.shstrndx
  }

  /** An ELF header at the start of an image is read back. */
  lemma EhdrIsRead(image: Bytes, e: Ehdr)
    requires AllFit(EhdrFields(e)) && Has(image, 0, Lay(EhdrFields(e)))
    ensures HasEhdr(image) && Reads(Header(image), e)
  {
    hide Lay, Fits, Offset, Width, AllFit, Le, Has;
    var f := EhdrFields(e);
    EhdrOffsets(e);
    HasLength(image, 0, f);
    ReadAt(image, 0, f, 1, 4, 1);
    OneByte(image, 4);
    var h := Header(image);
    HasInPrefix(image, Lay(f), EhdrSize(image));
    var w := if e.is64 then 8 else 4;
    ReadAt(h, 0, f, 7, 24 + w, w);
    ReadAt(h, 0, f, 8, 24 + 2 * w, w);
    ReadAt(h, 0, f, 11, 24 + 3 * w + 6, 2);
    ReadAt(h, 0, f, 12, 24 + 3 * w + 8, 2);
    ReadAt(h, 0, f, 13, 24 + 3 * w + 10, 2);
    ReadAt(h, 0, f, 14, 24 + 3 * w + 12, 2);
    ReadAt(h, 0, f, 15, 24 + 3 * w + 14, 2);
  }

  lemma OneByte(b: Bytes, at: nat)
    requires at < |b|
    ensures Le(b, at, 1) == b[at]
  {
    assert Le(b, at + 1, 0) == 0;
  }

  lemma HasInPrefix(b: Bytes, part: Bytes, n: nat)
    requires Has(b, 0, part) && |part| <= n <= |b|
    ensures Has(b[..n], 0, part)
  {
    assert b[..n][0..|part|] == b[0..|part|];
  }

  // ---- Whole images ----

  /** Structures of one size, one after the other. */
  function Table(entries: seq<Bytes>): Bytes {
    if entries == [] then [] else entries[0] + Table(entries[1..])
  }

  lemma {:induction false} TableLength(entries: seq<Bytes>, size: nat)
    requires forall k :: 0 <= k < |entries| ==> |entries[k]| == size
    ensures |Table(entries)| == |entries| * size
  {
    if entries != [] {
      TableLength(entries[1..], size);
      NextMultiple(|entries| - 1, size);
    }
  }

  lemma NextMultiple(n: nat, size: nat)
    ensures (n + 1) * size == n * size + size
  {}

  lemma {:induction false} TableEntries(b: Bytes, at: nat, entries: seq<Bytes>, size: nat, i: nat)
    requires Has(b, at, Table(entries)) && forall k :: 0 <= k < |entries| ==> |entries[k]| == size
    requires i < |entries|
    ensures Has(b, at + i * size, entries[i])
    decreases i
  {
    hide Has;
    HasParts(b, at, entries[0], Table(entries[1..]));
    if i == 0 {
      assert at + 0 * size == at;
    } else {
      TableEntries(b, at + size, entries[1..], size, i - 1);
      NextMultiple(i - 1, size);
    }
  }

  function PhdrTable(is64: bool, phdrs: seq<Phdr>): (r: seq<Bytes>)
    ensures |r| == |phdrs| && forall i :: 0 <= i < |phdrs| ==> r[i] == Lay(PhdrFields(is64, phdrs[i]))
  {
    seq(|phdrs|, i requires 0 <= i < |phdrs| => Lay(PhdrFields(is64, phdrs[i])))
  }

  function ShdrTable(is64: bool, shdrs: seq<Shdr>): (r: seq<Bytes>)
    ensures |r| == |shdrs| && forall i :: 0 <= i < |shdrs| ==> r[i] == Lay(ShdrFields(is64, shdrs[i]))
  {
    seq(|shdrs|, i requires 0 <= i < |shdrs| => Lay(ShdrFields(is64, shdrs[i])))
  }

  /** An image with this ELF header and, where it says, these program headers and section headers. */
  predicate LaidOut(image: Bytes, e: Ehdr, phdrs: seq<Phdr>, shdrs: seq<Shdr>) {
    && AllFit(EhdrFields(e)) && Has(image, 0, Lay(EhdrFields(e)))
    && e.phnum == |phdrs| && e.shnum == |shdrs| && e.phentsize == PhdrSize(e.is64) && e.shentsize == ShdrSize(e.is64)
    && (forall i :: 0 <= i < |phdrs| ==> AllFit(PhdrFields(e.is64, phdrs[i])))
    && (forall i :: 0 <= i < |shdrs| ==> AllFit(ShdrFields(e.is64, shdrs[i])))
    && Has(image, e.phoff, Table(PhdrTable(e.is64, phdrs))) && Has(image, e.shoff, Table(ShdrTable(e.is64, shdrs)))
  }

  lemma LaidOutHeader(image: Bytes, e: Ehdr, phdrs: seq<Phdr>, shdrs: seq<Shdr>)
    requires LaidOut(image, e, phdrs, shdrs)
    ensures HasEhdr(image) && Reads(Header(image), e)
    ensures e.phnum == |phdrs| && e.shnum == |shdrs| && e.phentsize == PhdrSize(e.is64) && e.shentsize == ShdrSize(e.is64)
  {
    hide Table, Lay, Has, AllFit, PhdrFields, ShdrFields, EhdrFields, Reads;
    EhdrIsRead(image, e);
  }

  /** A table that lies in an image: its range is inside, it is what is cut out, and its entries are at
      multiples of their size. */
  lemma TableInside(image: Bytes, at: nat, entries: seq<Bytes>, size: nat)
    requires Has(image, at, Table(entries)) && forall k :: 0 <= k < |entries| ==> |entries[k]| == size
    ensures var range := Range(at, |entries| * size); Inside(image, range) && Cut(image, range) == Table(entries)
    ensures forall i :: 0 <= i < |entries| ==> Has(image, at + i * size, entries[i]) && Has(Table(entries), 0 + i * size, entries[i])
  {
    hide Has, Table, Inside, Cut;
    var table := Table(entries);
    TableLength(entries, size);
    HasIsCut(image, at, table);
    HasItself(table);
    forall i | 0 <= i < |entries|
      ensures Has(image, at + i * size, entries[i]) && Has(table, 0 + i * size, entries[i])
    {
      TableEntries(image, at, entries, size, i);
      TableEntries(table, 0, entries, size, i);
    }
  }

  lemma HasItself(b: Bytes)
    ensures Has(b, 0, b)
  {
    assert b[0..|b|] == b;
  }

  lemma HasIsCut(b: Bytes, at: nat, part: Bytes)
    requires Has(b, at, part)
    ensures Inside(b, Range(at, |part|)) && Cut(b, Range(at, |part|)) == part
  {}

  lemma LaidOutPhdrs(image: Bytes, e: Ehdr, phdrs: seq<Phdr>, shdrs: seq<Shdr>)
    requires LaidOut(image, e, phdrs, shdrs)
    ensures var range := Range(e.phoff, |phdrs| * PhdrSize(e.is64));
            Inside(image, range) && Cut(image, range) == Table(PhdrTable(e.is64, phdrs))
    ensures forall i :: 0 <= i < |phdrs| ==>
              && Has(image, e.phoff + i * PhdrSize(e.is64), Lay(PhdrFields(e.is64, phdrs[i])))
              && AllFit(PhdrFields(e.is64, phdrs[i]))
  {
    hide Table, Lay, Has, AllFit, PhdrFields, ShdrFields, EhdrFields, PhdrTable, ShdrTable, Cut, Inside, PhdrSize;
    var entries := PhdrTable(e.is64, phdrs);
    forall k | 0 <= k < |entries| ensures |entries[k]| == PhdrSize(e.is64) { PhdrOffsets(e.is64, phdrs[k]); }
    TableInside(image, e.phoff, entries, PhdrSize(e.is64));
  }

  lemma LaidOutShdrs(image: Bytes, e: Ehdr, phdrs: seq<Phdr>, shdrs: seq<Shdr>)
    requires LaidOut(image, e, phdrs, shdrs)
    ensures var range, table := Range(e.shoff, |shdrs| * ShdrSize(e.is64)), Table(ShdrTable(e.is64, shdrs));
            && Inside(image, range) && Cut(image, range) == table
            && forall i :: 0 <= i < |shdrs| ==>
                 && Has(table, 0 + i * ShdrSize(e.is64), Lay(ShdrFields(e.is64, shdrs[i])))
                 && AllFit(ShdrFields(e.is64, shdrs[i]))
  {
    hide Table, Lay, Has, AllFit, PhdrFields, ShdrFields, EhdrFields, PhdrTable, ShdrTable, Cut, Inside, ShdrSize;
    var entries := ShdrTable(e.is64, shdrs);
    forall k | 0 <= k < |entries| ensures |entries[k]| == ShdrSize(e.is64) { ShdrOffsets(e.is64, shdrs[k]); }
    TableInside(image, e.shoff, entries, ShdrSize(e.is64));
  }

  lemma LaidOutFits(image: Bytes, e: Ehdr, phdrs: seq<Phdr>, shdrs: seq<Shdr>)
    requires LaidOut(image, e, phdrs, shdrs)
    ensures HasPhdrs(image) && Count(image) == |phdrs|
    ensures Cut(image, PhdrRange(Header(image))) == Table(PhdrTable(e.is64, phdrs))
    ensures Inside(image, ShdrRange(Header(image))) && Cut(image, ShdrRange(Header(image))) == Table(ShdrTable(e.is64, shdrs))
    ensures NamesFound(image) <==> e.shstrndx < |shdrs|
  {
    hide LaidOut, Table, Phoff, Shoff, Phnum, Phentsize, Shnum, Shentsize, Shstrndx, Cut, Inside;
    LaidOutHeader(image, e, phdrs, shdrs);
    LaidOutPhdrs(image, e, phdrs, shdrs);
    LaidOutShdrs(image, e, phdrs, shdrs);
  }

  lemma LaidOutSegment(image: Bytes, e: Ehdr, phdrs: seq<Phdr>, shdrs: seq<Shdr>, i: nat)
    requires LaidOut(image, e, phdrs, shdrs) && i < |phdrs| && HasPhdrs(image) && Count(image) == |phdrs|
    ensures SegmentAt(image, i) == Segment(phdrs[i].ptype, phdrs[i].offset, phdrs[i].paddr, phdrs[i].filesz, phdrs[i].memsz)
  {
    hide LaidOut, Table, Lay, Has, AllFit, PhdrFields, Le, Phoff, Shoff, Phnum, Phentsize, Shnum, Shentsize, Shstrndx, ParseSegment, PhdrSize, Cut, Inside, HasPhdrs, Count;
    LaidOutHeader(image, e, phdrs, shdrs);
    LaidOutPhdrs(image, e, phdrs, shdrs);
    PhdrIsRead(e.is64, image, e.phoff + i * PhdrSize(e.is64), phdrs[i]);
  }

  lemma LaidOutNames(image: Bytes, e: Ehdr, phdrs: seq<Phdr>, shdrs: seq<Shdr>)
    requires LaidOut(image, e, phdrs, shdrs) && e.shstrndx < |shdrs| && NamesFound(image)
    ensures NameTable(image) == Range(shdrs[e.shstrndx].offset, shdrs[e.shstrndx].size)
  {
    hide LaidOut, Table, Lay, Has, AllFit, ShdrFields, Le, Phoff, Shoff, Phnum, Phentsize, Shnum, Shentsize, Shstrndx, ParseSection, ShdrSize, Cut, Inside, NamesFound;
    LaidOutHeader(image, e, phdrs, shdrs);
    LaidOutShdrs(image, e, phdrs, shdrs);
    var i := e.shstrndx;
    ShdrIsRead(e.is64, Table(ShdrTable(e.is64, shdrs)), 0 + i * ShdrSize(e.is64), shdrs[i]);
  }

  /** The loader reads a laid-out image as it was laid out: the tables it saves are the image's, each
      program header is the one at its place, and the section names are where their header says. */
  lemma LaidOutIsRead(image: Bytes, e: Ehdr, phdrs: seq<Phdr>, shdrs: seq<Shdr>)
    requires LaidOut(image, e, phdrs, shdrs)
    ensures HasPhdrs(image) && Count(image) == |phdrs|
    ensures forall i :: 0 <= i < |phdrs| ==>
              SegmentAt(image, i) == Segment(phdrs[i].ptype, phdrs[i].offset, phdrs[i].paddr, phdrs[i].filesz, phdrs[i].memsz)
    ensures Cut(image, PhdrRange(Header(image))) == Table(PhdrTable(e.is64, phdrs))
    ensures Inside(image, ShdrRange(Header(image))) && Cut(image, ShdrRange(Header(image))) == Table(ShdrTable(e.is64, shdrs))
    ensures NamesFound(image) <==> e.shstrndx < |shdrs|
    ensures e.shstrndx < |shdrs| ==> NameTable(image) == Range(shdrs[e.shstrndx].offset, shdrs[e.shstrndx].size)
  {
    hide LaidOut, Table, PhdrTable, ShdrTable, SegmentAt, Cut, Inside, NamesFound, NameTable, Count;
    LaidOutFits(image, e, phdrs, shdrs);
    forall i | 0 <= i < |phdrs|
      ensures SegmentAt(image, i) == Segment(phdrs[i].ptype, phdrs[i].offset, phdrs[i].paddr, phdrs[i].filesz, phdrs[i].memsz)
    {
      LaidOutSegment(image, e, phdrs, shdrs, i);
    }
    if e.shstrndx < |shdrs| { LaidOutNames(image, e, phdrs, shdrs); }
  }
}
