/**
 * The PVH ELF loader of crates/vmm-boot/src/elf.rs and the initrd placement of
 * crates/vmm-boot/src/initrd.rs.
 */
module PvhBoot {
  import opened Prelude
  import opened ElfNotes

  const EHDR_SIZE: nat := 64
  const PHDR_SIZE: nat := 56
  const EM_X86_64: int := 0x3E
  const PT_LOAD: int := 1
  const PT_NOTE: int := 4
  const LOWMEM_LIMIT: int := 0xC000_0000

  datatype Phdr = Phdr(ptype: int, offset: int, paddr: int, filesz: int, memsz: int)
  {
    predicate Loads() { ptype == PT_LOAD && filesz > 0 }
  }

  datatype Segment = Segment(paddr: int, fileOffset: int, filesz: int)

  datatype Kernel = Kernel(entry32: int, segments: seq<Segment>, loadEnd: int)

  datatype ElfError =
    | TooSmall | BadMagic | NotElf64 | NotLittleEndian | WrongMachine | BadEntrySize
    | TableOverlapsHeader | TableOutsideFile | RangeOverflows | LoadOutsideFile | LoadOverflows
    | NoteOutsideFile | BadNote | NoEntry | NoSegments

  function Read16(b: seq<byte>, at: nat): int
    requires at + 2 <= |b|
  {
    Le16(b[at], b[at + 1])
  }

  function Read64(b: seq<byte>, at: nat): int
    requires at + 8 <= |b|
  {
    Le64(b[at..at + 8])
  }

  function PhdrAt(b: seq<byte>, at: nat): Phdr
    requires at + PHDR_SIZE <= |b|
  {
    Phdr(Read32(b, at), Read64(b, at + 8), Read64(b, at + 24), Read64(b, at + 32), Read64(b, at + 40))
  }

  // ----- the headers as a list

  /** What a header must satisfy whatever the others say. */
  predicate HeaderOk(h: Phdr, size: int)
  {
    && 0 <= h.offset && 0 <= h.filesz && h.offset + h.filesz <= U64_MAX
    && (h.Loads() ==> h.offset + h.filesz <= size && h.paddr + h.memsz <= U64_MAX)
    && (h.ptype == PT_NOTE ==> h.offset + h.filesz <= size)
  }

  predicate HeadersOk(b: seq<byte>, hs: seq<Phdr>)
  {
    forall i :: 0 <= i < |hs| ==> HeaderOk(hs[i], |b|)
  }

  /** The loadable segments, in header order. */
  function Segments(hs: seq<Phdr>): seq<Segment>
  {
    if hs == [] then []
    else
      var h := hs[|hs| - 1];
      Segments(hs[..|hs| - 1]) + if h.Loads() then [Segment(h.paddr, h.offset, h.filesz)] else []
  }

  /** The highest end of a loadable segment in guest memory. */
  function LoadEnd(hs: seq<Phdr>): int
  {
    if hs == [] then 0
    else
      var h := hs[|hs| - 1];
      var before := LoadEnd(hs[..|hs| - 1]);
      if h.Loads() && h.paddr + h.memsz > before then h.paddr + h.memsz else before
  }

  /** The entry point: the first note segment that holds one decides, and one before it may be malformed. */
  function EntryOf(b: seq<byte>, hs: seq<Phdr>): Result<Option<int>, NoteError>
    requires HeadersOk(b, hs)
  {
    if hs == [] then Ok(None)
    else
      var h := hs[|hs| - 1];
      var before := EntryOf(b, hs[..|hs| - 1]);
      assert HeaderOk(h, |b|);
      if before == Ok(None) && h.ptype == PT_NOTE then Walk(b[h.offset..h.offset + h.filesz], 0) else before
  }

  ghost predicate InTable(b: seq<byte>, phoff: int, hs: seq<Phdr>)
    requires 0 <= phoff
  {
    && (hs != [] ==> phoff + |hs| * PHDR_SIZE <= |b|)
    && forall i :: 0 <= i < |hs| ==> hs[i] == PhdrAt(b, phoff + i * PHDR_SIZE)
  }

  /** The checks on the fixed header. */
  function IdentError(b: seq<byte>): Option<ElfError>
  {
    if |b| < EHDR_SIZE then Some(TooSmall)
    else if b[0..4] != [0x7F, 0x45, 0x4C, 0x46] then Some(BadMagic)
    else if b[4] != 2 then Some(NotElf64)
    else if b[5] != 1 then Some(NotLittleEndian)
    else if Read16(b, 0x12) != EM_X86_64 then Some(WrongMachine)
    else if Read16(b, 0x36) != PHDR_SIZE then Some(BadEntrySize)
    else if Read64(b, 0x20) < EHDR_SIZE then Some(TableOverlapsHeader)
    else None
  }

  /** An image is accepted exactly when its headers fit, its notes name an entry and something loads. */
  ghost predicate Acceptable(b: seq<byte>, hs: seq<Phdr>)
  {
    && HeadersOk(b, hs)
    && EntryOf(b, hs).Ok? && EntryOf(b, hs).value.Some?
    && Segments(hs) != []
  }

  lemma HeaderSigns(b: seq<byte>, at: nat)
    requires at + PHDR_SIZE <= |b|
    ensures var h := PhdrAt(b, at);
            0 <= h.offset <= U64_MAX && 0 <= h.paddr <= U64_MAX && 0 <= h.filesz <= U64_MAX && 0 <= h.memsz <= U64_MAX
  {
  }

  /** Once a note is malformed, every longer list of headers reports it. */
  lemma {:induction false} BadNoteStays(b: seq<byte>, hs: seq<Phdr>, n: nat)
    requires HeadersOk(b, hs)
    requires n <= |hs| && EntryOf(b, hs[..n]).Err?
    ensures EntryOf(b, hs).Err?
    decreases |hs|
  {
    if n < |hs| {
      assert hs[..|hs| - 1][..n] == hs[..n];
      BadNoteStays(b, hs[..|hs| - 1], n);
    } else {
      assert hs[..n] == hs;
    }
  }

  /** What the header loop has gathered. */
  datatype Gathered = Gathered(segments: seq<Segment>, loadEnd: int, entry32: Option<int>)

  ghost predicate Gathers(b: seq<byte>, hs: seq<Phdr>, g: Gathered)
  {
    HeadersOk(b, hs) && g.segments == Segments(hs) && g.loadEnd == LoadEnd(hs) && EntryOf(b, hs) == Ok(g.entry32)
  }

  /** One program header of the loop. */
  method TakeHeader(b: seq<byte>, ghost hs: seq<Phdr>, h: Phdr, g: Gathered) returns (r: Result<Gathered, ElfError>)
    requires |b| <= I64_MAX && Gathers(b, hs, g) && 0 <= h.offset && 0 <= h.filesz
    ensures r.Ok? ==> Gathers(b, hs + [h], r.value)
    ensures r.Err? && r.error != BadNote ==> !HeaderOk(h, |b|)
    ensures r == Err(BadNote) ==> HeadersOk(b, hs + [h]) && EntryOf(b, hs + [h]).Err?
  {
    assert (hs + [h])[..|hs|] == hs;
    if h.offset + h.filesz > U64_MAX {
      return Err(RangeOverflows);
    }
    if h.ptype == PT_LOAD && h.filesz > 0 {
      if h.offset + h.filesz > |b| {
        return Err(LoadOutsideFile);
      }
      if h.paddr + h.memsz > U64_MAX {
        return Err(LoadOverflows);
      }
      return Ok(g.(loadEnd := if h.paddr + h.memsz > g.loadEnd then h.paddr + h.memsz else g.loadEnd,
                   segments := g.segments + [Segment(h.paddr, h.offset, h.filesz)]));
    }
    if h.ptype == PT_NOTE {
      if h.offset + h.filesz > |b| {
        return Err(NoteOutsideFile);
      }
      if g.entry32.None? {
        var found := FindXenPhys32Entry(b[h.offset..h.offset + h.filesz]);
        if found.Err? {
          return Err(BadNote);
        }
        return Ok(g.(entry32 := found.value));
      }
    }
    return Ok(g);
  }

  /** No list of `phnum` headers read from the table is acceptable. */
  ghost predicate Refused(b: seq<byte>, phoff: int, phnum: int)
    requires 0 <= phoff
  {
    forall all: seq<Phdr> :: |all| == phnum && InTable(b, phoff, all) ==> !Acceptable(b, all)
  }

  /** The next header of the table, and what it adds. */
  method TakeNext(b: seq<byte>, phoff: int, phnum: int, ghost hs: seq<Phdr>, i: nat, g: Gathered)
    returns (r: Result<Gathered, ElfError>, ghost out: seq<Phdr>)
    requires |b| <= I64_MAX && 0 <= phoff && i < phnum
    requires |hs| == i && InTable(b, phoff, hs) && Gathers(b, hs, g)
    ensures r.Ok? ==> |out| == i + 1 && InTable(b, phoff, out) && Gathers(b, out, r.value)
    ensures r.Err? ==> Refused(b, phoff, phnum)
  {
    out := hs;
    var at := phoff + i * PHDR_SIZE;
    if at + PHDR_SIZE > |b| {
      TableRefused(b, phoff, phnum, i);
      return Err(TableOutsideFile), out;
    }
    var h := PhdrAt(b, at);
    HeaderSigns(b, at);
    InTableSnoc(b, phoff, hs, h);
    out := hs + [h];
    r := TakeHeader(b, hs, h, g);
    if r.Err? {
      if r.error == BadNote {
        BadNoteRefused(b, phoff, phnum, out);
      } else {
        BadHeaderRefused(b, phoff, phnum, out);
      }
    }
  }

  lemma TableRefused(b: seq<byte>, phoff: nat, phnum: nat, i: nat)
    requires i < phnum && phoff + i * PHDR_SIZE + PHDR_SIZE > |b|
    ensures Refused(b, phoff, phnum)
  {
  }

  /** The header loop. */
  method TakeHeaders(b: seq<byte>, phoff: int, phnum: int) returns (r: Result<Gathered, ElfError>, ghost hs: seq<Phdr>)
    requires |b| <= I64_MAX && 0 <= phoff && 0 <= phnum
    ensures r.Ok? ==> |hs| == phnum && InTable(b, phoff, hs) && Gathers(b, hs, r.value)
    ensures r.Err? ==> Refused(b, phoff, phnum)
  {
    hs := [];
    var g := Gathered([], 0, None);
    for i := 0 to phnum
      invariant |hs| == i && InTable(b, phoff, hs) && Gathers(b, hs, g)
    {
      var step;
      step, hs := TakeNext(b, phoff, phnum, hs, i, g);
      if step.Err? {
        return Err(step.error), hs;
      }
      g := step.value;
    }
    return Ok(g), hs;
  }

  /** `PvhKernel::from_bytes`. */
  method FromBytes(b: seq<byte>) returns (r: Result<Kernel, ElfError>, ghost hs: seq<Phdr>)
    requires |b| <= I64_MAX
    ensures IdentError(b).Some? ==> r == Err(IdentError(b).value)
    ensures r.Ok? ==> IdentError(b).None? && |hs| == Read16(b, 0x38)
                      && InTable(b, Read64(b, 0x20), hs) && Acceptable(b, hs)
                      && r.value == Kernel(EntryOf(b, hs).value.value, Segments(hs), LoadEnd(hs))
    ensures r.Err? && IdentError(b).None? ==> Refused(b, Read64(b, 0x20), Read16(b, 0x38))
  {
    hs := [];
    var bad := IdentError(b);
    if bad.Some? {
      return Err(bad.value), hs;
    }
    var phoff := Read64(b, 0x20);
    var phnum := Read16(b, 0x38);
    var taken;
    taken, hs := TakeHeaders(b, phoff, phnum);
    if taken.Err? {
      return Err(taken.error), hs;
    }
    var g := taken.value;
    OnlyTable(b, phoff, hs);
    if g.entry32.None? {
      return Err(NoEntry), hs;
    }
    if g.segments == [] {
      return Err(NoSegments), hs;
    }
    return Ok(Kernel(g.entry32.value, g.segments, g.loadEnd)), hs;
  }

  lemma InTableSnoc(b: seq<byte>, phoff: nat, hs: seq<Phdr>, h: Phdr)
    requires InTable(b, phoff, hs) && phoff + (|hs| + 1) * PHDR_SIZE <= |b|
    requires h == PhdrAt(b, phoff + |hs| * PHDR_SIZE)
    ensures InTable(b, phoff, hs + [h])
  {
  }

  lemma OnlyTable(b: seq<byte>, phoff: nat, hs: seq<Phdr>)
    requires InTable(b, phoff, hs)
    ensures forall all: seq<Phdr> :: |all| == |hs| && InTable(b, phoff, all) ==> all == hs
  {
  }

  lemma BadHeaderRefused(b: seq<byte>, phoff: nat, phnum: nat, hs: seq<Phdr>)
    requires hs != [] && |hs| <= phnum && InTable(b, phoff, hs) && !HeaderOk(hs[|hs| - 1], |b|)
    ensures Refused(b, phoff, phnum)
  {
    forall all: seq<Phdr> | |all| == phnum && InTable(b, phoff, all)
      ensures !Acceptable(b, all)
    {
      assert all[|hs| - 1] == hs[|hs| - 1];
    }
  }

  lemma BadNoteRefused(b: seq<byte>, phoff: nat, phnum: nat, hs: seq<Phdr>)
    requires |hs| <= phnum && InTable(b, phoff, hs) && HeadersOk(b, hs) && EntryOf(b, hs).Err?
    ensures Refused(b, phoff, phnum)
  {
    forall all: seq<Phdr> | |all| == phnum && InTable(b, phoff, all)
      ensures !Acceptable(b, all)
    {
      if HeadersOk(b, all) {
        assert all[..|hs|] == hs;
        BadNoteStays(b, all, |hs|);
      }
    }
  }

  // ----- what an accepted image promises

  /** Every segment lies inside the file, below the load end wherever the file part does not exceed the memory part. */
  lemma {:induction false} SegmentsInside(hs: seq<Phdr>, size: int, s: Segment)
    requires (forall i :: 0 <= i < |hs| ==> HeaderOk(hs[i], size)) && s in Segments(hs)
    ensures s.fileOffset + s.filesz <= size && s.filesz > 0
    ensures exists h :: h in hs && h.Loads() && s == Segment(h.paddr, h.offset, h.filesz)
                        && h.paddr + h.memsz <= LoadEnd(hs)
  {
    var n := |hs| - 1;
    var before := hs[..n];
    var h := hs[n];
    assert forall g :: g in before ==> g in hs;
    if s in Segments(before) {
      SegmentsInside(before, size, s);
      var g :| g in before && g.Loads() && s == Segment(g.paddr, g.offset, g.filesz)
               && g.paddr + g.memsz <= LoadEnd(before);
      assert g in hs && g.paddr + g.memsz <= LoadEnd(hs);
    } else {
      assert h in hs && s == Segment(h.paddr, h.offset, h.filesz);
    }
  }

  // ----- the initrd

  datatype InitrdError = LargerThanLowmem | OverlapsKernel

  function RoundDown(x: int): int { x - x % PAGE_SIZE }

  function RoundUp(x: int): (y: int)
    ensures Aligned(y) && x <= y < x + PAGE_SIZE
  {
    RoundDown(x + PAGE_SIZE - 1)
  }

  function Lowmem(memSize: int): int { if memSize < LOWMEM_LIMIT then memSize else LOWMEM_LIMIT }

  /** `place_initrd`. */
  function PlaceInitrd(memSize: int, size: int, loadEnd: int): (r: Result<int, InitrdError>)
    requires 0 <= memSize <= U64_MAX && 0 <= size <= U64_MAX && 0 <= loadEnd <= U64_MAX
  {
    var top := Lowmem(memSize) - size;
    if top < 0 then Err(LargerThanLowmem)
    else if RoundDown(top) >= loadEnd then Ok(RoundDown(top))
    else Err(OverlapsKernel)
  }

  /** A page where the initrd fits low memory above the kernel. */
  predicate Fits(a: int, memSize: int, size: int, loadEnd: int)
  {
    Aligned(a) && loadEnd <= a && a + size <= Lowmem(memSize)
  }

  /** A place is found exactly when there is one, and it is the highest. */
  lemma PlacedHighest(memSize: int, size: int, loadEnd: int, a: int)
    requires 0 <= memSize <= U64_MAX && 0 <= size <= U64_MAX && 0 <= loadEnd <= U64_MAX
    ensures var r := PlaceInitrd(memSize, size, loadEnd);
            && (r.Ok? ==> Fits(r.value, memSize, size, loadEnd))
            && (Fits(a, memSize, size, loadEnd) ==> r.Ok? && a <= r.value)
  {
    var top := Lowmem(memSize) - size;
    if Fits(a, memSize, size, loadEnd) {
      RoundDownHighest(a, top);
    }
  }

  lemma RoundDownHighest(a: int, top: int)
    requires Aligned(a) && a <= top
    ensures a <= RoundDown(top)
  {
  }

  /** Every placed initrd misses every segment that stays within its memory size. */
  lemma InitrdClear(hs: seq<Phdr>, size: int, memSize: int, rd: int, s: Segment)
    requires (forall i :: 0 <= i < |hs| ==> HeaderOk(hs[i], size)) && s in Segments(hs)
    requires forall h :: h in hs && h.Loads() ==> h.filesz <= h.memsz
    requires 0 <= LoadEnd(hs) <= U64_MAX && 0 <= memSize <= U64_MAX && 0 <= rd <= U64_MAX
    ensures var r := PlaceInitrd(memSize, rd, LoadEnd(hs));
            r.Ok? ==> Apart(r.value, rd, s.paddr, s.filesz)
  {
    SegmentsInside(hs, size, s);
  }

  /**
   * A segment whose file part exceeds its memory part is accepted too. Every
   * placement misses it exactly when the first page above the load end does, or
   * when low memory is full up to there.
   */
  lemma InitrdClearExactly(s: Segment, loadEnd: int)
    requires 0 <= s.paddr <= loadEnd <= U64_MAX - PAGE_SIZE
    ensures (forall memSize, rd ::
               0 <= memSize <= U64_MAX && 0 < rd <= U64_MAX && PlaceInitrd(memSize, rd, loadEnd).Ok?
               ==> Apart(PlaceInitrd(memSize, rd, loadEnd).value, rd, s.paddr, s.filesz))
            <==> s.paddr + s.filesz <= RoundUp(loadEnd) || LOWMEM_LIMIT <= RoundUp(loadEnd)
  {
    var first := RoundUp(loadEnd);
    if s.paddr + s.filesz <= first || LOWMEM_LIMIT <= first {
      forall memSize, rd | 0 <= memSize <= U64_MAX && 0 < rd <= U64_MAX && PlaceInitrd(memSize, rd, loadEnd).Ok?
        ensures Apart(PlaceInitrd(memSize, rd, loadEnd).value, rd, s.paddr, s.filesz)
      {
        var a := PlaceInitrd(memSize, rd, loadEnd).value;
        PlacedHighest(memSize, rd, loadEnd, a);
        RoundUpLowest(loadEnd, a);
      }
    } else {
      RoundDownExact(first);
      assert PlaceInitrd(first + 1, 1, loadEnd) == Ok(first);
      assert !Apart(first, 1, s.paddr, s.filesz);
    }
  }

  lemma RoundUpLowest(x: int, a: int)
    requires Aligned(a) && x <= a
    ensures RoundUp(x) <= a
  {
  }

  lemma RoundDownExact(a: int)
    requires Aligned(a)
    ensures RoundDown(a) == a
  {
  }

  // ----- an accepted image whose file part is too long

  predicate PhdrFits(h: Phdr)
  {
    && 0 <= h.ptype <= U32_MAX && 0 <= h.offset <= U64_MAX && 0 <= h.paddr <= U64_MAX
    && 0 <= h.filesz <= U64_MAX && 0 <= h.memsz <= U64_MAX
  }

  function PhdrHead(h: Phdr): (b: seq<byte>)
    requires PhdrFits(h)
    ensures |b| == 24
  {
    ToLe32(h.ptype) + ToLe32(0) + ToLe64(h.offset) + ToLe64(0)
  }

  function PhdrTail(h: Phdr): (b: seq<byte>)
    requires PhdrFits(h)
    ensures |b| == 32
  {
    ToLe64(h.paddr) + ToLe64(h.filesz) + ToLe64(h.memsz) + ToLe64(0)
  }

  /** A program header as a linker writes it. */
  function EncodePhdr(h: Phdr): (b: seq<byte>)
    requires PhdrFits(h)
    ensures |b| == PHDR_SIZE
  {
    PhdrHead(h) + PhdrTail(h)
  }

  lemma Read64Of(a: seq<byte>, v: int, c: seq<byte>)
    requires 0 <= v <= U64_MAX
    ensures Read64(a + ToLe64(v) + c, |a|) == v
  {
    Middle(a, ToLe64(v), c);
    Le64RoundTrip(v);
  }

  lemma PhdrHeadRead(h: Phdr)
    requires PhdrFits(h)
    ensures Read32(PhdrHead(h), 0) == h.ptype && Read64(PhdrHead(h), 8) == h.offset
  {
    var (w, x, y, z) := (ToLe32(h.ptype), ToLe32(0), ToLe64(h.offset), ToLe64(0));
    assert PhdrHead(h) == [] + w + (x + y + z) == (w + x) + y + z;
    ReadAt(PhdrHead(h), [], h.ptype, x + y + z);
    Read64Of(w + x, h.offset, z);
  }

  lemma PhdrTailRead(h: Phdr)
    requires PhdrFits(h)
    ensures Read64(PhdrTail(h), 0) == h.paddr && Read64(PhdrTail(h), 8) == h.filesz
    ensures Read64(PhdrTail(h), 16) == h.memsz
  {
    var (w, x, y, z) := (ToLe64(h.paddr), ToLe64(h.filesz), ToLe64(h.memsz), ToLe64(0));
    assert PhdrTail(h) == [] + w + (x + y + z) == w + x + (y + z) == (w + x) + y + z;
    Read64Of([], h.paddr, x + y + z);
    Read64Of(w, h.filesz, y + z);
    Read64Of(w + x, h.memsz, z);
  }

  lemma Shift64(pre: seq<byte>, x: seq<byte>, post: seq<byte>, at: nat)
    requires at + 8 <= |x|
    ensures Read64(pre + x + post, |pre| + at) == Read64(x, at)
  {
    var b := pre + x + post;
    assert b[|pre| + at..|pre| + at + 8] == x[at..at + 8];
  }

  lemma Shift32(pre: seq<byte>, x: seq<byte>, post: seq<byte>, at: nat)
    requires at + 4 <= |x|
    ensures Read32(pre + x + post, |pre| + at) == Read32(x, at)
  {
    var b := pre + x + post;
    assert b[|pre| + at..|pre| + at + 4] == x[at..at + 4];
  }

  lemma PhdrShift(pre: seq<byte>, x: seq<byte>, y: seq<byte>, post: seq<byte>)
    requires |x| == 24 && |y| == 32
    ensures PhdrAt(pre + (x + y) + post, |pre|) ==
            Phdr(Read32(x, 0), Read64(x, 8), Read64(y, 0), Read64(y, 8), Read64(y, 16))
  {
    var b := pre + (x + y) + post;
    assert b == pre + x + (y + post) == (pre + x) + y + post;
    Shift32(pre, x, y + post, 0);
    Shift64(pre, x, y + post, 8);
    Shift64(pre + x, y, post, 0);
    Shift64(pre + x, y, post, 8);
    Shift64(pre + x, y, post, 16);
  }

  /** An encoded header reads back wherever it stands. */
  lemma PhdrRoundTrip(pre: seq<byte>, h: Phdr, post: seq<byte>)
    requires PhdrFits(h)
    ensures PhdrAt(pre + EncodePhdr(h) + post, |pre|) == h
  {
    PhdrShift(pre, PhdrHead(h), PhdrTail(h), post);
    PhdrHeadRead(h);
    PhdrTailRead(h);
  }

  /** The fixed header of an x86-64 ELF with two program headers right behind it. */
  ghost predicate IsEhdr(e: seq<byte>)
  {
    && |e| == EHDR_SIZE && e[0] == 0x7F && e[1] == 0x45 && e[2] == 0x4C && e[3] == 0x46 && e[4] == 2 && e[5] == 1
    && e[0x12] == 0x3E && e[0x13] == 0 && e[0x36] == 56 && e[0x37] == 0 && e[0x38] == 2 && e[0x39] == 0
    && e[0x20] == 64 && forall i :: 0x21 <= i < 0x28 ==> e[i] == 0
  }

  predicate ShortNote(n: Note)
  {
    n.Ok() && n.IsXenEntry() && |n.desc| >= 4 && |EncodeNote(n)| <= U32_MAX
  }

  /** The header of a note that is the rest of the file. */
  function NotePhdr(n: Note): (h: Phdr)
    requires ShortNote(n)
    ensures PhdrFits(h)
  {
    Phdr(PT_NOTE, 176, 0, |EncodeNote(n)|, |EncodeNote(n)|)
  }

  /** A file of a fixed header, one loadable segment's header and one note. */
  function ImageOf(e: seq<byte>, load: Phdr, n: Note): (b: seq<byte>)
    requires |e| == EHDR_SIZE && PhdrFits(load) && ShortNote(n)
    ensures |b| == 176 + |EncodeNote(n)|
  {
    e + EncodePhdr(load) + EncodePhdr(NotePhdr(n)) + EncodeNote(n)
  }

  lemma IdentOf(e: seq<byte>, rest: seq<byte>)
    requires IsEhdr(e)
    ensures IdentError(e + rest).None? && Read16(e + rest, 0x38) == 2 && Read64(e + rest, 0x20) == 64
  {
    var b := e + rest;
    assert forall i :: 0 <= i < 64 ==> b[i] == e[i];
    assert b[0..4] == [0x7F, 0x45, 0x4C, 0x46];
    var at := b[0x20..0x28];
    assert at[0] == 64 && forall i :: 1 <= i < 8 ==> at[i] == 0;
  }

  lemma TableOf(e: seq<byte>, a: Phdr, z: Phdr, rest: seq<byte>)
    requires |e| == 64 && PhdrFits(a) && PhdrFits(z)
    ensures InTable(e + EncodePhdr(a) + EncodePhdr(z) + rest, 64, [a, z])
  {
    var (x, y) := (EncodePhdr(a), EncodePhdr(z));
    FourGroups(e, x, y, rest);
    PhdrRoundTrip(e, a, y + rest);
    PhdrRoundTrip(e + x, z, rest);
    TwoInTable(e + x + y + rest, a, z);
  }

  lemma FourGroups(e: seq<byte>, x: seq<byte>, y: seq<byte>, rest: seq<byte>)
    ensures e + x + y + rest == e + x + (y + rest) == (e + x) + y + rest
  {
  }

  lemma TwoInTable(b: seq<byte>, a: Phdr, z: Phdr)
    requires |b| >= 176 && PhdrAt(b, 64) == a && PhdrAt(b, 120) == z
    ensures InTable(b, 64, [a, z])
  {
  }

  lemma OneNote(n: Note)
    requires n.Ok() && n.IsXenEntry() && |n.desc| >= 4
    ensures Walk(EncodeNote(n), 0) == Ok(Some(Le32(n.desc[..4])))
  {
    var notes := [n];
    assert notes[1..] == [];
    assert Encode(notes) + [] == EncodeNote(n);
    NotesDecide(notes, []);
  }

  /** What a loadable header and a note header that names an entry add up to. */
  lemma GatheredOf(b: seq<byte>, load: Phdr, z: Phdr, entry: int)
    requires PhdrFits(load) && load.Loads() && HeaderOk(load, |b|) && z.ptype == PT_NOTE && HeaderOk(z, |b|)
    requires Walk(b[z.offset..z.offset + z.filesz], 0) == Ok(Some(entry))
    ensures Gathers(b, [load, z],
                    Gathered([Segment(load.paddr, load.offset, load.filesz)], load.paddr + load.memsz, Some(entry)))
  {
    var hs := [load, z];
    assert hs[..1] == [load] && [load][..0] == [];
    assert Segments([load]) == [Segment(load.paddr, load.offset, load.filesz)];
    assert LoadEnd([load]) == load.paddr + load.memsz;
    assert EntryOf(b, [load]) == Ok(None);
  }

  /** What the loader gathers from an image of that shape. */
  function Expected(load: Phdr, n: Note): Gathered
    requires |n.desc| >= 4
  {
    Gathered([Segment(load.paddr, load.offset, load.filesz)], load.paddr + load.memsz, Some(Le32(n.desc[..4])))
  }

  lemma ImageGathers(b: seq<byte>, load: Phdr, note: seq<byte>, entry: int)
    requires |b| == 176 + |note| <= U64_MAX && b[176..] == note && Walk(note, 0) == Ok(Some(entry))
    requires PhdrFits(load) && load.Loads() && HeaderOk(load, |b|)
    ensures Gathers(b, [load, Phdr(PT_NOTE, 176, 0, |note|, |note|)],
                    Gathered([Segment(load.paddr, load.offset, load.filesz)], load.paddr + load.memsz, Some(entry)))
  {
    assert b[176..176 + |note|] == b[176..];
    GatheredOf(b, load, Phdr(PT_NOTE, 176, 0, |note|, |note|), entry);
  }

  lemma FourParts(e: seq<byte>, x: seq<byte>, y: seq<byte>, note: seq<byte>)
    requires |e| == 64 && |x| == 56 && |y| == 56
    ensures e + x + y + note == e + (x + y + note) && (e + x + y + note)[176..] == note
  {
  }

  /** Every image of that shape is accepted, whatever its segment's file and memory sizes are to each other. */
  lemma ImageAccepted(e: seq<byte>, load: Phdr, n: Note)
    requires IsEhdr(e) && PhdrFits(load) && load.Loads() && ShortNote(n)
    requires HeaderOk(load, 176 + |EncodeNote(n)|)
    ensures var b := ImageOf(e, load, n);
            && IdentError(b).None? && Read16(b, 0x38) == 2 && Read64(b, 0x20) == 64
            && InTable(b, 64, [load, NotePhdr(n)]) && Gathers(b, [load, NotePhdr(n)], Expected(load, n))
  {
    var b := ImageOf(e, load, n);
    var (x, y, note) := (EncodePhdr(load), EncodePhdr(NotePhdr(n)), EncodeNote(n));
    FourParts(e, x, y, note);
    IdentOf(e, x + y + note);
    TableOf(e, load, NotePhdr(n), note);
    OneNote(n);
    ImageGathers(b, load, note, Le32(n.desc[..4]));
  }

  function EhdrByte(i: nat): byte
  {
    match i
    case 0 => 0x7F
    case 1 => 0x45
    case 2 => 0x4C
    case 3 => 0x46
    case 4 => 2
    case 5 => 1
    case 0x12 => 0x3E
    case 0x20 => 64
    case 0x36 => 56
    case 0x38 => 2
    case _ => 0
  }

  /** Such a fixed header. */
  function Ehdr(): (e: seq<byte>)
    ensures IsEhdr(e)
  {
    seq(EHDR_SIZE, i requires 0 <= i => EhdrByte(i))
  }

  function EntryNote(): (n: Note)
    ensures ShortNote(n) && Le32(n.desc[..4]) == 0x10_0000 && |EncodeNote(n)| == 20
  {
    var n := Note(XEN_ELFNOTE_PHYS32_ENTRY, XEN_NOTE_NAME, [0, 0, 0x10, 0]);
    assert n.desc[..4] == n.desc;
    n
  }

  /** 32 bytes of file for 16 bytes of memory that end at a page boundary. */
  const LONG_PHDR: Phdr := Phdr(PT_LOAD, 0, 0x10_0FF0, 32, 16)

  /** The image of a load header is one `from_bytes` accepts with these headers. */
  ghost predicate AcceptedWith(b: seq<byte>, hs: seq<Phdr>)
  {
    && IdentError(b).None? && Read16(b, 0x38) == |hs|
    && InTable(b, Read64(b, 0x20), hs) && Acceptable(b, hs)
  }

  lemma ImageAcceptedWith(e: seq<byte>, load: Phdr, n: Note)
    requires IsEhdr(e) && PhdrFits(load) && load.Loads() && ShortNote(n)
    requires HeaderOk(load, 176 + |EncodeNote(n)|)
    ensures AcceptedWith(ImageOf(e, load, n), [load, NotePhdr(n)])
    ensures Segments([load, NotePhdr(n)]) == [Segment(load.paddr, load.offset, load.filesz)]
    ensures LoadEnd([load, NotePhdr(n)]) == load.paddr + load.memsz
  {
    ImageAccepted(e, load, n);
    GathersAcceptable(ImageOf(e, load, n), [load, NotePhdr(n)], Expected(load, n));
  }

  /**
   * The failing images: whatever the fixed header and the note say besides,
   * the file is accepted and the initrd lands on the tail of its segment.
   * `Ehdr` and `EntryNote` give one of them.
   */
  lemma OversizedFilePart(e: seq<byte>, n: Note)
    requires IsEhdr(e) && ShortNote(n)
    ensures var hs := [LONG_PHDR, NotePhdr(n)];
            && AcceptedWith(ImageOf(e, LONG_PHDR, n), hs) && Segments(hs) == [Segment(0x10_0FF0, 0, 32)]
            && LoadEnd(hs) == 0x10_1000 && PlaceInitrd(0x10_2000, 0x1000, 0x10_1000) == Ok(0x10_1000)
            && !Apart(0x10_1000, 0x1000, 0x10_0FF0, 32)
  {
    ImageAcceptedWith(e, LONG_PHDR, n);
    OverlappingPlace();
  }

  lemma GathersAcceptable(b: seq<byte>, hs: seq<Phdr>, g: Gathered)
    requires Gathers(b, hs, g) && g.entry32.Some? && g.segments != []
    ensures Acceptable(b, hs) && Segments(hs) == g.segments && LoadEnd(hs) == g.loadEnd
  {
  }

  lemma OverlappingPlace()
    ensures PlaceInitrd(0x10_2000, 0x1000, 0x10_1000) == Ok(0x10_1000) && !Apart(0x10_1000, 0x1000, 0x10_0FF0, 32)
  {
  }

  /** The loader takes every image of that shape, the failing ones among them. */
  method LoadImage(e: seq<byte>, load: Phdr, n: Note) returns (r: Result<Kernel, ElfError>)
    requires IsEhdr(e) && PhdrFits(load) && load.Loads() && ShortNote(n)
    requires HeaderOk(load, 176 + |EncodeNote(n)|)
    ensures var g := Expected(load, n); r == Ok(Kernel(g.entry32.value, g.segments, g.loadEnd))
  {
    var b := ImageOf(e, load, n);
    ImageAccepted(e, load, n);
    ghost var hs;
    r, hs := FromBytes(b);
    OnlyTable(b, 64, [load, NotePhdr(n)]);
  }
}
