/** The direct Linux boot path of crates/vmm-boot/src/direct.rs: what lands in guest memory, and that it stays. */
module DirectBoot {
  import opened Prelude
  import opened GuestMemory
  import opened GuestSpace
  import PageTables
  import PvhBoot

  const GPA_GDT: int := 0x500
  const GPA_BOOT_PARAMS: int := 0x7000
  const GPA_CMDLINE: int := 0x2_0000
  const CMDLINE_MAX: int := 4096
  const LOW_TOP: int := GPA_CMDLINE + CMDLINE_MAX
  const SETUP_HEADER: nat := 0x1F1
  const SETUP_HEADER_END: nat := 0x290
  const GDT_CODE64: int := 0x00AF_9B00_0000_FFFF
  const GDT_DATA: int := 0x00CF_9300_0000_FFFF

  // ----- the image

  datatype Image = Image(data: seq<byte>, setupSects: int, version: int, pref: int, cmdlineSize: int)
  {
    /** What `from_bytes` proves of the image it returns. */
    predicate Ok()
    {
      && 1 <= setupSects <= 255 && |data| > (setupSects + 1) * 512
      && 0 <= version <= U16_MAX && 0 <= pref <= U64_MAX && 0 < cmdlineSize <= U32_MAX
    }

    function Kernel(): (k: seq<byte>)
      requires Ok()
      ensures |k| > 0
    {
      data[(setupSects + 1) * 512..]
    }

    function Header(): (h: seq<byte>)
      requires Ok()
      ensures |h| == SETUP_HEADER_END - SETUP_HEADER
    {
      data[SETUP_HEADER..SETUP_HEADER_END]
    }

    function CmdlineLimit(): int { if cmdlineSize < CMDLINE_MAX - 1 then cmdlineSize else CMDLINE_MAX - 1 }
  }

  datatype ImageError = TooSmall | NoMagic | TooOld | Not64 | Truncated

  /** Real-mode setup sectors; a zero field means four. */
  function SetupSects(d: seq<byte>): int
    requires |d| > SETUP_HEADER
  {
    if d[SETUP_HEADER] == 0 then 4 else d[SETUP_HEADER]
  }

  /** A bzImage of boot protocol 2.12 or later with a 64-bit entry and something after its setup code. */
  predicate Bootable(d: seq<byte>)
  {
    && |d| > SETUP_HEADER_END && d[0x202..0x206] == [0x48, 0x64, 0x72, 0x53]
    && Le16(d[0x206], d[0x207]) >= 0x020C && d[0x236] % 2 == 1
    && |d| > (SetupSects(d) + 1) * 512
  }

  lemma MagicBytes(b: seq<byte>)
    requires |b| == 4
    ensures Le32(b) == 0x5372_6448 <==> b == [0x48, 0x64, 0x72, 0x53]
  {
  }

  /** `KernelImage::from_bytes`. */
  function FromBytes(d: seq<byte>): (r: Result<Image, ImageError>)
    ensures r.Ok? ==> r.value.Ok() && r.value.data == d && r.value.version >= 0x020C
    ensures r.Ok? ==> |r.value.Kernel()| + (r.value.setupSects + 1) * 512 == |d|
  {
    if |d| <= SETUP_HEADER_END then Err(TooSmall)
    else if Le32(d[0x202..0x206]) != 0x5372_6448 then Err(NoMagic)
    else if Le16(d[0x206], d[0x207]) < 0x020C then Err(TooOld)
    else if Le16(d[0x236], d[0x237]) % 2 == 0 then Err(Not64)
    else
      var sects := if d[SETUP_HEADER] == 0 then 4 else d[SETUP_HEADER] as int;
      if |d| <= (sects + 1) * 512 then Err(Truncated)
      else
        var size := Le32(d[0x238..0x23C]);
        Ok(Image(d, sects, Le16(d[0x206], d[0x207]), Le64(d[0x258..0x260]), if size == 0 then 255 else size))
  }

  lemma EvenLow(lo: byte, hi: byte)
    ensures Le16(lo, hi) % 2 == lo % 2
  {
  }

  /** An image is accepted exactly when it is bootable. */
  lemma AcceptedExactly(d: seq<byte>)
    ensures FromBytes(d).Ok? <==> Bootable(d)
  {
    if |d| > SETUP_HEADER_END {
      MagicBytes(d[0x202..0x206]);
      EvenLow(d[0x236], d[0x237]);
    }
  }

  // ----- the zero page

  datatype E820 = E820(addr: int, size: int, kind: int)
  {
    predicate Ok() { 0 <= addr <= U64_MAX && 0 <= size <= U64_MAX && 0 <= kind <= U32_MAX }
  }

  const BP_E820_MAX: nat := 128
  const BP_E820_MAP: int := 0x2D0

  /** What goes into one zero page. */
  datatype Params = Params(header: seq<byte>, version: int, initrd: Option<(int, int)>, rsdp: int, e820: seq<E820>)
  {
    predicate Ok()
    {
      && |header| == SETUP_HEADER_END - SETUP_HEADER && 0 <= rsdp <= U64_MAX
      && (initrd.Some? ==> 0 <= initrd.value.0 && 0 <= initrd.value.1)
      && forall i :: 0 <= i < |e820| ==> e820[i].Ok()
    }

    function Count(): (n: nat)
      ensures n <= BP_E820_MAX && n <= |e820|
    {
      if |e820| < BP_E820_MAX then |e820| else BP_E820_MAX
    }
  }

  /** A value cut to 32 bits, as the code's `as u32`. */
  function Low32(x: int): int { x % 0x1_0000_0000 }

  function HeadWrites(p: Params): seq<Write>
    requires p.Ok()
  {
    [Write(SETUP_HEADER, p.header), Write(0x210, [0xFF]), Write(0x228, ToLe32(GPA_CMDLINE))]
    + InitrdWrites(p.initrd) + RsdpWrites(p) + [Write(0x1E8, [p.Count()])]
  }

  function InitrdWrites(initrd: Option<(int, int)>): seq<Write>
    requires initrd.Some? ==> 0 <= initrd.value.0 && 0 <= initrd.value.1
  {
    if initrd.None? then []
    else [Write(0x218, ToLe32(Low32(initrd.value.0))), Write(0x21C, ToLe32(Low32(initrd.value.1)))]
  }

  function RsdpWrites(p: Params): seq<Write>
    requires p.Ok()
  {
    if p.version >= 0x020E && p.rsdp != 0 then [Write(0x070, ToLe64(p.rsdp))] else []
  }

  function EntryAt(i: nat): int { BP_E820_MAP + i * 20 }

  function EntryBytes(e: E820): (b: seq<byte>)
    requires e.Ok()
    ensures |b| == 20
  {
    ToLe64(e.addr) + ToLe64(e.size) + ToLe32(e.kind)
  }

  function E820Writes(p: Params, n: nat): (ws: seq<Write>)
    requires p.Ok() && n <= |p.e820|
    ensures |ws| == n && forall i :: 0 <= i < n ==> ws[i] == Write(EntryAt(i), EntryBytes(p.e820[i]))
  {
    seq(n, i requires 0 <= i < n => Write(EntryAt(i), EntryBytes(p.e820[i])))
  }

  function ParamWrites(p: Params): seq<Write>
    requires p.Ok()
  {
    HeadWrites(p) + E820Writes(p, p.Count())
  }

  /** A page as memory at offset zero. */
  function PageMemory(page: seq<byte>): Memory { map j | 0 <= j < |page| :: page[j] }

  function ZeroPage(): (page: seq<byte>)
    ensures |page| == PAGE_SIZE && forall j :: 0 <= j < PAGE_SIZE ==> page[j] == 0
  {
    seq(PAGE_SIZE, _ => 0)
  }

  /** `page` is the zero page for `p`: its fields written, in order, over zeros. */
  ghost predicate IsZeroPage(page: seq<byte>, p: Params)
    requires p.Ok()
  {
    |page| == PAGE_SIZE && PageMemory(page) == WriteAll(PageMemory(ZeroPage()), ParamWrites(p))
  }

  /** The page overwritten at `off`, and nowhere else. */
  method Store(page: array<byte>, off: nat, bytes: seq<byte>)
    requires page.Length == PAGE_SIZE && off + |bytes| <= PAGE_SIZE
    modifies page
    ensures PageMemory(page[..]) == Overwrite(old(PageMemory(page[..])), off, bytes)
  {
    for i := 0 to |bytes|
      invariant forall j :: 0 <= j < PAGE_SIZE ==>
                  page[j] == if off <= j < off + i then bytes[j - off] else old(page[j])
    {
      page[off + i] := bytes[i];
    }
  }

  /** Store a list of fields one after another. */
  method StoreAll(page: array<byte>, ws: seq<Write>)
    requires page.Length == PAGE_SIZE
    requires forall i :: 0 <= i < |ws| ==> 0 <= ws[i].gpa && ws[i].gpa + |ws[i].buf| <= PAGE_SIZE
    modifies page
    ensures PageMemory(page[..]) == WriteAll(old(PageMemory(page[..])), ws)
  {
    ghost var m := PageMemory(page[..]);
    for i := 0 to |ws|
      invariant PageMemory(page[..]) == WriteAll(m, ws[..i])
    {
      Store(page, ws[i].gpa, ws[i].buf);
      assert ws[..i + 1] == ws[..i] + [ws[i]];
      AppendWrite(m, ws[..i], ws[i]);
    }
    assert ws[..|ws|] == ws;
  }

  /** The page `write_boot_params` assembles. */
  method BuildBootParams(p: Params) returns (page: array<byte>)
    requires p.Ok()
    ensures fresh(page) && page.Length == PAGE_SIZE && IsZeroPage(page[..], p)
  {
    page := new byte[PAGE_SIZE](_ => 0);
    assert page[..] == ZeroPage();
    StoreAll(page, HeadWrites(p));
    var n := p.Count();
    ghost var m := PageMemory(page[..]);
    assert m == WriteAll(PageMemory(ZeroPage()), HeadWrites(p));
    for i := 0 to n
      invariant PageMemory(page[..]) == WriteAll(m, E820Writes(p, i))
    {
      var e := p.e820[i];
      Store(page, EntryAt(i), ToLe64(e.addr) + ToLe64(e.size) + ToLe32(e.kind));
      assert E820Writes(p, i + 1) == E820Writes(p, i) + [Write(EntryAt(i), EntryBytes(e))];
      AppendWrite(m, E820Writes(p, i), Write(EntryAt(i), EntryBytes(e)));
    }
    WriteAllSplit(PageMemory(ZeroPage()), HeadWrites(p), E820Writes(p, n));
  }

  // ----- the zero page read back

  lemma PageSlice(page: seq<byte>, off: nat, n: nat)
    requires off + n <= |page|
    ensures ReadBytes(PageMemory(page), off, n) == page[off..off + n]
  {
  }

  /** A field that no later field overlaps is read back from the page. */
  lemma FieldRead(page: seq<byte>, p: Params, i: nat)
    requires p.Ok() && IsZeroPage(page, p) && i < |ParamWrites(p)|
    requires var w := ParamWrites(p)[i]; 0 <= w.gpa && w.gpa + |w.buf| <= PAGE_SIZE
    requires forall j :: i < j < |ParamWrites(p)| ==>
               Apart(ParamWrites(p)[j].gpa, |ParamWrites(p)[j].buf|, ParamWrites(p)[i].gpa, |ParamWrites(p)[i].buf|)
    ensures var w := ParamWrites(p)[i]; page[w.gpa..w.gpa + |w.buf|] == w.buf
  {
    var w := ParamWrites(p)[i];
    assert Mapped(PageMemory(ZeroPage()), w.gpa, |w.buf|);
    WrittenSurvives(PageMemory(ZeroPage()), ParamWrites(p), i);
    PageSlice(page, w.gpa, |w.buf|);
  }

  /** The fields stored over the copied setup header, and where they end. */
  lemma HeadField(p: Params, i: nat)
    requires p.Ok() && 0 < i < |HeadWrites(p)|
    ensures var w := HeadWrites(p)[i]; 0 <= w.gpa && w.gpa + |w.buf| <= BP_E820_MAP
  {
  }

  lemma HeadApart(p: Params, i: nat, j: nat)
    requires p.Ok() && 0 < i < j < |HeadWrites(p)|
    ensures var (v, w) := (HeadWrites(p)[i], HeadWrites(p)[j]); Apart(w.gpa, |w.buf|, v.gpa, |v.buf|)
  {
    var head := HeadWrites(p);
    assert head[1].gpa == 0x210 && head[2].gpa == 0x228;
    if p.initrd.Some? {
      assert head[3].gpa == 0x218 && head[4].gpa == 0x21C;
    }
  }

  lemma EntryWrite(p: Params, k: nat)
    requires p.Ok() && k < p.Count()
    ensures ParamWrites(p)[|HeadWrites(p)| + k] == Write(EntryAt(k), EntryBytes(p.e820[k]))
  {
  }

  /** No field but the setup header is written over by a later one. */
  lemma FieldsApart(p: Params, i: nat, j: nat)
    requires p.Ok() && 0 < i < j < |ParamWrites(p)|
    ensures var (v, w) := (ParamWrites(p)[i], ParamWrites(p)[j]); Apart(w.gpa, |w.buf|, v.gpa, |v.buf|)
  {
    var n := |HeadWrites(p)|;
    if j < n {
      HeadApart(p, i, j);
      assert ParamWrites(p)[i] == HeadWrites(p)[i] && ParamWrites(p)[j] == HeadWrites(p)[j];
    } else {
      EntryWrite(p, j - n);
      if i < n {
        HeadField(p, i);
        assert ParamWrites(p)[i] == HeadWrites(p)[i];
      } else {
        EntryWrite(p, i - n);
      }
    }
  }

  /** Every field but the setup header reads back from the page. */
  lemma AnyFieldRead(page: seq<byte>, p: Params, i: nat)
    requires p.Ok() && IsZeroPage(page, p) && 0 < i < |ParamWrites(p)|
    ensures var w := ParamWrites(p)[i];
            0 <= w.gpa && w.gpa + |w.buf| <= PAGE_SIZE && page[w.gpa..w.gpa + |w.buf|] == w.buf
  {
    forall j | i < j < |ParamWrites(p)|
      ensures Apart(ParamWrites(p)[j].gpa, |ParamWrites(p)[j].buf|, ParamWrites(p)[i].gpa, |ParamWrites(p)[i].buf|)
    {
      FieldsApart(p, i, j);
    }
    var n := |HeadWrites(p)|;
    if i < n {
      HeadField(p, i);
      assert ParamWrites(p)[i] == HeadWrites(p)[i];
    } else {
      EntryWrite(p, i - n);
    }
    FieldRead(page, p, i);
  }

  /** The 32-bit initrd address and size fields of the page. */
  predicate RamdiskAt(page: seq<byte>, addr: int, size: int)
  {
    |page| == PAGE_SIZE && Le32(page[0x218..0x21C]) == addr && Le32(page[0x21C..0x220]) == size
  }

  lemma Low32Same(x: int)
    requires 0 <= x <= U32_MAX
    ensures Low32(x) == x
  {
  }

  lemma InitrdFields(page: seq<byte>, p: Params)
    requires p.Ok() && IsZeroPage(page, p) && p.initrd.Some?
    ensures RamdiskAt(page, Low32(p.initrd.value.0), Low32(p.initrd.value.1))
  {
    var (addr, size) := p.initrd.value;
    assert HeadWrites(p)[3] == Write(0x218, ToLe32(Low32(addr)));
    assert HeadWrites(p)[4] == Write(0x21C, ToLe32(Low32(size)));
    AnyFieldRead(page, p, 3);
    AnyFieldRead(page, p, 4);
    Le32RoundTrip(Low32(addr));
    Le32RoundTrip(Low32(size));
  }

  /** Loader type, command line address and the number of memory map entries. */
  lemma FixedFields(page: seq<byte>, p: Params)
    requires p.Ok() && IsZeroPage(page, p)
    ensures page[0x210] == 0xFF && Le32(page[0x228..0x22C]) == GPA_CMDLINE && page[0x1E8] == p.Count()
  {
    var n := |HeadWrites(p)|;
    assert HeadWrites(p)[1] == Write(0x210, [0xFF]) && HeadWrites(p)[2] == Write(0x228, ToLe32(GPA_CMDLINE));
    assert HeadWrites(p)[n - 1] == Write(0x1E8, [p.Count()]);
    AnyFieldRead(page, p, 1);
    AnyFieldRead(page, p, 2);
    AnyFieldRead(page, p, n - 1);
    Le32RoundTrip(GPA_CMDLINE);
    assert page[0x210..0x211] == [page[0x210]] && page[0x1E8..0x1E9] == [page[0x1E8]];
  }

  /** The ACPI root pointer, where the kernel's protocol has the field and there is one. */
  lemma RsdpField(page: seq<byte>, p: Params)
    requires p.Ok() && IsZeroPage(page, p) && p.version >= 0x020E && p.rsdp != 0
    ensures Le64(page[0x70..0x78]) == p.rsdp
  {
    var n := |HeadWrites(p)|;
    assert HeadWrites(p)[n - 2] == Write(0x070, ToLe64(p.rsdp));
    AnyFieldRead(page, p, n - 2);
    Le64RoundTrip(p.rsdp);
  }

  /** A memory map entry as the kernel reads it. */
  function E820Of(b: seq<byte>): E820
    requires |b| == 20
  {
    E820(Le64(b[..8]), Le64(b[8..16]), Le32(b[16..]))
  }

  lemma EntryBytesRead(e: E820)
    requires e.Ok()
    ensures E820Of(EntryBytes(e)) == e
  {
    var b := EntryBytes(e);
    assert b[..8] == ToLe64(e.addr) && b[8..16] == ToLe64(e.size) && b[16..] == ToLe32(e.kind);
    Le64RoundTrip(e.addr);
    Le64RoundTrip(e.size);
    Le32RoundTrip(e.kind);
  }

  /** Each of the first 128 memory map entries reads back. */
  lemma E820Fields(page: seq<byte>, p: Params, i: nat)
    requires p.Ok() && IsZeroPage(page, p) && i < p.Count()
    ensures E820Of(page[EntryAt(i)..EntryAt(i) + 20]) == p.e820[i]
  {
    EntryReadBack(page, p, i);
    EntryBytesRead(p.e820[i]);
  }

  lemma EntryReadBack(page: seq<byte>, p: Params, i: nat)
    requires p.Ok() && IsZeroPage(page, p) && i < p.Count()
    ensures page[EntryAt(i)..EntryAt(i) + 20] == EntryBytes(p.e820[i])
  {
    EntryWrite(p, i);
    AnyFieldRead(page, p, |HeadWrites(p)| + i);
  }

  // ----- the load

  function Gdt(): (g: seq<byte>)
    ensures |g| == 24
  {
    seq(8, _ => 0) + ToLe64(GDT_CODE64) + ToLe64(GDT_DATA)
  }

  /** One load: everything but the zero page's own bytes. */
  datatype Load = Load(pref: int, kernel: seq<byte>, cmdline: seq<byte>, initrd: Option<Write>, page: seq<byte>)
  {
    predicate Ok()
    {
      && |cmdline| < CMDLINE_MAX && |page| == PAGE_SIZE
      && (initrd.Some? ==> pref + |kernel| <= initrd.value.gpa)
    }

    /** The writes after the kernel's. */
    function Later(): seq<Write>
    {
      [Write(GPA_CMDLINE, cmdline + [0])] + (if initrd.Some? then [initrd.value] else [])
      + PageTables.TableWrites(6) + [Write(GPA_GDT, Gdt()), Write(GPA_BOOT_PARAMS, page)]
    }

    /** All writes of the load, in order. */
    function Writes(): seq<Write> { [Write(pref, kernel)] + Later() }
  }

  datatype LoadError = KernelUnmapped | CmdlineTooLong | LoadFailed | NoRoom

  /** What holds of a placed initrd. */
  predicate Placed(memSize: int, loadEnd: int, rd: seq<byte>, w: Write)
  {
    && w.buf == rd && 0 <= memSize <= U64_MAX && 0 <= loadEnd <= U64_MAX && |rd| <= U64_MAX
    && PvhBoot.PlaceInitrd(memSize, |rd|, loadEnd) == Ok(w.gpa)
  }

  function InitrdList(w: Option<Write>): seq<Write> { if w.Some? then [w.value] else [] }

  /** The initrd has a place above the kernel, and the map lets it be written there. */
  ghost predicate InitrdFits(rs: seq<Region>, rd: Option<seq<byte>>, memSize: int, loadEnd: int)
    requires 0 <= memSize <= U64_MAX && 0 <= loadEnd && (rd.Some? ==> |rd.value| <= U64_MAX)
  {
    rd.Some? ==>
      && loadEnd <= U64_MAX
      && var place := PvhBoot.PlaceInitrd(memSize, |rd.value|, loadEnd);
         place.Ok? && Accepts(rs, place.value, |rd.value|, true)
  }

  /** The initrd, if there is one, above the kernel. */
  method PutInitrd(mem: MemCtx, ghost m: Memory, ghost done: seq<Write>, rd: Option<seq<byte>>, memSize: int,
                   loadEnd: int)
    returns (r: Result<Option<Write>, LoadError>)
    requires mem.Valid() && After(m, mem.ram, done) && 0 <= memSize <= U64_MAX && 0 <= loadEnd
    requires rd.Some? ==> 0 < |rd.value| <= U64_MAX
    modifies mem`ram
    ensures mem.Valid() && mem.ram.Keys == old(mem.ram.Keys)
    ensures r.Ok? <==> InitrdFits(mem.phys.regions, rd, memSize, loadEnd)
    ensures r.Ok? ==> r.value.Some? == rd.Some? && After(m, mem.ram, done + InitrdList(r.value))
    ensures r.Ok? && rd.Some? ==> Placed(memSize, loadEnd, rd.value, r.value.value)
  {
    if rd.None? {
      assert done + [] == done;
      return Ok(None);
    }
    if loadEnd > U64_MAX {
      return Err(NoRoom);
    }
    var place := PvhBoot.PlaceInitrd(memSize, |rd.value|, loadEnd);
    if place.Err? {
      return Err(NoRoom);
    }
    PvhBoot.PlacedHighest(memSize, |rd.value|, loadEnd, 0);
    var ok := Put(mem, m, done, place.value, rd.value, true);
    if !ok {
      return Err(LoadFailed);
    }
    return Ok(Some(Write(place.value, rd.value)));
  }

  /** The command line is short enough, and the map lets it and the kernel be written. */
  ghost predicate KernelFits(rs: seq<Region>, img: Image, cmdline: seq<byte>)
    requires img.Ok()
  {
    && |cmdline| <= img.CmdlineLimit()
    && Accepts(rs, img.pref, |img.Kernel()|, true) && Accepts(rs, GPA_CMDLINE, |cmdline| + 1, false)
  }

  /** The kernel and its command line. */
  method PutKernel(mem: MemCtx, img: Image, cmdline: seq<byte>) returns (r: Result<(), LoadError>)
    requires mem.Valid() && img.Ok() && |img.data| <= I64_MAX
    modifies mem`ram
    ensures mem.Valid() && mem.ram.Keys == old(mem.ram.Keys)
    ensures r.Ok? <==> KernelFits(mem.phys.regions, img, cmdline)
    ensures r.Ok? ==> After(old(mem.ram), mem.ram, [Write(img.pref, img.Kernel()), Write(GPA_CMDLINE, cmdline + [0])])
  {
    ghost var m := mem.ram;
    var ok := Put(mem, m, [], img.pref, img.Kernel(), true);
    if !ok {
      return Err(KernelUnmapped);
    }
    assert [] + [Write(img.pref, img.Kernel())] == [Write(img.pref, img.Kernel())];
    if |cmdline| > img.CmdlineLimit() {
      return Err(CmdlineTooLong);
    }
    ok := Put(mem, m, [Write(img.pref, img.Kernel())], GPA_CMDLINE, cmdline + [0], false);
    if !ok {
      return Err(LoadFailed);
    }
    assert [Write(img.pref, img.Kernel())] + [Write(GPA_CMDLINE, cmdline + [0])]
        == [Write(img.pref, img.Kernel()), Write(GPA_CMDLINE, cmdline + [0])];
    return Ok(());
  }

  /** The map lets the loader's own pages be written. */
  ghost predicate TailFits(rs: seq<Region>)
  {
    && (forall t :: 0 <= t < 6 ==> PageTables.TableFits(rs, t))
    && Accepts(rs, GPA_GDT, 24, false) && Accepts(rs, GPA_BOOT_PARAMS, PAGE_SIZE, false)
  }

  /** Page tables, GDT and zero page on top of those done. */
  method PutTail(mem: MemCtx, ghost m: Memory, ghost done: seq<Write>, p: Params)
    returns (ok: bool, ghost page: seq<byte>)
    requires mem.Valid() && After(m, mem.ram, done) && p.Ok()
    modifies mem`ram
    ensures mem.Valid() && mem.ram.Keys == old(mem.ram.Keys)
    ensures IsZeroPage(page, p) && (ok <==> TailFits(mem.phys.regions))
    ensures ok ==> After(m, mem.ram, done + PageTables.TableWrites(6)
                                     + [Write(GPA_GDT, Gdt())] + [Write(GPA_BOOT_PARAMS, page)])
  {
    var built := BuildBootParams(p);
    page := built[..];
    ok := PageTables.WritePageTables(mem, m, done);
    if !ok { return; }
    ok := Put(mem, m, done + PageTables.TableWrites(6), GPA_GDT, Gdt(), false);
    if !ok { return; }
    ok := Put(mem, m, done + PageTables.TableWrites(6) + [Write(GPA_GDT, Gdt())], GPA_BOOT_PARAMS, built[..], false);
  }

  /** What the zero page of this load is made from. */
  function ParamsOf(img: Image, initrd: Option<Write>, rsdp: int, e820: seq<E820>): Params
    requires img.Ok()
  {
    Params(img.Header(), img.version,
           if initrd.Some? then Some((initrd.value.gpa, |initrd.value.buf|)) else None, rsdp, e820)
  }

  /** What a successful load was. */
  ghost predicate LoadOf(load: Load, img: Image, cmdline: seq<byte>, rd: Option<seq<byte>>, memSize: int,
                         rsdp: int, e820: seq<E820>)
    requires img.Ok()
  {
    && load.pref == img.pref && load.kernel == img.Kernel() && load.cmdline == cmdline
    && |cmdline| <= img.CmdlineLimit()
    && load.initrd.Some? == rd.Some?
    && (rd.Some? ==> Placed(memSize, img.pref + |img.Kernel()|, rd.value, load.initrd.value))
    && var p := ParamsOf(img, load.initrd, rsdp, e820);
       p.Ok() && IsZeroPage(load.page, p)
  }

  lemma WritesInOrder(load: Load)
    ensures load.Writes() == [Write(load.pref, load.kernel), Write(GPA_CMDLINE, load.cmdline + [0])]
                             + InitrdList(load.initrd) + PageTables.TableWrites(6)
                             + [Write(GPA_GDT, Gdt())] + [Write(GPA_BOOT_PARAMS, load.page)]
  {
  }

  /** Everything after the kernel and its command line. */
  method PutRest(mem: MemCtx, ghost m: Memory, ghost done: seq<Write>, img: Image, rd: Option<seq<byte>>,
                 memSize: int, rsdp: int, e820: seq<E820>)
    returns (r: Result<Option<Write>, LoadError>, ghost page: seq<byte>)
    requires mem.Valid() && After(m, mem.ram, done) && img.Ok() && 0 <= memSize <= U64_MAX && 0 <= rsdp <= U64_MAX
    requires (forall i :: 0 <= i < |e820| ==> e820[i].Ok()) && (rd.Some? ==> 0 < |rd.value| <= U64_MAX)
    modifies mem`ram
    ensures mem.Valid() && mem.ram.Keys == old(mem.ram.Keys)
    ensures r.Ok? <==> InitrdFits(mem.phys.regions, rd, memSize, img.pref + |img.Kernel()|)
                       && TailFits(mem.phys.regions)
    ensures r.Ok? ==> r.value.Some? == rd.Some?
    ensures r.Ok? && rd.Some? ==> Placed(memSize, img.pref + |img.Kernel()|, rd.value, r.value.value)
    ensures r.Ok? ==> var p := ParamsOf(img, r.value, rsdp, e820); p.Ok() && IsZeroPage(page, p)
    ensures r.Ok? ==> After(m, mem.ram, done + InitrdList(r.value) + PageTables.TableWrites(6)
                                        + [Write(GPA_GDT, Gdt())] + [Write(GPA_BOOT_PARAMS, page)])
  {
    page := [];
    r := PutInitrd(mem, m, done, rd, memSize, img.pref + |img.Kernel()|);
    if r.Err? {
      return;
    }
    if rd.Some? {
      PvhBoot.PlacedHighest(memSize, |rd.value|, img.pref + |img.Kernel()|, 0);
    }
    var ok;
    ok, page := PutTail(mem, m, done + InitrdList(r.value), ParamsOf(img, r.value, rsdp, e820));
    if !ok {
      r := Err(LoadFailed);
    }
  }

  /** `load_kernel`: it succeeds exactly when everything it writes fits the map. */
  method LoadKernel(mem: MemCtx, img: Image, cmdline: seq<byte>, rd: Option<seq<byte>>, memSize: int,
                    rsdp: int, e820: seq<E820>)
    returns (r: Result<int, LoadError>, ghost load: Load)
    requires mem.Valid() && img.Ok() && |img.data| <= I64_MAX && 0 <= memSize <= U64_MAX && 0 <= rsdp <= U64_MAX
    requires (forall i :: 0 <= i < |e820| ==> e820[i].Ok()) && (rd.Some? ==> 0 < |rd.value| <= U64_MAX)
    modifies mem`ram
    ensures mem.Valid() && mem.ram.Keys == old(mem.ram.Keys)
    ensures r.Ok? <==> KernelFits(mem.phys.regions, img, cmdline) && TailFits(mem.phys.regions)
                       && InitrdFits(mem.phys.regions, rd, memSize, img.pref + |img.Kernel()|)
    ensures r.Ok? ==> r.value == img.pref + 0x200 && LoadOf(load, img, cmdline, rd, memSize, rsdp, e820)
    ensures r.Ok? ==> After(old(mem.ram), mem.ram, load.Writes())
  {
    ghost var m := mem.ram;
    load := Load(img.pref, img.Kernel(), cmdline, None, ZeroPage());
    var head := PutKernel(mem, img, cmdline);
    if head.Err? {
      return Err(head.error), load;
    }
    ghost var done := [Write(img.pref, img.Kernel()), Write(GPA_CMDLINE, cmdline + [0])];
    var rest;
    ghost var page;
    rest, page := PutRest(mem, m, done, img, rd, memSize, rsdp, e820);
    if rest.Err? {
      return Err(rest.error), load;
    }
    load := Load(img.pref, img.Kernel(), cmdline, rest.value, page);
    WritesInOrder(load);
    return Ok(img.pref + 0x200), load;
  }

  // ----- what was loaded stays

  /** Where the tables start in the list of writes. */
  function FirstTable(load: Load): nat { if load.initrd.Some? then 3 else 2 }

  /** Where write `i` goes and how long it is. */
  function ExtentOf(load: Load, i: nat): (int, int)
  {
    var k := FirstTable(load);
    if i == 0 then (load.pref, |load.kernel|)
    else if i == 1 then (GPA_CMDLINE, |load.cmdline| + 1)
    else if i < k && load.initrd.Some? then (load.initrd.value.gpa, |load.initrd.value.buf|)
    else if i < k + 6 then (PageTables.GPA_PML4 + (i - k) * PAGE_SIZE, PAGE_SIZE)
    else if i == k + 6 then (GPA_GDT, 24)
    else (GPA_BOOT_PARAMS, |load.page|)
  }

  lemma WriteAt(load: Load, i: nat)
    requires i < |load.Writes()|
    ensures |load.Writes()| == FirstTable(load) + 8
    ensures (load.Writes()[i].gpa, |load.Writes()[i].buf|) == ExtentOf(load, i)
  {
    var k := FirstTable(load);
    if k <= i < k + 6 {
      WriteOfTable(load, i - k);
    }
  }

  /** A kernel above the loader's own low memory: nothing the loader writes overlaps. */
  lemma WritesApart(load: Load, i: nat, j: nat)
    requires load.Ok() && LOW_TOP <= load.pref && i < j < |load.Writes()|
    ensures var (a, b) := (load.Writes()[i], load.Writes()[j]); Apart(b.gpa, |b.buf|, a.gpa, |a.buf|)
  {
    WriteAt(load, i);
    WriteAt(load, j);
  }

  /** Kernel, command line, initrd, tables, GDT and zero page all read back as written. */
  lemma AllIntact(m: Memory, ram: Memory, load: Load, i: nat)
    requires load.Ok() && LOW_TOP <= load.pref && After(m, ram, load.Writes()) && i < |load.Writes()|
    ensures var w := load.Writes()[i]; ReadBytes(ram, w.gpa, |w.buf|) == w.buf
  {
    forall j | i < j < |load.Writes()|
      ensures Apart(load.Writes()[j].gpa, |load.Writes()[j].buf|, load.Writes()[i].gpa, |load.Writes()[i].buf|)
    {
      WritesApart(load, i, j);
    }
    WrittenSurvives(m, load.Writes(), i);
  }

  lemma LoadIsOk(load: Load, img: Image, cmdline: seq<byte>, rd: Option<seq<byte>>, memSize: int,
                 rsdp: int, e820: seq<E820>)
    requires img.Ok() && LoadOf(load, img, cmdline, rd, memSize, rsdp, e820)
    ensures load.Ok()
    ensures load.initrd.Some? ==> 0 <= load.initrd.value.gpa
                                  && load.initrd.value.gpa + |load.initrd.value.buf| <= PvhBoot.LOWMEM_LIMIT
  {
    if rd.Some? {
      PvhBoot.PlacedHighest(memSize, |rd.value|, img.pref + |img.Kernel()|, 0);
    }
  }

  lemma WriteOfTable(load: Load, t: nat)
    requires t < 6
    ensures FirstTable(load) + t < |load.Writes()| && load.Writes()[FirstTable(load) + t] == PageTables.TableWrite(t)
  {
    var head := [Write(load.pref, load.kernel), Write(GPA_CMDLINE, load.cmdline + [0])] + InitrdList(load.initrd);
    var tail := [Write(GPA_GDT, Gdt()), Write(GPA_BOOT_PARAMS, load.page)];
    assert load.Writes() == head + PageTables.TableWrites(6) + tail;
  }

  lemma TablesIntact(m: Memory, ram: Memory, load: Load)
    requires load.Ok() && LOW_TOP <= load.pref && After(m, ram, load.Writes())
    ensures PageTables.TablesIn(ram)
  {
    forall t | 0 <= t < 6
      ensures ReadBytes(ram, PageTables.TABLES[t].Base(), PAGE_SIZE) == PageTables.TABLES[t].Page()
    {
      WriteOfTable(load, t);
      AllIntact(m, ram, load, FirstTable(load) + t);
    }
  }

  lemma HeadIntact(m: Memory, ram: Memory, load: Load)
    requires load.Ok() && LOW_TOP <= load.pref && After(m, ram, load.Writes())
    ensures ReadBytes(ram, load.pref, |load.kernel|) == load.kernel
    ensures ReadBytes(ram, GPA_CMDLINE, |load.cmdline| + 1) == load.cmdline + [0]
    ensures load.initrd.Some? ==> var w := load.initrd.value; ReadBytes(ram, w.gpa, |w.buf|) == w.buf
  {
    assert load.Writes()[0] == Write(load.pref, load.kernel);
    assert load.Writes()[1] == Write(GPA_CMDLINE, load.cmdline + [0]);
    AllIntact(m, ram, load, 0);
    AllIntact(m, ram, load, 1);
    if load.initrd.Some? {
      assert load.Writes()[2] == load.initrd.value;
      AllIntact(m, ram, load, 2);
    }
  }

  lemma TailIntact(m: Memory, ram: Memory, load: Load)
    requires load.Ok() && LOW_TOP <= load.pref && After(m, ram, load.Writes())
    ensures ReadBytes(ram, GPA_GDT, 24) == Gdt() && ReadBytes(ram, GPA_BOOT_PARAMS, PAGE_SIZE) == load.page
  {
    var n := |load.Writes()|;
    assert load.Writes()[n - 2] == Write(GPA_GDT, Gdt()) && load.Writes()[n - 1] == Write(GPA_BOOT_PARAMS, load.page);
    AllIntact(m, ram, load, n - 2);
    AllIntact(m, ram, load, n - 1);
  }

  /** After every load of a kernel at or above 0x21000 the guest reads back all of it. */
  lemma BootReadsBack(m: Memory, ram: Memory, load: Load, img: Image, cmdline: seq<byte>, rd: Option<seq<byte>>,
                      memSize: int, rsdp: int, e820: seq<E820>)
    requires img.Ok() && LoadOf(load, img, cmdline, rd, memSize, rsdp, e820)
    requires After(m, ram, load.Writes()) && LOW_TOP <= img.pref
    ensures ReadBytes(ram, img.pref, |img.Kernel()|) == img.Kernel()
    ensures ReadBytes(ram, GPA_CMDLINE, |cmdline| + 1) == cmdline + [0]
    ensures rd.Some? ==> ReadBytes(ram, load.initrd.value.gpa, |rd.value|) == rd.value
    ensures ReadBytes(ram, GPA_GDT, 24) == Gdt() && PageTables.TablesIn(ram)
    ensures ReadBytes(ram, GPA_BOOT_PARAMS, PAGE_SIZE) == load.page
  {
    LoadIsOk(load, img, cmdline, rd, memSize, rsdp, e820);
    HeadIntact(m, ram, load);
    TailIntact(m, ram, load);
    TablesIntact(m, ram, load);
  }

  /** The kernel finds the whole initrd address and size in the 32-bit fields of the zero page. */
  lemma RamdiskFields(load: Load, img: Image, cmdline: seq<byte>, rd: Option<seq<byte>>, memSize: int,
                      rsdp: int, e820: seq<E820>)
    requires img.Ok() && LoadOf(load, img, cmdline, rd, memSize, rsdp, e820) && rd.Some?
    ensures RamdiskAt(load.page, load.initrd.value.gpa, |rd.value|)
  {
    LoadIsOk(load, img, cmdline, rd, memSize, rsdp, e820);
    Low32Same(load.initrd.value.gpa);
    Low32Same(|rd.value|);
    InitrdFields(load.page, ParamsOf(img, load.initrd, rsdp, e820));
  }

  // ----- exactly when a lower kernel survives

  /** The low addresses a load with this command line writes after the kernel. */
  predicate LoaderOwns(a: int, cmdlineLen: int)
  {
    || GPA_GDT <= a < GPA_GDT + 24
    || GPA_BOOT_PARAMS <= a < GPA_BOOT_PARAMS + PAGE_SIZE
    || PageTables.GPA_PML4 <= a < PageTables.GPA_PML4 + 6 * PAGE_SIZE
    || GPA_CMDLINE <= a < GPA_CMDLINE + cmdlineLen + 1
  }

  /** The writes after the kernel's, one by one. */
  lemma LaterMembers(load: Load, w: Write)
    requires w in load.Later()
    ensures || w == Write(GPA_CMDLINE, load.cmdline + [0])
            || load.initrd == Some(w)
            || (exists t :: 0 <= t < 6 && w == PageTables.TableWrite(t))
            || w == Write(GPA_GDT, Gdt())
            || w == Write(GPA_BOOT_PARAMS, load.page)
  {
    if w in PageTables.TableWrites(6) {
      var t :| 0 <= t < 6 && PageTables.TableWrites(6)[t] == w;
    }
  }

  lemma LaterOwned(load: Load, w: Write, a: int)
    requires load.Ok() && load.pref <= a < load.pref + |load.kernel|
    requires w in load.Later() && w.gpa <= a < w.gpa + |w.buf|
    ensures LoaderOwns(a, |load.cmdline|)
  {
    LaterMembers(load, w);
  }

  lemma OwnedCovered(load: Load, a: int)
    requires load.Ok() && LoaderOwns(a, |load.cmdline|)
    ensures Covers(load.Later(), a)
  {
    var ws := load.Later();
    if PageTables.GPA_PML4 <= a < PageTables.GPA_PML4 + 6 * PAGE_SIZE {
      var t := (a - PageTables.GPA_PML4) / PAGE_SIZE;
      var w := PageTables.TableWrite(t);
      assert w == PageTables.TableWrites(6)[t] && w in ws;
    } else {
      assert Write(GPA_CMDLINE, load.cmdline + [0]) in ws;
      assert Write(GPA_GDT, Gdt()) in ws && Write(GPA_BOOT_PARAMS, load.page) in ws;
    }
  }

  /** The kernel part of memory after the load. */
  function KernelAfter(m: Memory, load: Load): seq<byte>
  {
    ReadBytes(WriteAll(m, load.Writes()), load.pref, |load.kernel|)
  }

  lemma KernelFirst(m: Memory, load: Load)
    ensures WriteAll(m, load.Writes()) == WriteAll(Overwrite(m, load.pref, load.kernel), load.Later())
  {
    assert load.Writes()[1..] == load.Later();
  }

  lemma LaterClear(load: Load, w: Write)
    requires load.Ok() && |load.kernel| > 0 && w in load.Later()
    requires forall a :: load.pref <= a < load.pref + |load.kernel| ==> !LoaderOwns(a, |load.cmdline|)
    ensures Apart(w.gpa, |w.buf|, load.pref, |load.kernel|)
  {
    var a := if w.gpa < load.pref then load.pref else w.gpa;
    if a < w.gpa + |w.buf| && a < load.pref + |load.kernel| {
      LaterOwned(load, w, a);
    }
  }

  /** A kernel none of whose addresses the loader owns survives. */
  lemma ClearSurvives(m: Memory, load: Load)
    requires load.Ok() && Mapped(m, load.pref, |load.kernel|)
    requires forall a :: load.pref <= a < load.pref + |load.kernel| ==> !LoaderOwns(a, |load.cmdline|)
    ensures KernelAfter(m, load) == load.kernel
  {
    if |load.kernel| == 0 {
      return;
    }
    KernelFirst(m, load);
    ReadOwn(m, load.pref, load.kernel);
    forall w | w in load.Later()
      ensures Apart(w.gpa, |w.buf|, load.pref, |load.kernel|)
    {
      LaterClear(load, w);
    }
    Untouched(Overwrite(m, load.pref, load.kernel), load.Later(), load.pref, |load.kernel|);
  }

  /** What the loader leaves at an address it owns does not depend on the kernel. */
  lemma OwnedForgets(m: Memory, load: Load, kernel: seq<byte>, a: int)
    requires load.Ok() && Mapped(m, load.pref, |load.kernel|) && |kernel| == |load.kernel|
    requires load.pref <= a < load.pref + |load.kernel| && LoaderOwns(a, |load.cmdline|)
    ensures a in WriteAll(m, load.Writes()) && a in WriteAll(m, load.(kernel := kernel).Writes())
    ensures WriteAll(m, load.Writes())[a] == WriteAll(m, load.(kernel := kernel).Writes())[a]
  {
    KernelFirst(m, load);
    KernelFirst(m, load.(kernel := kernel));
    OwnedCovered(load, a);
    CoveredForgets(Overwrite(m, load.pref, load.kernel), Overwrite(m, load.pref, kernel), load.Later(), a);
  }

  /** Some kernel of the same length is then not read back. */
  lemma OwnedIsLost(m: Memory, load: Load, a: int) returns (kernel: seq<byte>)
    requires load.Ok() && Mapped(m, load.pref, |load.kernel|)
    requires load.pref <= a < load.pref + |load.kernel| && LoaderOwns(a, |load.cmdline|)
    ensures |kernel| == |load.kernel| && KernelAfter(m, load.(kernel := kernel)) != kernel
  {
    var i := a - load.pref;
    OwnedForgets(m, load, load.kernel, a);
    var final := WriteAll(m, load.Writes())[a];
    kernel := load.kernel[i := if final == 0 then 1 else 0];
    OwnedForgets(m, load, kernel, a);
    assert KernelAfter(m, load.(kernel := kernel))[i] == final;
  }

  /** Wherever it is loaded, every kernel of a length survives exactly when none of its addresses is the loader's. */
  lemma KernelSurvivesExactly(m: Memory, load: Load)
    requires load.Ok() && Mapped(m, load.pref, |load.kernel|)
    ensures (forall kernel :: |kernel| == |load.kernel| ==> KernelAfter(m, load.(kernel := kernel)) == kernel)
            <==> (forall a :: load.pref <= a < load.pref + |load.kernel| ==> !LoaderOwns(a, |load.cmdline|))
  {
    if a :| load.pref <= a < load.pref + |load.kernel| && LoaderOwns(a, |load.cmdline|) {
      var kernel := OwnedIsLost(m, load, a);
    } else {
      forall kernel | |kernel| == |load.kernel|
        ensures KernelAfter(m, load.(kernel := kernel)) == kernel
      {
        ClearSurvives(m, load.(kernel := kernel));
      }
    }
  }

  /** The failing input: a kernel at 0x9000, where the page tables go. */
  lemma LowKernelLost(m: Memory, load: Load)
    requires load.Ok() && load.pref == PageTables.GPA_PML4 && |load.kernel| > 0 && Mapped(m, load.pref, |load.kernel|)
    ensures exists kernel :: |kernel| == |load.kernel| && KernelAfter(m, load.(kernel := kernel)) != kernel
  {
    var kernel := OwnedIsLost(m, load, load.pref);
  }
}
