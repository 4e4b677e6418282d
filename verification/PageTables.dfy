/**
 * The identity page tables of crates/vmm-boot/src/direct.rs, read back through
 * the 4-level walk of section 4.5 of the Intel SDM, volume 3A.
 */
module PageTables {
  import opened Prelude
  import opened GuestMemory
  import opened GuestSpace

  const GPA_PML4: int := 0x9000
  const GPA_PDPT: int := 0xA000
  const GPA_PD_BASE: int := 0xB000
  const PRESENT_WRITABLE: int := 0x3
  const LARGE: int := 0x80

  const GIB: int := 0x4000_0000
  const MIB2: int := 0x20_0000

  // ----- the tables the loader writes

  datatype Table = Pml4 | Pdpt | Pd(gb: int)
  {
    predicate Ok() { Pd? ==> 0 <= gb < 4 }

    function Base(): int
    {
      match this
      case Pml4 => GPA_PML4
      case Pdpt => GPA_PDPT
      case Pd(gb) => GPA_PD_BASE + gb * PAGE_SIZE
    }

    /** Entry `k`. The flag bits are clear in every address here, so adding them sets them. */
    function Entry(k: nat): (e: int)
      requires Ok() && k < 512
      ensures 0 <= e <= U32_MAX
    {
      match this
      case Pml4 => if k == 0 then GPA_PDPT + PRESENT_WRITABLE else 0
      case Pdpt => if k < 4 then GPA_PD_BASE + k * PAGE_SIZE + PRESENT_WRITABLE else 0
      case Pd(gb) => gb * GIB + k * MIB2 + PRESENT_WRITABLE + LARGE
    }

    /** The page of 512 little-endian entries. */
    function Page(): (p: seq<byte>)
      requires Ok()
      ensures |p| == PAGE_SIZE
    {
      seq(PAGE_SIZE, j requires 0 <= j < PAGE_SIZE => ToLe64(Entry(j / 8))[j % 8])
    }
  }

  const TABLES: seq<Table> := [Pml4, Pdpt, Pd(0), Pd(1), Pd(2), Pd(3)]

  lemma PageEntry(t: Table, k: nat)
    requires t.Ok() && k < 512
    ensures t.Page()[8 * k..8 * k + 8] == ToLe64(t.Entry(k))
  {
    var s := t.Page()[8 * k..8 * k + 8];
    forall j | 0 <= j < 8
      ensures s[j] == ToLe64(t.Entry(k))[j]
    {
      assert s[j] == t.Page()[8 * k + j];
      assert (8 * k + j) / 8 == k && (8 * k + j) % 8 == j;
    }
  }

  /** Entry `k` of the page becomes `v`, and no other byte changes. */
  method StoreEntry(page: array<byte>, k: nat, v: int)
    requires page.Length == PAGE_SIZE && k < 512 && 0 <= v <= U64_MAX
    modifies page
    ensures forall j :: 0 <= j < PAGE_SIZE ==>
              page[j] == if 8 * k <= j < 8 * k + 8 then ToLe64(v)[j - 8 * k] else old(page[j])
  {
    var bytes := ToLe64(v);
    for i := 0 to 8
      invariant forall j :: 0 <= j < PAGE_SIZE ==>
                  page[j] == if 8 * k <= j < 8 * k + i then bytes[j - 8 * k] else old(page[j])
    {
      page[8 * k + i] := bytes[i];
    }
  }

  /** Byte `j` of the page holds its entry's byte once entry `j / 8` is stored; before that it is zero. */
  predicate Filled(t: Table, page: seq<byte>, n: nat)
    requires t.Ok() && |page| == PAGE_SIZE
  {
    forall j :: 0 <= j < PAGE_SIZE ==> page[j] == if j / 8 < n then ToLe64(t.Entry(j / 8))[j % 8] else 0
  }

  lemma StoredEntry(t: Table, before: seq<byte>, after: seq<byte>, k: nat)
    requires t.Ok() && |before| == PAGE_SIZE && |after| == PAGE_SIZE && k < 512 && Filled(t, before, k)
    requires forall j :: 0 <= j < PAGE_SIZE ==>
               after[j] == if 8 * k <= j < 8 * k + 8 then ToLe64(t.Entry(k))[j - 8 * k] else before[j]
    ensures Filled(t, after, k + 1)
  {
    forall j | 0 <= j < PAGE_SIZE
      ensures after[j] == if j / 8 < k + 1 then ToLe64(t.Entry(j / 8))[j % 8] else 0
    {
      assert 8 * k <= j < 8 * k + 8 <==> j / 8 == k;
    }
  }

  /** The first `n` entries of a table that has no other. */
  method FillTable(t: Table, n: nat) returns (page: array<byte>)
    requires t.Ok() && n <= 512 && forall k :: n <= k < 512 ==> t.Entry(k) == 0
    ensures fresh(page) && page.Length == PAGE_SIZE && page[..] == t.Page()
  {
    page := new byte[PAGE_SIZE](_ => 0);
    for i := 0 to n
      invariant page.Length == PAGE_SIZE && Filled(t, page[..], i)
    {
      ghost var before := page[..];
      StoreEntry(page, i, t.Entry(i));
      StoredEntry(t, before, page[..], i);
    }
    FilledIsPage(t, page[..], n);
  }

  lemma FilledIsPage(t: Table, page: seq<byte>, n: nat)
    requires t.Ok() && |page| == PAGE_SIZE && Filled(t, page, n)
    requires n <= 512 && forall k :: n <= k < 512 ==> t.Entry(k) == 0
    ensures page == t.Page()
  {
    ZeroBytes();
    forall j | 0 <= j < PAGE_SIZE
      ensures page[j] == t.Page()[j]
    {
      assert 0 <= j / 8 < 512;
    }
  }

  lemma ZeroBytes()
    ensures forall i :: 0 <= i < 8 ==> ToLe64(0)[i] == 0
  {
    assert ToLe64(0) == [0, 0, 0, 0, 0, 0, 0, 0];
  }

  /** The first `n` pages, in the order they are written. */
  function TableWrites(n: nat): (ws: seq<Write>)
    requires n <= 6
    ensures |ws| == n && forall i :: 0 <= i < n ==> ws[i] == TableWrite(i)
  {
    seq(n, i requires 0 <= i < n => TableWrite(i))
  }

  function TableWrite(i: nat): (w: Write)
    requires i < 6
    ensures w.gpa == GPA_PML4 + i * PAGE_SIZE && |w.buf| == PAGE_SIZE
  {
    Write(TABLES[i].Base(), TABLES[i].Page())
  }

  /** The map lets table `t` be written. */
  ghost predicate TableFits(rs: seq<Region>, t: nat)
    requires t < 6
  {
    Accepts(rs, TableWrite(t).gpa, PAGE_SIZE, false)
  }

  /** One table on top of the `n` before it. */
  method PutTable(mem: MemCtx, ghost m: Memory, ghost done: seq<Write>, n: nat, used: nat) returns (ok: bool)
    requires mem.Valid() && n < 6 && After(m, mem.ram, done + TableWrites(n))
    requires TABLES[n].Ok() && used <= 512 && forall k :: used <= k < 512 ==> TABLES[n].Entry(k) == 0
    modifies mem`ram
    ensures mem.Valid() && mem.ram.Keys == old(mem.ram.Keys)
    ensures ok <==> TableFits(mem.phys.regions, n)
    ensures ok ==> After(m, mem.ram, done + TableWrites(n + 1))
  {
    var page := FillTable(TABLES[n], used);
    ok := Put(mem, m, done + TableWrites(n), TABLES[n].Base(), page[..], false);
    assert done + TableWrites(n) + [TableWrite(n)] == done + TableWrites(n + 1);
  }

  /** `write_page_tables`, on top of the writes already done. */
  method WritePageTables(mem: MemCtx, ghost m: Memory, ghost done: seq<Write>) returns (ok: bool)
    requires mem.Valid() && After(m, mem.ram, done)
    modifies mem`ram
    ensures mem.Valid() && mem.ram.Keys == old(mem.ram.Keys)
    ensures ok <==> forall t :: 0 <= t < 6 ==> TableFits(mem.phys.regions, t)
    ensures ok ==> After(m, mem.ram, done + TableWrites(6))
  {
    assert done + TableWrites(0) == done;
    ok := PutTable(mem, m, done, 0, 1);
    if !ok { return; }
    ok := PutTable(mem, m, done, 1, 4);
    if !ok { return; }
    for gb := 0 to 4
      invariant mem.Valid() && mem.ram.Keys == old(mem.ram.Keys) && After(m, mem.ram, done + TableWrites(2 + gb))
      invariant forall t :: 0 <= t < 2 + gb ==> TableFits(mem.phys.regions, t)
    {
      ok := PutTable(mem, m, done, 2 + gb, 512);
      if !ok { return; }
    }
    ok := true;
  }

  // ----- the hardware walk

  datatype Translation = NotPresent | Leaf(physical: int, writable: bool, pageSize: int)

  function Qword(m: Memory, a: int): int { Le64(ReadBytes(m, a, 8)) }

  predicate Present(e: int) { e % 2 == 1 }
  predicate Writable(e: int) { e / 2 % 2 == 1 }
  predicate LargePage(e: int) { e / 0x80 % 2 == 1 }

  /** Bits 51:12 of an entry, and bits 51 down to a larger page's own size. */
  function TableBase(e: int): int { e / PAGE_SIZE % 0x100_0000_0000 * PAGE_SIZE }
  function PageBase(e: int, size: int): int
    requires size > 0
  {
    e / size * size % 0x10_0000_0000_0000
  }

  /** Translate a linear address from CR3. */
  function Translate(m: Memory, cr3: int, lin: int): Translation
    requires 0 <= lin
  {
    var e := Qword(m, TableBase(cr3) + lin / 0x80_0000_0000 % 512 * 8);
    if !Present(e) then NotPresent else FromPdpt(m, TableBase(e), lin, Writable(e))
  }

  /** The walk from a page-directory-pointer table; `w` is the write permission so far. */
  function FromPdpt(m: Memory, base: int, lin: int, w: bool): Translation
    requires 0 <= lin
  {
    var e := Qword(m, base + lin / GIB % 512 * 8);
    if !Present(e) then NotPresent
    else if LargePage(e) then Leaf(PageBase(e, GIB) + lin % GIB, w && Writable(e), GIB)
    else FromPd(m, TableBase(e), lin, w && Writable(e))
  }

  /** The walk from a page directory. */
  function FromPd(m: Memory, base: int, lin: int, w: bool): Translation
    requires 0 <= lin
  {
    var e := Qword(m, base + lin / MIB2 % 512 * 8);
    if !Present(e) then NotPresent
    else if LargePage(e) then Leaf(PageBase(e, MIB2) + lin % MIB2, w && Writable(e), MIB2)
    else FromPt(m, TableBase(e), lin, w && Writable(e))
  }

  /** The walk from a page table. */
  function FromPt(m: Memory, base: int, lin: int, w: bool): Translation
    requires 0 <= lin
  {
    var e := Qword(m, base + lin / PAGE_SIZE % 512 * 8);
    if !Present(e) then NotPresent else Leaf(TableBase(e) + lin % PAGE_SIZE, w && Writable(e), PAGE_SIZE)
  }

  /** The tables are in memory as written. */
  ghost predicate TablesIn(m: Memory)
  {
    forall i :: 0 <= i < 6 ==> ReadBytes(m, TABLES[i].Base(), PAGE_SIZE) == TABLES[i].Page()
  }

  /** Memory holds table `t`: each of its entries is read back. */
  lemma EntryRead(m: Memory, t: Table, k: nat)
    requires t.Ok() && k < 512 && ReadBytes(m, t.Base(), PAGE_SIZE) == t.Page()
    ensures Qword(m, t.Base() + k * 8) == t.Entry(k)
  {
    var whole := ReadBytes(m, t.Base(), PAGE_SIZE);
    assert ReadBytes(m, t.Base() + k * 8, 8) == whole[8 * k..8 * k + 8];
    PageEntry(t, k);
    Le64RoundTrip(t.Entry(k));
  }

  lemma PdEntryFields(gb: int, k: nat)
    requires 0 <= gb < 4 && k < 512
    ensures var e := Pd(gb).Entry(k);
            Present(e) && Writable(e) && LargePage(e) && PageBase(e, MIB2) == gb * GIB + k * MIB2
  {
    var e := Pd(gb).Entry(k);
    var n := gb * 512 + k;
    assert e == n * MIB2 + 0x83;
    assert e / MIB2 == n;
  }

  lemma PdptEntryFields(gb: int)
    requires 0 <= gb < 4
    ensures var e := Pdpt.Entry(gb);
            Present(e) && Writable(e) && !LargePage(e) && TableBase(e) == Pd(gb).Base()
  {
  }

  lemma LinearParts(lin: int)
    requires 0 <= lin < 4 * GIB
    ensures lin / 0x80_0000_0000 % 512 == 0
    ensures var gb := lin / GIB;
            var k := lin / MIB2 % 512;
            0 <= gb < 4 && gb % 512 == gb && 0 <= k < 512 && lin == gb * GIB + k * MIB2 + lin % MIB2
  {
    var n := lin / MIB2;
    assert n / 512 == lin / GIB;
  }

  lemma PdLevel(m: Memory, lin: int)
    requires TablesIn(m) && 0 <= lin < 4 * GIB
    ensures FromPd(m, Pd(lin / GIB).Base(), lin, true) == Leaf(lin, true, MIB2)
  {
    LinearParts(lin);
    var gb := lin / GIB;
    var k := lin / MIB2 % 512;
    assert TABLES[2 + gb] == Pd(gb);
    EntryRead(m, TABLES[2 + gb], k);
    PdEntryFields(gb, k);
  }

  lemma PdptLevel(m: Memory, lin: int)
    requires TablesIn(m) && 0 <= lin < 4 * GIB
    ensures FromPdpt(m, GPA_PDPT, lin, true) == FromPd(m, Pd(lin / GIB).Base(), lin, true)
  {
    LinearParts(lin);
    assert TABLES[1] == Pdpt;
    EntryRead(m, TABLES[1], lin / GIB);
    PdptEntryFields(lin / GIB);
  }

  lemma Pml4Level(m: Memory, lin: int)
    requires TablesIn(m) && 0 <= lin
    ensures Translate(m, GPA_PML4, lin)
            == if lin / 0x80_0000_0000 % 512 == 0 then FromPdpt(m, GPA_PDPT, lin, true) else NotPresent
  {
    assert TABLES[0] == Pml4;
    EntryRead(m, TABLES[0], lin / 0x80_0000_0000 % 512);
    assert TableBase(GPA_PML4) == GPA_PML4 && TableBase(Pml4.Entry(0)) == GPA_PDPT;
    assert Present(Pml4.Entry(0)) && Writable(Pml4.Entry(0));
  }

  /** Below 4 GiB every address translates to itself through a writable 2 MiB page. */
  lemma IdentityMapped(m: Memory, lin: int)
    requires TablesIn(m) && 0 <= lin < 4 * GIB
    ensures Translate(m, GPA_PML4, lin) == Leaf(lin, true, MIB2)
  {
    LinearParts(lin);
    Pml4Level(m, lin);
    PdptLevel(m, lin);
    PdLevel(m, lin);
  }

  /** From 4 GiB up to the end of the lower half nothing is present. */
  lemma RestUnmapped(m: Memory, lin: int)
    requires TablesIn(m) && 4 * GIB <= lin < 0x8000_0000_0000
    ensures Translate(m, GPA_PML4, lin) == NotPresent
  {
    Pml4Level(m, lin);
    if lin / 0x80_0000_0000 % 512 == 0 {
      var slot := lin / GIB % 512;
      assert 4 <= slot < 512;
      assert TABLES[1] == Pdpt;
      EntryRead(m, TABLES[1], slot);
    }
  }
}
