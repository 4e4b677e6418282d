/**
 * The values behind crates/vmm-core/src/mem.rs: regions, claims and tracked
 * runs, with the steps one write-lock section makes on them.
 */
module GuestSpace {
  import opened Prelude

  const MMIO_HOLE_BASE: int := 0xC000_0000
  const MMIO_HOLE_END: int := 0x1_0000_0000

  datatype RegionKind = Ram | Rom | Mmio

  datatype Prot = Prot(read: bool, write: bool, exec: bool)
  {
    function Meet(other: Prot): Prot {
      Prot(read && other.read, write && other.write, exec && other.exec)
    }
  }

  const RW := Prot(true, true, false)
  const RWX := Prot(true, true, true)
  const RX := Prot(true, false, true)

  function GuestProt(kind: RegionKind): Prot {
    if kind == Rom then RX else RWX
  }

  /** One mmap of the VMM device: its identity, device offset and length. */
  datatype Mapping = Mapping(id: nat, offset: int, len: int, prot: Prot)

  datatype TrackedRun = TrackedRun(gpa: int, mapping: Mapping, prot: Prot)
  {
    function End(): int { gpa + mapping.len }
  }

  datatype Region = Region(gpa: int, len: int, kind: RegionKind,
                           tracked: TrackedRun, direct: Mapping)
  {
    function End(): int { gpa + len }
    function Extent(): Range { Range(gpa, End()) }
    predicate Holds(x: int) { gpa <= x < End() }
  }

  /** The guest addresses `[lo, hi)`. */
  datatype Range = Range(lo: int, hi: int)
  {
    predicate Proper() { 0 <= lo < hi <= U64_MAX }
  }

  datatype Space = Space(regions: seq<Region>, claims: seq<Range>)

  predicate Overlap(a: Range, b: Range)
  {
    a.lo < b.hi && b.lo < a.hi
  }

  // ----- what the lists keep

  /** Published regions: non-empty, sorted by address and disjoint. */
  ghost predicate Sorted(rs: seq<Region>)
  {
    && (forall i :: 0 <= i < |rs| ==> rs[i].Extent().Proper())
    && (forall i, j :: 0 <= i < j < |rs| ==> rs[i].End() <= rs[j].gpa)
  }

  ghost predicate ClaimsOk(cs: seq<Range>)
  {
    && (forall i :: 0 <= i < |cs| ==> cs[i].Proper())
    && (forall i, j :: 0 <= i < j < |cs| ==> !Overlap(cs[i], cs[j]))
  }

  /** `r` touches no published region. */
  ghost predicate ClearOf(rs: seq<Region>, r: Range)
  {
    forall i :: 0 <= i < |rs| ==> !Overlap(rs[i].Extent(), r)
  }

  ghost predicate SpaceOk(s: Space)
  {
    && Sorted(s.regions)
    && ClaimsOk(s.claims)
    && (forall j :: 0 <= j < |s.claims| ==> ClearOf(s.regions, s.claims[j]))
  }

  // ----- taking and giving back a claim

  /** The overlap rule: no published region and no claim meets `r`. */
  ghost predicate Free(s: Space, r: Range)
  {
    && ClearOf(s.regions, r)
    && (forall j :: 0 <= j < |s.claims| ==> !Overlap(s.claims[j], r))
  }

  function AddClaim(s: Space, r: Range): Space
  {
    s.(claims := s.claims + [r])
  }

  lemma AddClaimKeeps(s: Space, r: Range)
    requires SpaceOk(s) && r.Proper() && Free(s, r)
    ensures SpaceOk(AddClaim(s, r))
  {
  }

  /** Position of the first claim starting at `gpa`, or the length. */
  function ClaimIndex(cs: seq<Range>, gpa: int): (i: nat)
    ensures i <= |cs|
    ensures i < |cs| ==> cs[i].lo == gpa
    ensures forall j :: 0 <= j < i ==> cs[j].lo != gpa
  {
    if cs == [] || cs[0].lo == gpa then 0
    else
      var rest := ClaimIndex(cs[1..], gpa);
      assert forall j :: 1 <= j < |cs| ==> cs[j] == cs[1..][j - 1];
      rest + 1
  }

  /** `Vec::swap_remove`: the last element takes the place of the removed one. */
  function SwapRemove(cs: seq<Range>, i: nat): seq<Range>
    requires i < |cs|
  {
    cs[i := cs[|cs| - 1]][..|cs| - 1]
  }

  function DropClaim(cs: seq<Range>, gpa: int): seq<Range>
  {
    var i := ClaimIndex(cs, gpa);
    if i < |cs| then SwapRemove(cs, i) else cs
  }

  /** Dropping by start address removes exactly the claim that starts there. */
  lemma DropClaimExact(cs: seq<Range>, r: Range)
    requires ClaimsOk(cs) && r in cs
    ensures ClaimsOk(DropClaim(cs, r.lo))
    ensures forall c :: c in DropClaim(cs, r.lo) <==> c in cs && c != r
    ensures forall c :: c in DropClaim(cs, r.lo) ==> !Overlap(c, r)
  {
    var i := ClaimIndex(cs, r.lo);
    var k :| 0 <= k < |cs| && cs[k] == r;
    assert Overlap(cs[i], cs[k]);  // both start at r.lo, so i == k
    var out := DropClaim(cs, r.lo);
    assert forall j :: 0 <= j < |out| ==> out[j] == (if j == i then cs[|cs| - 1] else cs[j]);
    forall c | c in cs && c != r
      ensures c in out
    {
      var j :| 0 <= j < |cs| && cs[j] == c;
      assert out[if j == |cs| - 1 then i else j] == c;
    }
    forall j | 0 <= j < |out|
      ensures !Overlap(out[j], r)
    {
      var j' := if j == i then |cs| - 1 else j;
      assert j' != i;
      assert out[j] == cs[j'];
    }
  }

  // ----- publishing

  /** Where a region at `gpa` goes: `binary_search_by_key(..).unwrap_or_else(..)`. */
  function InsertIndex(rs: seq<Region>, gpa: int): (k: nat)
    ensures k <= |rs|
    ensures forall i :: 0 <= i < k ==> rs[i].gpa < gpa
    ensures k < |rs| ==> gpa <= rs[k].gpa
  {
    if rs == [] || gpa <= rs[0].gpa then 0
    else
      var rest := InsertIndex(rs[1..], gpa);
      assert forall j :: 1 <= j < |rs| ==> rs[j] == rs[1..][j - 1];
      rest + 1
  }

  function Insert(rs: seq<Region>, n: Region): (out: seq<Region>)
  {
    var k := InsertIndex(rs, n.gpa);
    rs[..k] + [n] + rs[k..]
  }

  function AdoptOne(r: Region, run: TrackedRun): Region
  {
    if r.gpa >= run.gpa && r.End() <= run.End() then r.(tracked := run) else r
  }

  function Adopt(rs: seq<Region>, run: TrackedRun): (out: seq<Region>)
    ensures |out| == |rs|
    ensures forall i :: 0 <= i < |rs| ==> out[i] == AdoptOne(rs[i], run)
  {
    seq(|rs|, i requires 0 <= i < |rs| => AdoptOne(rs[i], run))
  }

  /** One publish: the claim goes, the region enters, its run is adopted. */
  function Publish(s: Space, n: Region): Space
  {
    Space(Adopt(Insert(s.regions, n), n.tracked), DropClaim(s.claims, n.gpa))
  }

  lemma InsertSplits(rs: seq<Region>, n: Region, i: nat)
    requires Sorted(rs) && n.Extent().Proper() && ClearOf(rs, n.Extent()) && i < |rs|
    ensures i < InsertIndex(rs, n.gpa) ==> rs[i].End() <= n.gpa
    ensures InsertIndex(rs, n.gpa) <= i ==> n.End() <= rs[i].gpa
  {
    assert !Overlap(rs[i].Extent(), n.Extent());
    assert rs[i].Extent().Proper();
  }

  lemma SplicePair(rs: seq<Region>, n: Region, k: nat, i: nat, j: nat)
    requires Sorted(rs) && k <= |rs| && i < j <= |rs|
    requires forall i :: 0 <= i < k ==> rs[i].End() <= n.gpa
    requires forall i :: k <= i < |rs| ==> n.End() <= rs[i].gpa
    ensures (rs[..k] + [n] + rs[k..])[i].End() <= (rs[..k] + [n] + rs[k..])[j].gpa
  {
    var a := if i < k then rs[i] else if i == k then n else rs[i - 1];
    var b := if j < k then rs[j] else if j == k then n else rs[j - 1];
    assert a.End() <= b.gpa;
  }

  lemma InsertSorted(rs: seq<Region>, n: Region)
    requires Sorted(rs) && n.Extent().Proper() && ClearOf(rs, n.Extent())
    ensures Sorted(Insert(rs, n))
    ensures forall r :: r in Insert(rs, n) <==> r == n || r in rs
  {
    var k := InsertIndex(rs, n.gpa);
    var out := Insert(rs, n);
    forall i | 0 <= i < |rs|
      ensures i < k ==> rs[i].End() <= n.gpa
      ensures k <= i ==> n.End() <= rs[i].gpa
    {
      InsertSplits(rs, n, i);
    }
    forall i, j | 0 <= i < j < |out|
      ensures out[i].End() <= out[j].gpa
    {
      SplicePair(rs, n, k, i, j);
    }
    InsertMembers(rs, n);
    forall i | 0 <= i < |out|
      ensures out[i].Extent().Proper()
    {
      assert out[i] == n || out[i] in rs;
    }
  }

  lemma InsertMembers(rs: seq<Region>, n: Region)
    ensures forall r :: r in Insert(rs, n) <==> r == n || r in rs
  {
    var k := InsertIndex(rs, n.gpa);
    assert rs == rs[..k] + rs[k..];
  }

  lemma InsertClear(rs: seq<Region>, n: Region, c: Range)
    requires ClearOf(rs, c) && !Overlap(n.Extent(), c)
    ensures ClearOf(Insert(rs, n), c)
  {
    InsertMembers(rs, n);
    var out := Insert(rs, n);
    forall i | 0 <= i < |out|
      ensures !Overlap(out[i].Extent(), c)
    {
      assert out[i] == n || out[i] in rs;
    }
  }

  lemma PublishKeepsSpace(s: Space, n: Region)
    requires SpaceOk(s) && n.Extent() in s.claims
    ensures SpaceOk(Publish(s, n))
  {
    var k :| 0 <= k < |s.claims| && s.claims[k] == n.Extent();
    assert ClearOf(s.regions, s.claims[k]);
    InsertSorted(s.regions, n);
    DropClaimExact(s.claims, n.Extent());
    var out := Publish(s, n);
    forall j | 0 <= j < |out.claims|
      ensures ClearOf(out.regions, out.claims[j])
    {
      assert out.claims[j] in out.claims;
      var j' :| 0 <= j' < |s.claims| && s.claims[j'] == out.claims[j];
      assert ClearOf(s.regions, s.claims[j']);
      InsertClear(s.regions, n, s.claims[j']);
    }
  }
}
