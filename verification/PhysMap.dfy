/**
 * `PhysMap` of crates/vmm-core/src/mem.rs, one method per lock section.
 *
 * The kernel's answers are parameters. Ghost fields record which guest ranges
 * the kernel maps and which claims are kept for good.
 */
module PhysMapModel {
  import opened Prelude
  import opened GuestSpace
  import opened TrackedRuns

  datatype MemError = ZeroLength | Overflows | Unaligned | InHole | OverlapsRegion | OverlapsClaim

  /** Boot time may use the 32-bit hole, run time may not. */
  datatype Placement = Firmware | RunTime

  /** A held range: `RamClaim` without its back pointer. */
  datatype RamClaim = RamClaim(gpa: int, len: int, kind: RegionKind, prot: Prot)
  {
    function Extent(): Range { Range(gpa, gpa + len) }
  }

  /** What the kernel answers during one commit: a mapping identity, or a refusal. */
  datatype Answers = Answers(tracked: Option<nat>, mapOk: bool, devmem: Option<(nat, int)>, unmapOk: bool)

  datatype Outcome = Published | RolledBack | Spent

  /** A view handed to a caller: `SubMapping`. */
  datatype View = View(mapping: Mapping, offset: int, len: int, prot: Prot)

  /** `SubMapping::new(mapping).subregion(offset, len)`. */
  function Subregion(m: Mapping, offset: int, len: int): Option<View>
  {
    if offset + len <= U64_MAX && offset + len <= m.len then Some(View(m, offset, len, m.prot)) else None
  }

  ghost function Extents(rs: seq<Region>): set<Range>
  {
    set r | r in rs :: r.Extent()
  }

  /** The reference for `lookup`: all RAM bytes, or one region of another kind. */
  ghost predicate Covered(rs: seq<Region>, lo: int, hi: int)
  {
    || (forall x :: lo <= x < hi ==> RamByte(rs, x))
    || (exists r :: r in rs && r.kind != Ram && r.gpa <= lo && hi <= r.End())
  }

  /** Why a range cannot be claimed, before the lists are looked at. */
  function Misplaced(gpa: int, len: int, placement: Placement): Option<MemError>
  {
    if len == 0 then Some(ZeroLength)
    else if gpa + len > U64_MAX then Some(Overflows)
    else if placement == Firmware then None
    else if !Aligned(gpa) || !Aligned(len) then Some(Unaligned)
    else if gpa < MMIO_HOLE_END && gpa + len > MMIO_HOLE_BASE then Some(InHole)
    else None
  }

  /** Whether `devmem_view` can be made: the kernel agrees and the offset fits. */
  predicate DevmemOk(k: Answers, segoff: int)
  {
    k.devmem.Some? && k.devmem.value.1 + segoff <= I64_MAX
  }

  /** Which way a commit ends, from the start of its run and the kernel's answers. */
  function CommitOutcome(kind: RegionKind, segoff: int, runGpa: int, k: Answers): Outcome
  {
    if segoff < 0 || !Aligned(segoff) then RolledBack
    else if kind == Ram && (runGpa > I64_MAX || k.tracked.None?) then RolledBack
    else if !k.mapOk then RolledBack
    else if DevmemOk(k, segoff) then Published
    else if k.unmapOk then RolledBack
    else Spent
  }

  /** The region a commit publishes over the run `[run.lo, run.hi)`. */
  function CommittedRegion(c: RamClaim, segoff: int, run: Range, k: Answers): Region
    requires k.devmem.Some? && (c.kind == Ram ==> k.tracked.Some?)
  {
    var direct := Mapping(k.devmem.value.0, k.devmem.value.1 + segoff, c.len, RW);
    var tracked :=
      if c.kind == Ram then
        TrackedRun(run.lo, Mapping(k.tracked.value, run.lo, run.hi - run.lo, c.prot), c.prot)
      else
        TrackedRun(c.gpa, direct, c.prot);
    Region(c.gpa, c.len, c.kind, tracked, direct)
  }

  class PhysMap {
    var regions: seq<Region>
    var claims: seq<Range>
    ghost var mapped: set<Range>
    ghost var spent: set<Range>

    /** Every range the kernel maps is a published region or a spent claim. */
    ghost predicate Valid()
      reads this
    {
      && SpaceOk(Space(regions, claims))
      && RunsOk(regions)
      && (forall r :: r in spent ==> r in claims)
      && mapped == Extents(regions) + spent
    }

    constructor ()
      ensures Valid() && regions == [] && claims == [] && mapped == {} && spent == {}
    {
      regions, claims, mapped, spent := [], [], {}, {};
    }

    /** None exactly when the range is free; a region in the way is reported before a claim. */
    method CheckFree(r: Range) returns (res: Option<MemError>)
      ensures res.None? <==> Free(Space(regions, claims), r)
      ensures res == Some(OverlapsRegion) <==> !ClearOf(regions, r)
      ensures res.Some? ==> res.value in {OverlapsRegion, OverlapsClaim}
    {
      for i := 0 to |regions|
        invariant forall j :: 0 <= j < i ==> !Overlap(regions[j].Extent(), r)
      {
        if r.lo < regions[i].End() && r.hi > regions[i].gpa {
          assert Overlap(regions[i].Extent(), r);
          return Some(OverlapsRegion);
        }
      }
      for i := 0 to |claims|
        invariant forall j :: 0 <= j < i ==> !Overlap(claims[j], r)
      {
        if r.lo < claims[i].hi && r.hi > claims[i].lo {
          return Some(OverlapsClaim);
        }
      }
      return None;
    }

    /** The range joins the list exactly when it is well placed and free; a refusal leaves the list alone. */
    method Claim(gpa: int, len: int, kind: RegionKind, placement: Placement)
      returns (res: Result<RamClaim, MemError>)
      requires Valid() && 0 <= gpa <= U64_MAX && 0 <= len <= U64_MAX
      modifies this`claims
      ensures Valid()
      ensures res.Ok? <==> Misplaced(gpa, len, placement).None?
                           && Free(Space(old(regions), old(claims)), Range(gpa, gpa + len))
      ensures Misplaced(gpa, len, placement).Some? ==> res == Err(Misplaced(gpa, len, placement).value)
      ensures res.Err? ==> claims == old(claims)
      ensures res.Ok? ==> res.value == RamClaim(gpa, len, kind, GuestProt(kind))
                          && claims == old(claims) + [res.value.Extent()]
    {
      if Misplaced(gpa, len, placement).Some? {
        return Err(Misplaced(gpa, len, placement).value);
      }
      var r := Range(gpa, gpa + len);
      var busy := CheckFree(r);
      if busy.Some? {
        return Err(busy.value);
      }
      AddClaimKeeps(Space(regions, claims), r);
      claims := claims + [r];
      return Ok(RamClaim(gpa, len, kind, GuestProt(kind)));
    }

    /** Give a claimed range back: the destructor of a live claim. */
    method ReleaseClaim(c: RamClaim)
      requires Valid() && c.Extent() in claims && c.Extent() !in spent
      modifies this`claims
      ensures Valid()
      ensures claims == DropClaim(old(claims), c.gpa)
      ensures forall r :: r in claims <==> r in old(claims) && r != c.Extent()
    {
      DropClaimExact(claims, c.Extent());
      ClearSubset(regions, claims, DropClaim(claims, c.gpa));
      claims := DropClaim(claims, c.gpa);
    }

    /** The first RAM region that ends at `x`. */
    method RamEndingAt(x: int) returns (found: Option<Region>)
      ensures found.Some? ==> found.value in regions && found.value.kind == Ram && found.value.End() == x
      ensures found.None? ==> forall r :: r in regions && r.kind == Ram ==> r.End() != x
    {
      for i := 0 to |regions|
        invariant forall j :: 0 <= j < i ==> regions[j].kind == Ram ==> regions[j].End() != x
      {
        if regions[i].kind == Ram && regions[i].End() == x {
          return Some(regions[i]);
        }
      }
      return None;
    }

    /** The first RAM region that starts at `x`. */
    method RamStartingAt(x: int) returns (found: Option<Region>)
      ensures found.Some? ==> found.value in regions && found.value.kind == Ram && found.value.gpa == x
      ensures found.None? ==> forall r :: r in regions && r.kind == Ram ==> r.gpa != x
    {
      for i := 0 to |regions|
        invariant forall j :: 0 <= j < i ==> regions[j].kind == Ram ==> regions[j].gpa != x
      {
        if regions[i].kind == Ram && regions[i].gpa == x {
          return Some(regions[i]);
        }
      }
      return None;
    }

    /** Walk down over abutting RAM from a new region at `n`. */
    method RunStart(n: Range) returns (start: int)
      requires Sorted(regions) && n.Proper() && ClearOf(regions, n)
      ensures 0 <= start <= n.lo && !RamByte(regions, start - 1)
      ensures forall x :: start <= x < n.lo ==> RamByte(regions, x)
    {
      start := n.lo;
      var below := RamEndingAt(start);
      while below.Some?
        invariant 0 <= start <= n.lo
        invariant below.Some? ==> below.value in regions && below.value.kind == Ram && below.value.End() == start
        invariant below.None? ==> forall r :: r in regions && r.kind == Ram ==> r.End() != start
        invariant forall x :: start <= x < n.lo ==> RamByte(regions, x)
        invariant start == n.lo || exists r :: r in regions && r.kind == Ram && r.gpa == start
        decreases start
      {
        ProperMember(regions, below.value);
        assert forall x :: below.value.gpa <= x < start ==> below.value.Holds(x);
        start := below.value.gpa;
        below := RamEndingAt(start);
      }
      LowEndStops(regions, n, start);
    }

    /** Walk up over abutting RAM from a new region at `n`. */
    method RunEnd(n: Range) returns (end: int)
      requires Sorted(regions) && n.Proper() && ClearOf(regions, n)
      ensures n.hi <= end <= U64_MAX && !RamByte(regions, end)
      ensures forall x :: n.hi <= x < end ==> RamByte(regions, x)
    {
      end := n.hi;
      var above := RamStartingAt(end);
      while above.Some?
        invariant n.hi <= end <= U64_MAX
        invariant above.Some? ==> above.value in regions && above.value.kind == Ram && above.value.gpa == end
        invariant above.None? ==> forall r :: r in regions && r.kind == Ram ==> r.gpa != end
        invariant forall x :: n.hi <= x < end ==> RamByte(regions, x)
        invariant end == n.hi || exists r :: r in regions && r.kind == Ram && r.End() == end
        decreases U64_MAX - end
      {
        ProperMember(regions, above.value);
        assert forall x :: end <= x < above.value.End() ==> above.value.Holds(x);
        end := above.value.End();
        above := RamStartingAt(end);
      }
      HighEndStops(regions, n, end);
    }

    /** The maximal stretch of RAM a new RAM region completes; any other region is its own. */
    method RunBounds(gpa: int, len: int, kind: RegionKind) returns (start: int, runLen: int)
      requires Sorted(regions) && Range(gpa, gpa + len).Proper() && ClearOf(regions, Range(gpa, gpa + len))
      ensures kind != Ram ==> start == gpa && runLen == len
      ensures kind == Ram ==> RunWith(regions, gpa, gpa + len, start, start + runLen)
    {
      if kind != Ram {
        return gpa, len;
      }
      start := RunStart(Range(gpa, gpa + len));
      var end := RunEnd(Range(gpa, gpa + len));
      runLen := end - start;
    }

    /** Binary search for the place of a region that starts at `gpa`. */
    method FindInsert(gpa: int) returns (k: nat)
      requires Sorted(regions)
      ensures k == InsertIndex(regions, gpa)
    {
      var lo, hi := 0, |regions|;
      while lo < hi
        invariant 0 <= lo <= hi <= |regions|
        invariant forall i :: 0 <= i < lo ==> regions[i].gpa < gpa
        invariant forall i :: hi <= i < |regions| ==> gpa <= regions[i].gpa
      {
        var mid := (lo + hi) / 2;
        assert regions[mid].Extent().Proper();
        if regions[mid].gpa < gpa {
          forall i | 0 <= i < mid ensures regions[i].gpa < gpa { assert regions[i].Extent().Proper(); }
          lo := mid + 1;
        } else {
          forall i | mid < i < |regions| ensures gpa <= regions[i].gpa { assert regions[mid].End() <= regions[i].gpa; }
          hi := mid;
        }
      }
      k := lo;
      ghost var j := InsertIndex(regions, gpa);
      assert k <= j;
      assert k == |regions| || gpa <= regions[k].gpa;
    }

    /** The list with exactly the regions inside `run` renamed to it. */
    method AdoptRun(run: TrackedRun)
      modifies this`regions
      ensures regions == Adopt(old(regions), run)
    {
      for i := 0 to |regions|
        invariant |regions| == |old(regions)|
        invariant forall j :: 0 <= j < i ==> regions[j] == AdoptOne(old(regions)[j], run)
        invariant forall j :: i <= j < |regions| ==> regions[j] == old(regions)[j]
      {
        if regions[i].gpa >= run.gpa && regions[i].End() <= run.End() {
          regions := regions[i := regions[i].(tracked := run)];
        }
      }
    }

    /** The lists become `Publish` of what they were, every run stays maximal, and the kernel maps one range more. */
    method PublishClaim(n: Region)
      requires Valid() && n.Extent() in claims && n.Extent() !in spent
      requires FreshRegion(regions, n)
      modifies this
      ensures Valid()
      ensures Space(regions, claims) == Publish(Space(old(regions), old(claims)), n)
      ensures mapped == old(mapped) + {n.Extent()} && spent == old(spent)
    {
      PublishKeepsSpace(Space(regions, claims), n);
      PublishKeepsRuns(regions, n);
      PublishExtents(regions, n);
      DropClaimExact(claims, n.Extent());
      claims := DropClaim(claims, n.gpa);
      var k := FindInsert(n.gpa);
      regions := regions[..k] + [n] + regions[k..];
      AdoptRun(n.tracked);
      mapped := mapped + {n.Extent()};
    }

    /** One of three outcomes, decided by the kernel's answers, and the whole new state in each. */
    method Commit(c: RamClaim, segoff: int, k: Answers) returns (o: Outcome, ghost run: Range)
      requires Valid() && c.Extent() in claims && c.Extent() !in spent && c.prot == GuestProt(c.kind)
      modifies this
      ensures Valid()
      ensures segoff >= 0 && Aligned(segoff) && c.kind == Ram
              ==> RunWith(old(regions), c.gpa, c.gpa + c.len, run.lo, run.hi)
      ensures o == CommitOutcome(c.kind, segoff, run.lo, k)
      ensures o == Published ==>
                && Space(regions, claims)
                   == Publish(Space(old(regions), old(claims)), CommittedRegion(c, segoff, run, k))
                && mapped == old(mapped) + {c.Extent()} && spent == old(spent)
      ensures o == RolledBack ==>
                && regions == old(regions) && claims == DropClaim(old(claims), c.gpa)
                && mapped == old(mapped) && spent == old(spent)
      ensures o == Spent ==>
                && regions == old(regions) && claims == old(claims)
                && mapped == old(mapped) + {c.Extent()} && spent == old(spent) + {c.Extent()}
    {
      run := c.Extent();
      if segoff < 0 || !Aligned(segoff) {
        ReleaseClaim(c);
        return RolledBack, run;
      }
      ClaimedIsClear(Space(regions, claims), c.Extent());
      var start, runLen := RunBounds(c.gpa, c.len, c.kind);
      run := Range(start, start + runLen);
      if c.kind == Ram && (start > I64_MAX || k.tracked.None?) {
        ReleaseClaim(c);
        return RolledBack, run;
      }
      if !k.mapOk {
        ReleaseClaim(c);
        return RolledBack, run;
      }
      if DevmemOk(k, segoff) {
        PublishClaim(CommittedRegion(c, segoff, Range(start, start + runLen), k));
        return Published, run;
      }
      if k.unmapOk {
        ReleaseClaim(c);
        return RolledBack, run;
      }
      mapped := mapped + {c.Extent()};
      spent := spent + {c.Extent()};
      return Spent, run;
    }

    /** A region is found exactly when one holds `gpa`. */
    method RegionAt(gpa: int) returns (found: Option<Region>)
      requires Valid()
      ensures found.Some? ==> found.value in regions && found.value.Holds(gpa)
      ensures found.None? ==> forall r :: r in regions ==> !r.Holds(gpa)
    {
      var lo, hi := 0, |regions|;
      while lo < hi
        invariant 0 <= lo <= hi <= |regions|
        invariant forall i :: 0 <= i < lo ==> regions[i].End() <= gpa
        invariant forall i :: hi <= i < |regions| ==> gpa < regions[i].gpa
      {
        var mid := (lo + hi) / 2;
        if gpa < regions[mid].gpa {
          forall i | mid < i < |regions| ensures gpa < regions[i].gpa {
            assert regions[mid].Extent().Proper() && regions[mid].End() <= regions[i].gpa;
          }
          hi := mid;
        } else if gpa >= regions[mid].End() {
          forall i | 0 <= i < mid ensures regions[i].End() <= gpa { assert regions[i].End() <= regions[mid].gpa; }
          lo := mid + 1;
        } else {
          return Some(regions[mid]);
        }
      }
      return None;
    }

    /** A view exactly when the range is all RAM or inside one other region, at its offset into the run. */
    method Lookup(gpa: int, len: int) returns (v: Option<View>)
      requires Valid() && 0 <= gpa <= U64_MAX && 0 <= len <= U64_MAX
      ensures len > 0 ==> (v.Some? <==> gpa + len <= U64_MAX && Covered(regions, gpa, gpa + len))
      ensures len == 0 ==> (v.Some? <==> exists r :: r in regions && r.Holds(gpa))
      ensures v.Some? ==> v.value.len == len
      ensures v.Some? && RamByte(regions, gpa) ==> v.value.mapping.offset + v.value.offset == gpa && v.value.prot == RWX
      ensures v.Some? ==> exists r :: r in regions && r.Holds(gpa)
                                      && v.value == View(r.tracked.mapping, gpa - r.tracked.gpa, len,
                                                         r.tracked.mapping.prot.Meet(GuestProt(r.kind)))
    {
      var end := gpa + len;
      if end > U64_MAX {
        return None;
      }
      var found := RegionAt(gpa);
      if found.None? {
        NothingThere(regions, gpa, end);
        return None;
      }
      var run := found.value.tracked;
      RunDecides(regions, found.value, gpa, end);
      ProperMember(regions, found.value);
      if end > run.End() {
        return None;
      }
      v := Subregion(run.mapping, gpa - run.gpa, len);
      assert v.Some?;
      v := Some(v.value.(prot := v.value.prot.Meet(run.prot)));
    }

    /** A view exactly when a single region holds the range, at its offset into the segment. */
    method LookupUntracked(gpa: int, len: int) returns (v: Option<View>)
      requires Valid() && 0 <= gpa <= U64_MAX && 0 <= len <= U64_MAX
      ensures len > 0 ==> (v.Some? <==> exists r :: r in regions && r.gpa <= gpa && gpa + len <= r.End())
      ensures len == 0 ==> (v.Some? <==> exists r :: r in regions && r.Holds(gpa))
      ensures v.Some? ==> exists r :: r in regions && r.Holds(gpa)
                                      && v.value == View(r.direct, gpa - r.gpa, len, RW)
    {
      if len > 0 {
        forall r | r in regions && r.gpa <= gpa && gpa + len <= r.End()
          ensures r.Holds(gpa) && gpa + len <= U64_MAX
        {
          ProperMember(regions, r);
        }
      } else {
        forall r | r in regions ensures r.End() <= U64_MAX { ProperMember(regions, r); }
      }
      var end := gpa + len;
      if end > U64_MAX {
        return None;
      }
      var found := RegionAt(gpa);
      if found.None? {
        return None;
      }
      var region := found.value;
      ProperMember(regions, region);
      if end > region.End() {
        forall r | r in regions && r.Holds(gpa) ensures r == region { SameRegion(regions, r, region, gpa); }
        return None;
      }
      assert RunOk(regions, region);
      v := Subregion(region.direct, gpa - region.gpa, len);
    }
  }

  // ----- lemmas the methods use

  lemma ProperMember(rs: seq<Region>, r: Region)
    requires Sorted(rs) && r in rs
    ensures r.Extent().Proper()
  {
    var i :| 0 <= i < |rs| && rs[i] == r;
    assert rs[i].Extent().Proper();
  }

  lemma ClaimedIsClear(s: Space, r: Range)
    requires SpaceOk(s) && r in s.claims
    ensures r.Proper() && ClearOf(s.regions, r)
  {
    var j :| 0 <= j < |s.claims| && s.claims[j] == r;
    assert s.claims[j].Proper() && ClearOf(s.regions, s.claims[j]);
  }

  lemma ClearSubset(rs: seq<Region>, cs: seq<Range>, ds: seq<Range>)
    requires forall j :: 0 <= j < |cs| ==> ClearOf(rs, cs[j])
    requires forall d :: d in ds ==> d in cs
    ensures forall j :: 0 <= j < |ds| ==> ClearOf(rs, ds[j])
  {
    forall j | 0 <= j < |ds|
      ensures ClearOf(rs, ds[j])
    {
      assert ds[j] in ds;
      var i :| 0 <= i < |cs| && cs[i] == ds[j];
      assert ClearOf(rs, cs[i]);
    }
  }

  /** No RAM below a start that no RAM region ends at. */
  lemma LowEndStops(rs: seq<Region>, n: Range, start: int)
    requires Sorted(rs) && ClearOf(rs, n) && n.Proper() && start <= n.lo
    requires forall r :: r in rs && r.kind == Ram ==> r.End() != start
    requires start == n.lo || exists r :: r in rs && r.kind == Ram && r.gpa == start
    ensures !RamByte(rs, start - 1)
  {
    forall r | r in rs && r.kind == Ram
      ensures !r.Holds(start - 1)
    {
      if r.Holds(start - 1) {
        assert r.Holds(start);
        if start == n.lo {
          ClearMember(rs, r, n, start);
        } else {
          var q :| q in rs && q.kind == Ram && q.gpa == start;
          ProperMember(rs, q);
          SameRegion(rs, r, q, start);
        }
      }
    }
  }

  /** No RAM at an end that no RAM region starts at. */
  lemma HighEndStops(rs: seq<Region>, n: Range, end: int)
    requires Sorted(rs) && ClearOf(rs, n) && n.Proper() && n.hi <= end
    requires forall r :: r in rs && r.kind == Ram ==> r.gpa != end
    requires end == n.hi || exists r :: r in rs && r.kind == Ram && r.End() == end
    ensures !RamByte(rs, end)
  {
    forall r | r in rs && r.kind == Ram
      ensures !r.Holds(end)
    {
      if r.Holds(end) {
        assert r.Holds(end - 1);
        if end == n.hi {
          ClearMember(rs, r, n, end - 1);
        } else {
          var q :| q in rs && q.kind == Ram && q.End() == end;
          ProperMember(rs, q);
          SameRegion(rs, r, q, end - 1);
        }
      }
    }
  }

  lemma AdoptExtents(rs: seq<Region>, run: TrackedRun)
    ensures Extents(Adopt(rs, run)) == Extents(rs)
  {
    var out := Adopt(rs, run);
    forall i | 0 <= i < |rs|
      ensures rs[i].Extent() in Extents(out) && out[i].Extent() in Extents(rs)
    {
      assert out[i] in out && rs[i] in rs && out[i].Extent() == rs[i].Extent();
    }
  }

  lemma PublishExtents(rs: seq<Region>, n: Region)
    requires Sorted(rs) && n.Extent().Proper() && ClearOf(rs, n.Extent())
    ensures Extents(Adopt(Insert(rs, n), n.tracked)) == Extents(rs) + {n.Extent()}
  {
    InsertSorted(rs, n);
    AdoptExtents(Insert(rs, n), n.tracked);
  }

  lemma NothingThere(rs: seq<Region>, lo: int, hi: int)
    requires forall r :: r in rs ==> !r.Holds(lo)
    ensures lo < hi ==> !Covered(rs, lo, hi)
  {
    if lo < hi {
      assert !RamByte(rs, lo);
    }
  }

  lemma RamHere(rs: seq<Region>, r: Region, lo: int)
    requires Sorted(rs) && r in rs && r.Holds(lo)
    ensures RamByte(rs, lo) <==> r.kind == Ram
  {
    if RamByte(rs, lo) {
      var q :| q in rs && q.kind == Ram && q.Holds(lo);
      SameRegion(rs, q, r, lo);
    }
  }

  lemma RamDecides(rs: seq<Region>, r: Region, lo: int, hi: int)
    requires Sorted(rs) && RunOk(rs, r) && r in rs && r.Holds(lo) && r.kind == Ram && lo < hi
    ensures Covered(rs, lo, hi) <==> hi <= r.tracked.End()
  {
    assert r.tracked.End() < hi ==> !RamByte(rs, r.tracked.End());
    forall q | q in rs && q.kind != Ram && q.gpa <= lo && hi <= q.End()
      ensures false
    {
      SameRegion(rs, q, r, lo);
    }
  }

  lemma OtherDecides(rs: seq<Region>, r: Region, lo: int, hi: int)
    requires Sorted(rs) && RunOk(rs, r) && r in rs && r.Holds(lo) && r.kind != Ram && lo < hi
    ensures Covered(rs, lo, hi) <==> hi <= r.tracked.End()
  {
    forall q | q in rs && q.gpa <= lo && hi <= q.End()
      ensures q == r
    {
      SameRegion(rs, q, r, lo);
    }
    RamHere(rs, r, lo);
  }

  lemma RunStartsLow(rs: seq<Region>, r: Region, lo: int)
    requires Sorted(rs) && RunOk(rs, r) && r in rs && r.Holds(lo)
    ensures 0 <= r.tracked.gpa <= lo < r.tracked.End()
  {
    ProperMember(rs, r);
    if r.kind == Ram {
      assert RamByte(rs, r.tracked.gpa);
      var b :| b in rs && b.kind == Ram && b.Holds(r.tracked.gpa);
      ProperMember(rs, b);
    }
  }

  /** The run of the region at `lo` decides byte-wise coverage of `[lo, hi)`. */
  lemma RunDecides(rs: seq<Region>, r: Region, lo: int, hi: int)
    requires Sorted(rs) && RunsOk(rs) && r in rs && r.Holds(lo)
    ensures 0 <= r.tracked.gpa <= lo < r.tracked.End()
    ensures lo < hi ==> (Covered(rs, lo, hi) <==> hi <= r.tracked.End())
    ensures RamByte(rs, lo) <==> r.kind == Ram
  {
    assert RunOk(rs, r);
    RunStartsLow(rs, r, lo);
    RamHere(rs, r, lo);
    if lo < hi && r.kind == Ram {
      RamDecides(rs, r, lo, hi);
    } else if lo < hi {
      OtherDecides(rs, r, lo, hi);
    }
  }
}
