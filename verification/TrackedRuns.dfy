/**
 * Tracked runs of crates/vmm-core/src/mem.rs: after every publish the run of
 * a RAM region is the maximal unbroken stretch of published RAM around it.
 */
module TrackedRuns {
  import opened Prelude
  import opened GuestSpace

  /** The reference notion: byte `x` of the guest is published RAM. */
  ghost predicate RamByte(rs: seq<Region>, x: int)
  {
    exists r :: r in rs && r.kind == Ram && r.Holds(x)
  }

  /** `[s, t)` is RAM throughout and neither neighbour byte is. */
  ghost predicate MaximalRun(rs: seq<Region>, s: int, t: int)
  {
    && s < t
    && (forall x :: s <= x < t ==> RamByte(rs, x))
    && !RamByte(rs, s - 1)
    && !RamByte(rs, t)
  }

  /** The same for the RAM there will be once `[g, e)` is published too. */
  ghost predicate RunWith(rs: seq<Region>, g: int, e: int, s: int, t: int)
  {
    && 0 <= s <= g < e <= t <= U64_MAX
    && (forall x :: s <= x < t ==> g <= x < e || RamByte(rs, x))
    && !RamByte(rs, s - 1)
    && !RamByte(rs, t)
  }

  /** What every published region's tracked run is. */
  ghost predicate RunOk(rs: seq<Region>, r: Region)
  {
    && r.direct.len == r.len && r.direct.prot == RW
    && r.tracked.prot == GuestProt(r.kind)
    && if r.kind == Ram then
         && MaximalRun(rs, r.tracked.gpa, r.tracked.End())
         && r.tracked.gpa <= r.gpa && r.End() <= r.tracked.End()
         && r.tracked.mapping.offset == r.tracked.gpa && r.tracked.mapping.prot == RWX
         && (forall q :: q in rs && q.kind == Ram && r.tracked.gpa <= q.gpa < r.tracked.End()
                         ==> q.tracked == r.tracked)
       else
         r.tracked.gpa == r.gpa && r.tracked.mapping == r.direct
  }

  ghost predicate RunsOk(rs: seq<Region>)
  {
    forall r :: r in rs ==> RunOk(rs, r)
  }

  /** A new region with the views a commit gives it. */
  ghost predicate FreshRegion(rs: seq<Region>, n: Region)
  {
    && n.Extent().Proper()
    && ClearOf(rs, n.Extent())
    && n.direct.len == n.len && n.direct.prot == RW
    && n.tracked.prot == GuestProt(n.kind)
    && if n.kind == Ram then
         && RunWith(rs, n.gpa, n.End(), n.tracked.gpa, n.tracked.End())
         && n.tracked.mapping.offset == n.tracked.gpa && n.tracked.mapping.prot == RWX
       else
         n.tracked.gpa == n.gpa && n.tracked.mapping == n.direct
  }

  // ----- small facts about sorted lists

  lemma SameRegion(rs: seq<Region>, a: Region, b: Region, x: int)
    requires Sorted(rs) && a in rs && b in rs && a.Holds(x) && b.Holds(x)
    ensures a == b
  {
    var i :| 0 <= i < |rs| && rs[i] == a;
    var j :| 0 <= j < |rs| && rs[j] == b;
    assert forall p, q :: 0 <= p < q < |rs| ==> rs[p].End() <= rs[q].gpa;
  }

  lemma ClearMember(rs: seq<Region>, q: Region, r: Range, x: int)
    requires ClearOf(rs, r) && q in rs && q.Holds(x)
    ensures !(r.lo <= x < r.hi)
  {
    var i :| 0 <= i < |rs| && rs[i] == q;
    assert !Overlap(rs[i].Extent(), r);
  }

  /** An all-RAM interval that meets `[s, t)` stays inside it when both ends stop. */
  lemma Nested(rs: seq<Region>, s: int, t: int, s': int, t': int, x: int)
    requires s <= x < t && s' <= x < t'
    requires !RamByte(rs, s - 1) && !RamByte(rs, t)
    requires forall y :: s' <= y < t' ==> RamByte(rs, y)
    ensures s <= s' && t' <= t
  {
    assert s' < s ==> RamByte(rs, s - 1);
    assert t < t' ==> RamByte(rs, t);
  }

  // ----- the publish step

  /** Adopting a run renames mappings and changes no byte. */
  lemma AdoptBytes(rs: seq<Region>, run: TrackedRun, x: int)
    ensures RamByte(Adopt(rs, run), x) <==> RamByte(rs, x)
  {
    var out := Adopt(rs, run);
    if RamByte(rs, x) {
      var r :| r in rs && r.kind == Ram && r.Holds(x);
      var i :| 0 <= i < |rs| && rs[i] == r;
      assert out[i] in out && out[i].Holds(x);
    }
    if RamByte(out, x) {
      var r :| r in out && r.kind == Ram && r.Holds(x);
      var i :| 0 <= i < |out| && out[i] == r;
      assert rs[i] in rs && rs[i].Holds(x);
    }
  }

  lemma PublishedBytes(rs: seq<Region>, n: Region, x: int)
    requires Sorted(rs) && n.Extent().Proper() && ClearOf(rs, n.Extent())
    ensures RamByte(Adopt(Insert(rs, n), n.tracked), x)
            <==> RamByte(rs, x) || (n.kind == Ram && n.Holds(x))
  {
    InsertSorted(rs, n);
    AdoptBytes(Insert(rs, n), n.tracked, x);
    assert forall r :: r in rs ==> r in Insert(rs, n);
    assert n in Insert(rs, n);
  }

  /** A member of the published list: the member it was, adopted. */
  lemma PublishedMember(rs: seq<Region>, n: Region, r: Region) returns (q: Region)
    requires Sorted(rs) && n.Extent().Proper() && ClearOf(rs, n.Extent())
    requires r in Adopt(Insert(rs, n), n.tracked)
    ensures (q == n || q in rs) && r == AdoptOne(q, n.tracked)
  {
    InsertSorted(rs, n);
    var mid := Insert(rs, n);
    var out := Adopt(mid, n.tracked);
    var i :| 0 <= i < |out| && out[i] == r;
    q := mid[i];
  }

  /** A region of the old list that lies outside a new run keeps its own run. */
  lemma OutsideKeepsRun(rs: seq<Region>, n: Region, r: Region)
    requires Sorted(rs) && RunsOk(rs) && FreshRegion(rs, n) && n.kind == Ram
    requires r in rs && r.kind == Ram
    requires !(r.gpa >= n.tracked.gpa && r.End() <= n.tracked.End())
    ensures MaximalRun(Adopt(Insert(rs, n), n.tracked), r.tracked.gpa, r.tracked.End())
    ensures r.tracked.End() < n.tracked.gpa || n.tracked.End() < r.tracked.gpa
  {
    var (s, t) := (n.tracked.gpa, n.tracked.End());
    var (s', t') := (r.tracked.gpa, r.tracked.End());
    assert RunOk(rs, r);
    if s < t' && s' < t {
      Nested(rs, s, t, s', t', if s < s' then s' else s);
    }
    // The two intervals do not even touch: a shared border byte is RAM.
    assert t' == s ==> RamByte(rs, s - 1);
    assert t == s' ==> RamByte(rs, t);
    var out := Adopt(Insert(rs, n), n.tracked);
    forall x | s' - 1 <= x <= t'
      ensures RamByte(out, x) <==> RamByte(rs, x)
    {
      PublishedBytes(rs, n, x);
    }
  }

  /** After the publish the new run is maximal. */
  lemma NewRunMaximal(rs: seq<Region>, n: Region)
    requires Sorted(rs) && FreshRegion(rs, n) && n.kind == Ram
    ensures MaximalRun(Adopt(Insert(rs, n), n.tracked), n.tracked.gpa, n.tracked.End())
  {
    var (s, t) := (n.tracked.gpa, n.tracked.End());
    forall x | s - 1 <= x <= t
      ensures RamByte(Adopt(Insert(rs, n), n.tracked), x) <==> RamByte(rs, x) || n.Holds(x)
    {
      PublishedBytes(rs, n, x);
    }
  }

  /** Only RAM lies inside a new run, so only RAM adopts it. */
  lemma InsideIsRam(rs: seq<Region>, n: Region, q: Region)
    requires Sorted(rs) && FreshRegion(rs, n) && n.kind == Ram
    requires q in rs && n.tracked.gpa <= q.gpa < n.tracked.End()
    ensures q.kind == Ram
  {
    var i :| 0 <= i < |rs| && rs[i] == q;
    assert rs[i].Extent().Proper() && q.Holds(q.gpa);
    ClearMember(rs, q, n.Extent(), q.gpa);
    assert RamByte(rs, q.gpa);
    var p :| p in rs && p.kind == Ram && p.Holds(q.gpa);
    SameRegion(rs, p, q, q.gpa);
  }

  /** A region that starts inside the new run ends inside it. */
  lemma StartsInsideEndsInside(rs: seq<Region>, n: Region, q: Region)
    requires Sorted(rs) && FreshRegion(rs, n) && n.kind == Ram
    requires q in rs && n.tracked.gpa <= q.gpa < n.tracked.End()
    ensures q.End() <= n.tracked.End()
  {
    InsideIsRam(rs, n, q);
    assert n.tracked.End() < q.End() ==> q.Holds(n.tracked.End());
  }

  /** A member inside the new run adopts it. */
  lemma InsideAdopts(rs: seq<Region>, n: Region, q: Region, r: Region)
    requires Sorted(rs) && RunsOk(rs) && FreshRegion(rs, n) && n.kind == Ram
    requires q == n || (q in rs && RunOk(rs, q) && q.gpa >= n.tracked.gpa && q.End() <= n.tracked.End())
    requires r == AdoptOne(q, n.tracked)
    ensures RunOk(Adopt(Insert(rs, n), n.tracked), r)
  {
    var out := Adopt(Insert(rs, n), n.tracked);
    NewRunMaximal(rs, n);
    if q != n {
      var i :| 0 <= i < |rs| && rs[i] == q;
      assert rs[i].Extent().Proper();
      InsideIsRam(rs, n, q);
    }
    forall p | p in out && p.kind == Ram && n.tracked.gpa <= p.gpa < n.tracked.End()
      ensures p.tracked == n.tracked
    {
      var p0 := PublishedMember(rs, n, p);
      if p0 != n { StartsInsideEndsInside(rs, n, p0); }
    }
  }

  /** RAM outside the new run keeps its own. */
  lemma OutsideKeeps(rs: seq<Region>, n: Region, q: Region)
    requires Sorted(rs) && RunsOk(rs) && FreshRegion(rs, n) && n.kind == Ram
    requires q in rs && RunOk(rs, q) && q.kind == Ram && !(q.gpa >= n.tracked.gpa && q.End() <= n.tracked.End())
    ensures RunOk(Adopt(Insert(rs, n), n.tracked), q)
  {
    OutsideKeepsRun(rs, n, q);
    forall p | p in Adopt(Insert(rs, n), n.tracked) && p.kind == Ram && q.tracked.gpa <= p.gpa < q.tracked.End()
      ensures p.tracked == q.tracked
    {
      var p0 := PublishedMember(rs, n, p);
      assert !(n.tracked.gpa <= p.gpa < n.tracked.End());
    }
  }

  lemma PublishRamMember(rs: seq<Region>, n: Region, r: Region)
    requires Sorted(rs) && RunsOk(rs) && FreshRegion(rs, n) && n.kind == Ram
    requires r in Adopt(Insert(rs, n), n.tracked)
    ensures RunOk(Adopt(Insert(rs, n), n.tracked), r)
  {
    var q := PublishedMember(rs, n, r);
    assert q in rs ==> RunOk(rs, q);
    if q == n || (q.gpa >= n.tracked.gpa && q.End() <= n.tracked.End()) {
      InsideAdopts(rs, n, q, r);
    } else if q.kind == Ram {
      OutsideKeeps(rs, n, q);
    }
  }

  /** A region of another kind is a run of itself and moves nobody else's. */
  lemma PublishOtherMember(rs: seq<Region>, n: Region, r: Region)
    requires Sorted(rs) && RunsOk(rs) && FreshRegion(rs, n) && n.kind != Ram
    requires r in Adopt(Insert(rs, n), n.tracked)
    ensures RunOk(Adopt(Insert(rs, n), n.tracked), r)
  {
    var out := Adopt(Insert(rs, n), n.tracked);
    forall p | p in out
      ensures p == n || p in rs
    {
      OtherAdoptsOnlyItself(rs, n, p);
    }
    if r != n {
      assert RunOk(rs, r);
      forall x
        ensures RamByte(out, x) <==> RamByte(rs, x)
      {
        PublishedBytes(rs, n, x);
      }
    }
  }

  lemma OtherAdoptsOnlyItself(rs: seq<Region>, n: Region, p: Region)
    requires Sorted(rs) && FreshRegion(rs, n) && n.kind != Ram
    requires p in Adopt(Insert(rs, n), n.tracked)
    ensures p == n || p in rs
  {
    var p0 := PublishedMember(rs, n, p);
    if p0 != n {
      var i :| 0 <= i < |rs| && rs[i] == p0;
      assert rs[i].Extent().Proper() && p0.Holds(p0.gpa);
      ClearMember(rs, p0, n.Extent(), p0.gpa);
    }
  }

  /** Publishing keeps every run maximal and shared. */
  lemma PublishKeepsRuns(rs: seq<Region>, n: Region)
    requires Sorted(rs) && RunsOk(rs) && FreshRegion(rs, n)
    ensures RunsOk(Adopt(Insert(rs, n), n.tracked))
  {
    forall r | r in Adopt(Insert(rs, n), n.tracked)
      ensures RunOk(Adopt(Insert(rs, n), n.tracked), r)
    {
      if n.kind == Ram {
        PublishRamMember(rs, n, r);
      } else {
        PublishOtherMember(rs, n, r);
      }
    }
  }

  /** The bounds of the run around a new region are unique. */
  lemma RunWithUnique(rs: seq<Region>, g: int, e: int, s: int, t: int, s': int, t': int)
    requires RunWith(rs, g, e, s, t) && RunWith(rs, g, e, s', t')
    ensures s == s' && t == t'
  {
    assert s < s' ==> RamByte(rs, s' - 1);
    assert s' < s ==> RamByte(rs, s - 1);
    assert t < t' ==> RamByte(rs, t);
    assert t' < t ==> RamByte(rs, t');
  }
}
