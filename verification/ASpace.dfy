/**
 * The ordered range index of crates/vmm-core/src/aspace.rs, against the plain
 * map from a point to the region that owns it.
 */
module AddressIndex {
  import opened Prelude

  datatype Error = OutOfRange | BadLength | Conflict | NotFound

  datatype Entry<T> = Entry(len: int, item: T)

  /** A region as callers see it: `(start, length, item)`. */
  datatype Region<T> = Region(start: int, len: int, item: T)

  datatype Bound = Unbounded | Included(x: int) | Excluded(x: int)

  predicate FromLow(x: int, lo: Bound)
  {
    match lo
    case Unbounded => true
    case Included(a) => a <= x
    case Excluded(a) => a < x
  }

  predicate ToHigh(x: int, hi: Bound)
  {
    match hi
    case Unbounded => true
    case Included(b) => x <= b
    case Excluded(b) => x < b
  }

  /** The last address of a region, unless it is empty or not representable. */
  function SafeEnd(start: int, len: int): (end: Option<int>)
    requires 0 <= start <= U64_MAX && 0 <= len <= U64_MAX
    ensures end.Some? <==> len > 0 && start + len - 1 <= U64_MAX
    ensures end.Some? ==> end.value == start + len - 1
  {
    if len == 0 then None
    else if start == 0 then Some(start + len - 1)
    else if start - 1 + len <= U64_MAX then Some(start - 1 + len)
    else None
  }

  /** Point `p` lies in the region stored at key `k`. */
  predicate Contains<T>(m: map<int, Entry<T>>, k: int, p: int)
  {
    k in m && k <= p < k + m[k].len
  }

  /** Stored regions are non-empty, inside the space and pairwise disjoint. */
  ghost predicate Disjoint<T>(m: map<int, Entry<T>>, start: int, end: int)
  {
    && (forall k :: k in m ==> 0 < m[k].len <= U64_MAX && start <= k && k + m[k].len - 1 <= end)
    && (forall j, k :: j in m && k in m && j < k ==> j + m[j].len <= k)
  }

  /** The reference: which region owns a point. */
  ghost function OwnerOf<T>(m: map<int, Entry<T>>, p: int): Option<Region<T>>
  {
    if k :| Contains(m, k, p) then Some(Region(k, m[k].len, m[k].item)) else None
  }

  lemma OwnerUnique<T>(m: map<int, Entry<T>>, start: int, end: int, k: int, p: int)
    requires Disjoint(m, start, end) && Contains(m, k, p)
    ensures OwnerOf(m, p) == Some(Region(k, m[k].len, m[k].item))
  {
    forall j | Contains(m, j, p)
      ensures j == k
    {
    }
  }

  /** The region at `k` has a point of the range. */
  ghost predicate Touches<T>(m: map<int, Entry<T>>, k: int, lo: Bound, hi: Bound)
  {
    exists p :: Contains(m, k, p) && FromLow(p, lo) && ToHigh(p, hi)
  }

  // ----- ranges

  predicate IsUsize(b: Bound) { b.Unbounded? || 0 <= b.x <= U64_MAX }

  /** Some address lies in the range. */
  ghost predicate HasAddress(lo: Bound, hi: Bound)
  {
    exists x :: 0 <= x <= U64_MAX && FromLow(x, lo) && ToHigh(x, hi)
  }

  /** When the ordered map's range search panics: bounds in the wrong order, or both excluding one address. */
  predicate RangePanics(lo: Bound, hi: Bound)
  {
    !lo.Unbounded? && !hi.Unbounded? && (lo.x > hi.x || (lo.x == hi.x && lo.Excluded? && hi.Excluded?))
  }

  /** The first address from a bound on; an increment past the last address wraps. */
  function FirstOf(lo: Bound): int
    requires !lo.Unbounded?
  {
    if lo.Included? then lo.x else (lo.x + 1) % (U64_MAX + 1)
  }

  /** The front bound after its adjustment: the start of the region that holds the first address. */
  ghost function FrontOf<T>(m: map<int, Entry<T>>, lo: Bound): Bound
  {
    if lo.Unbounded? then Unbounded
    else match OwnerOf(m, FirstOf(lo))
      case Some(r) => Included(r.start)
      case None => Excluded(lo.x)
  }

  /** The search answers, and with exactly the regions that have a point in the range. */
  ghost predicate Exact<T>(m: map<int, Entry<T>>, keys: Option<set<int>>, lo: Bound, hi: Bound)
  {
    keys.Some? && forall k :: k in keys.value <==> k in m && Touches(m, k, lo, hi)
  }

  /**
   * The empty ranges that are served: no front bound; or a first address no
   * region holds, and bounds the search takes; or a back bound that excludes
   * the very start of the region that holds the first address.
   */
  ghost predicate EmptyServed<T>(m: map<int, Entry<T>>, lo: Bound, hi: Bound)
  {
    || lo.Unbounded?
    || match OwnerOf(m, FirstOf(lo))
       case Some(r) => hi == Excluded(r.start)
       case None => !RangePanics(Excluded(lo.x), hi)
  }

  class ASpace<T> {
    const start: int
    const end: int
    var entries: map<int, Entry<T>>

    ghost predicate Valid()
      reads this
    {
      0 <= start <= end <= U64_MAX && Disjoint(entries, start, end)
    }

    constructor (start: int, end: int)
      requires 0 <= start <= end <= U64_MAX
      ensures Valid() && entries == map[] && this.start == start && this.end == end
    {
      this.start, this.end, entries := start, end, map[];
    }

    /** The greatest key at or below `p`: `range(..=p).next_back()`. */
    method LastUpTo(p: int) returns (best: Option<int>)
      ensures best.Some? ==> best.value in entries && best.value <= p
                             && forall k :: k in entries && k <= p ==> k <= best.value
      ensures best.None? ==> forall k :: k in entries ==> p < k
    {
      best := None;
      var todo := entries.Keys;
      while todo != {}
        invariant todo <= entries.Keys
        invariant best.Some? ==> best.value in entries && best.value <= p
        invariant forall k :: k in entries && k !in todo && k <= p ==> best.Some? && k <= best.value
        decreases |todo|
      {
        ghost var some := AnyOf(todo);
        var k :| k in todo;
        if k <= p && (best.None? || best.value < k) {
          best := Some(k);
        }
        todo := todo - {k};
      }
    }

    /** The region that contains `p`, by one predecessor search. */
    method RegionAt(p: int) returns (r: Result<Region<T>, Error>)
      requires Valid()
      ensures r == Err(OutOfRange) <==> p < start || p > end
      ensures start <= p <= end ==>
                r == match OwnerOf(entries, p) case Some(region) => Ok(region) case None => Err(NotFound)
      ensures r.Ok? <==> exists k :: Contains(entries, k, p)
    {
      if p < start || p > end {
        return Err(OutOfRange);
      }
      var best := LastUpTo(p);
      if best.Some? {
        var k := best.value;
        if SafeEnd(k, entries[k].len).value >= p {
          OwnerUnique(entries, start, end, k, p);
          assert Contains(entries, k, p);
          return Ok(Region(k, entries[k].len, entries[k].item));
        }
        assert forall j :: Contains(entries, j, p) ==> j <= k;
      }
      return Err(NotFound);
    }

    /** Keys of the stored regions a range touches, or none where the ordered map's own search would panic. */
    method CoveredBy(lo: Bound, hi: Bound) returns (keys: Option<set<int>>)
      requires Valid() && IsUsize(lo) && IsUsize(hi)
      ensures keys.None? <==> RangePanics(FrontOf(entries, lo), hi)
      ensures Exact(entries, keys, lo, hi) <==> HasAddress(lo, hi) || EmptyServed(entries, lo, hi)
    {
      var front := lo;
      match lo {
        case Unbounded =>
        case Excluded(pos) =>
          var at := RegionAt((pos + 1) % (U64_MAX + 1));
          if at.Ok? { front := Included(at.value.start); } else { front := Excluded(pos); }
        case Included(pos) =>
          var at := RegionAt(pos);
          if at.Ok? { front := Included(at.value.start); } else { front := Excluded(pos); }
      }
      assert front == FrontOf(entries, lo);
      AnswerExactly(entries, start, end, lo, hi);
      keys := if RangePanics(front, hi) then None else Some(set k | k in entries && FromLow(k, front) && ToHigh(k, hi));
    }

    /** Store a region that nothing stored touches, or say why not and change nothing. */
    method Register(s: int, len: int, item: T) returns (r: Result<(), Error>)
      requires Valid() && 0 <= s <= U64_MAX && 0 <= len <= U64_MAX
      modifies this`entries
      ensures Valid()
      ensures r == Err(BadLength) <==> len == 0 || s + len - 1 > U64_MAX
      ensures r == Err(OutOfRange) <==> len > 0 && s + len - 1 <= U64_MAX && (s < start || s + len - 1 > end)
      ensures r.Ok? <==> len > 0 && s + len - 1 <= U64_MAX && start <= s && s + len - 1 <= end
                         && forall p :: s <= p < s + len ==> old(OwnerOf(entries, p)).None?
      ensures r.Err? ==> entries == old(entries) && r.error != NotFound
      ensures r.Ok? ==> forall p :: OwnerOf(entries, p)
                                    == if s <= p < s + len then Some(Region(s, len, item)) else old(OwnerOf(entries, p))
    {
      var last := SafeEnd(s, len);
      if last.None? {
        return Err(BadLength);
      }
      if s < start || s > end || last.value > end {
        return Err(OutOfRange);
      }
      assert FromLow(s, Included(s)) && ToHigh(s, Included(last.value));
      var found := CoveredBy(Included(s), Included(last.value));
      assert Exact(entries, found, Included(s), Included(last.value));
      var hits := found.value;
      ghost var before := entries;
      if hits != {} {
        ghost var k := AnyOf(hits);
        ghost var p :| Contains(entries, k, p) && FromLow(p, Included(s)) && ToHigh(p, Included(last.value));
        OwnerUnique(entries, start, end, k, p);
        assert OwnerOf(entries, p).Some?;
        return Err(Conflict);
      }
      NoneTouched(entries, start, end, s, len);
      assert s !in entries;
      entries := entries[s := Entry(len, item)];
      forall p
        ensures OwnerOf(entries, p) == if s <= p < s + len then Some(Region(s, len, item)) else OwnerOf(before, p)
      {
        OwnerAfterInsert(before, start, end, s, Entry(len, item), p);
      }
      return Ok(());
    }

    /** Remove the region that begins at `s`. */
    method Unregister(s: int) returns (r: Result<T, Error>)
      requires Valid()
      modifies this`entries
      ensures Valid()
      ensures s !in old(entries) ==> r == Err(NotFound) && entries == old(entries)
      ensures s in old(entries) ==> r == Ok(old(entries)[s].item) && entries == old(entries) - {s}
      ensures forall p :: OwnerOf(entries, p) == if Contains(old(entries), s, p) then None else old(OwnerOf(entries, p))
    {
      if s !in entries {
        return Err(NotFound);
      }
      ghost var before := entries;
      r := Ok(entries[s].item);
      entries := entries - {s};
      forall p
        ensures OwnerOf(entries, p) == if Contains(before, s, p) then None else OwnerOf(before, p)
      {
        OwnerAfterRemove(before, start, end, s, p);
      }
    }

    method Clear()
      requires Valid()
      modifies this`entries
      ensures Valid() && forall p :: OwnerOf(entries, p).None?
    {
      entries := map[];
    }
  }

  // ----- lemmas

  lemma AnyOf<K>(keys: set<K>) returns (k: K)
    requires keys != {}
    ensures k in keys
  {
    k :| k in keys;
  }

  /** The adjusted front bound picks exactly the regions with a point at or above `low`. */
  lemma FrontExact<T>(m: map<int, Entry<T>>, start: int, end: int, low: int, front: Bound, hi: Bound, lo: Bound)
    requires Disjoint(m, start, end)
    requires ToHigh(low, hi) && (forall x :: FromLow(x, lo) <==> low <= x)
    requires front.Included? ==> Contains(m, front.x, low)
    requires !front.Included? ==> (forall k :: !Contains(m, k, low))
                                  && (forall k :: k in m ==> (FromLow(k, front) <==> low <= k))
    ensures forall k :: k in m ==> (FromLow(k, front) && ToHigh(k, hi) <==> Touches(m, k, lo, hi))
  {
    forall k | k in m
      ensures FromLow(k, front) && ToHigh(k, hi) <==> Touches(m, k, lo, hi)
    {
      if FromLow(k, front) && ToHigh(k, hi) {
        var p := if k < low then low else k;
        if front.Included? && k != front.x {
          assert front.x + m[front.x].len <= k;
        }
        assert Contains(m, k, p) && FromLow(p, lo) && ToHigh(p, hi);
      }
      if Touches(m, k, lo, hi) {
        var p :| Contains(m, k, p) && FromLow(p, lo) && ToHigh(p, hi);
        if k < low {
          assert Contains(m, k, low);
        }
      }
    }
  }

  /** What the search over the adjusted bounds answers. */
  ghost function AnswerOf<T>(m: map<int, Entry<T>>, lo: Bound, hi: Bound): Option<set<int>>
  {
    var front := FrontOf(m, lo);
    if RangePanics(front, hi) then None else Some(set k | k in m && FromLow(k, front) && ToHigh(k, hi))
  }

  /** A range with an address is never refused and answered exactly. */
  lemma AddressServed<T>(m: map<int, Entry<T>>, start: int, end: int, lo: Bound, hi: Bound)
    requires Disjoint(m, start, end) && IsUsize(lo) && IsUsize(hi) && HasAddress(lo, hi)
    ensures Exact(m, AnswerOf(m, lo, hi), lo, hi)
  {
    if lo.Unbounded? {
      forall k | k in m
        ensures ToHigh(k, hi) <==> Touches(m, k, lo, hi)
      {
        assert Contains(m, k, k) && FromLow(k, lo);
      }
    } else {
      FirstIsLeast(lo, hi);
      FrontHolds(m, lo);
      if FrontOf(m, lo).Excluded? {
        forall k | k in m
          ensures FromLow(k, FrontOf(m, lo)) <==> FirstOf(lo) <= k
        {
          assert !Contains(m, k, FirstOf(lo)) && (k == FirstOf(lo) ==> Contains(m, k, k));
        }
      }
      FrontExact(m, start, end, FirstOf(lo), FrontOf(m, lo), hi, lo);
    }
  }

  lemma FirstIsLeast(lo: Bound, hi: Bound)
    requires !lo.Unbounded? && IsUsize(lo) && HasAddress(lo, hi)
    ensures ToHigh(FirstOf(lo), hi) && forall x :: FromLow(x, lo) <==> FirstOf(lo) <= x
  {
    var x :| 0 <= x <= U64_MAX && FromLow(x, lo) && ToHigh(x, hi);
    assert lo.x + (if lo.Excluded? then 1 else 0) == FirstOf(lo) <= x;
  }

  lemma FrontHolds<T>(m: map<int, Entry<T>>, lo: Bound)
    requires !lo.Unbounded?
    ensures FrontOf(m, lo).Included? ==> Contains(m, FrontOf(m, lo).x, FirstOf(lo))
    ensures !FrontOf(m, lo).Included? ==> FrontOf(m, lo) == Excluded(lo.x) && forall k :: !Contains(m, k, FirstOf(lo))
  {
  }

  /** Without an address in the range no region has a point in it. */
  lemma EmptyTouchesNone<T>(m: map<int, Entry<T>>, start: int, end: int, lo: Bound, hi: Bound, k: int)
    requires Disjoint(m, start, end) && 0 <= start && end <= U64_MAX && !HasAddress(lo, hi) && k in m
    ensures !Touches(m, k, lo, hi)
    ensures !(FromLow(k, lo) && ToHigh(k, hi))
  {
    assert Contains(m, k, k);
    assert forall p :: Contains(m, k, p) ==> 0 <= p <= U64_MAX;
  }

  lemma EmptyExactly<T>(m: map<int, Entry<T>>, start: int, end: int, lo: Bound, hi: Bound)
    requires Disjoint(m, start, end) && 0 <= start && end <= U64_MAX && !HasAddress(lo, hi)
    ensures Exact(m, AnswerOf(m, lo, hi), lo, hi) <==> EmptyServed(m, lo, hi)
  {
    forall k | k in m
      ensures !Touches(m, k, lo, hi) && !(FromLow(k, lo) && ToHigh(k, hi))
    {
      EmptyTouchesNone(m, start, end, lo, hi, k);
    }
    if !lo.Unbounded? && OwnerOf(m, FirstOf(lo)).Some? {
      var k := OwnerOf(m, FirstOf(lo)).value.start;
      assert k in m && FromLow(k, Included(k));
      if hi != Excluded(k) && !RangePanics(Included(k), hi) {
        assert k in AnswerOf(m, lo, hi).value;
      }
    }
  }

  /** The search is exact on every range with an address, and on exactly these empty ones. */
  lemma AnswerExactly<T>(m: map<int, Entry<T>>, start: int, end: int, lo: Bound, hi: Bound)
    requires Disjoint(m, start, end) && 0 <= start && end <= U64_MAX && IsUsize(lo) && IsUsize(hi)
    ensures Exact(m, AnswerOf(m, lo, hi), lo, hi) <==> HasAddress(lo, hi) || EmptyServed(m, lo, hi)
  {
    if HasAddress(lo, hi) {
      AddressServed(m, start, end, lo, hi);
    } else {
      EmptyExactly(m, start, end, lo, hi);
    }
  }

  /** The failing inputs: the range 5..5 panics in an empty space, and names a region that holds 5. */
  lemma EmptyRangeFails<T>(item: T)
    ensures AnswerOf<T>(map[], Included(5), Excluded(5)).None?
    ensures AnswerOf(map[3 := Entry(5, item)], Included(5), Excluded(5)) == Some({3})
    ensures !HasAddress(Included(5), Excluded(5))
  {
    var m := map[3 := Entry(5, item)];
    OwnerUnique(m, 0, 100, 3, 5);
    assert forall k: int :: !Contains<T>(map[], k, 5);
    assert FrontOf(m, Included(5)) == Included(3);
    assert (set k | k in m && FromLow(k, Included(3)) && ToHigh(k, Excluded(5))) == {3};
  }

  lemma NoneTouched<T>(m: map<int, Entry<T>>, start: int, end: int, s: int, len: int)
    requires Disjoint(m, start, end) && 0 < len
    requires forall k :: k in m ==> !Touches(m, k, Included(s), Included(s + len - 1))
    ensures forall k :: k in m ==> k + m[k].len <= s || s + len <= k
    ensures forall p :: s <= p < s + len ==> OwnerOf(m, p).None?
  {
    forall k | k in m
      ensures k + m[k].len <= s || s + len <= k
    {
      var p := if k < s then s else k;
      assert s <= p < s + len ==> FromLow(p, Included(s)) && ToHigh(p, Included(s + len - 1));
      assert !(Contains(m, k, p) && s <= p < s + len);
    }
  }

  lemma OwnerAfterInsert<T>(m: map<int, Entry<T>>, start: int, end: int, s: int, e: Entry<T>, p: int)
    requires Disjoint(m, start, end) && s !in m
    requires 0 < e.len <= U64_MAX && start <= s && s + e.len - 1 <= end
    requires forall k :: k in m ==> k + m[k].len <= s || s + e.len <= k
    ensures Disjoint(m[s := e], start, end)
    ensures OwnerOf(m[s := e], p) == if s <= p < s + e.len then Some(Region(s, e.len, e.item)) else OwnerOf(m, p)
  {
    var n := m[s := e];
    if s <= p < s + e.len {
      OwnerUnique(n, start, end, s, p);
    } else if k :| Contains(m, k, p) {
      OwnerUnique(m, start, end, k, p);
      OwnerUnique(n, start, end, k, p);
    } else {
      assert forall k :: Contains(n, k, p) ==> Contains(m, k, p);
    }
  }

  lemma OwnerAfterRemove<T>(m: map<int, Entry<T>>, start: int, end: int, s: int, p: int)
    requires Disjoint(m, start, end) && s in m
    ensures Disjoint(m - {s}, start, end)
    ensures OwnerOf(m - {s}, p) == if Contains(m, s, p) then None else OwnerOf(m, p)
  {
    var n := m - {s};
    assert forall k :: Contains(n, k, p) ==> Contains(m, k, p) && k != s;
    if Contains(m, s, p) {
      assert forall k :: !Contains(n, k, p);
    } else if k :| Contains(m, k, p) {
      OwnerUnique(m, start, end, k, p);
      OwnerUnique(n, start, end, k, p);
    }
  }
}
