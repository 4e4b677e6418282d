/**
 * The MSI-X walk of bin/rshyve/src/msix.rs over a 256-byte configuration
 * space: 48 steps are enough for every chain, looping ones included.
 */
module Msix {
  import opened Prelude

  const STATUS_REG: nat := 0x06
  const CAP_PTR_REG: nat := 0x34
  const FIRST_CAP: nat := 0x40
  const CAP_ID_MSIX: nat := 0x11
  const MAX_CAPS: nat := 48

  type Config = c: seq<byte> | |c| == 256 witness seq(256, _ => 0)

  /** The offset a link byte names: its bits 1:0 read as zero. */
  function LinkTarget(b: byte): (p: nat)
    ensures p % 4 == 0 && p <= b < p + 4
  {
    b - b % 4
  }

  predicate HasCapList(c: Config) { c[STATUS_REG] / 16 % 2 == 1 }

  predicate IsMsix(c: Config, o: nat)
    requires o < 256
  {
    c[o] == CAP_ID_MSIX
  }

  /** The vectors of the table: between 1 and 2048. */
  function TableSize(c: Config, o: nat): nat
    requires o + 3 < 256
  {
    Le16(c[o + 2], c[o + 3]) % 2048 + 1
  }

  // ----- the chain, with no bound on its length

  /** The offset `n` links into the chain; a link below 0x40 ends it for good. */
  ghost function Hop(c: Config, n: nat): (o: nat)
    ensures o < 256 && o % 4 == 0
  {
    if n == 0 then LinkTarget(c[CAP_PTR_REG])
    else
      var o := Hop(c, n - 1);
      if o < FIRST_CAP then o else LinkTarget(c[o + 1])
  }

  /** The `n`-th capability exists. */
  ghost predicate Live(c: Config, n: nat) { Hop(c, n) >= FIRST_CAP }

  /** The `n`-th capability exists and is MSI-X. */
  ghost predicate Hit(c: Config, n: nat) { Live(c, n) && IsMsix(c, Hop(c, n)) }

  /** ... and it is the first one. */
  ghost predicate FirstHit(c: Config, n: nat)
  {
    Hit(c, n) && forall m: nat :: m < n ==> !Hit(c, m)
  }

  // ----- 48 steps suffice

  /** Equal offsets have equal continuations. */
  lemma {:induction false} Periodic(c: Config, i: nat, j: nat, d: nat)
    requires Hop(c, i) == Hop(c, j)
    ensures Hop(c, i + d) == Hop(c, j + d)
  {
    if d > 0 {
      Periodic(c, i, j, d - 1);
      assert Hop(c, i + d) == (var o := Hop(c, i + d - 1); if o < FIRST_CAP then o else LinkTarget(c[o + 1]));
    }
  }

  /** The aligned slots of the first `k` capabilities. */
  ghost function Slots(c: Config, k: nat): set<nat>
  {
    if k == 0 then {} else Slots(c, k - 1) + {Hop(c, k - 1) / 4}
  }

  lemma {:induction false} SlotIn(c: Config, k: nat, s: nat)
    ensures s in Slots(c, k) <==> exists i: nat :: i < k && Hop(c, i) / 4 == s
  {
    if k > 0 {
      SlotIn(c, k - 1, s);
      assert Slots(c, k) == Slots(c, k - 1) + {Hop(c, k - 1) / 4};
      if s in Slots(c, k - 1) {
        var i: nat :| i < k - 1 && Hop(c, i) / 4 == s;
        assert i < k && Hop(c, i) / 4 == s;
      } else if Hop(c, k - 1) / 4 == s {
        var i: nat := k - 1;
        assert i < k && Hop(c, i) / 4 == s;
      } else if i: nat :| i < k && Hop(c, i) / 4 == s {
        assert i < k - 1;
      }
    }
  }

  /** `k` capabilities at different offsets fill `k` slots. */
  lemma {:induction false} SlotCount(c: Config, k: nat)
    requires forall i: nat, j: nat :: i < j < k ==> Hop(c, i) != Hop(c, j)
    ensures |Slots(c, k)| == k
  {
    if k > 0 {
      SlotCount(c, k - 1);
      SlotIn(c, k - 1, Hop(c, k - 1) / 4);
    }
  }

  ghost function SlotRange(lo: nat, hi: nat): set<nat>
    requires lo <= hi
  {
    if lo == hi then {} else SlotRange(lo, hi - 1) + {hi - 1}
  }

  lemma {:induction false} RangeCount(lo: nat, hi: nat)
    requires lo <= hi
    ensures |SlotRange(lo, hi)| == hi - lo
    ensures forall s: nat :: s in SlotRange(lo, hi) <==> lo <= s < hi
    decreases hi
  {
    if lo < hi {
      RangeCount(lo, hi - 1);
    }
  }

  /** The first `n` hops are all different. */
  ghost predicate Distinct(c: Config, n: nat)
  {
    forall i: nat, j: nat :: i < j < n ==> Hop(c, i) != Hop(c, j)
  }

  lemma SlotsInRange(c: Config)
    requires forall i: nat :: i < MAX_CAPS ==> Live(c, i)
    ensures Slots(c, MAX_CAPS) <= SlotRange(16, 64)
  {
    RangeCount(16, 64);
    forall s | s in Slots(c, MAX_CAPS)
      ensures s in SlotRange(16, 64)
    {
      SlotIn(c, MAX_CAPS, s);
      var i: nat :| i < MAX_CAPS && Hop(c, i) / 4 == s;
      assert Live(c, i);
    }
  }

  /** 48 different capabilities use up every slot, so the next link leads to one of them. */
  lemma DistinctReturns(c: Config) returns (i: nat)
    requires (forall i: nat :: i < MAX_CAPS ==> Live(c, i)) && Distinct(c, MAX_CAPS) && Live(c, MAX_CAPS)
    ensures i < MAX_CAPS && Hop(c, i) == Hop(c, MAX_CAPS)
  {
    SlotCount(c, MAX_CAPS);
    RangeCount(16, 64);
    SlotsInRange(c);
    FullSubset(Slots(c, MAX_CAPS), SlotRange(16, 64));
    assert Hop(c, MAX_CAPS) / 4 in SlotRange(16, 64);
    SlotIn(c, MAX_CAPS, Hop(c, MAX_CAPS) / 4);
    i :| i < MAX_CAPS && Hop(c, i) / 4 == Hop(c, MAX_CAPS) / 4;
  }

  /** Pigeonhole: after 48 capabilities the next link ends the chain or returns to one of them. */
  lemma ReturnsWithin(c: Config) returns (i: nat)
    requires forall i: nat :: i < MAX_CAPS ==> Live(c, i)
    ensures i < MAX_CAPS && (Live(c, MAX_CAPS) ==> Hop(c, i) == Hop(c, MAX_CAPS))
  {
    i := 0;
    if !Distinct(c, MAX_CAPS) {
      var p: nat, q: nat :| p < q < MAX_CAPS && Hop(c, p) == Hop(c, q);
      Periodic(c, p, q, MAX_CAPS - q);
      i := p + (MAX_CAPS - q);
    } else if Live(c, MAX_CAPS) {
      i := DistinctReturns(c);
    }
  }

  lemma FullSubset<T>(a: set<T>, b: set<T>)
    requires a <= b && |a| == |b|
    ensures a == b
  {
    assert |b - a| == |b| - |a|;
  }

  /** Every offset the chain ever visits is among the first 48. */
  lemma {:induction false} VisitedEarly(c: Config, n: nat) returns (i: nat)
    requires forall i: nat :: i < MAX_CAPS ==> Live(c, i)
    ensures i < MAX_CAPS && (Live(c, n) ==> Hop(c, i) == Hop(c, n))
    decreases n
  {
    if n < MAX_CAPS {
      i := n;
    } else {
      i := ReturnsWithin(c);
      if !Live(c, MAX_CAPS) {
        DeadStays(c, MAX_CAPS, n);
      } else if n > MAX_CAPS {
        Periodic(c, i, MAX_CAPS, n - MAX_CAPS);
        i := VisitedEarly(c, i + (n - MAX_CAPS));
      }
    }
  }

  lemma {:induction false} DeadStays(c: Config, i: nat, n: nat)
    requires !Live(c, i) && i <= n
    ensures !Live(c, n)
    decreases n
  {
    if i < n { DeadStays(c, i, n - 1); }
  }

  /** If the first 48 capabilities exist and none is MSI-X, no later one is. */
  lemma FuelSuffices(c: Config, n: nat)
    requires forall i: nat :: i < MAX_CAPS ==> Live(c, i) && !Hit(c, i)
    ensures !Hit(c, n)
  {
    var i := VisitedEarly(c, n);
    assert !Hit(c, i);
  }

  // ----- the walk

  /** The size of the first MSI-X capability of the chain, or none when the chain holds none. */
  method VectorCount(c: Config) returns (r: Option<nat>)
    ensures !HasCapList(c) ==> r.None?
    ensures HasCapList(c) ==> (r.Some? <==> exists n: nat :: Hit(c, n))
    ensures r.Some? ==> exists n: nat :: FirstHit(c, n) && r.value == TableSize(c, Hop(c, n))
  {
    if !HasCapList(c) {
      return None;
    }
    var offset := LinkTarget(c[CAP_PTR_REG]);
    for i := 0 to MAX_CAPS
      invariant offset == Hop(c, i)
      invariant forall m: nat :: m < i ==> Live(c, m) && !Hit(c, m)
    {
      if offset < FIRST_CAP {
        forall n: nat ensures !Hit(c, n) { if n >= i { DeadStays(c, i, n); } }
        return None;
      }
      if c[offset] == CAP_ID_MSIX {
        assert FirstHit(c, i);
        return Some(Le16(c[offset + 2], c[offset + 3]) % 2048 + 1);
      }
      offset := LinkTarget(c[offset + 1]);
      assert offset == Hop(c, i + 1);
    }
    forall n: nat ensures !Hit(c, n) { FuelSuffices(c, n); }
    return None;
  }
}
