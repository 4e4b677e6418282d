/**
 * Guest memory as the boot loaders see it: bytes by guest address, written
 * through the views of the physical map (crates/vmm-core/src/mem/ctx.rs).
 */
module GuestMemory {
  import opened Prelude
  import opened GuestSpace
  import opened TrackedRuns
  import PhysMapModel

  type Memory = map<int, byte>

  predicate Mapped(m: Memory, gpa: int, n: nat) { forall x :: gpa <= x < gpa + n ==> x in m }

  function Overwrite(m: Memory, gpa: int, buf: seq<byte>): (out: Memory)
    ensures out.Keys == m.Keys
  {
    map x | x in m :: if gpa <= x < gpa + |buf| then buf[x - gpa] else m[x]
  }

  /** The bytes at `[gpa, gpa + n)`; an unmapped byte reads as zero. */
  function ReadBytes(m: Memory, gpa: int, n: nat): (out: seq<byte>)
    ensures |out| == n
  {
    seq(n, i => if gpa + i in m then m[gpa + i] else 0)
  }

  lemma ReadOwn(m: Memory, gpa: int, buf: seq<byte>)
    requires Mapped(m, gpa, |buf|)
    ensures ReadBytes(Overwrite(m, gpa, buf), gpa, |buf|) == buf
  {
    var out := ReadBytes(Overwrite(m, gpa, buf), gpa, |buf|);
    assert forall i :: 0 <= i < |buf| ==> gpa + i in m && out[i] == buf[i];
  }

  lemma ReadOther(m: Memory, gpa: int, buf: seq<byte>, at: int, n: nat)
    requires Apart(gpa, |buf|, at, n)
    ensures ReadBytes(Overwrite(m, gpa, buf), at, n) == ReadBytes(m, at, n)
  {
  }

  // ----- a sequence of writes

  datatype Write = Write(gpa: int, buf: seq<byte>)

  function WriteAll(m: Memory, ws: seq<Write>): (out: Memory)
    ensures out.Keys == m.Keys
  {
    if ws == [] then m else WriteAll(Overwrite(m, ws[0].gpa, ws[0].buf), ws[1..])
  }

  lemma {:induction false} WriteAllSplit(m: Memory, a: seq<Write>, b: seq<Write>)
    ensures WriteAll(m, a + b) == WriteAll(WriteAll(m, a), b)
    decreases |a|
  {
    if a == [] {
      assert a + b == b;
    } else {
      assert (a + b)[1..] == a[1..] + b;
      WriteAllSplit(Overwrite(m, a[0].gpa, a[0].buf), a[1..], b);
    }
  }

  /** A range no write touches keeps its bytes. */
  lemma {:induction false} Untouched(m: Memory, ws: seq<Write>, at: int, n: nat)
    requires forall w :: w in ws ==> Apart(w.gpa, |w.buf|, at, n)
    ensures ReadBytes(WriteAll(m, ws), at, n) == ReadBytes(m, at, n)
    decreases |ws|
  {
    if ws != [] {
      ReadOther(m, ws[0].gpa, ws[0].buf, at, n);
      assert forall w :: w in ws[1..] ==> w in ws;
      Untouched(Overwrite(m, ws[0].gpa, ws[0].buf), ws[1..], at, n);
    }
  }

  /** A write that no later one touches reads back whole. */
  lemma WrittenSurvives(m: Memory, ws: seq<Write>, i: nat)
    requires i < |ws| && Mapped(m, ws[i].gpa, |ws[i].buf|)
    requires forall j :: i < j < |ws| ==> Apart(ws[j].gpa, |ws[j].buf|, ws[i].gpa, |ws[i].buf|)
    ensures ReadBytes(WriteAll(m, ws), ws[i].gpa, |ws[i].buf|) == ws[i].buf
  {
    assert ws == ws[..i] + ws[i..] && ws[i..][1..] == ws[i + 1..];
    WriteAllSplit(m, ws[..i], ws[i..]);
    var before := WriteAll(m, ws[..i]);
    assert WriteAll(m, ws) == WriteAll(Overwrite(before, ws[i].gpa, ws[i].buf), ws[i + 1..]);
    assert Mapped(before, ws[i].gpa, |ws[i].buf|);
    ReadOwn(before, ws[i].gpa, ws[i].buf);
    Untouched(Overwrite(before, ws[i].gpa, ws[i].buf), ws[i + 1..], ws[i].gpa, |ws[i].buf|);
  }

  /** Some write covers address `a`. */
  ghost predicate Covers(ws: seq<Write>, a: int)
  {
    exists w :: w in ws && w.gpa <= a < w.gpa + |w.buf|
  }

  /** What a covered address holds in the end does not depend on what it held. */
  lemma {:induction false} CoveredForgets(m: Memory, m': Memory, ws: seq<Write>, a: int)
    requires a in m && a in m' && (Covers(ws, a) || m[a] == m'[a])
    ensures WriteAll(m, ws)[a] == WriteAll(m', ws)[a]
    decreases |ws|
  {
    if ws != [] {
      var (n, n') := (Overwrite(m, ws[0].gpa, ws[0].buf), Overwrite(m', ws[0].gpa, ws[0].buf));
      if !(ws[0].gpa <= a < ws[0].gpa + |ws[0].buf|) && Covers(ws, a) {
        var w :| w in ws && w.gpa <= a < w.gpa + |w.buf|;
        assert w in ws[1..];
      }
      CoveredForgets(n, n', ws[1..], a);
    }
  }

  // ----- which writes the map lets through

  ghost predicate Published(rs: seq<Region>, x: int)
  {
    exists r :: r in rs && r.Holds(x)
  }

  /** One region holds the range. */
  ghost predicate InOneRegion(rs: seq<Region>, gpa: int, n: nat)
  {
    exists r :: r in rs && r.Holds(gpa) && gpa + n <= r.End()
  }

  /** The range is RAM, over any seams, or lies in one region that is not read-only. */
  ghost predicate Writable(rs: seq<Region>, gpa: int, n: nat)
  {
    || (gpa + n <= U64_MAX && RamByte(rs, gpa) && forall x :: gpa <= x < gpa + n ==> RamByte(rs, x))
    || (exists r :: r in rs && r.kind == Mmio && r.Holds(gpa) && gpa + n <= r.End())
  }

  /** What a write needs: bulk writes see one region at a time and pass its protection by. */
  ghost predicate Accepts(rs: seq<Region>, gpa: int, n: nat, bulk: bool)
  {
    if bulk then InOneRegion(rs, gpa, n) else Writable(rs, gpa, n)
  }

  /** An accepted write goes to published addresses only. */
  lemma AcceptedIsPublished(rs: seq<Region>, gpa: int, n: nat, bulk: bool)
    requires Accepts(rs, gpa, n, bulk)
    ensures forall x :: gpa <= x < gpa + n ==> Published(rs, x)
  {
    if !bulk && (forall x :: gpa <= x < gpa + n ==> RamByte(rs, x)) {
      forall x | gpa <= x < gpa + n
        ensures Published(rs, x)
      {
        assert RamByte(rs, x);
      }
    }
  }

  /** The context over one physical map: the bytes of its published regions. */
  class MemCtx {
    const phys: PhysMapModel.PhysMap
    var ram: Memory

    ghost predicate Valid()
      reads this, phys
    {
      phys.Valid() && forall x :: x in ram <==> Published(phys.regions, x)
    }

    constructor (phys: PhysMapModel.PhysMap, ram: Memory)
      requires phys.Valid() && forall x :: x in ram <==> Published(phys.regions, x)
      ensures Valid() && this.phys == phys && this.ram == ram
    {
      this.phys, this.ram := phys, ram;
    }

    /** A write through the tracked view: all of the buffer exactly when the guest could write there, else nothing. */
    method WriteBytes(gpa: int, buf: seq<byte>) returns (ok: bool)
      requires Valid() && 0 <= gpa <= U64_MAX && |buf| <= U64_MAX
      modifies this`ram
      ensures Valid() && ram.Keys == old(ram.Keys)
      ensures ok <==> Writable(phys.regions, gpa, |buf|)
      ensures ok ==> Mapped(old(ram), gpa, |buf|) && ram == Overwrite(old(ram), gpa, buf)
      ensures !ok ==> ram == old(ram)
    {
      var view := phys.Lookup(gpa, |buf|);
      ok := view.Some? && view.value.prot.write;
      TrackedWrites(phys.regions, gpa, |buf|, view);
      if ok {
        AcceptedIsPublished(phys.regions, gpa, |buf|, false);
        ram := Overwrite(ram, gpa, buf);
      }
    }

    /** A boot-time write through the untracked view: all of it exactly when one region holds the range. */
    method WriteBulk(gpa: int, buf: seq<byte>) returns (ok: bool)
      requires Valid() && 0 <= gpa <= U64_MAX && |buf| <= U64_MAX
      modifies this`ram
      ensures Valid() && ram.Keys == old(ram.Keys)
      ensures ok <==> InOneRegion(phys.regions, gpa, |buf|)
      ensures ok ==> Mapped(old(ram), gpa, |buf|) && ram == Overwrite(old(ram), gpa, buf)
      ensures !ok ==> ram == old(ram)
    {
      var view := phys.LookupUntracked(gpa, |buf|);
      ok := view.Some? && view.value.prot.write;
      UntrackedWrites(phys.regions, gpa, |buf|, view);
      if ok {
        AcceptedIsPublished(phys.regions, gpa, |buf|, true);
        ram := Overwrite(ram, gpa, buf);
      }
    }
  }

  /** What a lookup answers, as `PhysMap` promises it. */
  ghost predicate TrackedAnswer(rs: seq<Region>, gpa: int, n: nat, v: Option<PhysMapModel.View>)
  {
    && (n > 0 ==> (v.Some? <==> gpa + n <= U64_MAX && PhysMapModel.Covered(rs, gpa, gpa + n)))
    && (n == 0 ==> (v.Some? <==> exists r :: r in rs && r.Holds(gpa)))
    && (v.Some? ==> exists r :: r in rs && r.Holds(gpa)
                                && v.value == PhysMapModel.View(r.tracked.mapping, gpa - r.tracked.gpa, n,
                                                                r.tracked.mapping.prot.Meet(GuestProt(r.kind))))
  }

  /** The protection of the tracked view is write exactly outside read-only regions. */
  lemma RunProtection(rs: seq<Region>, r: Region)
    requires RunsOk(rs) && r in rs
    ensures r.tracked.mapping.prot.Meet(GuestProt(r.kind)).write <==> r.kind != Rom
  {
    assert RunOk(rs, r);
  }

  lemma TrackedWrites(rs: seq<Region>, gpa: int, n: nat, v: Option<PhysMapModel.View>)
    requires Sorted(rs) && RunsOk(rs) && TrackedAnswer(rs, gpa, n, v)
    ensures v.Some? && v.value.prot.write <==> Writable(rs, gpa, n)
  {
    forall r | r in rs && r.Holds(gpa)
      ensures (r.tracked.mapping.prot.Meet(GuestProt(r.kind)).write <==> r.kind != Rom) && r.End() <= U64_MAX
      ensures RamByte(rs, gpa) <==> r.kind == Ram
    {
      RunProtection(rs, r);
      PhysMapModel.ProperMember(rs, r);
      PhysMapModel.RamHere(rs, r, gpa);
    }
    forall q, r | q in rs && r in rs && q.Holds(gpa) && r.Holds(gpa)
      ensures q == r
    {
      SameRegion(rs, q, r, gpa);
    }
  }

  lemma UntrackedWrites(rs: seq<Region>, gpa: int, n: nat, v: Option<PhysMapModel.View>)
    requires n > 0 ==> (v.Some? <==> exists r :: r in rs && r.gpa <= gpa && gpa + n <= r.End())
    requires n == 0 ==> (v.Some? <==> exists r :: r in rs && r.Holds(gpa))
    requires v.Some? ==> v.value.prot == RW
    ensures v.Some? && v.value.prot.write <==> InOneRegion(rs, gpa, n)
  {
  }

  lemma AppendWrite(m: Memory, ws: seq<Write>, w: Write)
    ensures WriteAll(m, ws + [w]) == Overwrite(WriteAll(m, ws), w.gpa, w.buf)
  {
    WriteAllSplit(m, ws, [w]);
    assert [w][1..] == [];
  }

  /** Memory is what the writes `ws`, all of them to mapped addresses, make of `m`. */
  ghost predicate After(m: Memory, ram: Memory, ws: seq<Write>)
  {
    ram == WriteAll(m, ws) && forall i :: 0 <= i < |ws| ==> Mapped(m, ws[i].gpa, |ws[i].buf|)
  }

  /** One write on top of those done. */
  method Put(mem: MemCtx, ghost m: Memory, ghost done: seq<Write>, gpa: int, buf: seq<byte>, bulk: bool)
    returns (ok: bool)
    requires mem.Valid() && 0 <= gpa <= U64_MAX && |buf| <= U64_MAX && After(m, mem.ram, done)
    modifies mem`ram
    ensures mem.Valid() && mem.ram.Keys == old(mem.ram.Keys)
    ensures ok <==> Accepts(mem.phys.regions, gpa, |buf|, bulk)
    ensures ok ==> After(m, mem.ram, done + [Write(gpa, buf)])
  {
    if bulk {
      ok := mem.WriteBulk(gpa, buf);
    } else {
      ok := mem.WriteBytes(gpa, buf);
    }
    AppendWrite(m, done, Write(gpa, buf));
  }
}
