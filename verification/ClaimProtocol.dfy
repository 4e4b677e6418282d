/**
 * The claim / commit / publish protocol of crates/vmm-core/src/mem.rs as a
 * state machine. Any number of claims are in flight; each step is one lock
 * section or one kernel call, and steps of different claims interleave freely.
 */
module ClaimProtocol {
  import opened Prelude
  import opened GuestSpace
  import opened TrackedRuns
  import opened PhysMapModel

  type Id = nat

  /** How far one claim has come. From `Gated` to `Forgotten` it holds the publish gate. */
  datatype Phase =
    | Held
    | Gated
    | Bounded(run: Range)
    | Tracked(view: Option<TrackedRun>)
    | KernelMapped(view: Option<TrackedRun>)
    | Viewed(view: Option<TrackedRun>, direct: Mapping)
    | Undoing
    | Failed
    | Forgotten
    | Done
    | Abandoned
    | Kept

  datatype Actor = Actor(claim: RamClaim, phase: Phase)

  datatype System = System(space: Space, gate: Option<Id>, actors: map<Id, Actor>, mapped: set<Range>)

  datatype Step =
    | Take(id: Id, gpa: int, len: int, kind: RegionKind, placement: Placement)
    | GiveBack(id: Id)
    | Lock(id: Id)
    | ReadBounds(id: Id, run: Range)
    | TrackAccepted(id: Id, mapping: nat)
    | TrackRefused(id: Id)
    | MapAccepted(id: Id)
    | MapRefused(id: Id)
    | DevmemAccepted(id: Id, mapping: nat, offset: int)
    | DevmemRefused(id: Id)
    | Enlist(id: Id)
    | UnmapAccepted(id: Id)
    | UnmapRefused(id: Id)
    | Unlock(id: Id)

  /** The phases whose claim is still on the list. */
  predicate Holding(p: Phase) { !p.Done? }

  /** The phases that hold the publish gate. */
  predicate Inside(p: Phase) { !p.Held? && !p.Abandoned? && !p.Kept? }

  /** The phases whose range the kernel maps without a published region. */
  predicate MappedBare(p: Phase) { p.KernelMapped? || p.Viewed? || p.Undoing? || p.Forgotten? || p.Kept? }

  function Init(): System { System(Space([], []), None, map[], {}) }

  // ----- the steps

  function SetPhase(s: System, id: Id, p: Phase): System
    requires id in s.actors
  {
    s.(actors := Move(s.actors, id, p))
  }

  /** The tracked view of a claim over the run it read: none unless it is RAM. */
  function ViewOf(c: RamClaim, run: Range, mapping: nat): Option<TrackedRun>
  {
    if c.kind == Ram then Some(TrackedRun(run.lo, Mapping(mapping, run.lo, run.hi - run.lo, c.prot), c.prot))
    else None
  }

  function NewRegion(c: RamClaim, view: Option<TrackedRun>, direct: Mapping): Region
  {
    Region(c.gpa, c.len, c.kind,
           if view.Some? then view.value else TrackedRun(c.gpa, direct, c.prot), direct)
  }

  /** What the `run_bounds` walks answer. */
  ghost predicate BoundsFor(rs: seq<Region>, c: RamClaim, run: Range)
  {
    if c.kind == Ram then RunWith(rs, c.gpa, c.gpa + c.len, run.lo, run.hi) else run == c.Extent()
  }

  ghost predicate Enabled(s: System, step: Step)
  {
    match step
    case Take(id, gpa, len, kind, placement) =>
      && id !in s.actors && 0 <= gpa <= U64_MAX && 0 <= len <= U64_MAX
      && Misplaced(gpa, len, placement).None? && Free(s.space, Range(gpa, gpa + len))
    case GiveBack(id) => id in s.actors && (s.actors[id].phase.Held? || s.actors[id].phase.Abandoned?)
    case Lock(id) => id in s.actors && s.actors[id].phase.Held? && s.gate.None?
    case ReadBounds(id, run) =>
      id in s.actors && s.actors[id].phase.Gated? && BoundsFor(s.space.regions, s.actors[id].claim, run)
    case TrackAccepted(id, _) =>
      && id in s.actors && s.actors[id].phase.Bounded?
      && (s.actors[id].claim.kind == Ram ==> s.actors[id].phase.run.lo <= I64_MAX)
    case TrackRefused(id) => id in s.actors && s.actors[id].phase.Bounded? && s.actors[id].claim.kind == Ram
    case MapAccepted(id) => id in s.actors && s.actors[id].phase.Tracked?
    case MapRefused(id) => id in s.actors && s.actors[id].phase.Tracked?
    case DevmemAccepted(id, _, _) => id in s.actors && s.actors[id].phase.KernelMapped?
    case DevmemRefused(id) => id in s.actors && s.actors[id].phase.KernelMapped?
    case Enlist(id) => id in s.actors && s.actors[id].phase.Viewed?
    case UnmapAccepted(id) => id in s.actors && s.actors[id].phase.Undoing?
    case UnmapRefused(id) => id in s.actors && s.actors[id].phase.Undoing?
    case Unlock(id) => id in s.actors && s.actors[id].phase in {Failed, Forgotten, Done}
  }

  ghost function Apply(s: System, step: Step): System
    requires Enabled(s, step)
  {
    match step
    case Take(id, gpa, len, kind, _) =>
      var c := RamClaim(gpa, len, kind, GuestProt(kind));
      s.(space := AddClaim(s.space, c.Extent()), actors := s.actors[id := Actor(c, Held)])
    case GiveBack(id) =>
      s.(space := s.space.(claims := DropClaim(s.space.claims, s.actors[id].claim.gpa)),
         actors := s.actors - {id})
    case Lock(id) => SetPhase(s, id, Gated).(gate := Some(id))
    case ReadBounds(id, run) => SetPhase(s, id, Bounded(run))
    case TrackAccepted(id, m) => SetPhase(s, id, Tracked(ViewOf(s.actors[id].claim, s.actors[id].phase.run, m)))
    case TrackRefused(id) => SetPhase(s, id, Failed)
    case MapAccepted(id) =>
      SetPhase(s, id, KernelMapped(s.actors[id].phase.view)).(mapped := s.mapped + {s.actors[id].claim.Extent()})
    case MapRefused(id) => SetPhase(s, id, Failed)
    case DevmemAccepted(id, m, off) =>
      SetPhase(s, id, Viewed(s.actors[id].phase.view, Mapping(m, off, s.actors[id].claim.len, RW)))
    case DevmemRefused(id) => SetPhase(s, id, Undoing)
    case Enlist(id) =>
      var a := s.actors[id];
      SetPhase(s, id, Done).(space := Publish(s.space, NewRegion(a.claim, a.phase.view, a.phase.direct)))
    case UnmapAccepted(id) => SetPhase(s, id, Failed).(mapped := s.mapped - {s.actors[id].claim.Extent()})
    case UnmapRefused(id) => SetPhase(s, id, Forgotten)
    case Unlock(id) =>
      match s.actors[id].phase
      case Done => s.(gate := None, actors := s.actors - {id})
      case Failed => SetPhase(s, id, Abandoned).(gate := None)
      case _ => SetPhase(s, id, Kept).(gate := None)
  }

  // ----- the invariant

  /** What a claim knows in its phase is still true of the published list. */
  ghost predicate ActorOk(rs: seq<Region>, a: Actor)
  {
    && a.claim.prot == GuestProt(a.claim.kind)
    && match a.phase
       case Bounded(run) => BoundsFor(rs, a.claim, run)
       case Tracked(view) => ViewOk(rs, a.claim, view)
       case KernelMapped(view) => ViewOk(rs, a.claim, view)
       case Viewed(view, direct) => ViewOk(rs, a.claim, view) && direct.len == a.claim.len && direct.prot == RW
       case _ => true
  }

  ghost predicate ViewOk(rs: seq<Region>, c: RamClaim, view: Option<TrackedRun>)
  {
    if c.kind == Ram then
      && view.Some?
      && RunWith(rs, c.gpa, c.gpa + c.len, view.value.gpa, view.value.End())
      && view.value.mapping.offset == view.value.gpa && view.value.mapping.prot == RWX && view.value.prot == RWX
    else view.None?
  }

  /** The claims on the list are exactly the ones in flight, each held once. */
  ghost predicate ClaimsHeld(cs: seq<Range>, actors: map<Id, Actor>)
  {
    && (forall id :: id in actors && Holding(actors[id].phase) ==> actors[id].claim.Extent() in cs)
    && (forall c :: c in cs ==> HeldBySome(actors, c))
    && (forall id, id' :: id in actors && id' in actors && id != id'
                          && Holding(actors[id].phase) && Holding(actors[id'].phase)
                          ==> actors[id].claim.Extent() != actors[id'].claim.Extent())
  }

  ghost predicate HeldBySome(actors: map<Id, Actor>, c: Range)
  {
    exists id :: id in actors && Holding(actors[id].phase) && actors[id].claim.Extent() == c
  }

  /** The publish gate is held by exactly the one commit inside it. */
  ghost predicate GateOk(gate: Option<Id>, actors: map<Id, Actor>)
  {
    && (gate.Some? ==> gate.value in actors && Inside(actors[gate.value].phase))
    && (forall id :: id in actors && Inside(actors[id].phase) ==> gate == Some(id))
  }

  /** Some claim past its map call, with no region yet, covers `r`. */
  ghost predicate Bare(actors: map<Id, Actor>, r: Range)
  {
    exists id :: id in actors && MappedBare(actors[id].phase) && actors[id].claim.Extent() == r
  }

  /** The kernel maps exactly the published regions and the claims past their map call. */
  ghost predicate KernelOk(mapped: set<Range>, extents: set<Range>, actors: map<Id, Actor>)
  {
    forall r :: r in mapped <==> r in extents || Bare(actors, r)
  }

  ghost predicate ActorsOk(rs: seq<Region>, actors: map<Id, Actor>)
  {
    forall id :: id in actors ==> ActorOk(rs, actors[id])
  }

  ghost predicate Inv(s: System)
  {
    && SpaceOk(s.space)
    && RunsOk(s.space.regions)
    && ClaimsHeld(s.space.claims, s.actors)
    && GateOk(s.gate, s.actors)
    && KernelOk(s.mapped, Extents(s.space.regions), s.actors)
    && ActorsOk(s.space.regions, s.actors)
  }

  // ----- each part under each kind of change

  function Move(actors: map<Id, Actor>, id: Id, p: Phase): map<Id, Actor>
    requires id in actors
  {
    actors[id := actors[id].(phase := p)]
  }

  lemma HeldMove(cs: seq<Range>, actors: map<Id, Actor>, id: Id, p: Phase)
    requires ClaimsHeld(cs, actors) && id in actors && Holding(actors[id].phase) && Holding(p)
    ensures ClaimsHeld(cs, Move(actors, id, p))
  {
    var next := Move(actors, id, p);
    forall c | c in cs
      ensures HeldBySome(next, c)
    {
      assert HeldBySome(actors, c);
      var i :| i in actors && Holding(actors[i].phase) && actors[i].claim.Extent() == c;
      assert next[i].claim.Extent() == c;
    }
  }

  lemma HeldAdd(cs: seq<Range>, actors: map<Id, Actor>, id: Id, a: Actor)
    requires ClaimsHeld(cs, actors) && id !in actors && a.claim.Extent() !in cs && Holding(a.phase)
    ensures ClaimsHeld(cs + [a.claim.Extent()], actors[id := a])
  {
    var next := actors[id := a];
    assert next[id] == a;
    forall c | c in cs + [a.claim.Extent()]
      ensures HeldBySome(next, c)
    {
      if c in cs {
        assert HeldBySome(actors, c);
        var i :| i in actors && Holding(actors[i].phase) && actors[i].claim.Extent() == c;
        assert next[i] == actors[i];
      }
    }
  }

  /** The claim of `id` leaves the list, and `id` stops holding or leaves. */
  lemma HeldLess(cs: seq<Range>, ds: seq<Range>, actors: map<Id, Actor>, next: map<Id, Actor>, id: Id)
    requires ClaimsHeld(cs, actors) && id in actors && Holding(actors[id].phase)
    requires forall c :: c in ds <==> c in cs && c != actors[id].claim.Extent()
    requires forall i :: i in next ==> i in actors
    requires forall i :: i in actors && i != id ==> i in next && next[i] == actors[i]
    requires id in next ==> !Holding(next[id].phase)
    ensures ClaimsHeld(ds, next)
  {
    forall c | c in ds
      ensures HeldBySome(next, c)
    {
      assert HeldBySome(actors, c);
      var i :| i in actors && Holding(actors[i].phase) && actors[i].claim.Extent() == c;
      assert next[i] == actors[i];
    }
  }

  lemma HeldLeave(cs: seq<Range>, actors: map<Id, Actor>, id: Id)
    requires ClaimsHeld(cs, actors) && id in actors && !Holding(actors[id].phase)
    ensures ClaimsHeld(cs, actors - {id})
  {
    var next := actors - {id};
    forall c | c in cs
      ensures HeldBySome(next, c)
    {
      assert HeldBySome(actors, c);
      var i :| i in actors && Holding(actors[i].phase) && actors[i].claim.Extent() == c;
      assert next[i] == actors[i];
    }
  }

  /** Nobody but `id` changes, and whether `id` is mapped bare does not. */
  lemma BareSame(actors: map<Id, Actor>, next: map<Id, Actor>, id: Id, r: Range)
    requires forall i :: i in actors && i != id ==> i in next && next[i] == actors[i]
    requires forall i :: i in next && i != id ==> i in actors
    requires id in actors && MappedBare(actors[id].phase)
             ==> id in next && MappedBare(next[id].phase) && next[id].claim == actors[id].claim
    requires id in next && MappedBare(next[id].phase)
             ==> id in actors && MappedBare(actors[id].phase) && next[id].claim == actors[id].claim
    ensures Bare(actors, r) <==> Bare(next, r)
  {
    if Bare(actors, r) {
      var i :| i in actors && MappedBare(actors[i].phase) && actors[i].claim.Extent() == r;
      assert i in next && MappedBare(next[i].phase) && next[i].claim.Extent() == r;
    }
    if Bare(next, r) {
      var i :| i in next && MappedBare(next[i].phase) && next[i].claim.Extent() == r;
      assert i in actors && MappedBare(actors[i].phase) && actors[i].claim.Extent() == r;
    }
  }

  lemma KernelSame(mapped: set<Range>, extents: set<Range>, actors: map<Id, Actor>, next: map<Id, Actor>, id: Id)
    requires KernelOk(mapped, extents, actors)
    requires forall i :: i in actors && i != id ==> i in next && next[i] == actors[i]
    requires forall i :: i in next && i != id ==> i in actors
    requires id in actors && MappedBare(actors[id].phase)
             ==> id in next && MappedBare(next[id].phase) && next[id].claim == actors[id].claim
    requires id in next && MappedBare(next[id].phase)
             ==> id in actors && MappedBare(actors[id].phase) && next[id].claim == actors[id].claim
    ensures KernelOk(mapped, extents, next)
  {
    forall r
      ensures r in mapped <==> r in extents || Bare(next, r)
    {
      BareSame(actors, next, id, r);
    }
  }

  /** `id` enters or leaves the bare phases: exactly its range does too. */
  lemma BareMoved(cs: seq<Range>, actors: map<Id, Actor>, id: Id, p: Phase, r: Range)
    requires ClaimsHeld(cs, actors) && id in actors && Holding(actors[id].phase)
    ensures MappedBare(p) ==> (Bare(Move(actors, id, p), r) <==> Bare(actors, r) || r == actors[id].claim.Extent())
    ensures !MappedBare(p) ==> (Bare(Move(actors, id, p), r) <==> Bare(actors, r) && r != actors[id].claim.Extent())
  {
    var next := Move(actors, id, p);
    assert next[id].claim == actors[id].claim && next[id].phase == p;
    if Bare(actors, r) && (MappedBare(p) || r != actors[id].claim.Extent()) {
      var i :| i in actors && MappedBare(actors[i].phase) && actors[i].claim.Extent() == r;
      assert i in next && MappedBare(next[i].phase) && next[i].claim.Extent() == r;
    }
    if Bare(next, r) {
      var i :| i in next && MappedBare(next[i].phase) && next[i].claim.Extent() == r;
      if i != id {
        assert i in actors && MappedBare(actors[i].phase) && actors[i].claim.Extent() == r;
      }
    }
  }

  lemma KernelMoved(cs: seq<Range>, mapped: set<Range>, extents: set<Range>, actors: map<Id, Actor>, id: Id, p: Phase)
    requires KernelOk(mapped, extents, actors) && ClaimsHeld(cs, actors) && id in actors && Holding(actors[id].phase)
    ensures MappedBare(p) ==> KernelOk(mapped + {actors[id].claim.Extent()}, extents, Move(actors, id, p))
    ensures !MappedBare(p) && actors[id].claim.Extent() !in extents
            ==> KernelOk(mapped - {actors[id].claim.Extent()}, extents, Move(actors, id, p))
  {
    forall r
      ensures MappedBare(p) ==> (Bare(Move(actors, id, p), r) <==> Bare(actors, r) || r == actors[id].claim.Extent())
      ensures !MappedBare(p) ==> (Bare(Move(actors, id, p), r) <==> Bare(actors, r) && r != actors[id].claim.Extent())
    {
      BareMoved(cs, actors, id, p, r);
    }
  }

  lemma GateMove(gate: Option<Id>, actors: map<Id, Actor>, id: Id, p: Phase)
    requires GateOk(gate, actors) && id in actors
    requires Inside(p) ==> gate.None? || gate == Some(id)
    requires !Inside(p) ==> gate == Some(id)
    ensures GateOk(if Inside(p) then Some(id) else None, Move(actors, id, p))
  {
  }

  lemma ActorsMove(rs: seq<Region>, actors: map<Id, Actor>, id: Id, p: Phase)
    requires ActorsOk(rs, actors) && id in actors && ActorOk(rs, actors[id].(phase := p))
    ensures ActorsOk(rs, Move(actors, id, p))
  {
  }

  // ----- one step keeps the invariant

  /** A claim moves to another phase; lists and kernel stay. */
  lemma PhaseKeeps(s: System, id: Id, p: Phase)
    requires Inv(s) && id in s.actors
    requires Holding(s.actors[id].phase) && Holding(p) && MappedBare(s.actors[id].phase) == MappedBare(p)
    requires ActorOk(s.space.regions, s.actors[id].(phase := p))
    requires Inside(p) ==> s.gate.None? || s.gate == Some(id)
    requires !Inside(p) ==> s.gate == Some(id)
    ensures Inv(s.(gate := if Inside(p) then Some(id) else None, actors := Move(s.actors, id, p)))
  {
    HeldMove(s.space.claims, s.actors, id, p);
    KernelSame(s.mapped, Extents(s.space.regions), s.actors, Move(s.actors, id, p), id);
    GateMove(s.gate, s.actors, id, p);
    ActorsMove(s.space.regions, s.actors, id, p);
  }

  lemma TakeKeeps(s: System, id: Id, c: RamClaim)
    requires Inv(s) && id !in s.actors && c.prot == GuestProt(c.kind)
    requires c.Extent().Proper() && Free(s.space, c.Extent())
    ensures Inv(s.(space := AddClaim(s.space, c.Extent()), actors := s.actors[id := Actor(c, Held)]))
  {
    var r := c.Extent();
    AddClaimKeeps(s.space, r);
    forall j | 0 <= j < |s.space.claims|
      ensures s.space.claims[j] != r
    {
      assert !Overlap(s.space.claims[j], r);
    }
    HeldAdd(s.space.claims, s.actors, id, Actor(c, Held));
    KernelSame(s.mapped, Extents(s.space.regions), s.actors, s.actors[id := Actor(c, Held)], id);
  }

  /** A claim outside the gate that the kernel does not map leaves nothing behind. */
  lemma OthersStay(gate: Option<Id>, rs: seq<Region>, mapped: set<Range>, actors: map<Id, Actor>, id: Id)
    requires GateOk(gate, actors) && ActorsOk(rs, actors) && KernelOk(mapped, Extents(rs), actors)
    requires id in actors && !Inside(actors[id].phase) && !MappedBare(actors[id].phase)
    ensures GateOk(gate, actors - {id}) && ActorsOk(rs, actors - {id}) && KernelOk(mapped, Extents(rs), actors - {id})
  {
    KernelSame(mapped, Extents(rs), actors, actors - {id}, id);
  }

  lemma GiveBackLists(space: Space, actors: map<Id, Actor>, id: Id)
    requires SpaceOk(space) && ClaimsHeld(space.claims, actors) && id in actors && Holding(actors[id].phase)
    ensures var ds := DropClaim(space.claims, actors[id].claim.gpa);
            SpaceOk(space.(claims := ds)) && ClaimsHeld(ds, actors - {id})
  {
    var r := actors[id].claim.Extent();
    var ds := DropClaim(space.claims, r.lo);
    DropClaimExact(space.claims, r);
    ClearSubset(space.regions, space.claims, ds);
    HeldLess(space.claims, ds, actors, actors - {id}, id);
  }

  lemma GiveBackKeeps(s: System, id: Id)
    requires Inv(s) && id in s.actors && (s.actors[id].phase.Held? || s.actors[id].phase.Abandoned?)
    ensures Inv(s.(space := s.space.(claims := DropClaim(s.space.claims, s.actors[id].claim.gpa)),
                   actors := s.actors - {id}))
  {
    GiveBackLists(s.space, s.actors, id);
    OthersStay(s.gate, s.space.regions, s.mapped, s.actors, id);
  }

  /** A commit that finished its publish leaves, and the gate opens. */
  lemma LeaveKeeps(s: System, id: Id)
    requires Inv(s) && id in s.actors && s.actors[id].phase.Done?
    ensures Inv(s.(gate := None, actors := s.actors - {id}))
  {
    HeldLeave(s.space.claims, s.actors, id);
    KernelSame(s.mapped, Extents(s.space.regions), s.actors, s.actors - {id}, id);
  }

  lemma MappedActorOk(rs: seq<Region>, actors: map<Id, Actor>, id: Id)
    requires ActorsOk(rs, actors) && id in actors && actors[id].phase.Tracked?
    ensures ActorOk(rs, actors[id].(phase := KernelMapped(actors[id].phase.view)))
  {
    assert ActorOk(rs, actors[id]);
  }

  /** The map call adds exactly its own range. */
  lemma MapKeeps(s: System, id: Id)
    requires Inv(s) && id in s.actors && s.actors[id].phase.Tracked?
    ensures Inv(s.(actors := Move(s.actors, id, KernelMapped(s.actors[id].phase.view)),
                   mapped := s.mapped + {s.actors[id].claim.Extent()}))
  {
    var p := KernelMapped(s.actors[id].phase.view);
    MappedActorOk(s.space.regions, s.actors, id);
    HeldMove(s.space.claims, s.actors, id, p);
    GateMove(s.gate, s.actors, id, p);
    ActorsMove(s.space.regions, s.actors, id, p);
    KernelMoved(s.space.claims, s.mapped, Extents(s.space.regions), s.actors, id, p);
  }

  lemma ClaimIsNoRegion(s: Space, r: Range)
    requires SpaceOk(s) && r in s.claims
    ensures forall e :: e in Extents(s.regions) ==> !Overlap(e, r)
    ensures r !in Extents(s.regions)
  {
    ClaimedIsClear(s, r);
    forall q | q in s.regions
      ensures !Overlap(q.Extent(), r) && q.Extent() != r
    {
      var i :| 0 <= i < |s.regions| && s.regions[i] == q;
      assert !Overlap(s.regions[i].Extent(), r);
      assert s.regions[i].Extent().Proper();
    }
  }

  /** The undo takes exactly its own range out. */
  lemma UnmapKeeps(s: System, id: Id)
    requires Inv(s) && id in s.actors && s.actors[id].phase.Undoing?
    ensures Inv(s.(actors := Move(s.actors, id, Failed), mapped := s.mapped - {s.actors[id].claim.Extent()}))
  {
    HeldMove(s.space.claims, s.actors, id, Failed);
    GateMove(s.gate, s.actors, id, Failed);
    assert ActorOk(s.space.regions, s.actors[id]);
    ActorsMove(s.space.regions, s.actors, id, Failed);
    ClaimIsNoRegion(s.space, s.actors[id].claim.Extent());
    KernelMoved(s.space.claims, s.mapped, Extents(s.space.regions), s.actors, id, Failed);
  }

  /** The region a commit publishes has the views the list needs. */
  lemma CommitIsFresh(s: System, id: Id, n: Region)
    requires Inv(s) && id in s.actors && s.actors[id].phase.Viewed?
    requires n == NewRegion(s.actors[id].claim, s.actors[id].phase.view, s.actors[id].phase.direct)
    ensures FreshRegion(s.space.regions, n) && n.Extent() in s.space.claims
  {
    assert ActorOk(s.space.regions, s.actors[id]);
    ClaimedIsClear(s.space, s.actors[id].claim.Extent());
  }

  lemma PublishKernel(s: System, id: Id, n: Region)
    requires Inv(s) && id in s.actors && s.actors[id].phase.Viewed?
    requires n.Extent() == s.actors[id].claim.Extent() && FreshRegion(s.space.regions, n)
    ensures KernelOk(s.mapped, Extents(Publish(s.space, n).regions), Move(s.actors, id, Done))
  {
    PublishExtents(s.space.regions, n);
    assert Bare(s.actors, n.Extent());
    forall r
      ensures Bare(Move(s.actors, id, Done), r) <==> Bare(s.actors, r) && r != n.Extent()
    {
      BareMoved(s.space.claims, s.actors, id, Done, r);
    }
  }

  /** Everyone outside the gate forgets nothing when the list grows. */
  lemma PublishActors(s: System, id: Id, rs: seq<Region>)
    requires ActorsOk(s.space.regions, s.actors) && GateOk(s.gate, s.actors)
    requires id in s.actors && Inside(s.actors[id].phase)
    ensures ActorsOk(rs, Move(s.actors, id, Done))
  {
    forall i | i in s.actors
      ensures ActorOk(rs, Move(s.actors, id, Done)[i])
    {
      assert ActorOk(s.space.regions, s.actors[i]);
      assert i != id ==> !Inside(s.actors[i].phase);
    }
  }

  lemma PublishStepKeeps(s: System, id: Id, n: Region)
    requires Inv(s) && id in s.actors && s.actors[id].phase.Viewed?
    requires n == NewRegion(s.actors[id].claim, s.actors[id].phase.view, s.actors[id].phase.direct)
    ensures Inv(s.(space := Publish(s.space, n), actors := Move(s.actors, id, Done)))
  {
    CommitIsFresh(s, id, n);
    PublishKeepsSpace(s.space, n);
    PublishKeepsRuns(s.space.regions, n);
    DropClaimExact(s.space.claims, n.Extent());
    HeldLess(s.space.claims, DropClaim(s.space.claims, n.gpa), s.actors, Move(s.actors, id, Done), id);
    PublishKernel(s, id, n);
    PublishActors(s, id, Publish(s.space, n).regions);
    GateMove(s.gate, s.actors, id, Done);
  }

  /** Every step, of any claim, keeps the invariant. */
  lemma StepKeeps(s: System, step: Step)
    requires Inv(s) && Enabled(s, step)
    ensures Inv(Apply(s, step))
  {
    match step
    case Take(id, gpa, len, kind, _) => TakeKeeps(s, id, RamClaim(gpa, len, kind, GuestProt(kind)));
    case GiveBack(id) => GiveBackKeeps(s, id);
    case Unlock(id) => UnlockKeeps(s, id);
    case MapAccepted(id) => MapKeeps(s, id);
    case UnmapAccepted(id) => UnmapKeeps(s, id);
    case Enlist(id) =>
      var a := s.actors[id];
      PublishStepKeeps(s, id, NewRegion(a.claim, a.phase.view, a.phase.direct));
    case _ => InnerStepKeeps(s, step);
  }

  lemma UnlockKeeps(s: System, id: Id)
    requires Inv(s) && Enabled(s, Unlock(id))
    ensures Inv(Apply(s, Unlock(id)))
  {
    assert ActorOk(s.space.regions, s.actors[id]);
    match s.actors[id].phase
    case Done => LeaveKeeps(s, id);
    case Failed => PhaseKeeps(s, id, Abandoned);
    case _ => PhaseKeeps(s, id, Kept);
  }

  /** The steps that only move one claim along its commit. */
  predicate Inner(step: Step)
  {
    || step.Lock? || step.ReadBounds? || step.TrackAccepted? || step.TrackRefused? || step.MapRefused?
    || step.DevmemAccepted? || step.DevmemRefused? || step.UnmapRefused?
  }

  /** Such a step stays inside the gate, or takes it, and what its claim then knows is true. */
  lemma InnerPhase(s: System, step: Step)
    requires Enabled(s, step) && Inner(step) && ActorOk(s.space.regions, s.actors[step.id])
    ensures var (t, a) := (Apply(s, step), s.actors[step.id]);
            && step.id in t.actors && ActorOk(s.space.regions, a.(phase := t.actors[step.id].phase))
            && t == s.(gate := t.gate, actors := Move(s.actors, step.id, t.actors[step.id].phase))
            && Holding(a.phase) && Inside(t.actors[step.id].phase) && Holding(t.actors[step.id].phase)
            && MappedBare(a.phase) == MappedBare(t.actors[step.id].phase)
            && if step.Lock? then s.gate.None? && t.gate == Some(step.id) else t.gate == s.gate && Inside(a.phase)
  {
  }

  lemma InnerStepKeeps(s: System, step: Step)
    requires Inv(s) && Enabled(s, step) && Inner(step)
    ensures Inv(Apply(s, step))
  {
    assert ActorOk(s.space.regions, s.actors[step.id]);
    InnerPhase(s, step);
    PhaseKeeps(s, step.id, Apply(s, step).actors[step.id].phase);
  }

  // ----- whole runs

  /** A run: states joined by enabled steps, from the empty map. */
  ghost predicate Run(states: seq<System>, steps: seq<Step>)
  {
    && |states| == |steps| + 1
    && states[0] == Init()
    && forall i :: 0 <= i < |steps| ==> Enabled(states[i], steps[i]) && states[i + 1] == Apply(states[i], steps[i])
  }

  /** Safety over every run, with any interleaving and any kernel refusals. */
  lemma {:induction false} RunSafe(states: seq<System>, steps: seq<Step>, k: nat)
    requires Run(states, steps) && k < |states|
    ensures Inv(states[k])
  {
    if k > 0 {
      RunSafe(states, steps, k - 1);
      StepKeeps(states[k - 1], steps[k - 1]);
    }
  }

  /** No guest address is ever mapped twice: what a map call adds, nothing mapped touches. */
  lemma NeverMappedTwice(states: seq<System>, steps: seq<Step>, k: nat)
    requires Run(states, steps) && k < |steps| && steps[k].MapAccepted?
    ensures forall r :: r in states[k].mapped ==> !Overlap(r, states[k].actors[steps[k].id].claim.Extent())
  {
    RunSafe(states, steps, k);
    var s := states[k];
    var id := steps[k].id;
    assert Enabled(s, steps[k]);
    var mine := s.actors[id].claim.Extent();
    forall r | r in s.mapped
      ensures !Overlap(r, mine)
    {
      if r in Extents(s.space.regions) {
        ClaimIsNoRegion(s.space, mine);
      } else {
        assert Bare(s.actors, r);
        var i :| i in s.actors && MappedBare(s.actors[i].phase) && s.actors[i].claim.Extent() == r;
        HeldApart(s.space.claims, r, mine);
      }
    }
  }

  lemma HeldApart(cs: seq<Range>, a: Range, b: Range)
    requires ClaimsOk(cs) && a in cs && b in cs && a != b
    ensures !Overlap(a, b)
  {
    var i :| 0 <= i < |cs| && cs[i] == a;
    var j :| 0 <= j < |cs| && cs[j] == b;
    if i < j {
      assert !Overlap(cs[i], cs[j]);
    } else {
      assert !Overlap(cs[j], cs[i]);
    }
  }

  /** A claim whose undo was refused is kept for the rest of the run: its range is never free again. */
  lemma {:induction false} KeptForGood(states: seq<System>, steps: seq<Step>, k: nat, m: nat, id: Id)
    requires Run(states, steps) && k <= m < |states|
    requires id in states[k].actors && states[k].actors[id].phase in {Forgotten, Kept}
    ensures id in states[m].actors && states[m].actors[id].phase in {Forgotten, Kept}
    ensures states[m].actors[id].claim == states[k].actors[id].claim
    ensures states[m].actors[id].claim.Extent() in states[m].mapped
    ensures !Free(states[m].space, states[m].actors[id].claim.Extent())
    decreases m
  {
    if k < m {
      KeptForGood(states, steps, k, m - 1, id);
      KeptStep(states[m - 1], steps[m - 1], id);
    }
    RunSafe(states, steps, m);
    KeptNow(states[m], id);
  }

  lemma KeptStep(s: System, step: Step, id: Id)
    requires Enabled(s, step) && id in s.actors && s.actors[id].phase in {Forgotten, Kept}
    ensures var t := Apply(s, step);
            id in t.actors && t.actors[id].phase in {Forgotten, Kept} && t.actors[id].claim == s.actors[id].claim
  {
  }

  lemma KeptNow(s: System, id: Id)
    requires Inv(s) && id in s.actors && s.actors[id].phase in {Forgotten, Kept}
    ensures s.actors[id].claim.Extent() in s.mapped && !Free(s.space, s.actors[id].claim.Extent())
  {
    var r := s.actors[id].claim.Extent();
    assert Bare(s.actors, r);
    var cs := s.space.claims;
    var j :| 0 <= j < |cs| && cs[j] == r;
    assert cs[j].Proper() && Overlap(cs[j], r);
  }

  /** In every reachable state the run of the region at `lo` decides which ranges from `lo` are covered. */
  lemma RunLookup(states: seq<System>, steps: seq<Step>, k: nat, r: Region, lo: int, hi: int)
    requires Run(states, steps) && k < |states|
    requires r in states[k].space.regions && r.Holds(lo) && lo < hi
    ensures Covered(states[k].space.regions, lo, hi) <==> hi <= r.tracked.End()
    ensures r.kind == Ram ==> MaximalRun(states[k].space.regions, r.tracked.gpa, r.tracked.End())
  {
    RunSafe(states, steps, k);
    assert RunOk(states[k].space.regions, r);
    RunDecides(states[k].space.regions, r, lo, hi);
  }
}
