/**
 * The GPE0 register block of crates/vmm-devices/src/acpi_gpe.rs and the
 * level-triggered SCI it drives through one ISA pin.
 */
module AcpiGpeModel {
  import opened Prelude
  import opened IntrPins

  const GPE0_BLK_LEN: nat := 4
  const GPE0_EN_OFFSET: nat := 2
  const SCI_IRQ: nat := 9

  /** A register or a byte of one, as the set of its one bits. */
  type Bits = set<nat>

  const GPE0_VALID: Bits := {1, 2, 3}

  datatype GpeBit = Pci | Cpu | Memory

  function BitOf(b: GpeBit): nat
  {
    match b
    case Pci => 1
    case Cpu => 2
    case Memory => 3
  }

  /** GPE0_STS and GPE0_EN. */
  datatype Regs = Regs(status: Bits, enable: Bits)
  {
    predicate Ok() { status <= GPE0_VALID && enable <= GPE0_VALID }
    predicate Level() { status * enable != {} }
  }

  /** Everything that changes the registers. Port writes name a byte of a register. */
  datatype Event =
    | WriteStatus(high: bool, v: Bits)
    | WriteEnable(high: bool, v: Bits)
    | Raise(bit: GpeBit)
    | Reset
    | Import(status: Bits, enable: Bits)

  /** A byte shifted to its place in a 16-bit register. */
  function Place(high: bool, v: Bits): Bits
  {
    set b | b in v && b < 8 :: if high then b + 8 else b
  }

  const FULL_BYTE: Bits := set b | 0 <= b < 8

  function After(r: Regs, e: Event): Regs
  {
    match e
    case WriteStatus(high, v) => r.(status := r.status - Place(high, v) * GPE0_VALID)
    case WriteEnable(high, v) =>
      r.(enable := (r.enable - Place(high, FULL_BYTE) + Place(high, v)) * GPE0_VALID)
    case Raise(bit) => r.(status := r.status + {BitOf(bit)} * GPE0_VALID)
    case Reset => Regs({}, {})
    case Import(status, enable) => Regs(status * GPE0_VALID, enable * GPE0_VALID)
  }

  function AfterFrom(r: Regs, events: seq<Event>): Regs
  {
    if events == [] then r else After(AfterFrom(r, events[..|events| - 1]), events[|events| - 1])
  }

  function AfterAll(events: seq<Event>): Regs { AfterFrom(Regs({}, {}), events) }

  // ----- the latch

  predicate Latched(r: Regs, b: GpeBit) { BitOf(b) in r.status }

  /** The event leaves `b` set whatever it was. */
  predicate Sets(e: Event, b: GpeBit)
  {
    || e == Raise(b)
    || (e.Import? && BitOf(b) in e.status)
  }

  /** The event leaves `b` clear whatever it was: written one, reset, or imported clear. */
  predicate Clears(e: Event, b: GpeBit)
  {
    || (e.WriteStatus? && !e.high && BitOf(b) in e.v)
    || e.Reset?
    || (e.Import? && BitOf(b) !in e.status)
  }

  /** One event leaves valid bits only, and moves a latch only by setting or clearing it. */
  lemma StepLatch(r: Regs, e: Event, b: GpeBit)
    ensures r.Ok() ==> After(r, e).Ok()
    ensures Latched(After(r, e), b) <==> Sets(e, b) || (Latched(r, b) && !Clears(e, b))
  {
  }

  /** Some event set `b` and none since cleared it. */
  ghost predicate Pending(events: seq<Event>, b: GpeBit)
  {
    exists i :: 0 <= i < |events| && Sets(events[i], b)
                && forall j :: i < j < |events| ==> !Clears(events[j], b)
  }

  /** Over every history only the three valid bits are ever set, and a bit is latched exactly while pending. */
  lemma {:induction false} LatchedExactly(events: seq<Event>, b: GpeBit)
    ensures AfterAll(events).Ok()
    ensures Latched(AfterAll(events), b) <==> Pending(events, b)
  {
    if events != [] {
      var n := |events| - 1;
      var before := events[..n];
      LatchedExactly(before, b);
      StepLatch(AfterAll(before), events[n], b);
      assert forall i :: 0 <= i < n ==> before[i] == events[i];
      if Pending(before, b) && !Clears(events[n], b) {
        var i :| 0 <= i < n && Sets(before[i], b) && forall j :: i < j < n ==> !Clears(before[j], b);
        assert Sets(events[i], b);
      }
      if Pending(events, b) {
        var i :| 0 <= i < |events| && Sets(events[i], b) && forall j :: i < j < |events| ==> !Clears(events[j], b);
        if i < n {
          assert Sets(before[i], b) && !Clears(events[n], b);
        }
      }
    }
  }

  // ----- the device

  /** A port access: its width, and for a write its low byte. */
  datatype Access = Read(width: nat) | Write(width: nat, v: Bits)

  /** Bit position of a byte of the block within its register. */
  function ByteShift(offset: nat): (s: Option<nat>)
    ensures s.Some? <==> offset < GPE0_BLK_LEN
    ensures s.Some? ==> s.value in {0, 8}
  {
    if offset >= GPE0_BLK_LEN then None else Some((offset % GPE0_EN_OFFSET) * 8)
  }

  /** What a one-byte write at `offset` does to the registers. */
  function WriteEvent(offset: nat, v: Bits): Event
  {
    if offset < GPE0_EN_OFFSET then WriteStatus(offset % 2 == 1, v) else WriteEnable(offset % 2 == 1, v)
  }

  function ByteOf(reg: Bits, shift: nat): Bits
  {
    set b | b in reg && shift <= b < shift + 8 :: b - shift
  }

  class AcpiGpe {
    var status: Bits
    var enable: Bits
    const sci: LegacyPin

    constructor (sci: LegacyPin)
      ensures Now() == Regs({}, {}) && this.sci == sci
    {
      status, enable, this.sci := {}, {}, sci;
    }

    function Now(): Regs
      reads this
    {
      Regs(status, enable)
    }

    /** Only valid bits are set, and the pin is IRQ 9 of a live controller. */
    ghost predicate Valid()
      reads this, sci, sci.pic, if sci.pic == null then {} else sci.pic.pins
    {
      Now().Ok() && sci.irq == SCI_IRQ && sci.pic != null && sci.Wired()
    }

    /** Some other pin holds IRQ 9. */
    ghost predicate OtherHolds()
      requires sci.pic != null
      reads this, sci, sci.pic, sci.pic.pins
    {
      exists p :: p in sci.pic.pins && p != sci && p.asserted && p.irq == SCI_IRQ
    }

    /** The kernel drives IRQ 9 exactly while the registers ask for it or another pin does. */
    ghost predicate Settled()
      requires Valid()
      reads this, sci, sci.pic, if sci.pic == null then {} else sci.pic.pins
    {
      sci.pic.high[SCI_IRQ] <==> Now().Level() || OtherHolds()
    }

    /** The pin stands where the registers ask. */
    ghost predicate Follows()
      reads this, sci
    {
      sci.asserted == Now().Level()
    }

    /** A pin that follows the registers settles the line. */
    lemma PinSettles()
      requires Valid() && Follows()
      ensures Settled()
    {
      var holders := sci.pic.Holders(SCI_IRQ);
      assert |holders| > 0 <==> holders != {};
      if sci.asserted {
        assert sci in holders;
      }
      assert forall p :: p in holders <==> p in sci.pic.pins && p.asserted && p.irq == SCI_IRQ;
    }

    /** Drive the pin from the registers. Only a refusal while no other pin holds the line keeps it from following. */
    method RecomputeSci(accepted: bool)
      requires Valid()
      modifies sci, sci.pic
      ensures Valid() && sci.pic.pins == old(sci.pic.pins)
      ensures sci.asserted == Now().Level() <==>
              accepted || old(sci.asserted) == Now().Level()
              || old(sci.pic.levels[SCI_IRQ]) > (if old(sci.asserted) then 1 else 0)
      ensures sci.asserted == Now().Level() ==> Settled()
    {
      var level := status * enable != {};
      sci.SetState(level, accepted);
      if sci.asserted == Now().Level() { PinSettles(); }
    }

    /** Latch an event and drive the line. */
    method RaiseEvent(bit: GpeBit, accepted: bool)
      requires Valid()
      modifies this`status, sci, sci.pic
      ensures Valid() && Now() == After(old(Now()), Raise(bit)) && sci.pic.pins == old(sci.pic.pins)
      ensures accepted ==> sci.asserted == Now().Level() && Settled()
    {
      StepLatch(Now(), Raise(bit), bit);
      status := status + {BitOf(bit)} * GPE0_VALID;
      RecomputeSci(accepted);
    }

    /** Cold start: nothing latched, nothing enabled. */
    method ResetRegisters(accepted: bool)
      requires Valid()
      modifies this`status, this`enable, sci, sci.pic
      ensures Valid() && Now() == After(old(Now()), Reset) && sci.pic.pins == old(sci.pic.pins)
      ensures accepted ==> !sci.asserted && Settled()
    {
      status, enable := {}, {};
      RecomputeSci(accepted);
    }

    /** Restore migrated registers and drive the line from them. */
    method ImportRegisters(s: Bits, en: Bits, accepted: bool)
      requires Valid()
      modifies this`status, this`enable, sci, sci.pic
      ensures Valid() && Now() == After(old(Now()), Import(s, en)) && sci.pic.pins == old(sci.pic.pins)
      ensures accepted ==> sci.asserted == Now().Level() && Settled()
    {
      StepLatch(Now(), Import(s, en), Pci);
      status, enable := s * GPE0_VALID, en * GPE0_VALID;
      RecomputeSci(accepted);
    }

    /** The guest writes ones to clear. */
    method WriteStatusByte(high: bool, v: Bits, accepted: bool)
      requires Valid()
      modifies this`status, sci, sci.pic
      ensures Valid() && Now() == After(old(Now()), WriteStatus(high, v)) && sci.pic.pins == old(sci.pic.pins)
      ensures accepted ==> sci.asserted == Now().Level() && Settled()
    {
      StepLatch(Now(), WriteStatus(high, v), Pci);
      status := status - Place(high, v) * GPE0_VALID;
      RecomputeSci(accepted);
    }

    method WriteEnableByte(high: bool, v: Bits, accepted: bool)
      requires Valid()
      modifies this`enable, sci, sci.pic
      ensures Valid() && Now() == After(old(Now()), WriteEnable(high, v)) && sci.pic.pins == old(sci.pic.pins)
      ensures accepted ==> sci.asserted == Now().Level() && Settled()
    {
      StepLatch(Now(), WriteEnable(high, v), Pci);
      enable := (enable - Place(high, FULL_BYTE) + Place(high, v)) * GPE0_VALID;
      RecomputeSci(accepted);
    }

    /** One guest access. A wide or stray access floats on a read and is dropped on a write. */
    method Handle(offset: nat, access: Access, accepted: bool) returns (answer: Option<Bits>)
      requires Valid()
      modifies this`status, this`enable, sci, sci.pic
      ensures Valid() && sci.pic.pins == old(sci.pic.pins)
      ensures access.Write? && access.width == 1 && offset < GPE0_BLK_LEN ==>
                Now() == After(old(Now()), WriteEvent(offset, access.v))
                && (accepted ==> sci.asserted == Now().Level() && Settled())
      ensures access.Read? || access.width != 1 || offset >= GPE0_BLK_LEN ==>
                Now() == old(Now()) && sci.asserted == old(sci.asserted)
      ensures answer.Some? <==> access.Read? && access.width == 1 && offset < GPE0_BLK_LEN
      ensures answer.Some? ==>
                answer.value == ByteOf(if offset < GPE0_EN_OFFSET then status else enable, ByteShift(offset).value)
    {
      answer := None;
      var shift := ByteShift(offset);
      if shift.None? || access.width != 1 {
        return;
      }
      match access {
        case Read(_) =>
          answer := Some(ByteOf(if offset < GPE0_EN_OFFSET then status else enable, shift.value));
        case Write(_, v) =>
          if offset < GPE0_EN_OFFSET {
            WriteStatusByte(offset % 2 == 1, v, accepted);
          } else {
            WriteEnableByte(offset % 2 == 1, v, accepted);
          }
      }
    }
  }

  // ----- runs

  /** A call on the controller: a register event, or a call of some other pin; and the kernel's answer. */
  datatype Call = Device(e: Event, ok: bool) | Other(p: LegacyPin, op: PinOp, ok: bool)

  /** The register events among the calls. */
  function EventsOf(calls: seq<Call>): seq<Event>
  {
    if calls == [] then []
    else
      var c := calls[|calls| - 1];
      EventsOf(calls[..|calls| - 1]) + if c.Device? then [c.e] else []
  }

  /** The last register event was accepted; before any, the pin followed to begin with. */
  predicate InStep(followed: bool, calls: seq<Call>)
  {
    if calls == [] then followed
    else
      var c := calls[|calls| - 1];
      if c.Device? then c.ok else InStep(followed, calls[..|calls| - 1])
  }

  /** A call of another pin moves no register, and IRQ 9 stays settled. */
  method OtherCall(gpe: AcpiGpe, p: LegacyPin, op: PinOp, ok: bool)
    requires gpe.Valid() && p in gpe.sci.pic.pins && p != gpe.sci
    modifies p`asserted, gpe.sci.pic
    ensures gpe.Valid() && gpe.sci.pic.pins == old(gpe.sci.pic.pins)
    ensures gpe.Now() == old(gpe.Now()) && gpe.sci.asserted == old(gpe.sci.asserted)
    ensures gpe.Follows() ==> gpe.Settled()
  {
    match op {
      case Assert => p.Assert(ok);
      case Deassert => p.Deassert(ok);
      case Pulse => p.Pulse(ok);
    }
    if gpe.Follows() { gpe.PinSettles(); }
  }

  method DeviceCall(gpe: AcpiGpe, e: Event, ok: bool)
    requires gpe.Valid()
    modifies gpe`status, gpe`enable, gpe.sci, gpe.sci.pic
    ensures gpe.Valid() && gpe.sci.pic.pins == old(gpe.sci.pic.pins)
    ensures gpe.Now() == After(old(gpe.Now()), e)
    ensures ok ==> gpe.Follows()
  {
    match e {
      case WriteStatus(high, v) => gpe.WriteStatusByte(high, v, ok);
      case WriteEnable(high, v) => gpe.WriteEnableByte(high, v, ok);
      case Raise(bit) => gpe.RaiseEvent(bit, ok);
      case Reset => gpe.ResetRegisters(ok);
      case Import(status, enable) => gpe.ImportRegisters(status, enable, ok);
    }
  }

  lemma CallsSnoc(calls: seq<Call>, i: nat, r: Regs, followed: bool)
    requires i < |calls|
    ensures var (a, b) := (calls[..i], calls[..i + 1]);
            && InStep(followed, b) == (if calls[i].Device? then calls[i].ok else InStep(followed, a))
            && AfterFrom(r, EventsOf(b)) ==
               (if calls[i].Device? then After(AfterFrom(r, EventsOf(a)), calls[i].e) else AfterFrom(r, EventsOf(a)))
  {
    var (a, b) := (calls[..i], calls[..i + 1]);
    assert b[..i] == a && b[i] == calls[i];
    if calls[i].Device? {
      var events := EventsOf(b);
      assert events[..|events| - 1] == EventsOf(a);
    } else {
      assert EventsOf(a) + [] == EventsOf(a);
    }
  }

  /**
   * Any run of register events and calls of other pins, with any answers:
   * the registers hold what the events made of them, and whenever the last
   * event was accepted IRQ 9 is high exactly while the registers ask for it or
   * another pin holds it.
   */
  method Replay(gpe: AcpiGpe, calls: seq<Call>)
    requires gpe.Valid()
    requires forall i :: 0 <= i < |calls| && calls[i].Other? ==> calls[i].p in gpe.sci.pic.pins && calls[i].p != gpe.sci
    modifies gpe`status, gpe`enable, gpe.sci.pic, gpe.sci.pic.pins
    ensures gpe.Valid() && gpe.sci.pic.pins == old(gpe.sci.pic.pins)
    ensures gpe.Now() == AfterFrom(old(gpe.Now()), EventsOf(calls))
    ensures InStep(old(gpe.Follows()), calls) ==> gpe.Settled()
  {
    ghost var (r, followed) := (gpe.Now(), gpe.Follows());
    for i := 0 to |calls|
      invariant gpe.Valid() && gpe.sci.pic.pins == old(gpe.sci.pic.pins)
      invariant gpe.Now() == AfterFrom(r, EventsOf(calls[..i]))
      invariant InStep(followed, calls[..i]) ==> gpe.Follows()
    {
      CallsSnoc(calls, i, r, followed);
      match calls[i] {
        case Device(e, ok) => DeviceCall(gpe, e, ok);
        case Other(p, op, ok) => OtherCall(gpe, p, op, ok);
      }
    }
    assert calls[..|calls|] == calls;
    if gpe.Follows() { gpe.PinSettles(); }
  }
}
