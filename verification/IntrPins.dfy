/**
 * The pin and controller objects of crates/vmm-core/src/intr_pins.rs.
 *
 * The kernel's answers are parameters; the ghost field `high` is the kernel's
 * own line. A controller knows its pin handles through a ghost set.
 */
module IntrPins {
  import opened Prelude
  import IntrLines

  type PinOp = IntrLines.PinOp

  const PIN_COUNT: nat := 16
  const PCI_GSI_COUNT: nat := 8
  const PIR_COUNT: nat := 4
  const PIR_DISABLE: nat := 0x80

  /** Adding or dropping one holder moves a holder count by one. */
  lemma HolderCount<T>(before: set<T>, after: set<T>, x: T)
    ensures x !in before && after == before + {x} ==> |after| == |before| + 1
    ensures x in before && after == before - {x} ==> |after| == |before| - 1
    ensures x in before ==> |before| > 0
  {
  }

  /** The ISA interrupt controller: 16 shared lines. */
  class LegacyPIC {
    var levels: seq<nat>
    ghost var high: seq<bool>
    ghost var pins: set<LegacyPin>

    ghost predicate Shape()
      reads this
    {
      |levels| == PIN_COUNT && |high| == PIN_COUNT
    }

    /** The asserted pins of line `i`. */
    ghost function Holders(i: nat): set<LegacyPin>
      reads this, pins
    {
      set p | p in pins && p.asserted && p.irq == i
    }

    /** Levels count holders, and the kernel's line is high exactly while there is one. */
    ghost predicate Valid()
      reads this, pins
    {
      && Shape()
      && (forall p :: p in pins ==> p.pic == this && p.irq < PIN_COUNT && p.irq != 2)
      && (forall i :: 0 <= i < PIN_COUNT ==> levels[i] == |Holders(i)|)
      && (forall i :: 0 <= i < PIN_COUNT ==> (high[i] <==> levels[i] > 0))
    }

    constructor ()
      ensures Valid() && pins == {} && levels == seq(PIN_COUNT, _ => 0) && fresh(this)
    {
      levels := seq(PIN_COUNT, _ => 0);
      high := seq(PIN_COUNT, _ => false);
      pins := {};
    }

    /** A pin for `irq`, or none for the cascade line and beyond the controller. */
    method PinHandle(irq: nat) returns (pin: Option<LegacyPin>)
      requires Valid()
      modifies this`pins
      ensures pin.None? <==> irq >= PIN_COUNT || irq == 2
      ensures pin.None? ==> pins == old(pins)
      ensures pin.Some? ==> fresh(pin.value) && pins == old(pins) + {pin.value}
                            && pin.value.irq == irq && !pin.value.asserted
      ensures Valid()
    {
      if irq >= PIN_COUNT || irq == 2 {
        return None;
      }
      var p := new LegacyPin(irq, this);
      pins := pins + {p};
      forall i | 0 <= i < PIN_COUNT
        ensures Holders(i) == old(Holders(i))
      {
        assert p !in old(pins);
      }
      return Some(p);
    }

    /** Tell the kernel of a level transition, and take the level back if it refuses. */
    method DoIrq(op: PinOp, irq: nat, accepted: bool) returns (stands: bool)
      requires Shape() && irq < PIN_COUNT
      modifies this`levels, this`high
      ensures Shape()
      ensures var (line, ok) := IntrLines.DoIrq(IntrLines.Line(old(levels)[irq], old(high)[irq]), op,
                                                IntrLines.Delivery(false, accepted, true));
              stands == ok && levels == old(levels)[irq := line.level] && high == old(high)[irq := line.high]
    {
      var (level, notify) := IntrLines.ProcessOp(levels[irq], op);
      levels := levels[irq := level];
      if !notify {
        return true;
      }
      if accepted {
        high := high[irq := op == IntrLines.Assert];
        return true;
      }
      levels := levels[irq := IntrLines.UndoOp(levels[irq], op)];
      return false;
    }
  }

  /** One ISA pin; a null controller is one that was dropped. */
  class LegacyPin {
    const irq: nat
    const pic: LegacyPIC?
    var asserted: bool

    constructor (irq: nat, pic: LegacyPIC)
      ensures this.irq == irq && this.pic == pic && !asserted
    {
      this.irq, this.pic, this.asserted := irq, pic, false;
    }

    ghost predicate Wired()
      reads this, pic, if pic == null then {} else pic.pins
    {
      pic != null ==> this in pic.pins && pic.Valid()
    }

    /** Raise the pin. It stays low only when the kernel refuses the first holder of the line. */
    method Assert(accepted: bool)
      requires Wired()
      modifies this`asserted, pic
      ensures Wired() && (pic != null ==> pic.pins == old(pic.pins))
      ensures asserted <==> old(asserted) || pic == null || accepted || old(pic.levels[irq]) > 0
      ensures pic != null ==> forall i :: 0 <= i < PIN_COUNT && i != irq ==> pic.levels[i] == old(pic.levels[i])
    {
      if asserted {
        return;
      }
      asserted := true;
      if pic != null {
        var stands := pic.DoIrq(IntrLines.Assert, irq, accepted);
        asserted := stands;
        forall i | 0 <= i < PIN_COUNT
          ensures pic.levels[i] == |pic.Holders(i)|
        {
          HolderCount(old(pic.Holders(i)), pic.Holders(i), this);
          if i == irq && stands {
            assert pic.Holders(i) == old(pic.Holders(i)) + {this};
          } else {
            assert pic.Holders(i) == old(pic.Holders(i));
          }
        }
      }
    }

    /** Lower the pin. It stays high only when the kernel refuses the last holder of the line. */
    method Deassert(accepted: bool)
      requires Wired()
      modifies this`asserted, pic
      ensures Wired() && (pic != null ==> pic.pins == old(pic.pins))
      ensures asserted <==> old(asserted) && pic != null && !accepted && old(pic.levels[irq]) == 1
      ensures pic != null ==> forall i :: 0 <= i < PIN_COUNT && i != irq ==> pic.levels[i] == old(pic.levels[i])
    {
      if !asserted {
        return;
      }
      asserted := false;
      if pic != null {
        HolderCount(old(pic.Holders(irq)), {}, this);
        var stands := pic.DoIrq(IntrLines.Deassert, irq, accepted);
        asserted := !stands;
        forall i | 0 <= i < PIN_COUNT
          ensures pic.levels[i] == |pic.Holders(i)|
        {
          HolderCount(old(pic.Holders(i)), pic.Holders(i), this);
          if i == irq && stands {
            assert pic.Holders(i) == old(pic.Holders(i)) - {this};
          } else {
            assert pic.Holders(i) == old(pic.Holders(i));
          }
        }
      }
    }

    /** Raise and lower an idle pin. Whatever the kernel answers, nothing stays raised. */
    method Pulse(accepted: bool)
      requires Wired()
      modifies pic
      ensures Wired() && asserted == old(asserted)
      ensures pic != null ==> pic.pins == old(pic.pins) && pic.levels == old(pic.levels)
    {
      if !asserted && pic != null {
        var stands := pic.DoIrq(IntrLines.Pulse, irq, accepted);
        forall i | 0 <= i < PIN_COUNT
          ensures pic.Holders(i) == old(pic.Holders(i))
        {
        }
      }
    }

    /** Drive the pin to a level, in one call. */
    method SetState(level: bool, accepted: bool)
      requires Wired()
      modifies this`asserted, pic
      ensures Wired() && (pic != null ==> pic.pins == old(pic.pins))
      ensures asserted == level <==>
              accepted || pic == null || old(asserted) == level
              || old(pic.levels[irq]) > (if old(asserted) then 1 else 0)
      ensures pic != null ==> forall i :: 0 <= i < PIN_COUNT && i != irq ==> pic.levels[i] == old(pic.levels[i])
    {
      if pic != null && asserted { HolderCount(pic.Holders(irq), {}, this); }
      if level {
        Assert(accepted);
      } else {
        Deassert(accepted);
      }
    }
  }

  // ----- PCI INTx

  /** The PIC line a routing register names, if it is enabled and not zero. */
  function AtpicIrq(pir: byte): (irq: Option<nat>)
    ensures irq.Some? ==> 0 < irq.value < PIN_COUNT
  {
    if pir >= PIR_DISABLE || pir % 16 == 0 then None else Some(pir % 16)
  }

  /** Index of the routing register of a device pin. */
  function PirqIndex(slot: nat, pin: nat): nat { (slot + pin) % PIR_COUNT }

  /** Index of the shared GSI of a device pin. */
  function GsiLine(slot: nat, pin: nat): nat { (4 + slot + pin) % PCI_GSI_COUNT }

  /** Pins that alias onto one GSI also share the routing register, so all of them name one PIC line. */
  lemma AliasesShareRoute(slot: nat, pin: nat, slot': nat, pin': nat)
    ensures GsiLine(slot, pin) == GsiLine(slot', pin') <==> (slot + pin) % 8 == (slot' + pin') % 8
    ensures GsiLine(slot, pin) == GsiLine(slot', pin') ==> PirqIndex(slot, pin) == PirqIndex(slot', pin')
  {
    ModEight(slot + pin);
    ModEight(slot' + pin');
  }

  lemma ModEight(x: nat)
    ensures (4 + x) % 8 == if x % 8 < 4 then x % 8 + 4 else x % 8 - 4
    ensures x % 4 == (x % 8) % 4
  {
  }

  /** The shared GSI lines of one chipset. */
  class PciIntrRoutes {
    var levels: seq<nat>
    var pir: seq<byte>
    ghost var high: seq<bool>
    ghost var pins: set<PciIntrPin>

    ghost predicate Shape()
      reads this
    {
      |levels| == PCI_GSI_COUNT && |high| == PCI_GSI_COUNT && |pir| == PIR_COUNT
    }

    ghost function Holders(i: nat): set<PciIntrPin>
      reads this, pins
    {
      set p | p in pins && p.asserted && p.line == i
    }

    /** Levels count holders. */
    ghost predicate Valid()
      reads this, pins
    {
      && Shape()
      && (forall p :: p in pins ==> p.routes == this && p.line < PCI_GSI_COUNT && p.pirq < PIR_COUNT)
      && (forall i :: 0 <= i < PCI_GSI_COUNT ==> levels[i] == |Holders(i)|)
    }

    /** The kernel's GSI is high exactly while the count is positive. */
    ghost predicate Agrees(i: nat)
      requires Shape() && i < PCI_GSI_COUNT
      reads this
    {
      high[i] <==> levels[i] > 0
    }

    constructor ()
      ensures Valid() && pins == {} && forall i :: 0 <= i < PCI_GSI_COUNT ==> Agrees(i)
    {
      levels := seq(PCI_GSI_COUNT, _ => 0);
      high := seq(PCI_GSI_COUNT, _ => false);
      pir := seq(PIR_COUNT, _ => PIR_DISABLE);
      pins := {};
    }

    /** The guest rewrites a routing register; no GSI moves. */
    method SetPir(i: nat, v: byte)
      requires Valid() && i < PIR_COUNT
      modifies this`pir
      ensures Valid() && pir == old(pir)[i := v]
      ensures forall l :: 0 <= l < PCI_GSI_COUNT ==> (Agrees(l) <==> old(Agrees(l))) && Holders(l) == old(Holders(l))
    {
      pir := pir[i := v];
      forall j | 0 <= j < PCI_GSI_COUNT
        ensures Holders(j) == old(Holders(j))
      {
      }
    }

    /** Deliver over the route that is programmed right now. */
    method DoIrq(op: PinOp, pirq: nat, line: nat, first: bool, second: bool) returns (stands: bool)
      requires Shape() && pirq < PIR_COUNT && line < PCI_GSI_COUNT
      modifies this`levels, this`high
      ensures Shape()
      ensures var (l, ok) := IntrLines.DoIrq(IntrLines.Line(old(levels)[line], old(high)[line]), op,
                                             IntrLines.Delivery(AtpicIrq(pir[pirq]).None?, first, second));
              stands == ok && levels == old(levels)[line := l.level] && high == old(high)[line := l.high]
    {
      var (level, notify) := IntrLines.ProcessOp(levels[line], op);
      levels := levels[line := level];
      if !notify {
        return true;
      }
      var route := AtpicIrq(pir[pirq]);
      var ok := first;
      if first {
        high := high[line := op == IntrLines.Assert];
        if op == IntrLines.Pulse && route.None? {
          ok := second;
          high := high[line := !second];
        }
      }
      if !ok {
        levels := levels[line := IntrLines.UndoOp(levels[line], op)];
      }
      return ok;
    }
  }

  /** A device INTx pin; a null parent is one that was dropped. */
  class PciIntrPin {
    const pirq: nat
    const line: nat
    const routes: PciIntrRoutes?
    var asserted: bool

    constructor (slot: nat, pin: nat, routes: PciIntrRoutes)
      ensures pirq == PirqIndex(slot, pin) && line == GsiLine(slot, pin) && this.routes == routes && !asserted
    {
      pirq, line, this.routes, asserted := PirqIndex(slot, pin), GsiLine(slot, pin), routes, false;
    }

    ghost predicate Wired()
      reads this, routes, if routes == null then {} else routes.pins
    {
      routes != null ==> this in routes.pins && routes.Valid()
    }

    method Assert(accepted: bool)
      requires Wired()
      modifies this`asserted, routes
      ensures Wired() && (routes != null ==> routes.pins == old(routes.pins))
      ensures asserted <==> old(asserted) || routes == null || accepted || old(routes.levels[line]) > 0
      ensures routes != null ==> forall i :: 0 <= i < PCI_GSI_COUNT && old(routes.Agrees(i)) ==> routes.Agrees(i)
    {
      if asserted {
        return;
      }
      asserted := true;
      if routes != null {
        var stands := routes.DoIrq(IntrLines.Assert, pirq, line, accepted, true);
        asserted := stands;
        forall i | 0 <= i < PCI_GSI_COUNT
          ensures routes.levels[i] == |routes.Holders(i)|
        {
          HolderCount(old(routes.Holders(i)), routes.Holders(i), this);
          if i == line && stands {
            assert routes.Holders(i) == old(routes.Holders(i)) + {this};
          } else {
            assert routes.Holders(i) == old(routes.Holders(i));
          }
        }
      }
    }

    method Deassert(accepted: bool)
      requires Wired()
      modifies this`asserted, routes
      ensures Wired() && (routes != null ==> routes.pins == old(routes.pins))
      ensures asserted <==> old(asserted) && routes != null && !accepted && old(routes.levels[line]) == 1
      ensures routes != null ==> forall i :: 0 <= i < PCI_GSI_COUNT && old(routes.Agrees(i)) ==> routes.Agrees(i)
    {
      if !asserted {
        return;
      }
      asserted := false;
      if routes != null {
        HolderCount(old(routes.Holders(line)), {}, this);
        var stands := routes.DoIrq(IntrLines.Deassert, pirq, line, accepted, true);
        asserted := !stands;
        forall i | 0 <= i < PCI_GSI_COUNT
          ensures routes.levels[i] == |routes.Holders(i)|
        {
          HolderCount(old(routes.Holders(i)), routes.Holders(i), this);
          if i == line && stands {
            assert routes.Holders(i) == old(routes.Holders(i)) - {this};
          } else {
            assert routes.Holders(i) == old(routes.Holders(i));
          }
        }
      }
    }

    /** A pulse over a disabled route is two calls: refusing only the second leaves the GSI raised. */
    method Pulse(first: bool, second: bool)
      requires Wired()
      modifies routes
      ensures Wired() && asserted == old(asserted)
      ensures routes != null ==> routes.pins == old(routes.pins) && routes.levels == old(routes.levels)
      ensures routes != null && old(routes.Agrees(line)) ==>
                (routes.Agrees(line) <==>
                 !(!asserted && routes.levels[line] == 0 && AtpicIrq(routes.pir[pirq]).None? && first && !second))
      ensures routes != null ==>
                forall i :: 0 <= i < PCI_GSI_COUNT && i != line && old(routes.Agrees(i)) ==> routes.Agrees(i)
    {
      if !asserted && routes != null {
        var stands := routes.DoIrq(IntrLines.Pulse, pirq, line, first, second);
        forall i | 0 <= i < PCI_GSI_COUNT
          ensures routes.Holders(i) == old(routes.Holders(i))
        {
        }
      }
    }
  }
}
