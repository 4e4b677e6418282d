/**
 * Shared interrupt lines of crates/vmm-core/src/intr_pins.rs: the level count
 * of a line, the pins that hold it and the kernel's own idea of the line.
 */
module IntrLines {
  datatype PinOp = Assert | Deassert | Pulse

  /** One shared line: the counted level and whether the kernel drives it high. */
  datatype Line = Line(level: nat, high: bool)
  {
    predicate Agrees() { high <==> level > 0 }
  }

  /** What the kernel answers to the one or two calls an operation makes. */
  datatype Delivery = Delivery(twoCalls: bool, first: bool, second: bool)

  /** `Entry::process_op`: the new level, and whether the kernel must be told. */
  function ProcessOp(level: nat, op: PinOp): (r: (nat, bool))
  {
    match op
    case Assert => (level + 1, level + 1 == 1)
    case Deassert => if level == 0 then (0, false) else (level - 1, level - 1 == 0)
    case Pulse => (level, level == 0)
  }

  /** `Entry::undo_op`. */
  function UndoOp(level: nat, op: PinOp): nat
    requires op == Assert ==> level > 0
  {
    match op
    case Assert => level - 1
    case Deassert => level + 1
    case Pulse => level
  }

  /** Only the IOAPIC pulse of a disabled route is two calls. */
  predicate Accepted(op: PinOp, d: Delivery)
  {
    d.first && (op == Pulse && d.twoCalls ==> d.second)
  }

  /** The kernel's line after the calls; a refused call changes nothing. */
  function KernelLine(high: bool, op: PinOp, d: Delivery): bool
  {
    if !d.first then high
    else match op
      case Assert => true
      case Deassert => false
      case Pulse => d.twoCalls && !d.second
  }

  /** `do_irq`: the new line, and whether the caller's pin change stands. */
  function DoIrq(line: Line, op: PinOp, d: Delivery): (r: (Line, bool))
  {
    var (level, notify) := ProcessOp(line.level, op);
    if !notify then (line.(level := level), true)
    else if Accepted(op, d) then (Line(level, KernelLine(line.high, op, d)), true)
    else (Line(UndoOp(level, op), KernelLine(line.high, op, d)), false)
  }

  /** The one delivery that parts the kernel from the count: a pulse that is raised and not lowered. */
  predicate StuckPulse(line: Line, op: PinOp, d: Delivery)
  {
    op == Pulse && line.level == 0 && d.twoCalls && d.first && !d.second
  }

  /** An operation, with the answers it got, keeps count and kernel agreed exactly when it is not that one. */
  lemma AgreesExactly(line: Line, op: PinOp, d: Delivery)
    requires line.Agrees()
    ensures DoIrq(line, op, d).0.Agrees() <==> !StuckPulse(line, op, d)
  {
  }

  /** Whatever the kernel will answer, agreement is safe exactly unless an idle line is pulsed in two calls. */
  lemma AgreesWhateverAnswered(line: Line, op: PinOp, two: bool)
    requires line.Agrees()
    ensures (forall first, second :: DoIrq(line, op, Delivery(two, first, second)).0.Agrees())
            <==> !(op == Pulse && line.level == 0 && two)
  {
    if op == Pulse && line.level == 0 && two {
      AgreesExactly(line, op, Delivery(two, true, false));
    }
  }

  /** The failing input: an idle line, pulsed over a disabled route, whose lowering call is refused. */
  lemma PulseCanStick()
    ensures DoIrq(Line(0, false), Pulse, Delivery(true, true, false)) == (Line(0, true), false)
  {
  }

  /** Any operation the kernel is told of and accepts brings them back together. */
  lemma AcceptedHeals(line: Line, op: PinOp, d: Delivery)
    requires ProcessOp(line.level, op).1 && Accepted(op, d)
    ensures DoIrq(line, op, d).0.Agrees()
  {
  }

  // ----- pins on lines, with pin calls of different threads interleaved

  type PinId = nat

  /**
   * Where one pin call is. The pin's own lock is held from `Calling` to the
   * store, so a pin has one call at a time; the line lock covers `DoIrq` only.
   */
  datatype Phase = Idle | Calling(op: PinOp) | Returned(op: PinOp, stands: bool)

  datatype Pin = Pin(line: nat, asserted: bool, phase: Phase)

  datatype Bank = Bank(lines: seq<Line>, pins: map<PinId, Pin>)

  datatype Step =
    | Plug(pin: PinId, line: nat)
    | Enter(pin: PinId, op: PinOp)
    | Deliver(pin: PinId, d: Delivery)
    | Store(pin: PinId)

  /** Whether the line counts this pin, between the delivery and the store too. */
  predicate Counted(p: Pin)
  {
    match p.phase
    case Idle => p.asserted
    case Calling(Assert) => false
    case Calling(Deassert) => true
    case Calling(Pulse) => p.asserted
    case Returned(Assert, stands) => stands
    case Returned(Deassert, stands) => !stands
    case Returned(Pulse, _) => p.asserted
  }

  /** An assert of a high pin, a deassert of a low one and a pulse of a high one do nothing. */
  predicate NoOp(p: Pin, op: PinOp)
  {
    if op == Deassert then !p.asserted else p.asserted
  }

  function Start(n: nat): Bank
  {
    Bank(seq(n, _ => Line(0, false)), map[])
  }

  predicate Enabled(b: Bank, step: Step)
  {
    match step
    case Plug(pin, line) => pin !in b.pins && line < |b.lines|
    case Enter(pin, _) => pin in b.pins && b.pins[pin].phase.Idle?
    case Deliver(pin, _) => pin in b.pins && b.pins[pin].phase.Calling? && b.pins[pin].line < |b.lines|
    case Store(pin) => pin in b.pins && b.pins[pin].phase.Returned?
  }

  function Apply(b: Bank, step: Step): Bank
    requires Enabled(b, step)
  {
    match step
    case Plug(pin, line) => b.(pins := b.pins[pin := Pin(line, false, Idle)])
    case Enter(pin, op) =>
      var p := b.pins[pin];
      if NoOp(p, op) then b
      else b.(pins := b.pins[pin := Pin(p.line, op == Assert, Calling(op))])
    case Deliver(pin, d) =>
      var p := b.pins[pin];
      var (line, stands) := DoIrq(b.lines[p.line], p.phase.op, d);
      Bank(b.lines[p.line := line], b.pins[pin := p.(phase := Returned(p.phase.op, stands))])
    case Store(pin) =>
      var p := b.pins[pin];
      var asserted := match p.phase.op
        case Assert => p.phase.stands
        case Deassert => !p.phase.stands
        case Pulse => p.asserted;
      b.(pins := b.pins[pin := Pin(p.line, asserted, Idle)])
  }

  /** The pins line `i` counts. */
  ghost function Holders(pins: map<PinId, Pin>, i: nat): set<PinId>
  {
    set p | p in pins && pins[p].line == i && Counted(pins[p])
  }

  /** A pin in a call stands where the call put it. */
  predicate PinOk(p: Pin, n: nat)
  {
    && p.line < n
    && (p.phase.Calling? ==> p.asserted == (p.phase.op == Assert))
  }

  /** The level of every line is the number of pins that hold it. */
  ghost predicate LevelsOk(b: Bank)
  {
    && (forall p :: p in b.pins ==> PinOk(b.pins[p], |b.lines|))
    && (forall i :: 0 <= i < |b.lines| ==> b.lines[i].level == |Holders(b.pins, i)|)
  }

  /** Moving one pin moves only its own line, and by at most itself. */
  lemma HoldersMove(pins: map<PinId, Pin>, pin: PinId, q: Pin, i: nat)
    requires pin in pins ==> q.line == pins[pin].line
    ensures var before := Holders(pins, i);
            var after := Holders(pins[pin := q], i);
            && (q.line != i ==> after == before)
            && (q.line == i && Counted(q) ==> after == before + {pin})
            && (q.line == i && !Counted(q) ==> after == before - {pin})
  {
    var next := pins[pin := q];
    assert forall p :: p in pins && p != pin ==> next[p] == pins[p];
    if q.line == i {
      if Counted(q) {
        assert Holders(next, i) == Holders(pins, i) + {pin};
      } else {
        assert Holders(next, i) == Holders(pins, i) - {pin};
      }
    } else {
      assert Holders(next, i) == Holders(pins, i);
    }
  }

  /** A pin whose call delivers a deassert is one of those its line counts. */
  lemma NeverSaturates(b: Bank, pin: PinId)
    requires LevelsOk(b) && pin in b.pins && b.pins[pin].phase == Calling(Deassert)
    ensures b.lines[b.pins[pin].line].level > 0
  {
    assert pin in Holders(b.pins, b.pins[pin].line);
  }

  lemma DeliverKeepsLevels(b: Bank, step: Step)
    requires LevelsOk(b) && step.Deliver? && Enabled(b, step)
    ensures LevelsOk(Apply(b, step))
  {
    var pin := step.pin;
    var p := b.pins[pin];
    var t := Apply(b, step);
    if p.phase.op == Deassert { NeverSaturates(b, pin); }
    forall i | 0 <= i < |t.lines|
      ensures t.lines[i].level == |Holders(t.pins, i)|
    {
      HoldersMove(b.pins, pin, t.pins[pin], i);
      assert pin in Holders(b.pins, i) <==> p.line == i && Counted(p);
    }
  }

  /** Every step of every pin keeps each level equal to the number of its holders. */
  lemma StepKeepsLevels(b: Bank, step: Step)
    requires LevelsOk(b) && Enabled(b, step)
    ensures LevelsOk(Apply(b, step))
  {
    if step.Deliver? {
      DeliverKeepsLevels(b, step);
    } else {
      var pin := step.pin;
      var t := Apply(b, step);
      if t != b {
        forall i | 0 <= i < |t.lines|
          ensures Holders(t.pins, i) == Holders(b.pins, i)
        {
          HoldersMove(b.pins, pin, t.pins[pin], i);
        }
      }
    }
  }

  // ----- whole runs

  ghost predicate Run(n: nat, states: seq<Bank>, steps: seq<Step>)
  {
    && |states| == |steps| + 1
    && states[0] == Start(n)
    && forall i :: 0 <= i < |steps| ==> Enabled(states[i], steps[i]) && states[i + 1] == Apply(states[i], steps[i])
  }

  /** Step `k` of the run is a pulse that raised the line and could not lower it. */
  ghost predicate StuckAt(states: seq<Bank>, steps: seq<Step>, k: nat)
    requires k < |steps| && k < |states|
  {
    && steps[k].Deliver? && Enabled(states[k], steps[k])
    && var p := states[k].pins[steps[k].pin];
       StuckPulse(states[k].lines[p.line], p.phase.op, steps[k].d)
  }

  /** Over every run, with any call refused, each level counts exactly the pins that hold the line. */
  lemma {:induction false} RunLevels(n: nat, states: seq<Bank>, steps: seq<Step>, k: nat)
    requires Run(n, states, steps) && k < |states|
    ensures LevelsOk(states[k]) && |states[k].lines| == n
  {
    if k == 0 {
      forall i | 0 <= i < n
        ensures Holders(map[], i) == {}
      {
      }
    } else {
      RunLevels(n, states, steps, k - 1);
      assert Enabled(states[k - 1], steps[k - 1]);
      StepKeepsLevels(states[k - 1], steps[k - 1]);
    }
  }

  ghost predicate AllAgree(b: Bank)
  {
    forall i :: 0 <= i < |b.lines| ==> b.lines[i].Agrees()
  }

  /** While no pulse is left raised, the kernel drives a line high exactly when some pin holds it. */
  lemma {:induction false} RunAgrees(n: nat, states: seq<Bank>, steps: seq<Step>, k: nat)
    requires Run(n, states, steps) && k < |states|
    requires forall j :: 0 <= j < k ==> !StuckAt(states, steps, j)
    ensures AllAgree(states[k])
    ensures forall i :: 0 <= i < n && i < |states[k].lines| ==>
              (states[k].lines[i].high <==> Holders(states[k].pins, i) != {})
  {
    RunLevels(n, states, steps, k);
    if k > 0 {
      RunAgrees(n, states, steps, k - 1);
      StepAgrees(states[k - 1], steps[k - 1]);
      assert !StuckAt(states, steps, k - 1);
    }
    assert forall i :: 0 <= i < |states[k].lines| ==>
        (|Holders(states[k].pins, i)| > 0 <==> Holders(states[k].pins, i) != {});
  }

  /** One step keeps every line agreed exactly when it is not a stuck pulse. */
  lemma StepAgrees(b: Bank, step: Step)
    requires AllAgree(b) && Enabled(b, step)
    ensures AllAgree(Apply(b, step))
            <==> !(step.Deliver? && StuckPulse(b.lines[b.pins[step.pin].line], b.pins[step.pin].phase.op, step.d))
  {
    if step.Deliver? {
      var p := b.pins[step.pin];
      AgreesExactly(b.lines[p.line], p.phase.op, step.d);
      assert Apply(b, step).lines[p.line] == DoIrq(b.lines[p.line], p.phase.op, step.d).0;
    }
  }
}
