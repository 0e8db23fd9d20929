/**
  Pin interrupts (libraries/HAL_Drivers/drv_gpio.c): sixteen external interrupt lines shared by the
  pins of all ports, a handler table with one slot for a line, the mask of enabled lines, and the
  interrupts of the controller, some of which serve several lines.

  A log of the calls and what they returned gives every fact about the driver's state its meaning.
 */
module GpioIrq {
  import opened Words

  const EOK := 0
  const ENOSYS := -6
  const EBUSY := -7

  // ----- Pins and lines -----

  /** The position of the only bit that is set, or -1. */
  method BitNo(bit: nat) returns (no: int)
    ensures -1 <= no < 32
    ensures forall k: nat :: k < 32 ==> (Pow2(k) == bit <==> no == k)
  {
    for i := 0 to 32
      invariant forall k: nat :: k < i ==> Pow2(k) != bit
    {
      if Pow2(i) == bit {
        forall k: nat | k < 32 && k != i ensures Pow2(k) != bit {
          if k < i {
            Pow2Increasing(k, i);
          } else {
            Pow2Increasing(i, k);
          }
        }
        return i;
      }
    }
    return -1;
  }

  /** The port and the line of a pin: shifts and masks, also of negative numbers. */
  function Port(pin: int): nat {
    pin / 16 % 16
  }

  function Line(pin: int): nat {
    pin % 16
  }

  /** The number of a pin gives back its port and its place in it; -1 counts as port 15. */
  lemma PinNumber(port: nat, no: nat)
    requires port < 16 && no < 16
    ensures Port(16 * port + no) == port && Line(16 * port + no) == no
    ensures Port(-1) == 15
  {}

  /** The controller's interrupts for external lines. */
  datatype ExtiIrq = Exti0 | Exti1 | Exti2 | Exti3 | Exti4 | Exti9_5 | Exti15_10

  /** `pin_irq_map`. */
  function Irq(line: nat): ExtiIrq {
    if line == 0 then Exti0
    else if line == 1 then Exti1
    else if line == 2 then Exti2
    else if line == 3 then Exti3
    else if line == 4 then Exti4
    else if line < 10 then Exti9_5 else Exti15_10
  }

  /** Lines 0 to 4 have their own interrupts, 5 to 9 share one, and 10 to 15 share one. */
  lemma IrqMap(line: nat, other: nat)
    requires line < 16 && other < 16
    ensures Irq(line) ==
      [Exti0, Exti1, Exti2, Exti3, Exti4, Exti9_5, Exti9_5, Exti9_5, Exti9_5, Exti9_5,
       Exti15_10, Exti15_10, Exti15_10, Exti15_10, Exti15_10, Exti15_10][line]
    ensures Irq(line) == Irq(other) <==>
      line == other || (5 <= line <= 9 && 5 <= other <= 9) || (10 <= line && 10 <= other)
  {}

  // ----- The log -----

  /** A table entry. A function pointer that is null is `None`. */
  datatype Slot = Slot(pin: int, mode: nat, hdr: Option<int>, args: int)

  const FREE := Slot(-1, 0, None, 0)

  datatype Event =
    | Attach(slot: Slot, err: int)
    | Detach(pin: int, err: int)
    | Enable(pin: int, enabled: int, err: int)

  predicate Attaches(e: Event, line: nat, slot: Slot) {
    e.Attach? && e.err == EOK && e.slot == slot && Line(e.slot.pin) == line
  }

  predicate Detaches(e: Event, line: nat) {
    e.Detach? && e.err == EOK && Line(e.pin) == line
  }

  predicate Switches(e: Event, line: nat, enabled: int) {
    e.Enable? && e.err == EOK && e.enabled == enabled && Line(e.pin) == line
  }

  /** The slot was attached to the line and the line has not been detached since. */
  ghost predicate Held(log: seq<Event>, line: nat, slot: Slot) {
    exists k :: 0 <= k < |log| && Attaches(log[k], line, slot) && forall j :: k < j < |log| ==> !Detaches(log[j], line)
  }

  /** The line was switched on and has not been switched off since. */
  ghost predicate On(log: seq<Event>, line: nat) {
    exists k :: 0 <= k < |log| && Switches(log[k], line, 1) && forall j :: k < j < |log| ==> !Switches(log[j], line, 0)
  }

  lemma HeldNext(log: seq<Event>, e: Event, line: nat, slot: Slot)
    ensures Held(log + [e], line, slot) <==> Attaches(e, line, slot) || (Held(log, line, slot) && !Detaches(e, line))
  {
    var more := log + [e];
    if Attaches(e, line, slot) {
      assert Attaches(more[|log|], line, slot);
    }
    if Held(log, line, slot) && !Detaches(e, line) {
      var k :| 0 <= k < |log| && Attaches(log[k], line, slot) && forall j :: k < j < |log| ==> !Detaches(log[j], line);
      assert Attaches(more[k], line, slot) && forall j :: k < j < |more| ==> !Detaches(more[j], line);
    }
    if Held(more, line, slot) && !Attaches(e, line, slot) {
      var k :|
        && 0 <= k < |more| && Attaches(more[k], line, slot)
        && forall j :: k < j < |more| ==> !Detaches(more[j], line);
      assert Attaches(log[k], line, slot) && !Detaches(more[|log|], line);
      assert forall j :: k < j < |log| ==> more[j] == log[j];
    }
  }

  lemma OnNext(log: seq<Event>, e: Event, line: nat)
    ensures On(log + [e], line) <==> Switches(e, line, 1) || (On(log, line) && !Switches(e, line, 0))
  {
    var more := log + [e];
    if Switches(e, line, 1) {
      assert Switches(more[|log|], line, 1);
    }
    if On(log, line) && !Switches(e, line, 0) {
      var k :| 0 <= k < |log| && Switches(log[k], line, 1) && forall j :: k < j < |log| ==> !Switches(log[j], line, 0);
      assert Switches(more[k], line, 1) && forall j :: k < j < |more| ==> !Switches(more[j], line, 0);
    }
    if On(more, line) && !Switches(e, line, 1) {
      var k :|
        && 0 <= k < |more| && Switches(more[k], line, 1)
        && forall j :: k < j < |more| ==> !Switches(more[j], line, 0);
      assert Switches(log[k], line, 1) && !Switches(more[|log|], line, 0);
      assert forall j :: k < j < |log| ==> more[j] == log[j];
    }
  }

  // ----- The driver's state -----

  /** What the log says about the table: the slot of a line is taken exactly by what the line holds. */
  ghost predicate TableMeans(table: seq<Slot>, log: seq<Event>)
    requires |table| == 16
  {
    forall line: nat, slot: Slot :: line < 16 ==>
      (Held(log, line, slot) <==> table[line] == slot && slot.pin != -1)
  }

  ghost predicate TableShape(table: seq<Slot>)
    requires |table| == 16
  {
    forall line: nat :: line < 16 ==>
      (if table[line].pin == -1 then table[line] == FREE else Line(table[line].pin) == line)
  }

  ghost predicate MaskMeans(mask: set<nat>, log: seq<Event>) {
    forall line: nat :: On(log, line) <==> line in mask
  }

  /** The interrupts that serve the lines of a mask. */
  function IrqsOf(mask: set<nat>): set<ExtiIrq> {
    set line | line in mask :: Irq(line)
  }

  /** The table after an event on it is what the longer log says. */
  lemma TableNext(table: seq<Slot>, log: seq<Event>, e: Event, next: seq<Slot>)
    requires |table| == 16 == |next| && TableMeans(table, log) && TableShape(table)
    requires e.Attach? && e.err == EOK ==>
      e.slot.pin != -1 && table[Line(e.slot.pin)] in {FREE, e.slot} && next == table[Line(e.slot.pin) := e.slot]
    requires e.Detach? && e.err == EOK ==> next == table[Line(e.pin) := FREE]
    requires e.Enable? || e.err != EOK ==> next == table
    ensures TableMeans(next, log + [e]) && TableShape(next)
  {
    forall line: nat, slot: Slot | line < 16
      ensures Held(log + [e], line, slot) <==> next[line] == slot && slot.pin != -1
    {
      HeldNext(log, e, line, slot);
    }
  }

  lemma MaskNext(mask: set<nat>, log: seq<Event>, e: Event, next: set<nat>)
    requires MaskMeans(mask, log)
    requires next ==
      if e.Enable? && e.err == EOK && e.enabled == 1 then mask + {Line(e.pin)}
      else if e.Enable? && e.err == EOK && e.enabled == 0 then mask - {Line(e.pin)}
      else mask
    ensures MaskMeans(next, log + [e])
  {
    forall line: nat ensures On(log + [e], line) <==> line in next {
      OnNext(log, e, line);
    }
  }

  /** Switching a line off leaves the interrupts of the others: the driver's test of the shared groups. */
  lemma IrqsWithout(mask: set<nat>, line: nat)
    ensures var rest := mask - {line};
            IrqsOf(rest) == if exists other :: other in rest && Irq(other) == Irq(line)
                            then IrqsOf(mask) else IrqsOf(mask) - {Irq(line)}
  {
    var rest := mask - {line};
    if exists other :: other in rest && Irq(other) == Irq(line) {
      var other :| other in rest && Irq(other) == Irq(line);
      forall g | g in IrqsOf(mask) ensures g in IrqsOf(rest) {
        var l :| l in mask && Irq(l) == g;
        assert (if l == line then other else l) in rest;
      }
      assert IrqsOf(rest) == IrqsOf(mask);
    } else {
      assert IrqsOf(rest) == IrqsOf(mask) - {Irq(line)};
    }
  }

  // ----- What one pin's calls do to the others -----

  /** Every enabled line has an attached slot. */
  predicate Served(table: seq<Slot>, mask: set<nat>)
    requires |table| == 16
  {
    forall line :: line in mask && line < 16 ==> table[line].pin != -1
  }

  /** The attachments of other pins are as before. */
  predicate OthersHeld(before: seq<Slot>, after: seq<Slot>, pin: int)
    requires |before| == |after| == 16
  {
    forall line: nat :: line < 16 && before[line].pin !in {-1, pin} ==> after[line] == before[line]
  }

  /** The lines to which other pins are attached are enabled as before. */
  predicate OthersOn(table: seq<Slot>, before: set<nat>, after: set<nat>, pin: int)
    requires |table| == 16
  {
    forall line :: line in before && line < 16 && table[line].pin !in {-1, pin} ==> line in after
  }

  /**
    A detach leaves an enabled line without a handler exactly when the line is enabled, and takes away
    another pin's attachment exactly when the slot is another pin's.
   */
  lemma DetachExactly(table: seq<Slot>, mask: set<nat>, pin: int)
    requires |table| == 16 && TableShape(table)
    ensures var next := table[Line(pin) := FREE];
            && (Served(table, mask) ==> (Served(next, mask) <==> Line(pin) !in mask))
            && (OthersHeld(table, next, pin) <==> table[Line(pin)].pin in {-1, pin})
  {
    var next := table[Line(pin) := FREE];
    assert next[Line(pin)] == FREE;
    assert forall line: nat :: line < 16 && line != Line(pin) ==> next[line] == table[line];
  }

  /** Switching a line off switches it off for another pin exactly when it is on and the slot is another pin's. */
  lemma SwitchOffExactly(table: seq<Slot>, mask: set<nat>, pin: int)
    requires |table| == 16
    ensures OthersOn(table, mask, mask - {Line(pin)}, pin) <==> Line(pin) !in mask || table[Line(pin)].pin in {-1, pin}
  {
    assert Line(pin) !in mask - {Line(pin)};
  }

  class PinIrq {
    const portMax: nat
    const table: array<Slot>
    var mask: set<nat>
    /** The interrupts enabled at the controller. */
    var irqs: set<ExtiIrq>
    ghost var log: seq<Event>

    /** Lines are below 16; the state is what the log says; an interrupt is enabled exactly when one of its lines is. */
    ghost predicate Valid()
      reads this, table
    {
      && table.Length == 16 && portMax <= 12
      && TableShape(table[..]) && TableMeans(table[..], log)
      && (forall line :: line in mask ==> line < 16) && MaskMeans(mask, log)
      && irqs == IrqsOf(mask)
    }

    constructor (portMax: nat)
      requires portMax <= 12
      ensures Valid() && fresh(table) && this.portMax == portMax && log == [] && mask == {}
    {
      this.portMax := portMax;
      table := new Slot[16](_ => FREE);
      mask, irqs, log := {}, {}, [];
    }

    /** A pin on an unknown port has no line here; -1 is such a pin. */
    predicate Known(pin: int) {
      Port(pin) < portMax
    }

    method LineOf(pin: int) returns (line: nat)
      ensures line == Line(pin) < 16
    {
      var no := BitNo(Pow2(Line(pin)));
      assert no == Line(pin);
      line := no;
    }

    method AttachIrq(pin: int, mode: nat, hdr: Option<int>, args: int) returns (err: int)
      requires Valid()
      modifies this, table
      ensures Valid() && log == old(log) + [Attach(Slot(pin, mode, hdr, args), err)]
      ensures err == ENOSYS <==> Port(pin) >= portMax
      ensures err == EOK <==> Port(pin) < portMax && old(table[Line(pin)]) in {FREE, Slot(pin, mode, hdr, args)}
      ensures err in {0, -6, -7}
      ensures table[..] ==
        if err == EOK then old(table[..])[Line(pin) := Slot(pin, mode, hdr, args)] else old(table[..])
      ensures mask == old(mask) && irqs == old(irqs)
      ensures OthersHeld(old(table[..]), table[..], pin) && (old(Served(table[..], mask)) ==> Served(table[..], mask))
    {
      var slot := Slot(pin, mode, hdr, args);
      ghost var before := table[..];
      if !Known(pin) {
        err := ENOSYS;
      } else {
        var line := LineOf(pin);
        assert before[line] == table[line];
        if table[line] == slot {
          err := EOK;
        } else if table[line].pin != -1 {
          err := EBUSY;
        } else {
          table[line] := slot;
          err := EOK;
        }
      }
      TableNext(before, log, Attach(slot, err), table[..]);
      MaskNext(mask, log, Attach(slot, err), mask);
      log := log + [Attach(slot, err)];
    }

    /**
      Any pin of the line frees its slot. A line that is enabled stays so, now without a handler, and
      another pin loses its attachment if the slot was its own.
     */
    method DetachIrq(pin: int) returns (err: int)
      requires Valid()
      modifies this, table
      ensures Valid() && log == old(log) + [Detach(pin, err)]
      ensures err == if Port(pin) < portMax then EOK else ENOSYS
      ensures table[..] == if err == EOK then old(table[..])[Line(pin) := FREE] else old(table[..])
      ensures err == 0 ==> table[Line(pin)] == Slot(-1, 0, None, 0)
      ensures mask == old(mask) && irqs == old(irqs)
      ensures old(Served(table[..], mask)) ==> (Served(table[..], mask) <==> err != EOK || Line(pin) !in mask)
      ensures OthersHeld(old(table[..]), table[..], pin) <==> err != EOK || old(table[Line(pin)]).pin in {-1, pin}
    {
      ghost var before := table[..];
      DetachExactly(before, mask, pin);
      err := EOK;
      if !Known(pin) {
        err := ENOSYS;
      } else {
        var line := LineOf(pin);
        assert before[line] == table[line];
        if table[line].pin != -1 {
          table[line] := FREE;
        }
      }
      TableNext(before, log, Detach(pin, err), table[..]);
      MaskNext(mask, log, Detach(pin, err), mask);
      log := log + [Detach(pin, err)];
    }

    /** Some line from `first` to `last` is in the mask. */
    predicate AnyOf(first: nat, last: nat)
      reads this
    {
      exists line :: first <= line <= last && line in mask
    }

    method EnableIrq(pin: int, enabled: int) returns (err: int)
      requires Valid()
      modifies this
      ensures Valid() && log == old(log) + [Enable(pin, enabled, err)]
      ensures err ==
        if Port(pin) < portMax && ((enabled == 1 && table[Line(pin)].pin != -1) || enabled == 0) then EOK else ENOSYS
      ensures mask ==
        if err != EOK then old(mask) else if enabled == 1 then old(mask) + {Line(pin)} else old(mask) - {Line(pin)}
      ensures old(Served(table[..], mask)) ==> Served(table[..], mask)
      ensures OthersOn(table[..], old(mask), mask, pin) <==>
        err != EOK || enabled == 1 || Line(pin) !in old(mask) || table[Line(pin)].pin in {-1, pin}
    {
      ghost var before := mask;
      SwitchOffExactly(table[..], mask, pin);
      if !Known(pin) {
        err := ENOSYS;
      } else if enabled == 1 {
        var line := LineOf(pin);
        if table[line].pin == -1 {
          err := ENOSYS;
        } else {
          irqs := irqs + {Irq(line)};
          mask := mask + {line};
          err := EOK;
        }
      } else if enabled == 0 {
        SwitchOff(pin);
        err := EOK;
      } else {
        err := ENOSYS;
      }
      TableNext(table[..], log, Enable(pin, enabled, err), table[..]);
      MaskNext(before, log, Enable(pin, enabled, err), mask);
      log := log + [Enable(pin, enabled, err)];
    }

    /** The disabling branch: a shared interrupt goes off with its last line. */
    method SwitchOff(pin: int)
      requires irqs == IrqsOf(mask) && forall l :: l in mask ==> l < 16
      modifies this`mask, this`irqs
      ensures mask == old(mask) - {Line(pin)} && irqs == IrqsOf(mask)
    {
      var line := LineOf(pin);
      IrqsWithout(mask, line);
      mask := mask - {line};
      if 5 <= line <= 9 {
        if !AnyOf(5, 9) {
          irqs := irqs - {Irq(line)};
        }
      } else if 10 <= line <= 15 {
        if !AnyOf(10, 15) {
          irqs := irqs - {Irq(line)};
        }
      } else {
        irqs := irqs - {Irq(line)};
      }
    }

    /**
      The callback for the bit of a line: what it calls, and with which argument.
      It is the handler last attached to the line and not detached since.
     */
    method Dispatch(line: nat) returns (called: Option<(int, int)>)
      requires Valid() && line < 16
      ensures forall slot :: Held(log, line, slot) ==>
        called == if slot.hdr.Some? then Some((slot.hdr.value, slot.args)) else None
      ensures called.Some? ==>
        exists slot :: Held(log, line, slot) && slot.hdr == Some(called.value.0) && slot.args == called.value.1
    {
      var no := BitNo(Pow2(line));
      assert no == line;
      var slot := table[no];
      if slot.hdr.Some? {
        assert Held(log, line, slot);
        called := Some((slot.hdr.value, slot.args));
      } else {
        called := None;
      }
    }
  }

  /** Pin 1 is attached and enabled; a detach of pin 17 takes its handler away and leaves the line on. */
  method DetachedByAnother() returns (p: PinIrq)
    ensures p.Valid() && 1 in p.mask && p.table[1] == FREE
  {
    p := new PinIrq(12);
    var attached := p.AttachIrq(1, 0, Some(1), 0);
    assert p.table[..][1].pin == 1;
    var enabled := p.EnableIrq(1, 1);
    var detached := p.DetachIrq(17);
    assert p.table[..][1] == FREE;
  }
}
