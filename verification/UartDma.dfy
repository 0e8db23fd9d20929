/**
  Receive accounting over a circular DMA buffer (libraries/HAL_Drivers/drv_usart.c). The DMA counts
  down the room left in the buffer; the interrupt handler reports how far it has come since it last
  looked, and the serial layer takes that many bytes from where it stopped
  (rt-thread/components/drivers/serial/serial.c).
 */
module UartDma {
  import opened Bytes
  import DivMod

  /** Going on by at most one round. */
  lemma ModNext(a: nat, len: nat, n: nat)
    requires n > 0 && len <= n
    ensures (a + len) % n == if a % n + len >= n then a % n + len - n else a % n + len
  {
    var q, r := a / n, a % n;
    DivMod.Euclid(a, n);
    if r + len >= n {
      assert (q + 1) * n == q * n + n;
      DivMod.Unique(a + len, q + 1, r + len - n, n);
    } else {
      DivMod.Unique(a + len, q, r + len, n);
    }
  }

  datatype Flag = Idle | HalfTransfer | TransferComplete

  /** How many bytes the interrupt handler reports. */
  function RecvLen(flag: Flag, counter: nat, remaining: nat, bufsz: nat): (len: nat)
    requires 1 <= counter <= bufsz && 1 <= remaining <= bufsz
    ensures len <= bufsz
  {
    match flag
    case Idle => if counter <= remaining then remaining - counter else bufsz + remaining - counter
    case HalfTransfer => if counter < remaining then remaining - counter else 0
    case TransferComplete => if counter >= remaining then bufsz + remaining - counter else 0
  }

  /** `len` bytes of the ring from `at`, going round at its end. */
  function Slots(ring: seq<byte>, at: nat, len: nat): (bytes: seq<byte>)
    requires at < |ring| && len <= |ring|
    ensures |bytes| == len
  {
    if at + len <= |ring| then ring[at..at + len] else ring[at..] + ring[..at + len - |ring|]
  }

  /**
    The receiver: the ring and the counter belong to the DMA, `remaining` to the driver and `put`
    to the serial layer. `arrivals` is everything received, `reported` the sum of the lengths
    reported, and `delivered` the bytes taken.
   */
  datatype Uart = Uart(ring: seq<byte>, counter: nat, remaining: nat, put: nat,
                       arrivals: seq<byte>, reported: nat, delivered: seq<byte>)
  {
    /** The DMA's next slot. */
    function Slot(): int {
      if counter == |ring| then 0 else |ring| - counter
    }

    /** Every cursor agrees with the totals, modulo the buffer size. */
    ghost predicate Congruent() {
      && 1 <= counter <= |ring| && 1 <= remaining <= |ring| && put < |ring|
      && Slot() == |arrivals| % |ring|
      && put == reported % |ring| && remaining == |ring| - put
    }

    /** The ring holds the latest bytes: those before the DMA's slot are from this lap, the others from the last. */
    ghost predicate Latest() {
      && 1 <= counter <= |ring| && Slot() <= |arrivals|
      && (forall i :: 0 <= i < Slot() ==> ring[i] == arrivals[|arrivals| - Slot() + i])
      && (if |arrivals| < |ring| then Slot() == |arrivals|
          else forall i :: Slot() <= i < |ring| ==> ring[i] == arrivals[|arrivals| - |ring| + (i - Slot())])
    }

    /** Bytes received and not yet reported. */
    function Pending(): int {
      |arrivals| - reported
    }
  }

  /** As opened: `stm32_configure` sets `remaining` to the buffer size. */
  predicate Opened(u: Uart) {
    && |u.ring| > 0 && u.counter == u.remaining == |u.ring| && u.put == 0
    && u.arrivals == [] && u.reported == 0 && u.delivered == []
  }

  /** The DMA stores a byte and counts down, reloading at the end of the buffer. */
  ghost function Arrive(u: Uart, b: byte): Uart
    requires u.Congruent()
  {
    u.(ring := u.ring[u.Slot() := b],
       counter := if u.counter == 1 then |u.ring| else u.counter - 1,
       arrivals := u.arrivals + [b])
  }

  /** The driver reports `len` bytes, and the serial layer takes them. */
  ghost function Reported(u: Uart, len: nat): Uart
    requires u.put < |u.ring| && len <= |u.ring|
  {
    u.(remaining := u.counter,
       put := if u.put + len >= |u.ring| then u.put + len - |u.ring| else u.put + len,
       reported := u.reported + len,
       delivered := u.delivered + Slots(u.ring, u.put, len))
  }

  /** The interrupt handler. */
  ghost function Interrupt(u: Uart, flag: Flag): Uart
    requires u.Congruent()
  {
    var len := RecvLen(flag, u.counter, u.remaining, |u.ring|);
    if len == 0 then u else Reported(u, len)
  }

  class UartRx {
    const ring: array<byte>
    var counter: nat
    var remaining: nat
    var put: nat
    ghost var arrivals: seq<byte>
    ghost var reported: nat
    ghost var delivered: seq<byte>

    ghost function State(): Uart
      reads this, ring
    {
      Uart(ring[..], counter, remaining, put, arrivals, reported, delivered)
    }

    constructor (bufsz: nat)
      requires bufsz > 0
      ensures Opened(State()) && ring.Length == bufsz && fresh(ring)
    {
      ring := new byte[bufsz];
      counter, remaining, put := bufsz, bufsz, 0;
      arrivals, reported, delivered := [], 0, [];
    }

    /** The DMA's side. */
    method Store(b: byte)
      requires State().Congruent()
      modifies this, ring
      ensures State() == Arrive(old(State()), b)
    {
      var slot := if counter == ring.Length then 0 else ring.Length - counter;
      ring[slot] := b;
      arrivals := arrivals + [b];
      counter := counter - 1;
      if counter == 0 {
        counter := ring.Length;
      }
    }

    /** The serial layer advances its put index, going round at the end of the buffer. */
    method Take(len: nat)
      requires put < ring.Length && len <= ring.Length && remaining == counter
      modifies `put, `reported, `delivered
      ensures State() == Reported(old(State()), len)
    {
      delivered := delivered + Slots(ring[..], put, len);
      reported := reported + len;
      put := put + len;
      if put >= ring.Length {
        put := put - ring.Length;
      }
    }

    /** The branches of the handler. */
    method RecvLength(flag: Flag) returns (recvLen: nat)
      requires 1 <= counter <= ring.Length && 1 <= remaining <= ring.Length
      ensures recvLen == RecvLen(flag, counter, remaining, ring.Length)
    {
      recvLen := 0;
      match flag {
        case Idle =>
          if counter <= remaining {
            recvLen := remaining - counter;
          } else {
            recvLen := ring.Length + remaining - counter;
          }
        case HalfTransfer =>
          if counter < remaining {
            recvLen := remaining - counter;
          }
        case TransferComplete =>
          if counter >= remaining {
            recvLen := ring.Length + remaining - counter;
          }
      }
    }

    /** `dma_recv_isr`. */
    method Isr(flag: Flag)
      requires State().Congruent()
      modifies this
      ensures State() == Interrupt(old(State()), flag)
    {
      var recvLen := RecvLength(flag);
      if recvLen != 0 {
        remaining := counter;
        Take(recvLen);
      }
    }
  }

  // ----- One event -----

  lemma ArriveLatest(u: Uart, b: byte)
    requires u.Congruent() && u.Latest()
    ensures |Arrive(u, b).ring| == |u.ring| && Arrive(u, b).Latest()
  {}

  lemma ArriveKeeps(u: Uart, b: byte)
    requires u.Congruent() && u.Latest()
    ensures Arrive(u, b).Congruent() && Arrive(u, b).Latest() && |Arrive(u, b).ring| == |u.ring|
  {
    ModNext(|u.arrivals|, 1, |u.ring|);
    ArriveLatest(u, b);
  }

  /** Where the DMA is, seen from the serial layer's cursor. */
  lemma SlotFromPut(u: Uart)
    requires u.Congruent() && 0 <= u.Pending() <= |u.ring|
    ensures u.Slot() == if u.put + u.Pending() >= |u.ring| then u.put + u.Pending() - |u.ring| else u.put + u.Pending()
  {
    ModNext(u.reported, u.Pending(), |u.ring|);
  }

  lemma InterruptKeeps(u: Uart, flag: Flag)
    requires u.Congruent()
    ensures Interrupt(u, flag).Congruent()
  {
    var len := RecvLen(flag, u.counter, u.remaining, |u.ring|);
    ModNext(u.reported, len, |u.ring|);
  }

  /** An idle event reports exactly what is pending, if and only if less than a whole buffer is. */
  lemma IdleExactly(u: Uart)
    requires u.Congruent() && 0 <= u.Pending()
    ensures RecvLen(Idle, u.counter, u.remaining, |u.ring|) == u.Pending() <==> u.Pending() < |u.ring|
  {
    if u.Pending() < |u.ring| { SlotFromPut(u); }
  }

  /** A half-transfer event reports what is pending unless the DMA has gone round, and never more. */
  lemma HalfTransferExactly(u: Uart)
    requires u.Congruent() && 0 <= u.Pending() < |u.ring|
    ensures RecvLen(HalfTransfer, u.counter, u.remaining, |u.ring|)
      == if u.put + u.Pending() < |u.ring| then u.Pending() else 0
  {
    SlotFromPut(u);
  }

  /** A transfer-complete event reports what is pending once the DMA has gone round. */
  lemma TransferCompleteExactly(u: Uart)
    requires u.Congruent() && 1 <= u.Pending() <= |u.ring|
    ensures RecvLen(TransferComplete, u.counter, u.remaining, |u.ring|)
      == if u.put + u.Pending() >= |u.ring| then u.Pending() else 0
  {
    SlotFromPut(u);
  }

  /** It reports bytes that never came exactly when nothing is pending: a full buffer of them. */
  lemma SpuriousExactly(u: Uart)
    requires u.Congruent() && 0 <= u.Pending() <= |u.ring|
    ensures RecvLen(TransferComplete, u.counter, u.remaining, |u.ring|) > u.Pending() <==> u.Pending() == 0
    ensures u.Pending() == 0 ==> RecvLen(TransferComplete, u.counter, u.remaining, |u.ring|) == |u.ring|
  {
    SlotFromPut(u);
  }

  /** The ring byte `i` places on from the serial layer's cursor is the next byte but `i`. */
  lemma NextByte(u: Uart, i: nat)
    requires u.Congruent() && u.Latest() && i < u.Pending() <= |u.ring|
    ensures u.ring[if u.put + i < |u.ring| then u.put + i else u.put + i - |u.ring|] == u.arrivals[u.reported + i]
  {
    SlotFromPut(u);
    var at := if u.put + i < |u.ring| then u.put + i else u.put + i - |u.ring|;
    if at < u.Slot() {
      assert |u.arrivals| - u.Slot() + at == u.reported + i;
    } else {
      assert |u.arrivals| >= |u.ring| && |u.arrivals| - |u.ring| + (at - u.Slot()) == u.reported + i;
    }
  }

  /** The slots the serial layer takes are the next bytes received, while no more than a buffer is pending. */
  lemma SlotsAreNext(u: Uart, len: nat)
    requires u.Congruent() && u.Latest() && len <= u.Pending() <= |u.ring|
    ensures Slots(u.ring, u.put, len) == u.arrivals[u.reported..u.reported + len]
  {
    var slots := Slots(u.ring, u.put, len);
    forall i | 0 <= i < len
      ensures slots[i] == u.arrivals[u.reported + i]
    {
      NextByte(u, i);
    }
  }

  // ----- Whole runs -----

  datatype Event = Byte(b: byte) | Irq(flag: Flag)

  ghost function Step(u: Uart, e: Event): Uart
    requires u.Congruent()
  {
    match e
    case Byte(b) => Arrive(u, b)
    case Irq(flag) => Interrupt(u, flag)
  }

  lemma StepCongruent(u: Uart, e: Event)
    requires u.Congruent() && u.Latest()
    ensures Step(u, e).Congruent() && Step(u, e).Latest() && |Step(u, e).ring| == |u.ring|
  {
    match e
    case Byte(b) => ArriveKeeps(u, b);
    case Irq(flag) => InterruptKeeps(u, flag);
  }

  ghost function Exec(u: Uart, es: seq<Event>): (n: Uart)
    requires u.Congruent() && u.Latest()
    ensures n.Congruent() && n.Latest() && |n.ring| == |u.ring|
  {
    if es == [] then u
    else
      var m := Exec(u, es[..|es| - 1]);
      StepCongruent(m, es[|es| - 1]);
      Step(m, es[|es| - 1])
  }

  lemma OpenedKeeps(u: Uart)
    requires Opened(u)
    ensures u.Congruent() && u.Latest() && Faithful(u)
  {}

  /**
    After every run, without any assumption on when the interrupts come, the driver's count stays
    in 1..bufsz and is the buffer size minus the bytes reported modulo the buffer size.
   */
  lemma RemainingCongruent(u: Uart, es: seq<Event>)
    requires Opened(u)
    ensures u.Congruent() && u.Latest()
    ensures var n := Exec(u, es); 1 <= n.remaining <= |u.ring| && n.remaining == |u.ring| - n.reported % |u.ring|
  {
    OpenedKeeps(u);
  }

  /** Interrupts come in time: no byte finds a whole buffer pending, and no transfer-complete event finds nothing. */
  predicate InTime(u: Uart, e: Event) {
    match e
    case Byte(_) => u.Pending() < |u.ring|
    case Irq(flag) => flag == TransferComplete ==> u.Pending() >= 1
  }

  /** Everything reported has been received, and what was delivered is what was received, in order. */
  predicate Faithful(u: Uart) {
    && 0 <= u.Pending() <= |u.ring|
    && u.delivered == u.arrivals[..u.reported]
  }

  /** Reporting no more than is pending is faithful. */
  lemma ReportedFaithful(u: Uart, len: nat)
    requires u.Congruent() && u.Latest() && Faithful(u) && len <= u.Pending()
    ensures Faithful(Reported(u, len)) && Reported(u, len).Pending() == u.Pending() - len
  {
    SlotsAreNext(u, len);
    assert u.arrivals[..u.reported] + u.arrivals[u.reported..u.reported + len] == u.arrivals[..u.reported + len];
  }

  /** In time, the handler reports everything pending or nothing; at idle everything, unless that is a whole buffer. */
  lemma ReportsAllOrNothing(u: Uart, flag: Flag)
    requires u.Congruent() && 0 <= u.Pending() <= |u.ring| && InTime(u, Irq(flag))
    ensures var len := RecvLen(flag, u.counter, u.remaining, |u.ring|);
            (len == u.Pending() || len == 0) && (flag == Idle && u.Pending() < |u.ring| ==> len == u.Pending())
  {
    SlotFromPut(u);
  }

  lemma InterruptFaithful(u: Uart, flag: Flag)
    requires u.Congruent() && u.Latest() && Faithful(u)
    ensures Faithful(Interrupt(u, flag)) <==> InTime(u, Irq(flag))
    ensures flag == Idle && u.Pending() < |u.ring| ==> Interrupt(u, flag).Pending() == 0
  {
    if InTime(u, Irq(flag)) {
      ReportsAllOrNothing(u, flag);
      ReportedFaithful(u, RecvLen(flag, u.counter, u.remaining, |u.ring|));
    } else {
      SpuriousExactly(u);
    }
  }

  /** A step keeps the receiver faithful exactly when it comes in time. */
  lemma StepFaithfulExactly(u: Uart, e: Event)
    requires u.Congruent() && u.Latest() && Faithful(u)
    ensures Faithful(Step(u, e)) <==> InTime(u, e)
  {
    match e
    case Byte(b) =>
      assert Arrive(u, b).arrivals[..u.reported] == u.arrivals[..u.reported];
    case Irq(flag) => InterruptFaithful(u, flag);
  }

  ghost predicate AllInTime(u: Uart, es: seq<Event>)
    requires u.Congruent() && u.Latest()
  {
    es == [] || (AllInTime(u, es[..|es| - 1]) && InTime(Exec(u, es[..|es| - 1]), es[|es| - 1]))
  }

  /** Faithful after every event of the run. */
  ghost predicate AllFaithful(u: Uart, es: seq<Event>)
    requires u.Congruent() && u.Latest()
  {
    Faithful(Exec(u, es)) && (es == [] || AllFaithful(u, es[..|es| - 1]))
  }

  /** Through a whole run nothing is lost, invented or reordered if and only if every event comes in time. */
  lemma {:induction false} NothingLost(u: Uart, es: seq<Event>)
    requires Opened(u) && u.Congruent() && u.Latest()
    ensures AllFaithful(u, es) <==> AllInTime(u, es)
  {
    if es == [] {
      OpenedKeeps(u);
    } else {
      var before := es[..|es| - 1];
      NothingLost(u, before);
      if AllFaithful(u, before) {
        StepFaithfulExactly(Exec(u, before), es[|es| - 1]);
      }
    }
  }

  /** After a run in time, an idle event leaves everything delivered if and only if less than a buffer was pending. */
  lemma IdleDeliversExactly(u: Uart, es: seq<Event>)
    requires Opened(u) && u.Congruent() && u.Latest() && AllInTime(u, es)
    ensures Delivered(Exec(u, es + [Irq(Idle)])) <==> Exec(u, es).Pending() < |u.ring|
  {
    var all, m := es + [Irq(Idle)], Exec(u, es);
    assert all[..|all| - 1] == es;
    NothingLost(u, all);
    NothingLost(u, es);
    InterruptFaithful(m, Idle);
    assert Exec(u, all) == Interrupt(m, Idle) && Faithful(Exec(u, all));
    if m.Pending() == |u.ring| {
      IdleExactly(m);
      ReportsAllOrNothing(m, Idle);
      assert Exec(u, all) == m;
    }
  }

  predicate Delivered(u: Uart) {
    u.delivered == u.arrivals
  }

  /** A transfer-complete event right after opening reports a whole buffer although no byte has come. */
  lemma SpuriousExample(u: Uart)
    requires Opened(u)
    ensures u.Congruent() && u.Latest()
    ensures var n := Exec(u, [Irq(TransferComplete)]); n.arrivals == [] && n.reported == |n.delivered| == |u.ring| > 0
  {
    OpenedKeeps(u);
    var es: seq<Event> := [Irq(TransferComplete)];
    assert es[..0] == [];
    assert Exec(u, es) == Step(u, Irq(TransferComplete));
  }
}
