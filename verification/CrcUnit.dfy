/**
  The CRC unit shared by several contexts (libraries/HAL_Drivers/drv_crypto.c). The driver keeps a
  copy of the configuration it last put into the unit, and skips the initialisation when a context
  asks for the same one. The unit's arithmetic is a parameter: what one byte does to its register.
 */
module CrcUnit {
  import opened Bytes
  import opened ReverseBits

  const REFIN: nat := 1
  const REFOUT: nat := 2

  /** What a context asks for, with its running value. */
  datatype Cfg = Cfg(lastVal: bv32, poly: bv32, width: nat, xorout: bv32, flags: nat)

  /** The settings that decide what a byte does to the register. */
  datatype Line = Line(poly: bv32, width: nat, revIn: bool)

  /** The one hardware unit. Output reversal affects reading only. */
  datatype Unit = Unit(dr: bv32, line: Line, revOut: bool)

  /** A context's own copy of the settings; `ready` once it has initialised the unit. */
  datatype Handle = Handle(ready: bool, line: Line, revOut: bool)

  /** A context as `_crypto_create` makes it: both reversals preset, never initialised. */
  function Created(): Handle {
    Handle(false, Line(0, 32, true), true)
  }

  function LineOf(cfg: Cfg): Line {
    Line(cfg.poly, cfg.width, cfg.flags == REFIN || cfg.flags == REFIN + REFOUT)
  }

  predicate WantsRevOut(cfg: Cfg) {
    cfg.flags == REFOUT || cfg.flags == REFIN + REFOUT
  }

  /** The HAL takes a narrow polynomial only if its highest bit below bit 31 exists and is inside the width. */
  predicate PolyAccepted(poly: bv32, width: nat) {
    var low := poly & 0x7fffffff;
    || width == 32
    || (width == 7 && 0 < low < 0x80)
    || (width == 8 && 0 < low < 0x100)
    || (width == 16 && 0 < low < 0x10000)
  }

  /** A reversed reading mirrors the bits within the width. */
  function ReadReversed(dr: bv32, width: nat): bv32 {
    if width == 7 then ReverseLow(dr, 7)
    else if width == 8 then ReverseLow(dr, 8)
    else if width == 16 then ReverseLow(dr, 16)
    else ReverseLow(dr, 32)
  }

  /** Reading the data register. */
  function Read(u: Unit): bv32 {
    if u.revOut then ReadReversed(u.dr, u.line.width) else u.dr
  }

  /** What the flags and the width do to the context's handle: the driver goes on with it or gives up. */
  datatype Setup = GiveUp(handle: Handle) | Go(handle: Handle)

  function SetupHandle(cfg: Cfg, h: Handle): Setup {
    var h1 := h.(line := h.line.(poly := cfg.poly));
    if cfg.flags > REFIN + REFOUT then GiveUp(h1)
    else
      var h2 :=
        if cfg.flags == 0 then h1.(line := h1.line.(revIn := false), revOut := false)
        else if cfg.flags == REFIN then h1.(line := h1.line.(revIn := true))
        else if cfg.flags == REFOUT then h1.(revOut := true)
        else h1.(line := h1.line.(revIn := true), revOut := true);
      if cfg.width !in {7, 8, 16, 32} then GiveUp(h2)
      else
        var h3 := h2.(line := h2.line.(width := cfg.width));
        if PolyAccepted(cfg.poly, cfg.width) then Go(h3.(ready := true)) else GiveUp(h3.(ready := false))
  }

  /** The register after a string of bytes. */
  function Fold(feed: (Line, bv32, byte) -> bv32, line: Line, r: bv32, input: seq<byte>): bv32 {
    if input == [] then r
    else feed(line, Fold(feed, line, r, input[..|input| - 1]), input[|input| - 1])
  }

  /** The value handed to the caller. */
  function Finish(value: bv32, xorout: bv32): bv32 {
    if value != 0 then value ^ xorout else value
  }

  /** The final xor is undone by another; a value of 0 is left as it is. */
  lemma FinishXors(value: bv32, x: bv32)
    ensures value != 0 ==> Finish(value, x) ^ x == value
    ensures Finish(0, x) == 0
  {}

  /** The register changes with every byte as the unit says. */
  lemma FoldSteps(feed: (Line, bv32, byte) -> bv32, line: Line, r: bv32, input: seq<byte>, b: byte)
    ensures Fold(feed, line, r, []) == r
    ensures Fold(feed, line, r, input + [b]) == feed(line, Fold(feed, line, r, input), b)
  {
    assert (input + [b])[..|input|] == input;
  }

  /** A narrow polynomial is taken when some bit below 31 is set and none of them from the width on. */
  lemma PolyAcceptedExactly(poly: bv32)
    ensures PolyAccepted(poly, 7) <==> poly & 0x7fffffff != 0 && (poly & 0x7fffffff) >> 7 == 0
    ensures PolyAccepted(poly, 8) <==> poly & 0x7fffffff != 0 && (poly & 0x7fffffff) >> 8 == 0
    ensures PolyAccepted(poly, 16) <==> poly & 0x7fffffff != 0 && (poly & 0x7fffffff) >> 16 == 0
    ensures PolyAccepted(poly, 32)
  {}

  datatype State = State(unit: Unit, backup: Cfg, cfg: Cfg, handle: Handle)

  /** The part of `_crc_update` before the bytes: whether it gets to them, and the state. */
  function Prepare(s: State): (bool, State) {
    if s.backup == s.cfg then (s.handle.ready, s)
    else
      match SetupHandle(s.cfg, s.handle)
      case GiveUp(h) => (false, s.(handle := h))
      case Go(h) => (true, State(Unit(s.cfg.lastVal, h.line, h.revOut), s.cfg, s.cfg, h))
  }

  /** The part after the bytes. */
  function Conclude(s: State): (State, bv32) {
    var value := Read(s.unit);
    var last := if s.handle.revOut then ReverseBit(value) else value;
    (s.(cfg := s.cfg.(lastVal := last), backup := s.backup.(lastVal := last)), Finish(value, s.cfg.xorout))
  }

  function Updated(feed: (Line, bv32, byte) -> bv32, s: State, input: seq<byte>): (State, bv32) {
    var (ok, p) := Prepare(s);
    if !ok then (p, 0)
    else Conclude(p.(unit := p.unit.(dr := Fold(feed, p.unit.line, p.unit.dr, input))))
  }

  // ----- The driver -----

  class Context {
    var cfg: Cfg
    var handle: Handle

    constructor (cfg: Cfg)
      ensures this.cfg == cfg && handle == Created()
    {
      this.cfg, this.handle := cfg, Created();
    }
  }

  class CrcDevice {
    const feed: (Line, bv32, byte) -> bv32
    var unit: Unit
    var backup: Cfg

    constructor (feed: (Line, bv32, byte) -> bv32)
      ensures this.feed == feed && backup == Cfg(0, 0, 0, 0, 0)
    {
      this.feed := feed;
      unit := Unit(0xffffffff, Line(0x04C11DB7, 32, false), false);
      backup := Cfg(0, 0, 0, 0, 0);
    }

    method Update(ctx: Context, input: seq<byte>) returns (result: bv32)
      modifies this, ctx
      ensures (State(unit, backup, ctx.cfg, ctx.handle), result) ==
        Updated(feed, old(State(unit, backup, ctx.cfg, ctx.handle)), input)
    {
      result := 0;
      if backup != ctx.cfg {
        var setup := SetupHandle(ctx.cfg, ctx.handle);
        ctx.handle := setup.handle;
        if setup.GiveUp? {
          return;
        }
        unit := Unit(ctx.cfg.lastVal, ctx.handle.line, ctx.handle.revOut);
        backup := ctx.cfg;
      }
      if !ctx.handle.ready {
        return;
      }
      ghost var start := unit;
      for i := 0 to |input|
        modifies this`unit
        invariant unit == start.(dr := Fold(feed, start.line, start.dr, input[..i]))
      {
        assert input[..i + 1][..i] == input[..i];
        unit := unit.(dr := feed(unit.line, unit.dr, input[i]));
      }
      assert input[..|input|] == input;
      var value := Read(unit);
      var last := if ctx.handle.revOut then ReverseBit(value) else value;
      ctx.cfg := ctx.cfg.(lastVal := last);
      backup := backup.(lastVal := last);
      result := Finish(value, ctx.cfg.xorout);
    }
  }

  // ----- One update against a private unit -----

  /** A unit configured for a context and nobody else. */
  function PrivateUnit(cfg: Cfg): Unit {
    Unit(cfg.lastVal, LineOf(cfg), WantsRevOut(cfg))
  }

  /** What a private unit's register and reading are after the input. */
  function PrivateRaw(feed: (Line, bv32, byte) -> bv32, cfg: Cfg, input: seq<byte>): bv32 {
    Fold(feed, LineOf(cfg), cfg.lastVal, input)
  }

  function PrivateResult(feed: (Line, bv32, byte) -> bv32, cfg: Cfg, input: seq<byte>): bv32 {
    Finish(Read(PrivateUnit(cfg).(dr := PrivateRaw(feed, cfg, input))), cfg.xorout)
  }

  /** Both reversals or neither, a width the unit has, and the full width when the output is reversed. */
  predicate Supported(cfg: Cfg) {
    && (cfg.flags == 0 || (cfg.flags == REFIN + REFOUT && cfg.width == 32))
    && cfg.width in {7, 8, 16, 32} && PolyAccepted(cfg.poly, cfg.width)
  }

  /** The copy tells the truth about the unit. */
  predicate Mirrors(unit: Unit, backup: Cfg) {
    Supported(backup) ==> unit == PrivateUnit(backup)
  }

  /** The context has initialised the unit and its handle still says what its flags ask for. */
  predicate Initialised(cfg: Cfg, handle: Handle) {
    handle.ready && handle.revOut == WantsRevOut(cfg)
  }

  lemma ReadBack(cfg: Cfg, raw: bv32)
    requires Supported(cfg)
    ensures var value := Read(PrivateUnit(cfg).(dr := raw));
            (if WantsRevOut(cfg) then ReverseBit(value) else value) == raw
  {
    FullReading(raw);
  }

  /**
    Cache hit or miss, an update of a supported context does what a private unit would do, keeps
    the copy truthful and leaves the context initialised. A hit needs a context that has been
    through an initialisation of its own.
   */
  lemma UpdateIsPrivate(feed: (Line, bv32, byte) -> bv32, s: State, input: seq<byte>)
    requires Mirrors(s.unit, s.backup) && Supported(s.cfg)
    requires s.backup == s.cfg ==> Initialised(s.cfg, s.handle)
    ensures var (n, result) := Updated(feed, s, input);
            && result == PrivateResult(feed, s.cfg, input)
            && n.cfg == s.cfg.(lastVal := PrivateRaw(feed, s.cfg, input))
            && Mirrors(n.unit, n.backup) && Initialised(n.cfg, n.handle)
  {
    var (ok, p) := Prepare(s);
    assert ok && p.unit == PrivateUnit(s.cfg) && p.cfg == p.backup == s.cfg && p.handle.revOut == WantsRevOut(s.cfg);
    ReadBack(s.cfg, PrivateRaw(feed, s.cfg, input));
  }

  /** The unit and the result of an update that was not dropped: settings, reading and final xor are those asked for. */
  lemma UpdateAsConfigured(feed: (Line, bv32, byte) -> bv32, s: State, input: seq<byte>)
    requires Mirrors(s.unit, s.backup) && Supported(s.cfg)
    requires s.backup == s.cfg ==> Initialised(s.cfg, s.handle)
    ensures var (n, result) := Updated(feed, s, input);
            var reading := Read(n.unit);
            && n.unit.line.poly == s.cfg.poly && n.unit.line.width == s.cfg.width
            && n.unit.line.revIn == (s.cfg.flags % 2 == 1) && n.unit.revOut == (s.cfg.flags / 2 == 1)
            && (if reading == 0 then result == 0 else result ^ s.cfg.xorout == reading)
  {
    var (ok, p) := Prepare(s);
    assert ok && p.unit == PrivateUnit(s.cfg);
    FinishXors(Read(Updated(feed, s, input).0.unit), s.cfg.xorout);
  }

  /** The DNP preset: a reading of 0x1234, whose final xor inverts all its sixteen bits. */
  lemma XorExample(data: byte)
    ensures var dnp := Cfg(0, 0x3D65, 16, 0xffff, REFIN + REFOUT);
            var feed := (line: Line, r: bv32, b: byte) => 0x2C48;
            Updated(feed, AtBoot(dnp), [data]).1 == 0xEDCB
  {
    var dnp := Cfg(0, 0x3D65, 16, 0xffff, REFIN + REFOUT);
    var feed := (line: Line, r: bv32, b: byte) => 0x2C48;
    assert PolyAccepted(0x3D65, 16);
    FoldSteps(feed, LineOf(dnp), 0, [], data);
    ReversedUpdate(feed, AtBoot(dnp), 0, [data]);
    assert [] + [data] == [data];
  }

  /** The update gives what a private unit would: the result and the running value. */
  predicate ActsPrivately(feed: (Line, bv32, byte) -> bv32, s: State, input: seq<byte>) {
    var (n, result) := Updated(feed, s, input);
    result == PrivateResult(feed, s.cfg, input) && n.cfg.lastVal == PrivateRaw(feed, s.cfg, input)
  }

  /** The configuration is the cached one, but the context was never initialised. */
  predicate Drops(s: State) {
    s.backup == s.cfg && !s.handle.ready
  }

  /**
    The one gap: a context that was never initialised and whose configuration equals the copy has its
    update dropped. That goes unnoticed only where a private unit would return 0 and keep its value.
   */
  lemma DroppedExactly(feed: (Line, bv32, byte) -> bv32, s: State, input: seq<byte>)
    requires Mirrors(s.unit, s.backup) && Supported(s.cfg)
    requires s.handle.ready ==> Initialised(s.cfg, s.handle)
    ensures ActsPrivately(feed, s, input) <==>
      !Drops(s) || (PrivateResult(feed, s.cfg, input) == 0 && PrivateRaw(feed, s.cfg, input) == s.cfg.lastVal)
    ensures Drops(s) ==> Updated(feed, s, input) == (s, 0)
  {
    if !Drops(s) {
      UpdateIsPrivate(feed, s, input);
    }
  }

  /** A new context on a unit and a copy that nobody has used yet. */
  function AtBoot(cfg: Cfg): State {
    State(Unit(0xffffffff, Line(0x04C11DB7, 32, false), false), Cfg(0, 0, 0, 0, 0), cfg, Created())
  }

  /** Such a state is reachable: after an empty update of one context a new one with its settings loses its data. */
  lemma DropExample(feed: (Line, bv32, byte) -> bv32, data: seq<byte>)
    ensures var crc32 := Cfg(0, 0x04C11DB7, 32, 0, 0);
            var boot := AtBoot(crc32);
            var (afterFirst, _) := Updated(feed, boot, []);
            Updated(feed, afterFirst.(cfg := crc32, handle := Created()), data)
              == (afterFirst.(cfg := crc32, handle := Created()), 0)
  {
    assert PolyAccepted(0x04C11DB7, 32);
  }

  /** A register of a narrow unit holds no more than its width. */
  predicate Within(raw: bv32, width: nat) {
    && (width == 7 ==> raw >> 7 == 0) && (width == 8 ==> raw >> 8 == 0) && (width == 16 ==> raw >> 16 == 0)
  }

  /** Both reversals, at any width the unit has. */
  predicate Reversed(cfg: Cfg) {
    cfg.flags == REFIN + REFOUT && cfg.width in {7, 8, 16, 32} && PolyAccepted(cfg.poly, cfg.width)
  }

  /** The unit and the copy are still as the context's last update left them, with this register. */
  predicate Running(s: State, raw: bv32) {
    s.backup == s.cfg && s.handle.ready && s.handle.revOut && s.unit == PrivateUnit(s.cfg).(dr := raw)
  }

  /** What the driver keeps of a register that it read reversed. */
  function Kept(cfg: Cfg, raw: bv32): bv32 {
    ReverseBit(Read(PrivateUnit(cfg).(dr := raw)))
  }

  /** The register from which an update goes on: a hit leaves it alone, a miss loads the running value. */
  predicate StartsFrom(s: State, raw: bv32) {
    Running(s, raw) || (s.backup != s.cfg && raw == s.cfg.lastVal)
  }

  /** An update with both reversals folds its bytes into the register it starts from. */
  lemma ReversedUpdate(feed: (Line, bv32, byte) -> bv32, s: State, raw: bv32, input: seq<byte>)
    requires Reversed(s.cfg) && StartsFrom(s, raw)
    ensures var (n, result) := Updated(feed, s, input);
            var end := Fold(feed, LineOf(s.cfg), raw, input);
            && Running(n, end) && n.cfg == s.cfg.(lastVal := Kept(s.cfg, end))
            && result == Finish(Read(PrivateUnit(s.cfg).(dr := end)), s.cfg.xorout)
  {
    var (ok, p) := Prepare(s);
    assert ok && p.unit == PrivateUnit(s.cfg).(dr := raw) && p.handle.revOut && p.backup == p.cfg == s.cfg;
  }

  /**
    Why reversed output needs the full width: the driver reverses all 32 bits of a reading that
    the unit reversed within the width, so the running value survives only when it is 0.
   */
  lemma ReversedOutputExactly(feed: (Line, bv32, byte) -> bv32, s: State, raw: bv32, input: seq<byte>)
    requires Reversed(s.cfg) && StartsFrom(s, raw)
    requires Within(Fold(feed, LineOf(s.cfg), raw, input), s.cfg.width)
    ensures var end := Fold(feed, LineOf(s.cfg), raw, input);
            Updated(feed, s, input).0.cfg.lastVal == end <==> s.cfg.width == 32 || end == 0
  {
    ReversedUpdate(feed, s, raw, input);
    ReversedAgain(Fold(feed, LineOf(s.cfg), raw, input), s.cfg.width);
  }

  /** The CCITT preset: a register of 0x1234 is kept as 0x12340000. */
  lemma NarrowExample(data: byte)
    ensures var ccitt := Cfg(0, 0x1021, 16, 0, REFIN + REFOUT);
            var boot := AtBoot(ccitt);
            var feed := (line: Line, r: bv32, b: byte) => 0x1234;
            Updated(feed, boot, [data]).0.cfg.lastVal == 0x12340000
  {
    var ccitt := Cfg(0, 0x1021, 16, 0, REFIN + REFOUT);
    var boot := AtBoot(ccitt);
    var feed := (line: Line, r: bv32, b: byte) => 0x1234;
    assert PolyAccepted(0x1021, 16);
    ReversedUpdate(feed, boot, 0, [data]);
    assert Fold(feed, LineOf(ccitt), 0, [data]) == 0x1234;
    Narrow16(0x1234);
  }

  /** A narrow register shifted to the top of the word. */
  function TopShifted(raw: bv32, width: nat): bv32 {
    if width == 7 then raw << 25 else if width == 8 then raw << 24 else if width == 16 then raw << 16 else raw
  }

  /** A reversed reading, reversed again in all 32 bits. */
  lemma ReversedAgain(raw: bv32, width: nat)
    requires width in {7, 8, 16, 32} && Within(raw, width)
    ensures ReverseBit(ReadReversed(raw, width)) == TopShifted(raw, width)
    ensures TopShifted(raw, width) == raw <==> width == 32 || raw == 0
  {
    if width == 7 {
      Narrow7(raw);
    } else if width == 8 {
      Narrow8(raw);
    } else if width == 16 {
      Narrow16(raw);
    } else {
      FullReading(raw);
    }
  }

  /**
    After a miss such a context does not go on from its register but from the register shifted to the
    top, which is another one unless the width is full or the register 0.
   */
  lemma MissRestartsShifted(feed: (Line, bv32, byte) -> bv32, s: State, raw: bv32, input: seq<byte>)
    requires Reversed(s.cfg) && s.backup != s.cfg && s.cfg.lastVal == Kept(s.cfg, raw)
    requires Within(raw, s.cfg.width)
    ensures Updated(feed, s, input).1 == PrivateResult(feed, s.cfg.(lastVal := TopShifted(raw, s.cfg.width)), input)
    ensures TopShifted(raw, s.cfg.width) == raw <==> s.cfg.width == 32 || raw == 0
  {
    ReversedAgain(raw, s.cfg.width);
    assert s.cfg.(lastVal := TopShifted(raw, s.cfg.width)) == s.cfg;
    ReversedUpdate(feed, s, s.cfg.lastVal, input);
  }

  /**
    A single reversal flag sets one mode and leaves the other as the handle had it: the unit gets
    the modes that the flags ask for exactly when the untouched mode was already right.
   */
  lemma SingleFlagExactly(s: State)
    requires s.backup != s.cfg && (s.cfg.flags == REFIN || s.cfg.flags == REFOUT)
    requires s.cfg.width in {7, 8, 16, 32} && PolyAccepted(s.cfg.poly, s.cfg.width)
    ensures Prepare(s).1.unit == PrivateUnit(s.cfg) <==>
      if s.cfg.flags == REFIN then !s.handle.revOut else !s.handle.line.revIn
  {}

  /** The shipped presets CRC-8, CRC-16 and CRC-32 are supported; CCITT and DNP are reversed and narrow. */
  lemma Presets()
    ensures Supported(Cfg(0, 0x07, 8, 0, 0)) && Supported(Cfg(0, 0x8005, 16, 0, 0))
    ensures Supported(Cfg(0, 0x04C11DB7, 32, 0, 0))
    ensures Reversed(Cfg(0, 0x1021, 16, 0, 3)) && Reversed(Cfg(0, 0x3D65, 16, 0xffff, 3))
    ensures !Supported(Cfg(0, 0x1021, 16, 0, 3)) && !Supported(Cfg(0, 0x3D65, 16, 0xffff, 3))
  {
    PolyAcceptedExactly(0x07);
    PolyAcceptedExactly(0x8005);
    PolyAcceptedExactly(0x1021);
    PolyAcceptedExactly(0x3D65);
  }

  /** Bit 0 of the flags asks for reversed input, bit 1 for reversed output. */
  lemma FlagBits(s: State)
    requires s.cfg.flags <= 3
    ensures PrivateUnit(s.cfg).line.revIn == (s.cfg.flags % 2 == 1)
    ensures PrivateUnit(s.cfg).revOut == (s.cfg.flags / 2 == 1)
    ensures s.backup != s.cfg && Prepare(s).0 ==>
      && (s.cfg.flags % 2 == 1 ==> Prepare(s).1.unit.line.revIn) && (s.cfg.flags / 2 == 1 ==> Prepare(s).1.unit.revOut)
      && (s.cfg.flags == 0 ==> !Prepare(s).1.unit.line.revIn && !Prepare(s).1.unit.revOut)
  {}

  /** The driver gives up exactly on unknown flags or widths and on polynomials that the unit does not take. */
  lemma GivesUpExactly(cfg: Cfg, h: Handle)
    ensures SetupHandle(cfg, h).GiveUp? <==>
      cfg.flags > 3 || cfg.width !in {7, 8, 16, 32} || !PolyAccepted(cfg.poly, cfg.width)
    ensures SetupHandle(cfg, h).handle.line.poly == cfg.poly
    ensures cfg.flags > 3 ==> SetupHandle(cfg, h).handle == h.(line := h.line.(poly := cfg.poly))
    ensures cfg.flags <= 3 && cfg.width !in {7, 8, 16, 32} ==>
      SetupHandle(cfg, h).handle.line.width == h.line.width && SetupHandle(cfg, h).handle.ready == h.ready
    ensures cfg.flags <= 3 && cfg.width in {7, 8, 16, 32} ==>
      SetupHandle(cfg, h).handle.line.width == cfg.width && SetupHandle(cfg, h).handle.ready == SetupHandle(cfg, h).Go?
  {}

  /** A new context that asks for reversed input alone gets its output reversed as well. */
  lemma SingleFlagExample()
    ensures var cfg := Cfg(0, 0x04C11DB7, 32, 0, REFIN);
            var boot := AtBoot(cfg);
            Prepare(boot).0 && Prepare(boot).1.unit.revOut && !PrivateUnit(cfg).revOut
  {
    assert PolyAccepted(0x04C11DB7, 32);
  }

  // ----- Many contexts -----

  datatype Ctx = Ctx(cfg: Cfg, handle: Handle)
  datatype Machine = Machine(unit: Unit, backup: Cfg, ctxs: seq<Ctx>)

  /** Context `k` is given some bytes. */
  datatype Op = Op(k: nat, input: seq<byte>)

  function StateOf(m: Machine, k: nat): State
    requires k < |m.ctxs|
  {
    State(m.unit, m.backup, m.ctxs[k].cfg, m.ctxs[k].handle)
  }

  function StepResult(feed: (Line, bv32, byte) -> bv32, m: Machine, op: Op): bv32
    requires op.k < |m.ctxs|
  {
    Updated(feed, StateOf(m, op.k), op.input).1
  }

  function Step(feed: (Line, bv32, byte) -> bv32, m: Machine, op: Op): Machine
    requires op.k < |m.ctxs|
  {
    var n := Updated(feed, StateOf(m, op.k), op.input).0;
    Machine(n.unit, n.backup, m.ctxs[op.k := Ctx(n.cfg, n.handle)])
  }

  function Exec(feed: (Line, bv32, byte) -> bv32, m: Machine, ops: seq<Op>): (n: Machine)
    requires forall i :: 0 <= i < |ops| ==> ops[i].k < |m.ctxs|
    ensures |n.ctxs| == |m.ctxs|
  {
    if ops == [] then m else Step(feed, Exec(feed, m, ops[..|ops| - 1]), ops[|ops| - 1])
  }

  /** Everything context `k` was given. */
  function InputOf(ops: seq<Op>, k: nat): seq<byte> {
    if ops == [] then []
    else InputOf(ops[..|ops| - 1], k) + if ops[|ops| - 1].k == k then ops[|ops| - 1].input else []
  }

  /** Supported contexts are either as created or initialised; the others may be anything. */
  predicate Sound(m: Machine) {
    && Mirrors(m.unit, m.backup)
    && (forall k :: 0 <= k < |m.ctxs| && Supported(m.ctxs[k].cfg) && m.ctxs[k].handle.ready ==>
          Initialised(m.ctxs[k].cfg, m.ctxs[k].handle))
  }

  lemma UnsupportedKeepsMirror(feed: (Line, bv32, byte) -> bv32, s: State, input: seq<byte>)
    requires Mirrors(s.unit, s.backup) && !Supported(s.cfg)
    ensures var (n, _) := Updated(feed, s, input);
            Mirrors(n.unit, n.backup) && !Supported(n.cfg)
  {}

  lemma StepSound(feed: (Line, bv32, byte) -> bv32, m: Machine, op: Op)
    requires Sound(m) && op.k < |m.ctxs|
    ensures Sound(Step(feed, m, op))
  {
    var s := StateOf(m, op.k);
    if Supported(s.cfg) {
      if s.backup != s.cfg || s.handle.ready { UpdateIsPrivate(feed, s, op.input); }
    } else {
      UnsupportedKeepsMirror(feed, s, op.input);
    }
  }

  lemma {:induction false} FoldConcat(feed: (Line, bv32, byte) -> bv32, line: Line, r: bv32, a: seq<byte>, b: seq<byte>)
    ensures Fold(feed, line, r, a + b) == Fold(feed, line, Fold(feed, line, r, a), b)
  {
    if b == [] {
      assert a + b == a;
    } else {
      FoldConcat(feed, line, r, a, b[..|b| - 1]);
      assert (a + b)[..|a + b| - 1] == a + b[..|b| - 1];
    }
  }

  /**
    The cache is transparent: however the updates of all the contexts interleave, an initialised
    context's running value is that of its own input in one piece on a private unit.
   */
  lemma {:induction false} Transparent(feed: (Line, bv32, byte) -> bv32, m: Machine, ops: seq<Op>, k: nat)
    requires Sound(m) && k < |m.ctxs| && Supported(m.ctxs[k].cfg) && m.ctxs[k].handle.ready
    requires forall i :: 0 <= i < |ops| ==> ops[i].k < |m.ctxs|
    ensures var n := Exec(feed, m, ops);
            && Sound(n)
            && n.ctxs[k].handle.ready
            && n.ctxs[k].cfg == m.ctxs[k].cfg.(lastVal := PrivateRaw(feed, m.ctxs[k].cfg, InputOf(ops, k)))
  {
    if ops != [] {
      var before, op := ops[..|ops| - 1], ops[|ops| - 1];
      Transparent(feed, m, before, k);
      var b := Exec(feed, m, before);
      StepSound(feed, b, op);
      if op.k == k {
        UpdateIsPrivate(feed, StateOf(b, k), op.input);
        FoldConcat(feed, LineOf(m.ctxs[k].cfg), m.ctxs[k].cfg.lastVal, InputOf(before, k), op.input);
      } else {
        assert InputOf(ops, k) == InputOf(before, k);
      }
    }
  }

  /** And each call returns what one uninterrupted call on all the input so far would return. */
  lemma EveryResultIsPrivate(feed: (Line, bv32, byte) -> bv32, m: Machine, ops: seq<Op>, op: Op)
    requires Sound(m) && op.k < |m.ctxs| && Supported(m.ctxs[op.k].cfg) && m.ctxs[op.k].handle.ready
    requires forall i :: 0 <= i < |ops| ==> ops[i].k < |m.ctxs|
    ensures StepResult(feed, Exec(feed, m, ops), op)
      == PrivateResult(feed, m.ctxs[op.k].cfg, InputOf(ops, op.k) + op.input)
  {
    var k := op.k;
    Transparent(feed, m, ops, k);
    UpdateIsPrivate(feed, StateOf(Exec(feed, m, ops), k), op.input);
    FoldConcat(feed, LineOf(m.ctxs[k].cfg), m.ctxs[k].cfg.lastVal, InputOf(ops, k), op.input);
  }

  predicate AllSupported(m: Machine) {
    forall k :: 0 <= k < |m.ctxs| ==> Supported(m.ctxs[k].cfg)
  }

  /** An update that is dropped although a private unit would return or keep something else. */
  predicate DropsNoticeably(feed: (Line, bv32, byte) -> bv32, s: State, input: seq<byte>) {
    Drops(s) && !(PrivateResult(feed, s.cfg, input) == 0 && PrivateRaw(feed, s.cfg, input) == s.cfg.lastVal)
  }

  /** Every update of the run gives what a private unit would. */
  predicate AllPrivate(feed: (Line, bv32, byte) -> bv32, m: Machine, ops: seq<Op>)
    requires forall i :: 0 <= i < |ops| ==> ops[i].k < |m.ctxs|
  {
    if ops == [] then true
    else
      var before, op := ops[..|ops| - 1], ops[|ops| - 1];
      AllPrivate(feed, m, before) && ActsPrivately(feed, StateOf(Exec(feed, m, before), op.k), op.input)
  }

  /** No update of the run is dropped noticeably. */
  predicate NoneDropped(feed: (Line, bv32, byte) -> bv32, m: Machine, ops: seq<Op>)
    requires forall i :: 0 <= i < |ops| ==> ops[i].k < |m.ctxs|
  {
    if ops == [] then true
    else
      var before, op := ops[..|ops| - 1], ops[|ops| - 1];
      NoneDropped(feed, m, before) && !DropsNoticeably(feed, StateOf(Exec(feed, m, before), op.k), op.input)
  }

  /** An update changes nothing of a configuration but its running value. */
  lemma StepSameSettings(feed: (Line, bv32, byte) -> bv32, s: State, input: seq<byte>)
    ensures var n := Updated(feed, s, input).0; n.cfg == s.cfg.(lastVal := n.cfg.lastVal)
  {}

  lemma SameSupport(cfg: Cfg, value: bv32)
    ensures Supported(cfg.(lastVal := value)) <==> Supported(cfg)
  {}

  lemma StepSupported(feed: (Line, bv32, byte) -> bv32, m: Machine, op: Op)
    requires AllSupported(m) && op.k < |m.ctxs|
    ensures AllSupported(Step(feed, m, op))
  {
    var s, n := StateOf(m, op.k), Step(feed, m, op);
    StepSameSettings(feed, s, op.input);
    SameSupport(s.cfg, n.ctxs[op.k].cfg.lastVal);
  }

  lemma StepPrivateExactly(feed: (Line, bv32, byte) -> bv32, m: Machine, op: Op)
    requires Sound(m) && AllSupported(m) && op.k < |m.ctxs|
    ensures ActsPrivately(feed, StateOf(m, op.k), op.input) <==> !DropsNoticeably(feed, StateOf(m, op.k), op.input)
  {
    DroppedExactly(feed, StateOf(m, op.k), op.input);
  }

  lemma {:induction false} ExecSound(feed: (Line, bv32, byte) -> bv32, m: Machine, ops: seq<Op>)
    requires Sound(m) && AllSupported(m)
    requires forall i :: 0 <= i < |ops| ==> ops[i].k < |m.ctxs|
    ensures Sound(Exec(feed, m, ops)) && AllSupported(Exec(feed, m, ops))
  {
    if ops != [] {
      var before, op := ops[..|ops| - 1], ops[|ops| - 1];
      ExecSound(feed, m, before);
      StepSound(feed, Exec(feed, m, before), op);
      StepSupported(feed, Exec(feed, m, before), op);
    }
  }

  /** New contexts and an empty copy are such a machine. */
  lemma CreatedSound(m: Machine)
    requires m.backup == Cfg(0, 0, 0, 0, 0) && forall k :: 0 <= k < |m.ctxs| ==> m.ctxs[k].handle == Created()
    ensures Sound(m)
  {}

  /** From creation on, every update of a run acts as on a private unit if and only if none is dropped noticeably. */
  lemma {:induction false} RunPrivateExactly(feed: (Line, bv32, byte) -> bv32, m: Machine, ops: seq<Op>)
    requires Sound(m) && AllSupported(m)
    requires forall i :: 0 <= i < |ops| ==> ops[i].k < |m.ctxs|
    ensures AllPrivate(feed, m, ops) <==> NoneDropped(feed, m, ops)
  {
    if ops != [] {
      var before, op := ops[..|ops| - 1], ops[|ops| - 1];
      RunPrivateExactly(feed, m, before);
      ExecSound(feed, m, before);
      StepPrivateExactly(feed, Exec(feed, m, before), op);
    }
  }

  /** Then every running value, from creation on, is that of the context's own input on a private unit. */
  lemma {:induction false} RunValues(feed: (Line, bv32, byte) -> bv32, m: Machine, ops: seq<Op>, k: nat)
    requires k < |m.ctxs| && (forall i :: 0 <= i < |ops| ==> ops[i].k < |m.ctxs|)
    requires AllPrivate(feed, m, ops)
    ensures Exec(feed, m, ops).ctxs[k].cfg
      == m.ctxs[k].cfg.(lastVal := PrivateRaw(feed, m.ctxs[k].cfg, InputOf(ops, k)))
  {
    if ops != [] {
      var before, op := ops[..|ops| - 1], ops[|ops| - 1];
      RunValues(feed, m, before, k);
      var b, cfg := Exec(feed, m, before), m.ctxs[k].cfg;
      if op.k == k {
        StepSameSettings(feed, StateOf(b, k), op.input);
        FoldConcat(feed, LineOf(cfg), cfg.lastVal, InputOf(before, k), op.input);
      } else {
        assert InputOf(ops, k) == InputOf(before, k);
      }
    }
  }

  /** Context `k` alone is given bytes. */
  predicate Only(ops: seq<Op>, k: nat) {
    forall i :: 0 <= i < |ops| ==> ops[i].k == k
  }

  /** Between two misses, whatever the width, a context with both reversals goes on from its own register. */
  lemma {:induction false} Uninterrupted(feed: (Line, bv32, byte) -> bv32, m: Machine, ops: seq<Op>, k: nat)
    requires k < |m.ctxs| && Only(ops, k) && Reversed(m.ctxs[k].cfg) && m.backup != m.ctxs[k].cfg
    ensures var n, cfg := Exec(feed, m, ops), m.ctxs[k].cfg;
            var raw := PrivateRaw(feed, cfg, InputOf(ops, k));
            && Reversed(n.ctxs[k].cfg) && LineOf(n.ctxs[k].cfg) == LineOf(cfg) && n.ctxs[k].cfg.xorout == cfg.xorout
            && StartsFrom(StateOf(n, k), raw)
  {
    if ops != [] {
      var before, op, cfg := ops[..|ops| - 1], ops[|ops| - 1], m.ctxs[k].cfg;
      Uninterrupted(feed, m, before, k);
      var b := Exec(feed, m, before);
      ReversedUpdate(feed, StateOf(b, k), PrivateRaw(feed, cfg, InputOf(before, k)), op.input);
      FoldConcat(feed, LineOf(cfg), cfg.lastVal, InputOf(before, k), op.input);
    }
  }

  /** So each of its results is that of one private call on all its input so far. */
  lemma UninterruptedResult(feed: (Line, bv32, byte) -> bv32, m: Machine, ops: seq<Op>, op: Op)
    requires op.k < |m.ctxs| && Only(ops, op.k) && Reversed(m.ctxs[op.k].cfg) && m.backup != m.ctxs[op.k].cfg
    ensures StepResult(feed, Exec(feed, m, ops), op)
      == PrivateResult(feed, m.ctxs[op.k].cfg, InputOf(ops, op.k) + op.input)
  {
    var k, cfg := op.k, m.ctxs[op.k].cfg;
    Uninterrupted(feed, m, ops, k);
    ReversedUpdate(feed, StateOf(Exec(feed, m, ops), k), PrivateRaw(feed, cfg, InputOf(ops, k)), op.input);
    FoldConcat(feed, LineOf(cfg), cfg.lastVal, InputOf(ops, k), op.input);
  }
}
