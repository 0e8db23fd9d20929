/**
  CAN acceptance filters (libraries/HAL_Drivers/drv_can.c): a filter item is packed into the two
  32-bit registers of a filter bank, and the controller compares every frame with them.
 */
module CanFilter {
  import opened Words

  // ----- Words -----

  /** A 32-bit word, its lowest bit first. */
  type bits = s: seq<bool> | |s| == 32 witness seq(32, _ => false)

  function And(a: bits, b: bits): bits {
    seq(32, i requires 0 <= i < 32 => a[i] && b[i])
  }

  function Or(a: bits, b: bits): bits {
    seq(32, i requires 0 <= i < 32 => a[i] || b[i])
  }

  function Shl(a: bits, n: nat): bits {
    seq(32, i requires 0 <= i < 32 => n <= i && a[i - n])
  }

  function Shr(a: bits, n: nat): bits {
    seq(32, i requires 0 <= i < 32 => i + n < 32 && a[i + n])
  }

  /** 2^n - 1 for n up to 32: the n lowest bits. */
  function Ones(n: nat): bits {
    seq(32, i requires 0 <= i < 32 => i < n)
  }

  /** A one-bit field. */
  function Flag(b: bool): bits {
    seq(32, i requires 0 <= i < 32 => i == 0 && b)
  }

  /** Masking compares exactly the bits that the mask selects. */
  lemma MaskedEqual(a: bits, b: bits, m: bits)
    ensures And(a, m) == And(b, m) <==> forall k :: 0 <= k < 32 && m[k] ==> a[k] == b[k]
  {
    if And(a, m) == And(b, m) {
      forall k | 0 <= k < 32 && m[k] ensures a[k] == b[k] {
        assert And(a, m)[k] == And(b, m)[k];
      }
    }
  }

  // ----- The packing -----

  datatype Mode = IdMask | IdList

  /** A filter as the application asks for it. `ide` selects extended identifiers. */
  datatype Item = Item(id: bits, ide: bool, rtr: bool, mode: Mode, mask: bits, hdrBank: int, rxFifo: nat)

  datatype Frame = Frame(id: bits, ide: bool, rtr: bool)

  function Width(ide: bool): nat {
    if ide then 29 else 11
  }

  /** Identifiers have 11 bits, or 29 when extended. */
  predicate InRange(id: bits, ide: bool) {
    forall k :: Width(ide) <= k < 32 ==> !id[k]
  }

  /** The largest identifiers, and the first ones too large. */
  lemma Ranges()
    ensures InRange(Ones(11), false) && !InRange(Ones(12), false)
    ensures InRange(Ones(29), true) && !InRange(Ones(30), true)
  {
    assert Ones(12)[11] && Ones(30)[29];
  }

  /**
    The low bits of the mask register: in mask mode they make IDE and RTR count, in list mode they
    are the item's own.
   */
  function MaskTail(item: Item): bits {
    if item.mode == IdMask then Shl(Ones(2), 1) else Or(Shl(Flag(item.ide), 2), Shl(Flag(item.rtr), 1))
  }

  /** The halves before they are masked to 16 bits. */
  function IdUpper(item: Item): bits {
    if !item.ide then Shr(Shl(item.id, 18), 13) else Shr(item.id, 13)
  }

  function IdLower(item: Item): bits {
    Or(Or(Shl(item.id, if !item.ide then 18 else 3), Shl(Flag(item.ide), 2)), Shl(Flag(item.rtr), 1))
  }

  function MaskUpper(item: Item): bits {
    Shr(Shl(item.mask, if !item.ide then 21 else 3), 16)
  }

  function MaskLower(item: Item): bits {
    Or(Shl(item.mask, if !item.ide then 21 else 3), MaskTail(item))
  }

  function IdHigh(item: Item): bits {
    And(IdUpper(item), Ones(16))
  }

  function IdLow(item: Item): bits {
    And(IdLower(item), Ones(16))
  }

  function MaskHigh(item: Item): bits {
    And(MaskUpper(item), Ones(16))
  }

  function MaskLow(item: Item): bits {
    And(MaskLower(item), Ones(16))
  }

  // ----- The controller -----

  /** A 32-bit filter register from its halves. */
  function Register(high: bits, low: bits): bits {
    low[..16] + high[..16]
  }

  /** A frame as the filter sees it: from the lowest bit a zero, RTR, IDE, and the identifier in the highest bits. */
  function FrameWord(f: Frame): bits {
    seq(32, i requires 0 <= i < 32 =>
      if i == 0 then false
      else if i == 1 then f.rtr
      else if i == 2 then f.ide
      else 32 - Width(f.ide) <= i && f.id[i - (32 - Width(f.ide))])
  }

  /** The controller's comparison, in mask mode and in list mode. */
  predicate Accepts(mode: Mode, r1: bits, r2: bits, f: Frame) {
    if mode == IdMask then And(FrameWord(f), r2) == And(r1, r2) else FrameWord(f) == r1 || FrameWord(f) == r2
  }

  predicate ItemAccepts(item: Item, f: Frame) {
    Accepts(item.mode, Register(IdHigh(item), IdLow(item)), Register(MaskHigh(item), MaskLow(item)), f)
  }

  // ----- What the packing means -----

  /** The item's mask field read as an identifier. */
  function MaskAsId(item: Item): bits {
    And(item.mask, Ones(Width(item.ide)))
  }

  /** What the application meant. */
  predicate Wanted(item: Item, f: Frame) {
    && f.ide == item.ide && f.rtr == item.rtr
    && if item.mode == IdMask then And(f.id, item.mask) == And(item.id, item.mask)
       else f.id == item.id || f.id == MaskAsId(item)
  }

  /** Halves masked to 16 bits lose nothing in a register. */
  lemma RegisterAt(high: bits, low: bits, i: nat)
    requires i < 32
    ensures Register(And(high, Ones(16)), And(low, Ones(16)))[i] == if i < 16 then low[i] else high[i - 16]
  {
    var h, l := And(high, Ones(16)), And(low, Ones(16));
    assert (l[..16] + h[..16])[i] == if i < 16 then l[i] else h[i - 16];
  }

  /** The identifier register is the word of the frame that has the item's own identifier and flags. */
  lemma IdRegister(item: Item)
    requires InRange(item.id, item.ide)
    ensures Register(IdHigh(item), IdLow(item)) == FrameWord(Frame(item.id, item.ide, item.rtr))
  {
    var r := Register(IdHigh(item), IdLow(item));
    var w := FrameWord(Frame(item.id, item.ide, item.rtr));
    forall i | 0 <= i < 32 ensures r[i] == w[i] {
      RegisterAt(IdUpper(item), IdLower(item), i);
    }
  }

  /** The halves of both registers fit 16 bits. */
  lemma HalvesFit(item: Item, i: nat)
    requires 16 <= i < 32
    ensures !IdHigh(item)[i] && !IdLow(item)[i] && !MaskHigh(item)[i] && !MaskLow(item)[i]
  {}

  /** The layout: the low half holds RTR and IDE above a zero bit, and the identifier reaches up to the top. */
  lemma IdLayout(item: Item, k: nat)
    requires InRange(item.id, item.ide) && k < Width(item.ide)
    ensures !IdLow(item)[0] && IdLow(item)[1] == item.rtr && IdLow(item)[2] == item.ide
    ensures var at := if item.ide then k + 3 else k + 21;
            item.id[k] == if at < 16 then IdLow(item)[at] else IdHigh(item)[at - 16]
  {
    IdRegister(item);
    var at := if item.ide then k + 3 else k + 21;
    var w := FrameWord(Frame(item.id, item.ide, item.rtr));
    assert w[at] == item.id[k];
    RegisterAt(IdUpper(item), IdLower(item), at);
    RegisterAt(IdUpper(item), IdLower(item), 0);
    RegisterAt(IdUpper(item), IdLower(item), 1);
    RegisterAt(IdUpper(item), IdLower(item), 2);
  }

  /** In list mode the mask register is a second identifier register. */
  lemma ListRegister(item: Item)
    requires item.mode == IdList
    ensures Register(MaskHigh(item), MaskLow(item)) == FrameWord(Frame(MaskAsId(item), item.ide, item.rtr))
  {
    var r := Register(MaskHigh(item), MaskLow(item));
    var w := FrameWord(Frame(MaskAsId(item), item.ide, item.rtr));
    forall i | 0 <= i < 32 ensures r[i] == w[i] {
      RegisterAt(MaskUpper(item), MaskLower(item), i);
    }
  }

  /** In mask mode it selects IDE, RTR and the mask's bits within the identifier. */
  lemma MaskRegister(item: Item)
    requires item.mode == IdMask
    ensures Register(MaskHigh(item), MaskLow(item)) ==
      seq(32, i requires 0 <= i < 32 =>
        i == 1 || i == 2 || (32 - Width(item.ide) <= i && item.mask[i - (32 - Width(item.ide))]))
  {
    var r := Register(MaskHigh(item), MaskLow(item));
    forall i | 0 <= i < 32
      ensures r[i] <==> i == 1 || i == 2 || (32 - Width(item.ide) <= i && item.mask[i - (32 - Width(item.ide))])
    {
      RegisterAt(MaskUpper(item), MaskLower(item), i);
    }
  }

  /** Frames with the same word are the same frame. */
  lemma FrameWordInjective(f: Frame, g: Frame)
    requires InRange(f.id, f.ide) && InRange(g.id, g.ide)
    ensures FrameWord(f) == FrameWord(g) <==> f == g
  {
    if FrameWord(f) == FrameWord(g) {
      assert FrameWord(f)[1] == FrameWord(g)[1] && FrameWord(f)[2] == FrameWord(g)[2];
      var w := Width(f.ide);
      forall k | 0 <= k < w ensures f.id[k] == g.id[k] {
        assert FrameWord(f)[32 - w + k] == FrameWord(g)[32 - w + k];
      }
      assert f.id == g.id;
    }
  }

  /** Words that carry identifiers from bit `b` on, under a mask that selects bits 1, 2 and some of these. */
  lemma MaskedParts(x: bits, y: bits, r2: bits, f: bits, g: bits, m: bits, b: nat)
    requires 3 <= b <= 32 && x[1] == y[1] && x[2] == y[2]
    requires forall i :: b <= i < 32 ==> x[i] == f[i - b] && y[i] == g[i - b]
    requires forall i :: 0 <= i < 32 ==> (r2[i] <==> i == 1 || i == 2 || (b <= i && m[i - b]))
    requires forall k :: 32 - b <= k < 32 ==> !f[k] && !g[k]
    ensures And(x, r2) == And(y, r2) <==> And(f, m) == And(g, m)
  {
    MaskedEqual(x, y, r2);
    MaskedEqual(f, g, m);
    if forall i :: 0 <= i < 32 && r2[i] ==> x[i] == y[i] {
      forall k | 0 <= k < 32 && m[k] ensures f[k] == g[k] {
        if k < 32 - b { assert r2[k + b] && x[k + b] == f[k + b - b]; }
      }
    }
    if forall k :: 0 <= k < 32 && m[k] ==> f[k] == g[k] {
      forall i | 0 <= i < 32 && r2[i] ensures x[i] == y[i] {
        if b <= i { assert m[i - b]; }
      }
    }
  }

  /** The comparison in mask mode looks at IDE, RTR and the masked identifier. */
  lemma MaskedFrames(item: Item, f: Frame)
    requires item.mode == IdMask && InRange(item.id, item.ide) && InRange(f.id, f.ide)
    ensures var r2 := Register(MaskHigh(item), MaskLow(item));
            var g := Frame(item.id, item.ide, item.rtr);
            And(FrameWord(f), r2) == And(FrameWord(g), r2) <==> Wanted(item, f)
  {
    var r2 := Register(MaskHigh(item), MaskLow(item));
    var x, y := FrameWord(f), FrameWord(Frame(item.id, item.ide, item.rtr));
    MaskRegister(item);
    assert r2[1] && r2[2];
    assert x[1] == f.rtr && y[1] == item.rtr && x[2] == f.ide && y[2] == item.ide;
    if f.ide == item.ide && f.rtr == item.rtr {
      MaskedParts(x, y, r2, f.id, item.id, item.mask, 32 - Width(item.ide));
    } else {
      MaskedEqual(x, y, r2);
    }
  }

  /** The packing preserves meaning: the controller accepts exactly the frames that the item asks for. */
  lemma AcceptsExactlyWanted(item: Item, f: Frame)
    requires InRange(item.id, item.ide) && InRange(f.id, f.ide)
    ensures ItemAccepts(item, f) <==> Wanted(item, f)
  {
    IdRegister(item);
    if item.mode == IdMask {
      MaskedFrames(item, f);
    } else {
      ListRegister(item);
      FrameWordInjective(f, Frame(item.id, item.ide, item.rtr));
      FrameWordInjective(f, Frame(MaskAsId(item), item.ide, item.rtr));
    }
  }

  // ----- The loop over the items -----

  datatype Device = Can1 | Can2 | Other

  /** One filter bank's settings as handed to the controller. */
  datatype Config = Config(bank: int, idHigh: bits, idLow: bits, maskHigh: bits, maskLow: bits, mode: Mode, fifo: nat)

  /** The default banks are 0 to 13 for the first controller and 14 to 27 for the second. */
  function BankOf(dev: Device, i: nat, item: Item, last: int): int {
    if item.hdrBank != -1 then item.hdrBank
    else if dev.Can1? then i
    else if dev.Can2? then i + 14
    else last
  }

  function Configured(dev: Device, i: nat, item: Item, last: Config): Config {
    var bank := BankOf(dev, i, item, last.bank);
    Config(bank, IdHigh(item), IdLow(item), MaskHigh(item), MaskLow(item), item.mode, item.rxFifo)
  }

  /** Every bank programmed for an item accepts exactly the frames it asks for, whatever was programmed before. */
  lemma ConfiguredAcceptsWanted(dev: Device, i: nat, item: Item, last: Config, f: Frame)
    requires InRange(item.id, item.ide) && InRange(f.id, f.ide)
    ensures var c := Configured(dev, i, item, last);
            Accepts(c.mode, Register(c.idHigh, c.idLow), Register(c.maskHigh, c.maskLow), f) <==> Wanted(item, f)
  {
    AcceptsExactlyWanted(item, f);
  }

  function Last(kept: Config, programs: seq<Config>): Config {
    if programs == [] then kept else programs[|programs| - 1]
  }

  /** One setting after the other, each made from an item and the one before. */
  function Threaded(make: (nat, Item, Config) -> Config, items: seq<Item>, kept: Config): (programs: seq<Config>)
    ensures |programs| == |items|
  {
    if items == [] then []
    else
      var n := |items| - 1;
      var before := Threaded(make, items[..n], kept);
      before + [make(n, items[n], Last(kept, before))]
  }

  lemma {:induction false} ThreadedAt(make: (nat, Item, Config) -> Config, items: seq<Item>, kept: Config, k: nat)
    returns (last: Config)
    requires k < |items|
    ensures last == if k == 0 then kept else Threaded(make, items, kept)[k - 1]
    ensures Threaded(make, items, kept)[k] == make(k, items[k], last)
  {
    var n := |items| - 1;
    last := Last(kept, Threaded(make, items[..n], kept));
    if k < n {
      last := ThreadedAt(make, items[..n], kept, k);
    }
  }

  function Configuring(dev: Device): (nat, Item, Config) -> Config {
    (i: nat, item: Item, last: Config) => Configured(dev, i, item, last)
  }

  /** What the controller is given for a list of items, in order. */
  function Programs(dev: Device, items: seq<Item>, kept: Config): (programs: seq<Config>)
    ensures |programs| == |items|
  {
    Threaded(Configuring(dev), items, kept)
  }

  /**
    Every bank programmed for a list accepts exactly the frames that its item asks for and sends them to
    the FIFO it names. Items that leave the bank open get the controller's own banks, one after the other.
   */
  lemma ProgramsAcceptWanted(dev: Device, items: seq<Item>, kept: Config, k: nat, f: Frame)
    requires k < |items| && InRange(items[k].id, items[k].ide) && InRange(f.id, f.ide)
    ensures var c := Programs(dev, items, kept)[k];
            Accepts(c.mode, Register(c.idHigh, c.idLow), Register(c.maskHigh, c.maskLow), f) <==> Wanted(items[k], f)
    ensures items[k].hdrBank == -1 && !dev.Other? ==>
      Programs(dev, items, kept)[k].bank == if dev.Can1? then k else k + 14
    ensures items[k].hdrBank != -1 ==> Programs(dev, items, kept)[k].bank == items[k].hdrBank
    ensures items[k].hdrBank == -1 && dev.Other? ==>
      Programs(dev, items, kept)[k].bank == if k == 0 then kept.bank else Programs(dev, items, kept)[k - 1].bank
    ensures Programs(dev, items, kept)[k].fifo == items[k].rxFifo && Programs(dev, items, kept)[k].mode == items[k].mode
  {
    var last := ThreadedAt(Configuring(dev), items, kept, k);
    ConfiguredAcceptsWanted(dev, k, items[k], last, f);
  }

  class CanDriver {
    const dev: Device
    var filterConfig: Config
    /** What the controller was given, in order. */
    var programmed: seq<Config>

    constructor (dev: Device, initial: Config)
      ensures this.dev == dev && filterConfig == initial && programmed == []
    {
      this.dev, filterConfig, programmed := dev, initial, [];
    }

    /** One item: its settings are kept and given to the controller. */
    method SetItem(i: nat, item: Item)
      modifies this
      ensures filterConfig == Configured(dev, i, item, old(filterConfig))
      ensures programmed == old(programmed) + [filterConfig]
    {
      var bank := BankOf(dev, i, item, filterConfig.bank);
      filterConfig := Config(bank, IdHigh(item), IdLow(item), MaskHigh(item), MaskLow(item), item.mode, item.rxFifo);
      programmed := programmed + [filterConfig];
    }

    /** `RT_CAN_CMD_SET_FILTER`. Without a list of items the kept settings are programmed again. */
    method SetFilter(arg: Option<seq<Item>>)
      modifies this
      ensures arg.None? ==> programmed == old(programmed) + [filterConfig] && filterConfig == old(filterConfig)
      ensures arg.Some? ==>
        && programmed == old(programmed) + Programs(dev, arg.value, old(filterConfig))
        && filterConfig == Last(old(filterConfig), Programs(dev, arg.value, old(filterConfig)))
    {
      if arg.None? {
        programmed := programmed + [filterConfig];
        return;
      }
      var items := arg.value;
      ghost var before, kept := programmed, filterConfig;
      assert items[..0] == [] && items[..|items|] == items;
      for i := 0 to |items|
        invariant programmed == before + Programs(dev, items[..i], kept)
        invariant filterConfig == Last(kept, Programs(dev, items[..i], kept))
      {
        assert items[..i + 1][..i] == items[..i];
        SetItem(i, items[i]);
      }
    }
  }
}
