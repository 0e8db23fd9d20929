/**
  Showing a character on the SPI display (board/port/drv_spi_ili9488.c): the pixel-by-pixel path
  and the buffered path, for the 16-, 24- and 32-pixel fonts.
 */
module LcdGlyph {
  import opened Words
  import DivMod

  /** A colour; the low 24 bits are red, green and blue. */
  type colour = word

  /** A colour on the wire: red, green and blue, most significant first. */
  function Wire(c: colour): (w: seq<octet>)
    ensures |w| == 3
  {
    [c / 0x10000 % 0x100, c / 0x100 % 0x100, c % 0x100]
  }

  /** Red, green and blue as one number. */
  function Rgb(red: int, green: int, blue: int): int {
    red * 0x10000 + green * 0x100 + blue
  }

  /** Nothing but the unused highest byte of a colour is lost on the wire. */
  lemma WireIsColour(c: colour)
    ensures Rgb(Wire(c)[0], Wire(c)[1], Wire(c)[2]) == c % 0x100_0000
  {
    var g := c / 0x100;
    DivMod.Nested(c, 0x100, 0x100);
    var low := Rgb(g / 0x100 % 0x100, g % 0x100, c % 0x100);
    DivMod.Euclid(c, 0x100);
    DivMod.Euclid(g, 0x100);
    DivMod.Euclid(g / 0x100, 0x100);
    DivMod.Unique(c, g / 0x100 / 0x100, low, 0x100_0000);
  }

  // ----- What a glyph looks like -----

  predicate IsSize(size: nat) {
    size == 16 || size == 24 || size == 32
  }

  /** The pixels of a glyph: `size` rows of size / 2. */
  function Pixels(size: nat): (n: nat)
    ensures IsSize(size) ==> n == size * (size / 2)
  {
    if size == 16 then 128 else if size == 24 then 288 else 512
  }

  /** The font bytes of a glyph: a row of 12 pixels takes two bytes like a row of 16. */
  function GlyphBytes(size: nat): (n: nat)
    ensures IsSize(size) ==> n == size * if size == 16 then 1 else 2
  {
    if size == 16 then 16 else if size == 24 then 48 else 64
  }

  /** The row of pixel `n`: n / (size / 2). */
  function RowOf(size: nat, n: nat): nat {
    if size == 16 then n / 8 else if size == 24 then n / 12 else n / 16
  }

  /** Its column. */
  function ColumnOf(size: nat, n: nat): nat {
    if size == 16 then n % 8 else if size == 24 then n % 12 else n % 16
  }

  /** Bit `c` of a byte, counted from the most significant. */
  predicate Bit(b: octet, c: nat)
    requires c < 8
  {
    b / Pow2(7 - c) % 2 == 1
  }

  /** Pixel at row `r` and column `c` of the glyph. */
  predicate Lit(glyph: seq<octet>, size: nat, r: nat, c: nat)
    requires IsSize(size) && |glyph| == GlyphBytes(size) && r < size && c < size / 2
  {
    Bit(glyph[if size == 16 then r else 2 * r + c / 8], c % 8)
  }

  /** The whole glyph, row by row. */
  function Picture(glyph: seq<octet>, size: nat): (pixels: seq<bool>)
    requires IsSize(size) && |glyph| == GlyphBytes(size)
    ensures |pixels| == Pixels(size)
  {
    seq(Pixels(size), n requires 0 <= n < Pixels(size) => Lit(glyph, size, RowOf(size, n), ColumnOf(size, n)))
  }

  /** Pixels on the wire. */
  function Wires(pixels: seq<bool>, fore: colour, back: colour): (s: seq<octet>)
    ensures |s| == 3 * |pixels|
  {
    if pixels == [] then []
    else Wires(pixels[..|pixels| - 1], fore, back) + Wire(if pixels[|pixels| - 1] then fore else back)
  }

  lemma WiresSnoc(pixels: seq<bool>, lit: bool, fore: colour, back: colour)
    ensures Wires(pixels + [lit], fore, back) == Wires(pixels, fore, back) + Wire(if lit then fore else back)
  {
    assert (pixels + [lit])[..|pixels|] == pixels;
  }

  lemma {:induction false} WiresConcat(a: seq<bool>, b: seq<bool>, fore: colour, back: colour)
    ensures Wires(a + b, fore, back) == Wires(a, fore, back) + Wires(b, fore, back)
  {
    if b == [] {
      assert a + b == a;
    } else {
      var c, lit := b[..|b| - 1], b[|b| - 1];
      WiresConcat(a, c, fore, back);
      var w := Wire(if lit then fore else back);
      assert (Wires(a, fore, back) + Wires(c, fore, back)) + w == Wires(a, fore, back) + (Wires(c, fore, back) + w);
      assert a + b == (a + c) + [lit] && b == c + [lit];
      WiresSnoc(a + c, lit, fore, back);
      WiresSnoc(c, lit, fore, back);
    }
  }

  lemma {:induction false} WiresAt(pixels: seq<bool>, n: nat, fore: colour, back: colour)
    requires n < |pixels|
    ensures Wires(pixels, fore, back)[3 * n..3 * n + 3] == Wire(if pixels[n] then fore else back)
  {
    var last := |pixels| - 1;
    if n < last {
      WiresAt(pixels[..last], n, fore, back);
      assert Wires(pixels, fore, back)[3 * n..3 * n + 3] == Wires(pixels[..last], fore, back)[3 * n..3 * n + 3];
    }
  }

  /**
    The pixel at row `r` and column `c` on the wire: the three bytes at its place in the raster are the
    colour in front where the font's bit is set, the most significant bit leftmost, else the colour behind.
   */
  lemma PixelOnWire(glyph: seq<octet>, size: nat, r: nat, c: nat, fore: colour, back: colour)
    requires IsSize(size) && |glyph| == GlyphBytes(size) && r < size && c < size / 2
    ensures r * (size / 2) + c < Pixels(size)
    ensures var w := Wires(Picture(glyph, size), fore, back);
            var at := 3 * (r * (size / 2) + c);
            var lit := glyph[if size == 16 then r else 2 * r + c / 8] / Pow2(7 - c % 8) % 2 == 1;
            Rgb(w[at], w[at + 1], w[at + 2]) == (if lit then fore else back) % 0x100_0000
  {
    var n := PlaceOf(size, r, c);
    var w := Wires(Picture(glyph, size), fore, back);
    WiresAt(Picture(glyph, size), n, fore, back);
    WireIsColour(fore);
    WireIsColour(back);
    assert Picture(glyph, size)[n] == Lit(glyph, size, r, c);
    var three := w[3 * n..3 * n + 3];
    assert w[3 * n] == three[0] && w[3 * n + 1] == three[1] && w[3 * n + 2] == three[2];
  }

  /** The raster position of a row and a column. */
  lemma PlaceOf(size: nat, r: nat, c: nat) returns (n: nat)
    requires IsSize(size) && r < size && c < size / 2
    ensures n == r * (size / 2) + c < Pixels(size) && RowOf(size, n) == r && ColumnOf(size, n) == c
  {
    if size == 16 {
      n := r * 8 + c;
      DivMod.Unique(n, r, c, 8);
    } else if size == 24 {
      n := r * 12 + c;
      DivMod.Unique(n, r, c, 12);
    } else {
      n := r * 16 + c;
      DivMod.Unique(n, r, c, 16);
    }
  }

  // ----- Shifting a byte out -----

  /** One left shift in 8 bits: what leaves the top is dropped. */
  function ShiftLeft(b: octet): octet {
    b * 2 % 0x100
  }

  predicate TopBit(b: octet) {
    b >= 0x80
  }

  /** A byte after `t` left shifts. */
  function Shifted(b: octet, t: nat): octet {
    if t == 0 then b else ShiftLeft(Shifted(b, t - 1))
  }

  lemma ShiftModulo(x: nat)
    ensures ShiftLeft(x % 0x100) == 2 * x % 0x100
  {
    DivMod.Euclid(x, 0x100);
    DivMod.AddMultiple(x % 0x100 * 2, 2 * (x / 0x100), 0x100);
  }

  lemma {:induction false} ShiftedExactly(b: octet, t: nat)
    ensures Shifted(b, t) == b * Pow2(t) % 0x100
  {
    if t > 0 {
      ShiftedExactly(b, t - 1);
      ShiftModulo(b * Pow2(t - 1));
      assert 2 * (b * Pow2(t - 1)) == b * Pow2(t);
    }
  }

  /** The top bit of b * m mod 256, where m and w make 128, is the bit of weight w. */
  lemma TopOfProduct(b: octet, m: nat, w: nat)
    requires m * w == 0x80 && m > 0 && w > 0
    ensures TopBit(b * m % 0x100) <==> b / w % 2 == 1
  {
    var q, r := b / w, b % w;
    DivMod.Euclid(b, w);
    Regroup(q, r, m, w);
    DivMod.MulMonotone(r + 1, w, m);
    assert (r + 1) * m == r * m + m && w * m == m * w;
    var rm: nat := r * m;
    DivMod.Unique(b * m, q / 2, q % 2 * 0x80 + rm, 0x100);
  }

  lemma Regroup(q: nat, r: nat, m: nat, w: nat)
    requires m * w == 0x80
    ensures (q * w + r) * m == q * 0x80 + r * m
  {
    assert (q * w + r) * m == (q * w) * m + r * m;
    assert (q * w) * m == q * (w * m);
  }

  /** The top bit after `t` shifts is bit `t`. */
  lemma TopAfterShifts(b: octet, t: nat)
    requires t < 8
    ensures TopBit(Shifted(b, t)) <==> Bit(b, t)
  {
    ShiftedExactly(b, t);
    Pow2Sum(t, 7 - t);
    assert Pow2(7) == 0x80;
    TopOfProduct(b, Pow2(t), Pow2(7 - t));
  }

  /** The first `n` bits of a byte. */
  function Bits(b: octet, n: nat): (bits: seq<bool>)
    requires n <= 8
    ensures |bits| == n
  {
    if n == 0 then [] else Bits(b, n - 1) + [Bit(b, n - 1)]
  }

  lemma {:induction false} BitsAt(b: octet, n: nat, t: nat)
    requires t < n <= 8
    ensures Bits(b, n)[t] == Bit(b, t)
  {
    if t < n - 1 { BitsAt(b, n - 1, t); }
  }

  /** One more bit shifted out, after what was sent before the byte. */
  lemma NextBit(done: seq<octet>, b: octet, t: nat, fore: colour, back: colour)
    requires t < 8
    ensures done + Wires(Bits(b, t + 1), fore, back)
      == (done + Wires(Bits(b, t), fore, back)) + Wire(if TopBit(Shifted(b, t)) then fore else back)
  {
    TopAfterShifts(b, t);
    WiresSnoc(Bits(b, t), Bit(b, t), fore, back);
    Regrouped(done, Wires(Bits(b, t), fore, back), Wire(if Bit(b, t) then fore else back));
  }

  /** How many pixels of the row the byte at `pos` holds. */
  function Num(size: nat, pos: nat): nat {
    if size == 24 && pos % 2 == 1 then 4 else 8
  }

  /** The pixels before the byte at `pos`. */
  function Before(size: nat, pos: nat): nat {
    if size == 24 then 12 * (pos / 2) + 8 * (pos % 2) else 8 * pos
  }

  lemma BeforeNext(size: nat, pos: nat)
    ensures Before(size, 0) == 0 && Before(size, pos + 1) == Before(size, pos) + Num(size, pos)
    ensures IsSize(size) ==> Before(size, GlyphBytes(size)) == Pixels(size)
    ensures IsSize(size) && pos <= GlyphBytes(size) ==> Before(size, pos) <= Pixels(size)
  {}

  /** The row and the column that bit `t` of byte `pos` belongs to. */
  lemma NextPlace(size: nat, pos: nat, t: nat)
    requires IsSize(size) && pos < GlyphBytes(size) && t < Num(size, pos)
    ensures var n := Before(size, pos) + t;
            n < Pixels(size) &&
            if size == 16 then RowOf(size, n) == pos && ColumnOf(size, n) == t
            else RowOf(size, n) == pos / 2 && ColumnOf(size, n) == 8 * (pos % 2) + t
  {
    var n := Before(size, pos) + t;
    if size == 16 {
      DivMod.Unique(n, pos, t, 8);
    } else {
      DivMod.Unique(n, pos / 2, 8 * (pos % 2) + t, if size == 24 then 12 else 16);
    }
  }

  /** Bit `t` of byte `pos` is the next pixel of the raster. */
  lemma NextPixel(glyph: seq<octet>, size: nat, pos: nat, t: nat)
    requires IsSize(size) && |glyph| == GlyphBytes(size) && pos < GlyphBytes(size) && t < Num(size, pos)
    ensures var n := Before(size, pos) + t;
            n < Pixels(size) && (Lit(glyph, size, RowOf(size, n), ColumnOf(size, n)) <==> Bit(glyph[pos], t))
  {
    NextPlace(size, pos, t);
    DivMod.Unique(8 * (pos % 2) + t, pos % 2, t, 8);
  }

  /** The bits of byte `pos` are the next pixels of the picture. */
  lemma NextBits(glyph: seq<octet>, size: nat, pos: nat)
    requires IsSize(size) && |glyph| == GlyphBytes(size) && pos < GlyphBytes(size)
    ensures Before(size, pos + 1) == Before(size, pos) + Num(size, pos) <= Pixels(size)
    ensures Picture(glyph, size)[..Before(size, pos + 1)]
      == Picture(glyph, size)[..Before(size, pos)] + Bits(glyph[pos], Num(size, pos))
  {
    BeforeNext(size, pos);
    BeforeNext(size, pos + 1);
    var picture, before, num := Picture(glyph, size), Before(size, pos), Num(size, pos);
    var bits := Bits(glyph[pos], num);
    forall t | 0 <= t < num
      ensures picture[before + t] == bits[t]
    {
      PixelOfByte(glyph, size, pos, t);
    }
    SliceIs(picture, before, bits);
  }

  lemma PixelOfByte(glyph: seq<octet>, size: nat, pos: nat, t: nat)
    requires IsSize(size) && |glyph| == GlyphBytes(size) && pos < GlyphBytes(size) && t < Num(size, pos)
    ensures Before(size, pos) + t < Pixels(size)
    ensures Picture(glyph, size)[Before(size, pos) + t] == Bits(glyph[pos], Num(size, pos))[t]
  {
    NextPixel(glyph, size, pos, t);
    BitsAt(glyph[pos], Num(size, pos), t);
  }

  lemma SliceIs(all: seq<bool>, at: nat, part: seq<bool>)
    requires at + |part| <= |all| && forall t :: 0 <= t < |part| ==> all[at + t] == part[t]
    ensures all[..at + |part|] == all[..at] + part
  {
    forall k | at <= k < at + |part|
      ensures all[k] == part[k - at]
    {
      assert all[at + (k - at)] == part[k - at];
    }
  }

  /** What the font bytes before `pos` put on the wire. */
  ghost function Sent(glyph: seq<octet>, size: nat, pos: nat, fore: colour, back: colour): (s: seq<octet>)
    requires pos <= |glyph|
    ensures |s| == 3 * Before(size, pos)
  {
    if pos == 0 then []
    else
      BeforeNext(size, pos - 1);
      Sent(glyph, size, pos - 1, fore, back) + Wires(Bits(glyph[pos - 1], Num(size, pos - 1)), fore, back)
  }

  /** The bits of the font bytes before `pos`, one after the other. */
  ghost function AllBits(glyph: seq<octet>, size: nat, pos: nat): (bits: seq<bool>)
    requires pos <= |glyph|
    ensures |bits| == Before(size, pos)
  {
    if pos == 0 then []
    else
      BeforeNext(size, pos - 1);
      AllBits(glyph, size, pos - 1) + Bits(glyph[pos - 1], Num(size, pos - 1))
  }

  lemma {:induction false} SentIsAllBits(glyph: seq<octet>, size: nat, pos: nat, fore: colour, back: colour)
    requires pos <= |glyph|
    ensures Sent(glyph, size, pos, fore, back) == Wires(AllBits(glyph, size, pos), fore, back)
  {
    if pos > 0 {
      SentIsAllBits(glyph, size, pos - 1, fore, back);
      WiresConcat(AllBits(glyph, size, pos - 1), Bits(glyph[pos - 1], Num(size, pos - 1)), fore, back);
    }
  }

  /** The font's bits, in the order of its bytes, are the picture row by row. */
  lemma {:induction false} AllBitsArePicture(glyph: seq<octet>, size: nat, pos: nat)
    requires IsSize(size) && |glyph| == GlyphBytes(size) && pos <= GlyphBytes(size)
    ensures Before(size, pos) <= Pixels(size)
    ensures AllBits(glyph, size, pos) == Picture(glyph, size)[..Before(size, pos)]
  {
    if pos == 0 {
      BeforeNext(size, 0);
    } else {
      AllBitsArePicture(glyph, size, pos - 1);
      NextBits(glyph, size, pos - 1);
    }
  }

  lemma AllSent(glyph: seq<octet>, size: nat, fore: colour, back: colour)
    requires IsSize(size) && |glyph| == GlyphBytes(size)
    ensures Sent(glyph, size, GlyphBytes(size), fore, back) == Wires(Picture(glyph, size), fore, back)
  {
    SentIsAllBits(glyph, size, GlyphBytes(size), fore, back);
    AllBitsArePicture(glyph, size, GlyphBytes(size));
    BeforeNext(size, GlyphBytes(size));
    assert Picture(glyph, size)[..Pixels(size)] == Picture(glyph, size);
  }

  // ----- The two paths -----

  /** Shifts `num` bits out of a byte, sending each pixel on its own. */
  method SendByte(b: octet, num: nat, fore: colour, back: colour) returns (sent: seq<octet>)
    requires num <= 8
    ensures sent == Wires(Bits(b, num), fore, back)
  {
    sent := [];
    var temp := b;
    for t := 0 to num
      invariant temp == Shifted(b, t)
      invariant sent == [] + Wires(Bits(b, t), fore, back)
    {
      NextBit([], b, t, fore, back);
      var colourTemp := if TopBit(temp) then fore else back;
      sent := sent + Wire(colourTemp);
      temp := ShiftLeft(temp);
    }
  }

  /** Pixel by pixel. */
  method SendPixels(glyph: seq<octet>, size: nat, fore: colour, back: colour) returns (sent: seq<octet>)
    requires IsSize(size) && |glyph| == GlyphBytes(size)
    ensures sent == Wires(Picture(glyph, size), fore, back)
  {
    sent := [];
    for pos := 0 to GlyphBytes(size)
      invariant sent == Sent(glyph, size, pos, fore, back)
    {
      var run := SendByte(glyph[pos], Num(size, pos), fore, back);
      sent := sent + run;
    }
    AllSent(glyph, size, fore, back);
  }

  /** The indices 0 to `n` - 1, each once, in ascending order. */
  predicate Ascending(writes: seq<nat>, n: nat) {
    |writes| == n && forall k :: 0 <= k < n ==> writes[k] == k
  }

  /** Where the buffered path puts bit `t` of byte `pos`. */
  function Slot(size: nat, pos: nat, t: nat): nat {
    if size == 24 then (if pos % 2 == 0 then 3 * (12 * (pos / 2) + t) else 3 * (8 + 12 * (pos / 2) + t))
    else 3 * (8 * pos + t)
  }

  lemma SlotIsNext(size: nat, pos: nat, t: nat)
    ensures Slot(size, pos, t) == 3 * (Before(size, pos) + t)
  {}

  /** Three bytes of one pixel; `writes` lists the indices written so far, in order. */
  method PutPixel(buf: array<octet>, at: nat, c: colour, ghost writes0: seq<nat>) returns (ghost writes: seq<nat>)
    requires at + 3 <= buf.Length && Ascending(writes0, at)
    modifies buf
    ensures buf[..at + 3] == old(buf[..at]) + Wire(c)
    ensures Ascending(writes, at + 3)
  {
    var w := Wire(c);
    buf[at], buf[at + 1], buf[at + 2] := w[0], w[1], w[2];
    writes := writes0 + [at, at + 1, at + 2];
  }

  /** The buffer while byte `pos` is shifted into it behind `done`: `t` of its bits are in. */
  ghost predicate Putting(buf: array<octet>, size: nat, pos: nat, b: octet, t: nat, fore: colour, back: colour,
                          done: seq<octet>, writes: seq<nat>)
    requires t <= 8
    reads buf
  {
    var m := 3 * (Before(size, pos) + t);
    m <= buf.Length && buf[..m] == done + Wires(Bits(b, t), fore, back) && Ascending(writes, m)
  }

  /** One pixel of the byte. */
  method PutBit(buf: array<octet>, size: nat, pos: nat, b: octet, t: nat, temp: octet, fore: colour, back: colour,
                ghost done: seq<octet>, ghost writes0: seq<nat>)
    returns (ghost writes: seq<nat>)
    requires t < 8 && temp == Shifted(b, t) && 3 * (Before(size, pos) + t + 1) <= buf.Length
    requires Putting(buf, size, pos, b, t, fore, back, done, writes0)
    modifies buf
    ensures Putting(buf, size, pos, b, t + 1, fore, back, done, writes)
  {
    NextBit(done, b, t, fore, back);
    SlotIsNext(size, pos, t);
    var colourTemp := if TopBit(temp) then fore else back;
    writes := PutPixel(buf, Slot(size, pos, t), colourTemp, writes0);
  }

  /** Shifts the bits of byte `pos` into the buffer. */
  method PutByte(b: octet, size: nat, pos: nat, fore: colour, back: colour, buf: array<octet>, ghost writes0: seq<nat>)
    returns (ghost writes: seq<nat>)
    requires 3 * (Before(size, pos) + Num(size, pos)) <= buf.Length
    requires Ascending(writes0, 3 * Before(size, pos))
    modifies buf
    ensures buf[..3 * (Before(size, pos) + Num(size, pos))]
      == old(buf[..3 * Before(size, pos)]) + Wires(Bits(b, Num(size, pos)), fore, back)
    ensures Ascending(writes, 3 * (Before(size, pos) + Num(size, pos)))
  {
    var temp, num := b, Num(size, pos);
    ghost var done := buf[..3 * Before(size, pos)];
    writes := writes0;
    for t := 0 to num
      invariant temp == Shifted(b, t) && Putting(buf, size, pos, b, t, fore, back, done, writes)
    {
      writes := PutBit(buf, size, pos, b, t, temp, fore, back, done, writes);
      temp := ShiftLeft(temp);
    }
  }

  /** Buffered: every index of the buffer is written exactly once, in ascending order. */
  method FillBuffer(glyph: seq<octet>, size: nat, fore: colour, back: colour, buf: array<octet>)
    returns (ghost writes: seq<nat>)
    requires IsSize(size) && |glyph| == GlyphBytes(size) && buf.Length == 3 * Pixels(size)
    modifies buf
    ensures buf[..] == Wires(Picture(glyph, size), fore, back)
    ensures Ascending(writes, buf.Length)
  {
    writes := [];
    BeforeNext(size, GlyphBytes(size));
    for pos := 0 to GlyphBytes(size)
      invariant 3 * Before(size, pos) <= buf.Length && Ascending(writes, 3 * Before(size, pos))
      invariant buf[..3 * Before(size, pos)] == Sent(glyph, size, pos, fore, back)
    {
      BeforeNext(size, pos);
      BeforeNext(size, pos + 1);
      writes := PutByte(glyph[pos], size, pos, fore, back, buf, writes);
    }
    AllSent(glyph, size, fore, back);
    assert buf[..buf.Length] == buf[..];
  }

  /** The fonts start at the space character; the subtraction is done in 8 bits. */
  function Index(data: octet): (i: octet)
    ensures data >= 0x20 ==> i == data - 0x20
    ensures data < 0x20 ==> i == data + 0xE0
  {
    (data - 0x20) % 0x100
  }

  /** Where a character of `n` pixels may start at the latest, computed in 32 bits. */
  function Latest(screen: word, n: nat): (most: word)
    ensures n <= screen ==> most + n == screen
  {
    (screen - n) % TWO_TO_32
  }

  /**
    The whole operation: the bytes sent into the character's window. A character off the screen or
    of an unknown size sends nothing; whether the buffer could be allocated makes no difference.
   */
  method ShowChar(x: nat, y: nat, data: octet, size: nat, fore: colour, back: colour, font: seq<octet>,
                  lcdWidth: word, lcdHeight: word, buffered: bool)
    returns (sent: seq<octet>)
    requires IsSize(size) ==> (Index(data) + 1) * GlyphBytes(size) <= |font|
    ensures x > Latest(lcdWidth, size / 2) || y > Latest(lcdHeight, size) || !IsSize(size) ==> sent == []
    ensures x <= Latest(lcdWidth, size / 2) && y <= Latest(lcdHeight, size) && IsSize(size) ==>
      var at := Index(data) * GlyphBytes(size);
      sent == Wires(Picture(font[at..at + GlyphBytes(size)], size), fore, back)
    ensures size <= lcdWidth && size <= lcdHeight && IsSize(size) ==>
      (x + size / 2 <= lcdWidth && y + size <= lcdHeight <==> sent != [])
  {
    if x > Latest(lcdWidth, size / 2) || y > Latest(lcdHeight, size) || !IsSize(size) {
      return [];
    }
    var at := Index(data) * GlyphBytes(size);
    var glyph := font[at..at + GlyphBytes(size)];
    if !buffered {
      sent := SendPixels(glyph, size, fore, back);
    } else {
      var buf := new octet[size * size / 2 * 3];
      assert size * size / 2 * 3 == 3 * Pixels(size);
      var writes := FillBuffer(glyph, size, fore, back, buf);
      sent := buf[..];
    }
  }
}
