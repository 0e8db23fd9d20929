/**
  The Base64 pair of the WLAN configuration store (board/port/wifi_config.c), against section 4 of
  RFC 4648. Bytes and characters are octets; the C code's shifts and masks are written as divisions
  and remainders.
 */
module Base64 {
  import opened Words
  import DivMod

  type sextet = x: int | 0 <= x < 0x40

  const PAD: octet := 0x3D

  // ----- The alphabet -----

  /** `base64_table`. */
  function Digit(v: sextet): octet {
    if v < 26 then 0x41 + v
    else if v < 52 then 0x61 + (v - 26)
    else if v < 62 then 0x30 + (v - 52)
    else if v == 62 then 0x2B else 0x2F
  }

  /** `base64_decode_table`: 0 for characters outside the alphabet. */
  function Value(c: octet): sextet {
    if 0x41 <= c <= 0x5A then c - 0x41
    else if 0x61 <= c <= 0x7A then c - 0x61 + 26
    else if 0x30 <= c <= 0x39 then c - 0x30 + 52
    else if c == 0x2B then 62
    else if c == 0x2F then 63 else 0
  }

  predicate IsDigit(c: octet) {
    0x41 <= c <= 0x5A || 0x61 <= c <= 0x7A || 0x30 <= c <= 0x39 || c == 0x2B || c == 0x2F
  }

  lemma AlphabetRoundTrip(v: sextet, c: octet)
    ensures Value(Digit(v)) == v && IsDigit(Digit(v)) && Digit(v) != PAD && Digit(v) != 0
    ensures IsDigit(c) ==> Digit(Value(c)) == c
    ensures !IsDigit(PAD) && Value(PAD) == 0
  {}

  /** The alphabet of section 4 of RFC 4648, in order. */
  const ALPHABET: string := "ABCDEFGHIJKLMNOP" + "QRSTUVWXYZabcdef" + "ghijklmnopqrstuv" + "wxyz0123456789+/"

  /** `n` digits from `first` on. */
  function Digits(first: nat, n: nat): (text: string)
    requires first + n <= 64
    ensures |text| == n && forall i :: 0 <= i < n ==> text[i] == Digit(first + i) as char
  {
    if n == 0 then "" else Digits(first, n - 1) + [Digit(first + n - 1) as char]
  }

  lemma FirstDigits()
    ensures Digits(0, 16) == "ABCDEFGHIJKLMNOP"
  {}

  lemma SecondDigits()
    ensures Digits(16, 16) == "QRSTUVWXYZabcdef"
  {}

  lemma ThirdDigits()
    ensures Digits(32, 16) == "ghijklmnopqrstuv"
  {}

  lemma FourthDigits()
    ensures Digits(48, 16) == "wxyz0123456789+/"
  {}

  lemma Quarters(a: string, b: string, c: string, d: string, v: nat)
    requires |a| == |b| == |c| == |d| == 16 && v < 64
    ensures (a + b + c + d)[v] ==
      if v < 16 then a[v] else if v < 32 then b[v - 16] else if v < 48 then c[v - 32] else d[v - 48]
  {}

  /** The 64 digits are the alphabet, in its order. */
  lemma DigitsInOrder(v: sextet)
    ensures |ALPHABET| == 64 && ALPHABET[v] == Digit(v) as char
  {
    FirstDigits();
    SecondDigits();
    ThirdDigits();
    FourthDigits();
    Quarters(Digits(0, 16), Digits(16, 16), Digits(32, 16), Digits(48, 16), v);
  }

  /** A character of the alphabet has its place in it as its value, and every other character 0. */
  lemma ValuesInOrder(c: octet)
    ensures IsDigit(c) <==> exists v: sextet :: Digit(v) == c
    ensures forall v: sextet :: Digit(v) == c ==> Value(c) == v
    ensures !IsDigit(c) ==> Value(c) == 0
  {
    AlphabetRoundTrip(Value(c), c);
    forall v: sextet | Digit(v) == c
      ensures IsDigit(c) && Value(c) == v
    {
      AlphabetRoundTrip(v, c);
    }
  }

  /** Known encodings: of one byte, of two, and with all the last digits of the alphabet. */
  lemma KnownEncodings()
    ensures Encode([0x66]) == [0x5A, 0x67, 0x3D, 0x3D]
    ensures Encode([0x66, 0x6F]) == [0x5A, 0x6D, 0x38, 0x3D]
    ensures Encode([0xFB, 0xFF, 0xBF]) == [0x2B, 0x2F, 0x2B, 0x2F]
  {
    assert Group(0x66, 0, 0) == 0x660000 && Group(0x66, 0x6F, 0) == 0x666F00 && Group(0xFB, 0xFF, 0xBF) == 0xFBFFBF;
    var s: seq<octet> := [0xFB, 0xFF, 0xBF];
    assert s[3..] == [];
  }

  // ----- Groups of 24 bits -----

  type group = x: int | 0 <= x < 0x100_0000

  /** Three bytes as one 24-bit number. */
  function Group(x: octet, y: octet, z: octet): group {
    (x * 0x100 + y) * 0x100 + z
  }

  /** A 24-bit number as four digits. */
  function Quad(g: group): (q: seq<octet>)
    ensures |q| == 4
  {
    [Digit(g / 0x40 / 0x40 / 0x40), Digit(g / 0x40 / 0x40 % 0x40), Digit(g / 0x40 % 0x40), Digit(g % 0x40)]
  }

  /** Four characters as one 24-bit number. */
  function Join(q: seq<octet>): group
    requires |q| == 4
  {
    JoinValues(Value(q[0]), Value(q[1]), Value(q[2]), Value(q[3]))
  }

  function JoinValues(a: sextet, b: sextet, c: sextet, d: sextet): group {
    ((a * 0x40 + b) * 0x40 + c) * 0x40 + d
  }

  /** A 24-bit number as three bytes. */
  function Triple(g: group): (t: seq<octet>)
    ensures |t| == 3
  {
    [g / 0x100 / 0x100, g / 0x100 % 0x100, g % 0x100]
  }

  /** Splitting off the last place of a number. */
  lemma LastPlace(h: nat, d: nat, n: nat)
    requires d < n
    ensures (h * n + d) / n == h && (h * n + d) % n == d
  {
    DivMod.Unique(h * n + d, h, d, n);
  }

  lemma JoinQuad(g: group)
    ensures Join(Quad(g)) == g
  {
    AlphabetRoundTrip(g / 0x40 / 0x40 / 0x40, 0);
    AlphabetRoundTrip(g / 0x40 / 0x40 % 0x40, 0);
    AlphabetRoundTrip(g / 0x40 % 0x40, 0);
    AlphabetRoundTrip(g % 0x40, 0);
    DivMod.Euclid(g, 0x40);
    DivMod.Euclid(g / 0x40, 0x40);
    DivMod.Euclid(g / 0x40 / 0x40, 0x40);
  }

  lemma TripleGroup(x: octet, y: octet, z: octet)
    ensures Triple(Group(x, y, z)) == [x, y, z]
  {
    LastPlace(x * 0x100 + y, z, 0x100);
    LastPlace(x, y, 0x100);
  }

  lemma GroupTriple(g: group)
    ensures Group(Triple(g)[0], Triple(g)[1], Triple(g)[2]) == g
  {
    DivMod.Euclid(g, 0x100);
    DivMod.Euclid(g / 0x100, 0x100);
  }

  lemma QuadJoin(q: seq<octet>)
    requires |q| == 4 && forall k :: 0 <= k < 4 ==> IsDigit(q[k])
    ensures Quad(Join(q)) == q
  {
    AlphabetRoundTrip(0, q[0]);
    AlphabetRoundTrip(0, q[1]);
    AlphabetRoundTrip(0, q[2]);
    AlphabetRoundTrip(0, q[3]);
    SplitValues(Value(q[0]), Value(q[1]), Value(q[2]), Value(q[3]));
  }

  lemma SplitValues(a: sextet, b: sextet, c: sextet, d: sextet)
    ensures var g := JoinValues(a, b, c, d);
            g / 0x40 / 0x40 / 0x40 == a && g / 0x40 / 0x40 % 0x40 == b && g / 0x40 % 0x40 == c && g % 0x40 == d
  {
    LastPlace((a * 0x40 + b) * 0x40 + c, d, 0x40);
    LastPlace(a * 0x40 + b, c, 0x40);
    LastPlace(a, b, 0x40);
  }

  lemma QuadDigits(g: group)
    ensures forall k :: 0 <= k < 4 ==> IsDigit(Quad(g)[k]) && Quad(g)[k] != PAD && Quad(g)[k] != 0
  {
    AlphabetRoundTrip(g / 0x40 / 0x40 / 0x40, 0);
    AlphabetRoundTrip(g / 0x40 / 0x40 % 0x40, 0);
    AlphabetRoundTrip(g / 0x40 % 0x40, 0);
    AlphabetRoundTrip(g % 0x40, 0);
  }

  // ----- The encoding -----

  /** Three bytes make a quad; at the end zero bits fill up the last digit and `=` the quad. */
  function Encode(s: seq<octet>): (text: seq<octet>)
    ensures |text| % 4 == 0 && (s != [] ==> |text| >= 4)
  {
    if s == [] then []
    else if |s| == 1 then Quad(Group(s[0], 0, 0))[..2] + [PAD, PAD]
    else if |s| == 2 then Quad(Group(s[0], s[1], 0))[..3] + [PAD]
    else
      var rest := Encode(s[3..]);
      assert (4 + |rest|) % 4 == 0;
      Quad(Group(s[0], s[1], s[2])) + rest
  }

  /** The length of an encoding: a quad for every three bytes or part of three. */
  lemma {:induction false} EncodedLength(s: seq<octet>)
    ensures |Encode(s)| == 4 * ((|s| + 2) / 3)
  {
    if |s| >= 3 {
      EncodedLength(s[3..]);
      assert (|s| + 2) / 3 == (|s| - 3 + 2) / 3 + 1;
    }
  }

  /** How many bytes the last quad stands for. */
  function QuadLen(q: seq<octet>): nat
    requires |q| == 4
  {
    3 - (if q[3] == PAD then 1 else 0) - (if q[2] == PAD then 1 else 0)
  }

  /** A text of whole quads. */
  predicate IsText(text: seq<octet>) {
    text != [] && |text| % 4 == 0
  }

  lemma RestIsText(text: seq<octet>)
    requires IsText(text)
    ensures |text| >= 4 && (|text| > 4 ==> IsText(text[4..]))
  {}

  /** Every quad is three bytes, the last one without those that its pads stand for. */
  function Decode(text: seq<octet>): (s: seq<octet>)
    requires IsText(text)
    ensures s != []
  {
    RestIsText(text);
    if |text| == 4 then Triple(Join(text))[..QuadLen(text)]
    else Triple(Join(text[..4])) + Decode(text[4..])
  }

  /** The length computed from the last two characters, before any decoding. */
  function DecodedLen(text: seq<octet>): int
    requires IsText(text)
  {
    |text| / 4 * 3 - (if text[|text| - 1] == PAD then 1 else 0) - (if text[|text| - 2] == PAD then 1 else 0)
  }

  lemma {:induction false} DecodedLength(text: seq<octet>)
    requires IsText(text)
    ensures |Decode(text)| == DecodedLen(text)
  {
    RestIsText(text);
    if |text| > 4 {
      DecodedLength(text[4..]);
      assert |text| / 4 == |text[4..]| / 4 + 1;
    }
  }

  lemma {:induction false} EncodeNoNul(s: seq<octet>)
    ensures forall k :: 0 <= k < |Encode(s)| ==> Encode(s)[k] != 0
  {
    if |s| >= 3 {
      QuadDigits(Group(s[0], s[1], s[2]));
      EncodeNoNul(s[3..]);
    } else if |s| == 2 {
      QuadDigits(Group(s[0], s[1], 0));
    } else if |s| == 1 {
      QuadDigits(Group(s[0], 0, 0));
    }
  }

  // ----- Decoding an encoding -----

  /** The digits behind the last byte are zero. */
  lemma TailZeros(x: octet, y: octet)
    ensures Group(x, y, 0) % 0x40 == 0
    ensures y == 0 ==> Group(x, y, 0) / 0x40 % 0x40 == 0
  {
    LastPlace((x * 0x100 + y) * 4, 0, 0x40);
    LastPlace(x * 0x10, 0, 0x40);
  }

  /** One byte, padded. */
  lemma DecodeOne(x: octet)
    ensures Decode(Encode([x])) == [x]
  {
    var g := Group(x, 0, 0);
    TailZeros(x, 0);
    QuadDigits(g);
    JoinPadded(g);
    TripleGroup(x, 0, 0);
  }

  /** Two bytes, padded. */
  lemma DecodeTwo(x: octet, y: octet)
    ensures Decode(Encode([x, y])) == [x, y]
  {
    var g := Group(x, y, 0);
    TailZeros(x, y);
    QuadDigits(g);
    JoinPadded(g);
    TripleGroup(x, y, 0);
  }

  /** Pads read as the zero digits they replace. */
  lemma JoinPadded(g: group)
    ensures g % 0x40 == 0 ==> Join(Quad(g)[..3] + [PAD]) == g
    ensures g % 0x40 == 0 && g / 0x40 % 0x40 == 0 ==> Join(Quad(g)[..2] + [PAD, PAD]) == g
  {
    JoinQuad(g);
    AlphabetRoundTrip(0, 0);
  }

  /** Decoding the encoding of any non-empty byte string returns it, with its exact length. */
  lemma {:induction false} DecodeEncode(s: seq<octet>)
    requires s != []
    ensures Decode(Encode(s)) == s
  {
    if |s| == 1 {
      DecodeOne(s[0]);
      assert s == [s[0]];
    } else if |s| == 2 {
      DecodeTwo(s[0], s[1]);
      assert s == [s[0], s[1]];
    } else {
      var g, rest := Group(s[0], s[1], s[2]), s[3..];
      JoinQuad(g);
      TripleGroup(s[0], s[1], s[2]);
      QuadDigits(g);
      assert Encode(s)[..4] == Quad(g) && Encode(s)[4..] == Encode(rest);
      assert s == [s[0], s[1], s[2]] + rest;
      if rest != [] {
        DecodeEncode(rest);
      } else {
        assert Encode(s) == Quad(g);
      }
    }
  }

  // ----- Encoding a decoding -----

  /**
    Canonical padded text: alphabet characters but for at most two pads at the very end, with
    the unused bits of the last digit zero (section 3.5 of RFC 4648).
   */
  predicate Canonical(text: seq<octet>) {
    && IsText(text)
    && (forall k :: 0 <= k < |text| - 4 ==> IsDigit(text[k]))
    && CanonicalQuad(text[|text| - 4..])
  }

  predicate CanonicalQuad(q: seq<octet>) {
    && |q| == 4 && IsDigit(q[0]) && IsDigit(q[1])
    && if q[3] != PAD then IsDigit(q[2]) && IsDigit(q[3])
       else if q[2] != PAD then IsDigit(q[2]) && Value(q[2]) % 4 == 0
       else Value(q[1]) % 16 == 0
  }

  lemma QuadOfTriple(q: seq<octet>)
    requires |q| == 4 && forall k :: 0 <= k < 4 ==> IsDigit(q[k])
    ensures var t := Triple(Join(q)); Quad(Group(t[0], t[1], t[2])) == q
  {
    GroupTriple(Join(q));
    QuadJoin(q);
  }

  /** The bytes of a group whose last digits are zero: the bytes that are dropped are zero. */
  lemma TripleTail(a: sextet, b: sextet, c: sextet)
    ensures c % 4 == 0 ==> Triple(JoinValues(a, b, c, 0))[2] == 0
    ensures c == 0 && b % 16 == 0 ==> Triple(JoinValues(a, b, c, 0))[1] == 0
  {
    var h := a * 0x40 + b;
    if c % 4 == 0 {
      LastPlace(h * 0x10 + c / 4, 0, 0x100);
      assert JoinValues(a, b, c, 0) == (h * 0x10 + c / 4) * 0x100;
    }
    if c == 0 && b % 16 == 0 {
      LastPlace(a * 4 + b / 16, 0, 0x100);
      assert h * 0x10 == (a * 4 + b / 16) * 0x100;
    }
  }

  /** A last quad comes back: the dropped bits were zero. */
  lemma EncodeLast(q: seq<octet>)
    requires CanonicalQuad(q)
    ensures Encode(Triple(Join(q))[..QuadLen(q)]) == q
  {
    AlphabetRoundTrip(0, 0);
    var t := Triple(Join(q));
    if q[3] != PAD {
      QuadOfTriple(q);
      assert t[..3] == t && t[3..] == [];
    } else {
      var c := Value(q[2]);
      SplitValues(Value(q[0]), Value(q[1]), c, 0);
      TripleTail(Value(q[0]), Value(q[1]), c);
      GroupTriple(Join(q));
      AlphabetRoundTrip(0, q[0]);
      AlphabetRoundTrip(0, q[1]);
      AlphabetRoundTrip(0, q[2]);
    }
  }

  lemma EncodeMore(t: seq<octet>, rest: seq<octet>)
    requires |t| == 3
    ensures Encode(t + rest) == Quad(Group(t[0], t[1], t[2])) + Encode(rest)
  {
    assert (t + rest)[3..] == rest;
  }

  lemma CanonicalRest(text: seq<octet>)
    requires Canonical(text) && |text| > 4
    ensures Canonical(text[4..]) && forall k :: 0 <= k < 4 ==> IsDigit(text[..4][k])
  {
    var rest := text[4..];
    assert rest[|rest| - 4..] == text[|text| - 4..];
    assert |text| - 4 >= 4;
    forall k | 0 <= k < |rest| - 4
      ensures IsDigit(rest[k])
    {
      assert rest[k] == text[k + 4];
    }
  }

  lemma DecodeMore(q: seq<octet>, rest: seq<octet>)
    requires |q| == 4 && IsText(rest)
    ensures IsText(q + rest) && Decode(q + rest) == Triple(Join(q)) + Decode(rest)
  {
    assert (q + rest)[..4] == q && (q + rest)[4..] == rest;
  }

  /** One more quad of digits in front. */
  lemma EncodeDecodeMore(q: seq<octet>, rest: seq<octet>)
    requires |q| == 4 && (forall k :: 0 <= k < 4 ==> IsDigit(q[k]))
    requires IsText(rest) && Encode(Decode(rest)) == rest
    ensures IsText(q + rest) && Encode(Decode(q + rest)) == q + rest
  {
    DecodeMore(q, rest);
    QuadOfTriple(q);
    EncodeMore(Triple(Join(q)), Decode(rest));
  }

  lemma CutQuad(text: seq<octet>)
    requires |text| >= 4
    ensures text == text[..4] + text[4..] && text[|text| - 4..] == if |text| == 4 then text else text[|text| - 4..]
  {}

  /** Re-encoding the decoding of any canonical text returns that text. */
  lemma {:induction false} EncodeDecode(text: seq<octet>)
    requires Canonical(text)
    ensures Encode(Decode(text)) == text
  {
    RestIsText(text);
    CutQuad(text);
    if |text| == 4 {
      EncodeLast(text);
    } else {
      CanonicalRest(text);
      EncodeDecode(text[4..]);
      EncodeDecodeMore(text[..4], text[4..]);
    }
  }

  /** The encoder's own digits, two bytes at a time, are those of the 24-bit group. */
  lemma CodeDigits(x: octet, y: octet, z: octet)
    ensures x % 4 * 0x10 + y / 0x10 < 0x40 && y % 0x10 * 4 + z / 0x40 < 0x40
    ensures Quad(Group(x, y, z)) ==
      [Digit(x / 4), Digit(x % 4 * 0x10 + y / 0x10), Digit(y % 0x10 * 4 + z / 0x40), Digit(z % 0x40)]
  {
    var x1, x0, y1, y0, z1, z0 := x / 4, x % 4, y / 0x10, y % 0x10, z / 0x40, z % 0x40;
    SplitValues(x1, x0 * 0x10 + y1, y0 * 4 + z1, z0);
    assert Group(x, y, z) == JoinValues(x1, x0 * 0x10 + y1, y0 * 4 + z1, z0);
  }

  /** A last quad with one pad, and one with two, whose unused bits are zero. */
  lemma CanonicalPadded(a: sextet, b: sextet, c: sextet)
    ensures c % 4 == 0 ==> Canonical([Digit(a), Digit(b), Digit(c), PAD])
    ensures b % 16 == 0 ==> Canonical([Digit(a), Digit(b), PAD, PAD])
  {
    AlphabetRoundTrip(a, 0);
    AlphabetRoundTrip(b, 0);
    AlphabetRoundTrip(c, 0);
    CanonicalLast([Digit(a), Digit(b), Digit(c), PAD]);
    CanonicalLast([Digit(a), Digit(b), PAD, PAD]);
  }

  lemma CanonicalLast(q: seq<octet>)
    ensures CanonicalQuad(q) ==> Canonical(q)
  {
    if CanonicalQuad(q) { assert q[0..] == q; }
  }

  /** The text of one last byte, and of two. */
  lemma TailText(x: octet, y: octet)
    ensures x % 4 * 0x10 + y / 0x10 < 0x40
    ensures Encode([x]) == [Digit(x / 4), Digit(x % 4 * 0x10), PAD, PAD]
    ensures Encode([x, y]) == [Digit(x / 4), Digit(x % 4 * 0x10 + y / 0x10), Digit(y % 0x10 * 4), PAD]
  {
    CodeDigits(x, 0, 0);
    CodeDigits(x, y, 0);
  }

  /** The unused bits of the last digit are zero. */
  lemma UnusedBits(x: octet, y: octet)
    ensures x % 4 * 0x10 < 0x40 && x % 4 * 0x10 % 16 == 0
    ensures y % 0x10 * 4 < 0x40 && y % 0x10 * 4 % 4 == 0
  {}

  lemma TailCanonical(x: octet, y: octet)
    ensures Canonical(Encode([x])) && Canonical(Encode([x, y]))
  {
    var one, two := Encode([x]), Encode([x, y]);
    TailText(x, y);
    UnusedBits(x, y);
    var a: sextet, b0: sextet, b: sextet, c: sextet := x / 4, x % 4 * 0x10, x % 4 * 0x10 + y / 0x10, y % 0x10 * 4;
    CanonicalPadded(a, b0, 0);
    CanonicalPadded(a, b, c);
    assert one == [Digit(a), Digit(b0), PAD, PAD] && two == [Digit(a), Digit(b), Digit(c), PAD];
  }

  /** A quad of digits in front of canonical text or of nothing. */
  lemma CanonicalMore(q: seq<octet>, rest: seq<octet>)
    requires |q| == 4 && (forall k :: 0 <= k < 4 ==> IsDigit(q[k]))
    requires rest == [] || Canonical(rest)
    ensures Canonical(q + rest)
  {
    var text := q + rest;
    assert |text| % 4 == 0 && (rest == [] ==> text == q);
    assert rest != [] ==> text[|text| - 4..] == rest[|rest| - 4..];
    AlphabetRoundTrip(0, PAD);
  }

  /** Every encoding is canonical text. */
  lemma {:induction false} EncodeCanonical(s: seq<octet>)
    requires s != []
    ensures Canonical(Encode(s))
  {
    if |s| == 1 {
      TailCanonical(s[0], 0);
      assert s == [s[0]];
    } else if |s| == 2 {
      TailCanonical(s[0], s[1]);
      assert s == [s[0], s[1]];
    } else {
      var g := Group(s[0], s[1], s[2]);
      QuadDigits(g);
      if |s| > 3 { EncodeCanonical(s[3..]); }
      CanonicalMore(Quad(g), Encode(s[3..]));
    }
  }

  /** Bijection: the encodings of non-empty byte strings are exactly the canonical texts. */
  lemma ImageExactly(text: seq<octet>)
    ensures Canonical(text) <==> exists s: seq<octet> :: s != [] && Encode(s) == text
  {
    if Canonical(text) {
      EncodeDecode(text);
      assert Decode(text) != [];
    }
    forall s: seq<octet> | s != [] && Encode(s) == text
      ensures Canonical(text)
    {
      EncodeCanonical(s);
    }
  }

  // ----- The code -----

  /** Four characters into the output. */
  method PutQuad(out: array<octet>, pos: nat, a: octet, b: octet, c: octet, d: octet)
    requires pos + 4 <= out.Length
    modifies out
    ensures out[..pos + 4] == old(out[..pos]) + [a, b, c, d]
    ensures out[pos + 4..] == old(out[pos + 4..])
  {
    out[pos], out[pos + 1], out[pos + 2], out[pos + 3] := a, b, c, d;
  }

  /** The last one or two bytes. */
  method PutTail(src: seq<octet>, out: array<octet>, pos: nat)
    requires 1 <= |src| <= 2 && pos + 4 <= out.Length
    modifies out
    ensures out[..pos + 4] == old(out[..pos]) + Encode(src)
    ensures out[pos + 4..] == old(out[pos + 4..])
  {
    var x := src[0];
    if |src| == 1 {
      TailText(x, 0);
      assert src == [x];
      PutQuad(out, pos, Digit(x / 4), Digit(x % 4 * 0x10), PAD, PAD);
    } else {
      var y := src[1];
      TailText(x, y);
      assert src == [x, y];
      PutQuad(out, pos, Digit(x / 4), Digit(x % 4 * 0x10 + y / 0x10), Digit(y % 0x10 * 4), PAD);
    }
  }

  /** The encoder's state: what is written and what the rest of the source gives are the text. */
  ghost predicate Encoding(src: seq<octet>, at: nat, out: array<octet>, pos: nat, text: seq<octet>, tail: seq<octet>)
    reads out
  {
    && at <= |src| && pos <= |text| < out.Length
    && out[..pos] + Encode(src[at..]) == text && out[|text|..] == tail
  }

  /** One round: three bytes of the source into the output. */
  method PutGroup(src: seq<octet>, at: nat, out: array<octet>, pos: nat, ghost text: seq<octet>, ghost tail: seq<octet>)
    requires at + 3 <= |src| && Encoding(src, at, out, pos, text, tail)
    modifies out
    ensures Encoding(src, at + 3, out, pos + 4, text, tail)
  {
    ghost var done := out[..pos];
    var x, y, z := src[at], src[at + 1], src[at + 2];
    CodeDigits(x, y, z);
    EncodeRest(src, at);
    PutQuad(out, pos, Digit(x / 4), Digit(x % 4 * 0x10 + y / 0x10), Digit(y % 0x10 * 4 + z / 0x40), Digit(z % 0x40));
    Regrouped(done, Quad(Group(x, y, z)), Encode(src[at + 3..]));
    assert out[|text|..] == out[pos + 4..][|text| - (pos + 4)..];
  }

  /** What the loop leaves, and the terminator. */
  method PutEnd(src: seq<octet>, at: nat, out: array<octet>, pos0: nat, ghost text: seq<octet>, ghost tail: seq<octet>)
    returns (pos: nat)
    requires |src| - at < 3 && Encoding(src, at, out, pos0, text, tail)
    modifies out
    ensures pos == |text| && out[..pos] == text && out[pos] == 0 && out[pos + 1..] == tail[1..]
  {
    pos := pos0;
    if at < |src| {
      PutTail(src[at..], out, pos);
      pos := pos + 4;
    }
    out[pos] := 0;
  }

  /** `str_base64_encode_len`: writes the text and a terminator, and returns where the terminator is. */
  method EncodeInto(src: seq<octet>, out: array<octet>) returns (pos: nat)
    requires |Encode(src)| < out.Length
    modifies out
    ensures pos == |Encode(src)|
    ensures out[..pos] == Encode(src) && out[pos] == 0
    ensures out[pos + 1..] == old(out[pos + 1..])
  {
    pos := 0;
    var at := 0;
    ghost var text, tail := Encode(src), out[|Encode(src)|..];
    assert src[0..] == src && out[..0] == [];
    while |src| - at >= 3
      invariant 0 <= at && Encoding(src, at, out, pos, text, tail)
    {
      PutGroup(src, at, out, pos, text, tail);
      pos, at := pos + 4, at + 3;
    }
    pos := PutEnd(src, at, out, pos, text, tail);
  }

  lemma EncodeRest(src: seq<octet>, at: nat)
    requires at + 3 <= |src|
    ensures Encode(src[at..]) == Quad(Group(src[at], src[at + 1], src[at + 2])) + Encode(src[at + 3..])
  {
    EncodeMore(src[at..at + 3], src[at + 3..]);
    assert src[at..] == src[at..at + 3] + src[at + 3..];
  }

  /** A byte, if there is still room for it. */
  method PutByte(dst: array<octet>, j: nat, outLen: nat, v: octet) returns (j': nat)
    requires j <= outLen <= dst.Length
    modifies dst
    ensures j' == if j < outLen then j + 1 else j
    ensures dst[..j'] == old(dst[..j]) + if j < outLen then [v] else []
    ensures dst[outLen..] == old(dst[outLen..])
  {
    j' := j;
    if j < outLen {
      dst[j] := v;
      j' := j + 1;
    }
  }

  /** The bytes of one quad, as far as there is room. */
  method PutTriple(dst: array<octet>, j: nat, outLen: nat, q: seq<octet>) returns (j': nat)
    requires j <= outLen <= dst.Length && |q| == 4
    modifies dst
    ensures j' == (if j + 3 <= outLen then j + 3 else outLen)
    ensures dst[..j'] == old(dst[..j]) + Triple(Join(q))[..j' - j]
    ensures dst[outLen..] == old(dst[outLen..])
  {
    var triple := ((Value(q[0]) * 0x40 + Value(q[1])) * 0x40 + Value(q[2])) * 0x40 + Value(q[3]);
    ghost var done, t := dst[..j], Triple(Join(q));
    var j1 := PutByte(dst, j, outLen, triple / 0x100 / 0x100);
    assert dst[..j1] == done + t[..j1 - j];
    var j2 := PutByte(dst, j1, outLen, triple / 0x100 % 0x100);
    assert dst[..j2] == done + t[..j2 - j];
    j' := PutByte(dst, j2, outLen, triple % 0x100);
    assert dst[..j'] == done + t[..j' - j];
  }

  /** The decoder's state: what is written and what the rest of the text gives are the bytes. */
  ghost predicate Decoding(text: seq<octet>, i: nat, dst: array<octet>, j: nat, outLen: nat, tail: seq<octet>)
    requires IsText(text)
    reads dst
  {
    && i <= |text| && j <= outLen <= dst.Length && outLen == |Decode(text)| && dst[outLen..] == tail
    && if i < |text| then IsText(text[i..]) && dst[..j] + Decode(text[i..]) == Decode(text)
       else dst[..j] == Decode(text)
  }

  /** One round: a quad of the text. */
  method TakeQuad(text: seq<octet>, i: nat, dst: array<octet>, j: nat, outLen: nat, ghost tail: seq<octet>)
    returns (j': nat)
    requires IsText(text) && i < |text| && Decoding(text, i, dst, j, outLen, tail)
    modifies dst
    ensures Decoding(text, i + 4, dst, j', outLen, tail)
  {
    ghost var done, rest := dst[..j], text[i..];
    RestIsText(rest);
    CutQuad(rest);
    var q := text[i..i + 4];
    assert rest[..4] == q && rest[4..] == text[i + 4..];
    j' := PutTriple(dst, j, outLen, q);
    if i + 4 == |text| {
      assert rest == q;
      LastStep(done, q, j' - j);
    } else {
      MoreStep(done, q, text[i + 4..]);
    }
  }

  /** `str_base64_decode`: decodes whole quads; any other length is an error, returned as 0. */
  method DecodeInto(text: seq<octet>, dst: array<octet>) returns (outLen: nat)
    requires text != [] && (IsText(text) ==> |Decode(text)| <= dst.Length)
    modifies dst
    ensures IsText(text) ==> outLen == |Decode(text)| && dst[..outLen] == Decode(text)
    ensures !IsText(text) ==> outLen == 0
    ensures dst[outLen..] == old(dst[outLen..])
  {
    if |text| % 4 != 0 {
      return 0;
    }
    DecodedLength(text);
    outLen := |text| / 4 * 3;
    if text[|text| - 1] == PAD { outLen := outLen - 1; }
    if text[|text| - 2] == PAD { outLen := outLen - 1; }
    var i, j := 0, 0;
    ghost var tail := dst[outLen..];
    assert text[0..] == text && dst[..0] == [];
    while i < |text|
      invariant 0 <= i && 0 <= j && Decoding(text, i, dst, j, outLen, tail)
      decreases |text| - i
    {
      j := TakeQuad(text, i, dst, j, outLen, tail);
      i := i + 4;
    }
  }

  /** The last quad's bytes complete the decoding. */
  lemma LastStep(done: seq<octet>, q: seq<octet>, n: nat)
    requires |q| == 4 && n == if |Decode(q)| >= 3 then 3 else |Decode(q)|
    ensures done + Triple(Join(q))[..n] == done + Decode(q)
  {}

  /** Any other quad's three bytes move over to what is done. */
  lemma MoreStep(done: seq<octet>, q: seq<octet>, rest: seq<octet>)
    requires |q| == 4 && IsText(rest)
    ensures IsText(q + rest) && |Decode(q + rest)| >= 3
    ensures (done + Triple(Join(q))[..3]) + Decode(rest) == done + Decode(q + rest)
  {
    DecodeMore(q, rest);
    Regrouped(done, Triple(Join(q)), Decode(rest));
    assert Triple(Join(q))[..3] == Triple(Join(q));
  }
}
