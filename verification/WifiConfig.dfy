/**
  Saving and restoring the WLAN configuration (board/port/wifi_config.c, for EasyFlash before
  version 4): the bytes go into the environment as Base64 text, their number as decimal text.
 */
module WifiConfig {
  import opened Words
  import opened Base64

  // ----- Decimal text -----

  /** `sprintf` of a non-negative number with "%d". */
  function Decimal(n: nat): (text: seq<octet>)
    ensures text != []
  {
    if n < 10 then [0x30 + n] else Decimal(n / 10) + [0x30 + n % 10]
  }

  /** `atoi` of a text that is all digits. */
  function Number(text: seq<octet>): int {
    if text == [] then 0 else Number(text[..|text| - 1]) * 10 + (text[|text| - 1] as int - 0x30)
  }

  lemma {:induction false} NumberDecimal(n: nat)
    ensures Number(Decimal(n)) == n
  {
    if n < 10 {
      assert Decimal(n)[..0] == [];
    } else {
      NumberDecimal(n / 10);
      assert Decimal(n)[..|Decimal(n)| - 1] == Decimal(n / 10);
    }
  }

  /** The decimal digits, most significant first. */
  lemma DecimalDigits(n: nat, d: nat)
    requires d < 10
    ensures Decimal(d) == [0x30 + d]
    ensures n > 0 ==> Decimal(10 * n + d) == Decimal(n) + [0x30 + d]
  {}

  // ----- The store -----

  datatype Key = WlanCfgLen | WlanCfgInfo

  datatype Outcome = NoMemory | Saved(len: nat)

  /** The size `write_cfg` allocates for the text and its terminator. */
  function Allocation(len: nat): nat {
    len * 4 / 3 + 4
  }

  lemma SizesCompare(len: nat)
    ensures 4 * ((len + 2) / 3) + 1 <= Allocation(len)
    ensures 4 * ((len + 2) / 3) + 1 == Allocation(len) <==> len % 3 == 1
  {
    var k := len / 3;
    if len % 3 == 0 {
      assert len == 3 * k;
    } else if len % 3 == 1 {
      assert len == 3 * k + 1;
    } else {
      assert len == 3 * k + 2;
    }
  }

  /**
    The allocation always holds the text and its terminator, with no byte to spare exactly when
    one byte is left over from whole groups of three.
   */
  lemma AllocationFits(s: seq<octet>)
    ensures |Encode(s)| + 1 <= Allocation(|s|)
    ensures |Encode(s)| + 1 == Allocation(|s|) <==> |s| % 3 == 1
  {
    EncodedLength(s);
    SizesCompare(|s|);
  }

  /** The characters of a C string up to its terminator. */
  function CString(buf: seq<octet>): (text: seq<octet>)
  {
    if buf == [] || buf[0] == 0 then [] else [buf[0]] + CString(buf[1..])
  }

  lemma {:induction false} CStringOf(buf: seq<octet>, n: nat)
    requires n < |buf| && buf[n] == 0 && forall k :: 0 <= k < n ==> buf[k] != 0
    ensures CString(buf) == buf[..n]
  {
    if n > 0 { CStringOf(buf[1..], n - 1); }
  }

  class Store {
    /** The stored environment: C strings, without their terminators. */
    var env: map<Key, seq<octet>>

    constructor ()
      ensures env == map[]
    {
      env := map[];
    }

    method WriteCfg(buff: seq<octet>, gotMemory: bool) returns (ret: Outcome)
      requires |buff| * 4 < 0x8000_0000
      modifies this
      ensures gotMemory ==>
        ret == Saved(|buff|) && env == old(env)[WlanCfgLen := Decimal(|buff|)][WlanCfgInfo := Encode(buff)]
      ensures !gotMemory ==> ret == NoMemory && env == old(env)
    {
      if !gotMemory {
        return NoMemory;
      }
      AllocationFits(buff);
      var base64Buf := new octet[Allocation(|buff|)];
      env := env[WlanCfgLen := Decimal(|buff|)];
      var end := EncodeInto(buff, base64Buf);
      EncodeNoNul(buff);
      CStringOf(base64Buf[..], end);
      env := env[WlanCfgInfo := CString(base64Buf[..])];
      ret := Saved(|buff|);
    }

    method GetLen() returns (len: int)
      ensures len == if WlanCfgLen in env then Number(env[WlanCfgLen]) else 0
    {
      len := if WlanCfgLen in env then Number(env[WlanCfgLen]) else 0;
    }

    method ReadCfg(buff: array<octet>, len: int) returns (ret: int)
      requires WlanCfgInfo in env ==>
        env[WlanCfgInfo] != [] && (IsText(env[WlanCfgInfo]) ==> |Decode(env[WlanCfgInfo])| <= buff.Length)
      modifies buff
      ensures ret == if WlanCfgInfo in env then len else 0
      ensures WlanCfgInfo in env && IsText(env[WlanCfgInfo]) ==>
        buff[..] == Decode(env[WlanCfgInfo]) + old(buff[|Decode(env[WlanCfgInfo])|..])
      ensures WlanCfgInfo !in env || !IsText(env[WlanCfgInfo]) ==> buff[..] == old(buff[..])
    {
      if WlanCfgInfo in env {
        var n := DecodeInto(env[WlanCfgInfo], buff);
        assert buff[..] == buff[..n] + buff[n..];
        ret := len;
      } else {
        ret := 0;
      }
    }

    /** After a successful write of at least one byte, the length and the very same bytes come back. */
    method Persist(buff: seq<octet>) returns (len: int, restored: array<octet>)
      requires buff != [] && |buff| * 4 < 0x8000_0000
      modifies this
      ensures len == |buff| && fresh(restored) && restored[..] == buff
    {
      var outcome := WriteCfg(buff, true);
      NumberDecimal(|buff|);
      DecodeEncode(buff);
      len := GetLen();
      restored := new octet[len];
      var ret := ReadCfg(restored, len);
    }
  }
}
