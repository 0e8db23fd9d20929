/**
  The polled SPI transfer (libraries/HAL_Drivers/drv_spi.c): a message of any length goes out in
  chunks, because the transfer functions below take a length of 16 bits.
 */
module SpiSplit {
  import opened Bytes
  import opened Words

  const ERROR := -1

  /** A buffer filled up to `at`, where the next chunk is received. */
  method Place(recv: array<byte>, at: nat, chunk: seq<byte>)
    requires at + |chunk| <= recv.Length
    modifies recv
    ensures recv[..] == old(recv[..at]) + chunk + old(recv[at + |chunk|..])
  {
    for i := 0 to |chunk|
      invariant recv[..] == old(recv[..at]) + chunk[..i] + old(recv[at + i..])
    {
      recv[at + i] := chunk[i];
    }
  }

  /**
    One chunk from `done`, in the direction or directions for which there is a buffer. A receiver alone
    sends ones, which it puts in its buffer first.
   */
  method Exchange(send: Option<seq<byte>>, recv: array?<byte>, done: nat, n: nat, input: seq<byte>, works: bool)
    returns (ok: bool)
    requires done + n <= |input|
    requires recv != null ==> done + n <= recv.Length
    modifies if recv == null then {} else {recv}
    ensures ok <==> works && (send.Some? || recv != null)
    ensures recv != null ==> recv[..done] == old(recv[..done]) && recv[done + n..] == old(recv[done + n..])
    ensures recv != null && ok ==> recv[done..done + n] == input[done..done + n]
    ensures recv != null && send.None? && !ok ==> forall i :: done <= i < done + n ==> recv[i] == 0xff
  {
    if recv == null {
      return works && send.Some?;
    }
    if send.None? {
      Place(recv, done, seq(n, _ => 0xff));
    }
    if works {
      Place(recv, done, input[done..done + n]);
    }
    return works;
  }

  lemma Longer(a: seq<byte>, b: seq<byte>, at: nat, n: nat)
    requires at + n <= |a| && at + n <= |b|
    requires a[..at] == b[..at] && a[at..at + n] == b[at..at + n]
    ensures a[..at + n] == b[..at + n]
  {
    assert a[..at + n] == a[..at] + a[at..at + n];
    assert b[..at + n] == b[..at] + b[at..at + n];
  }

  /**
    A transfer. `input` is what the device answers and `works` says which chunks succeed. The chunks
    tile the message: contiguous, in order, at most 65535 bytes long. When all of them
    succeed the whole message is exchanged; otherwise everything before the first that fails.
   */
  method Transfer(length: nat, send: Option<seq<byte>>, recv: array?<byte>, input: seq<byte>, works: nat -> bool)
    returns (result: int, output: seq<byte>, rounds: nat, chunks: seq<seq<byte>>)
    requires send.Some? ==> |send.value| >= length
    requires recv != null ==> recv.Length >= length
    requires |input| >= length
    modifies if recv == null then {} else {recv}
    ensures Flat(chunks) == output && forall i :: 0 <= i < |chunks| ==> 0 < |chunks[i]| <= 65535
    ensures send.Some? ==> |chunks| == rounds
    ensures forall k :: 0 <= k < rounds ==> works(k)
    ensures var exchanged := if result == ERROR then 65535 * rounds else length;
            && exchanged <= length
            && output == (if send.Some? then send.value[..exchanged] else [])
            && (recv != null ==> recv[..exchanged] == input[..exchanged] && recv[length..] == old(recv[length..]))
    ensures result == ERROR || (result == length && rounds == (length + 65534) / 65535)
    ensures result == ERROR <==>
      length > 0 && ((send.None? && recv == null) || (65535 * rounds < length && !works(rounds)))
  {
    var remaining: nat := length;
    rounds, output, chunks := 0, [], [];
    while remaining > 0
      invariant remaining <= length && (remaining == 0 || length - remaining == 65535 * rounds)
      invariant remaining == 0 ==> rounds == (length + 65534) / 65535
      invariant remaining < length ==> send.Some? || recv != null
      invariant Flat(chunks) == output == if send.Some? then send.value[..length - remaining] else []
      invariant forall i :: 0 <= i < |chunks| ==> 0 < |chunks[i]| <= 65535
      invariant send.Some? ==> |chunks| == rounds
      invariant forall k :: 0 <= k < rounds ==> works(k)
      invariant recv != null ==> recv[..length - remaining] == input[..length - remaining]
      invariant recv != null ==> recv[length..] == old(recv[length..])
    {
      var sendLength: nat;
      if remaining > 65535 {
        sendLength := 65535;
        remaining := remaining - 65535;
      } else {
        sendLength := remaining;
        remaining := 0;
      }
      var done := length - sendLength - remaining;
      var ok := Exchange(send, recv, done, sendLength, input, works(rounds));
      if !ok {
        result := ERROR;
        return;
      }
      if recv != null {
        Longer(recv[..], input, done, sendLength);
      }
      if send.Some? {
        var chunk := send.value[done..done + sendLength];
        FlatSnoc(chunks, chunk);
        chunks := chunks + [chunk];
        output := output + chunk;
      }
      rounds := rounds + 1;
    }
    result := length;
  }
}
