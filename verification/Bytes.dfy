/** Byte strings, and the flattening of a list of pieces into one string. */
module Bytes {

  type byte = bv8

  /** The pieces one after the other. */
  ghost function Flat(pieces: seq<seq<byte>>): seq<byte> {
    if pieces == [] then [] else pieces[0] + Flat(pieces[1..])
  }

  lemma {:induction false} FlatSnoc(pieces: seq<seq<byte>>, last: seq<byte>)
    ensures Flat(pieces + [last]) == Flat(pieces) + last
  {
    if pieces == [] {
      assert pieces + [last] == [last];
    } else {
      FlatSnoc(pieces[1..], last);
      assert (pieces + [last])[1..] == pieces[1..] + [last];
    }
  }

  /** A copy that has reached `at` in `more` goes on by `n` bytes. */
  lemma Extend(data: seq<byte>, more: seq<byte>, at: nat, n: nat)
    requires at + n <= |more|
    ensures data + more[..at] + more[at..at + n] == data + more[..at + n] <= data + more
    ensures data + more[..0] == data && more[..|more|] == more
  {}

  /** Moving the first piece over to what is done keeps the whole. */
  lemma FlatPop(done: seq<byte>, pieces: seq<seq<byte>>)
    requires pieces != []
    ensures done + pieces[0] + Flat(pieces[1..]) == done + Flat(pieces)
    ensures done + pieces[0] <= done + Flat(pieces)
  {
    assert done + pieces[0] + Flat(pieces[1..]) == done + (pieces[0] + Flat(pieces[1..]));
  }
}
