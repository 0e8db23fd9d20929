/** Machine integers as numbers, powers of two, optional values and concatenation, shared by the drivers' models. */
module Words {

  const TWO_TO_32: int := 0x1_0000_0000

  type word = x: int | 0 <= x < 0x1_0000_0000

  type octet = x: int | 0 <= x < 0x100

  datatype Option<T> = None | Some(value: T)

  function Pow2(n: nat): (p: nat)
    ensures p > 0
  {
    if n == 0 then 1 else 2 * Pow2(n - 1)
  }

  lemma {:induction false} Pow2Sum(m: nat, n: nat)
    ensures Pow2(m) * Pow2(n) == Pow2(m + n)
  {
    if m > 0 {
      Pow2Sum(m - 1, n);
      DoubledFactor(Pow2(m - 1), Pow2(n));
    }
  }

  lemma DoubledFactor(a: nat, b: nat)
    ensures (2 * a) * b == 2 * (a * b)
  {}

  lemma {:induction false} Pow2Increasing(m: nat, n: nat)
    requires m < n
    ensures Pow2(m) < Pow2(n)
  {
    if m + 1 < n {
      Pow2Increasing(m, n - 1);
    }
  }

  /** Concatenation is associative. */
  lemma Regrouped<T>(a: seq<T>, b: seq<T>, c: seq<T>)
    ensures (a + b) + c == a + (b + c)
  {}
}
