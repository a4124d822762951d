/** The detection counter: an unsigned 32-bit integer that is incremented
    once per detection event and wraps around to 0 after 2^32 - 1. */
module Counter {

  const CountModulus: nat := 0x1_0000_0000

  /** One increment of the counter. */
  function Tick(c: nat): nat
  {
    if c + 1 == CountModulus then 0 else c + 1
  }

  /** n increments of the counter in a row. */
  function Advance(c: nat, n: nat): nat
  {
    if n == 0 then c else Tick(Advance(c, n - 1))
  }

  /** An increment is addition modulo 2^32. */
  lemma TickIsIncrement(c: nat)
    requires c < CountModulus
    ensures Tick(c) == (c + 1) % CountModulus
    ensures Tick(c) < CountModulus
  {
  }

  /** n increments are the addition of n modulo 2^32. */
  lemma {:induction false} AdvanceIsAddition(c: nat, n: nat)
    requires c < CountModulus
    ensures Advance(c, n) == (c + n) % CountModulus
  {
    if n > 0 {
      AdvanceIsAddition(c, n - 1);
      var p := Advance(c, n - 1);
      TickIsIncrement(p);
      var q := (c + n - 1) / CountModulus;
      assert c + n - 1 == q * CountModulus + p;
    }
  }

  /** a increments followed by b increments are a + b increments. */
  lemma {:induction false} AdvanceAdd(c: nat, a: nat, b: nat)
    ensures Advance(Advance(c, a), b) == Advance(c, a + b)
  {
    if b > 0 {
      AdvanceAdd(c, a, b - 1);
    }
  }

  /** Short of the wrap-around, n increments add exactly n. */
  lemma {:induction false} AdvanceWithoutWrap(c: nat, n: nat)
    requires c + n < CountModulus
    ensures Advance(c, n) == c + n
  {
    if n > 0 {
      AdvanceWithoutWrap(c, n - 1);
    }
  }
}
