/** Multiples of the point widths. */
module Divisibility {

  lemma Multiples32(a: nat, b: nat)
    requires a % 32 == 0 && b % 32 == 0
    ensures (a + b) % 32 == 0 && (a >= b ==> (a - b) % 32 == 0) && (a > 0 ==> a >= 32 && (a - 32) % 32 == 0)
  {}

  lemma Multiples64(a: nat, b: nat)
    requires a % 64 == 0 && b % 64 == 0
    ensures (a + b) % 64 == 0 && (a >= b ==> (a - b) % 64 == 0) && (a > 0 ==> a >= 64 && (a - 64) % 64 == 0)
  {}

  lemma Multiples128(a: nat)
    requires a % 128 == 0 && a > 0
    ensures a >= 128 && (a - 128) % 128 == 0
  {}

  lemma Halves64(a: nat)
    requires a % 64 == 0
    ensures (a / 2) % 32 == 0 && 2 * (a / 2) == a
  {
    var q := a / 64;
    assert a == 64 * q;
    assert a / 2 == 32 * q;
  }

  lemma Halves128(a: nat)
    requires a % 128 == 0
    ensures (a / 2) % 64 == 0 && 2 * (a / 2) == a
  {
    var q := a / 128;
    assert a == 128 * q;
    assert a / 2 == 64 * q;
  }
}
