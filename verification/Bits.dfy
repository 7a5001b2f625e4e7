/** The bitwise operations of the source on non-negative integers. */
module Bits {
  import Division

  function And(a: nat, b: nat): nat {
    if a == 0 || b == 0 then 0
    else (if a % 2 == 1 && b % 2 == 1 then 1 else 0) + 2 * And(a / 2, b / 2)
  }

  function Or(a: nat, b: nat): nat {
    if a == 0 then b
    else if b == 0 then a
    else (if a % 2 == 1 || b % 2 == 1 then 1 else 0) + 2 * Or(a / 2, b / 2)
  }

  function Power2(k: nat): (p: nat)
    ensures p > 0
  {
    if k == 0 then 1 else 2 * Power2(k - 1)
  }

  lemma {:induction false} Power2Add(j: nat, k: nat)
    ensures Power2(j + k) == Power2(j) * Power2(k)
  {
    if j > 0 {
      Power2Add(j - 1, k);
      Division.Associate(2, Power2(j - 1), Power2(k));
    }
  }

  lemma Power2Fields()
    ensures Power2(16) == 0x1_0000 && Power2(32) == 0x1_0000_0000 && Power2(48) == 0x1_0000_0000_0000
  {
    assert Power2(4) == 0x10;
    Power2Add(4, 4);
    Power2Add(8, 8);
    Power2Add(16, 16);
    Power2Add(16, 32);
  }

  function ShiftLeft(a: nat, k: nat): nat {
    a * Power2(k)
  }

  predicate PowerOfTwo(n: nat) {
    n == 1 || (n > 1 && n % 2 == 0 && PowerOfTwo(n / 2))
  }

  /** Masking with size - 1 is the remainder by a power of two. */
  lemma {:induction false} MaskIsRemainder(x: nat, size: nat)
    requires PowerOfTwo(size)
    ensures And(x, size - 1) == x % size
    decreases size
  {
    if size > 1 {
      var half := size / 2;
      MaskIsRemainder(x / 2, half);
      Division.ModDouble(x, half);
      assert (size - 1) / 2 == half - 1 && (size - 1) % 2 == 1;
      AndStep(x, size - 1);
    }
  }

  lemma AndStep(a: nat, b: nat)
    ensures And(a, b) == (if a % 2 == 1 && b % 2 == 1 then 1 else 0) + 2 * And(a / 2, b / 2)
  {
  }

  /** ORing a field shifted past the bits in use is adding it. */
  lemma {:induction false} OrIsSum(a: nat, b: nat, k: nat)
    requires a < Power2(k)
    ensures Or(a, ShiftLeft(b, k)) == a + ShiftLeft(b, k)
    decreases k
  {
    if k > 0 {
      OrIsSum(a / 2, b, k - 1);
      ShiftStep(b, k);
      hide ShiftLeft, Power2;
      OrStep(a, 2 * ShiftLeft(b, k - 1));
    }
  }

  lemma ShiftStep(b: nat, k: nat)
    requires k > 0
    ensures ShiftLeft(b, k) == 2 * ShiftLeft(b, k - 1) && Power2(k) == 2 * Power2(k - 1)
  {
    var p := Power2(k - 1);
    assert Power2(k) == 2 * p;
    hide Power2;
    assert b * (2 * p) == 2 * (b * p);
  }

  lemma OrStep(a: nat, b: nat)
    ensures Or(a, b) == (if a % 2 == 1 || b % 2 == 1 then 1 else 0) + 2 * Or(a / 2, b / 2)
  {
    if a == 0 { assert Or(0, b / 2) == b / 2; }
    else if b == 0 { assert Or(a / 2, 0) == a / 2; }
  }
}
