/** The fixed-width unsigned integers of the C++ sources, and arithmetic modulo 2^64. */
module Words {
  const U64_SIZE: nat := 0x1_0000_0000_0000_0000
  const U32_SIZE: nat := 0x1_0000_0000
  type U64 = x: nat | x < 0x1_0000_0000_0000_0000
  type U32 = x: nat | x < 0x1_0000_0000

  function Wrap64(x: nat): U64 { x % U64_SIZE }

  lemma WrapAdd(a: nat, b: nat)
    ensures Wrap64(Wrap64(a) + b) == Wrap64(a + b)
  {
    var k := a / U64_SIZE;
    assert a + b == Wrap64(a) + b + k * U64_SIZE;
    WrapShift(Wrap64(a) + b, k);
  }

  lemma {:induction false} WrapShift(a: nat, k: nat)
    ensures Wrap64(a + k * U64_SIZE) == Wrap64(a)
  {
    if k > 0 {
      WrapShift(a, k - 1);
      assert a + k * U64_SIZE == a + (k - 1) * U64_SIZE + U64_SIZE;
    }
  }

  lemma WrapProduct(a: nat, b: nat)
    ensures Wrap64(Wrap64(a) * b) == Wrap64(a * b)
  {
    var k := a / U64_SIZE;
    assert a == Wrap64(a) + k * U64_SIZE;
    assert a * b == Wrap64(a) * b + k * b * U64_SIZE;
    WrapShift(Wrap64(a) * b, k * b);
  }
}
