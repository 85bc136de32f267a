/** Integer helpers shared by the bootloader and the ROM builder (lib/src/tux64/math.c). */
module Arithmetic {

  /** One past the largest value of a 32-bit unsigned integer. */
  const U32: int := 0x1_0000_0000

  /** 32-bit wrapping subtraction. */
  function Minus32(a: int, b: int): nat {
    (a - b) % U32
  }

  /** Round-up division, written as the C code does it to avoid overflowing the dividend. */
  function CeilDivide(dividend: nat, divisor: nat): nat
    requires divisor > 0
  {
    if dividend == 0 then 0 else 1 + (dividend - 1) / divisor
  }

  function AlignForward(value: nat, alignment: nat): nat
    requires alignment > 0
  {
    CeilDivide(value, alignment) * alignment
  }

  /** The 32-bit wrapper: computed in 64 bits, then truncated. */
  function AlignForward32(value: nat, alignment: nat): nat
    requires alignment > 0
  {
    AlignForward(value, alignment) % U32
  }

  predicate Aligned(value: int, alignment: nat)
    requires alignment > 0
  {
    value % alignment == 0
  }

  lemma MultipleIsAligned(quotient: nat, alignment: nat)
    requires alignment > 0
    ensures Aligned(quotient * alignment, alignment)
  {
    if quotient == 0 {
    } else {
      MultipleIsAligned(quotient - 1, alignment);
      assert quotient * alignment == (quotient - 1) * alignment + alignment;
      AddAlignment((quotient - 1) * alignment, alignment);
    }
  }

  lemma AddAlignment(value: nat, alignment: nat)
    requires alignment > 0
    ensures (value + alignment) % alignment == value % alignment
  {
    var q, r := value / alignment, value % alignment;
    assert value + alignment == (q + 1) * alignment + r by {
      assert (q + 1) * alignment == q * alignment + alignment;
    }
    DivModUnique(value + alignment, alignment, q + 1, r);
  }

  lemma MulStep(a: int, b: int, d: nat)
    requires a < b
    ensures a * d + d <= b * d
  {
    assert b * d - (a + 1) * d == (b - a - 1) * d;
    assert (b - a - 1) * d >= 0;
    assert (a + 1) * d == a * d + d;
  }

  lemma DivModUnique(value: nat, divisor: nat, q: nat, r: nat)
    requires divisor > 0 && r < divisor && value == q * divisor + r
    ensures value / divisor == q && value % divisor == r
  {
    var q', r' := value / divisor, value % divisor;
    if q' < q {
      MulStep(q', q, divisor);
    } else if q < q' {
      MulStep(q, q', divisor);
    }
  }

  /** AlignForward is the least multiple of the alignment that is not below the value. */
  lemma AlignForwardIsLeast(value: nat, alignment: nat)
    requires alignment > 0
    ensures var r := AlignForward(value, alignment);
            && value <= r < value + alignment
            && Aligned(r, alignment)
            && forall m: nat :: value <= m && Aligned(m, alignment) ==> r <= m
  {
    var r := AlignForward(value, alignment);
    var k := CeilDivide(value, alignment);
    MultipleIsAligned(k, alignment);
    if value > 0 {
      assert value - 1 == (k - 1) * alignment + (value - 1) % alignment;
      assert k * alignment == (k - 1) * alignment + alignment;
    }
    forall m: nat | value <= m && Aligned(m, alignment) ensures r <= m {
      var j := m / alignment;
      if j < k {
        MulStep(j, k, alignment);
      } else if k < j {
        MulStep(k, j, alignment);
      }
    }
  }

  /** Stepping back by one lowers a positive remainder by one. */
  lemma RemainderOfPredecessor(value: nat, alignment: nat)
    requires alignment > 0 && value % alignment > 0
    ensures (value - 1) % alignment == value % alignment - 1
  {
    DivModUnique(value - 1, alignment, value / alignment, value % alignment - 1);
  }

  function AbsoluteDifference(lhs: nat, rhs: nat): nat {
    if rhs > lhs then rhs - lhs else lhs - rhs
  }
}
