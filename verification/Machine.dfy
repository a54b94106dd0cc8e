/** The fixed-width arithmetic the evidence pipeline relies on. Counters are
    naturals; saturation and truncation are written out where they happen. */
module Machine {
  const U32_MAX: nat := 0xFFFF_FFFF

  type u32 = n: nat | n <= U32_MAX

  /** `u32::saturating_add`. */
  function SatAdd(a: nat, b: nat): nat {
    if a + b <= U32_MAX then a + b else U32_MAX
  }

  /** What a counter shows that started at zero and saturates. */
  function Capped(n: nat): u32 {
    if n <= U32_MAX then n else U32_MAX
  }

  /** `u32::saturating_sub`. */
  function SatSub(a: nat, b: nat): nat {
    if a >= b then a - b else 0
  }

  /** `u32::saturating_mul`. */
  function SatMul(a: nat, b: nat): nat {
    if a * b <= U32_MAX then a * b else U32_MAX
  }

  /** `usize as u32`: only the low 32 bits survive. */
  function AsU32(n: nat): nat {
    n % (U32_MAX + 1)
  }

  lemma SmallIsExact(n: nat)
    requires n <= U32_MAX
    ensures AsU32(n) == n
  {
  }

  /** A wrapped counter counts on as if it had never wrapped. */
  lemma WrapsOn(n: nat)
    ensures AsU32(AsU32(n) + 1) == AsU32(n + 1)
  {
    var m := U32_MAX + 1;
    assert n == (n / m) * m + n % m;
    if n % m == U32_MAX {
      assert n + 1 == (n / m + 1) * m;
    } else {
      assert n + 1 == (n / m) * m + (n % m + 1);
    }
  }
}
