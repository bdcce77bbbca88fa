/** Entity identity: `Long` ids and their hash codes. */
module Ids {
  import opened Wrappers

  function Pow2(n: nat): (p: nat)
    ensures p >= 1
  {
    if n == 0 then 1 else 2 * Pow2(n - 1)
  }

  /** Bitwise exclusive or of the low `width` bits of `a` and `b`. */
  function Xor(a: nat, b: nat, width: nat): (r: nat)
    ensures r < Pow2(width)
  {
    if width == 0 then 0
    else (if a % 2 == b % 2 then 0 else 1) + 2 * Xor(a / 2, b / 2, width - 1)
  }

  /** Exclusive or with zero keeps every value that fits in the width. */
  lemma {:induction false} XorZero(a: nat, width: nat)
    requires a < Pow2(width)
    ensures Xor(a, 0, width) == a
  {
    if width > 0 {
      XorZero(a / 2, width - 1);
    }
  }

  /** `Long.hashCode(v)`: `(int)(v ^ (v >>> 32))`, that is the low and the high 32 bits of the
      64-bit two's complement of `v` combined by exclusive or, read back as a signed `int`. */
  function LongHashCode(v: int): (h: int)
    ensures -0x8000_0000 <= h < 0x8000_0000
  {
    var bits := v % 0x1_0000_0000_0000_0000;
    var folded := Xor(bits % 0x1_0000_0000, bits / 0x1_0000_0000, 32);
    assert Pow2(32) == 0x1_0000_0000 by { Pow2Value(); }
    if folded < 0x8000_0000 then folded else folded - 0x1_0000_0000
  }

  lemma Pow2Value()
    ensures Pow2(32) == 0x1_0000_0000
  {
    assert Pow2(8) == 256 by {
      assert Pow2(4) == 16;
    }
    assert Pow2(16) == 65536 by {
      assert Pow2(12) == 4096;
    }
    assert Pow2(24) == 0x100_0000 by {
      assert Pow2(20) == 0x10_0000;
    }
    assert Pow2(28) == 0x1000_0000;
  }

  /** A non-negative id below 2^31 is its own hash code. */
  lemma SmallIdHashesToItself(v: int)
    requires 0 <= v < 0x8000_0000
    ensures LongHashCode(v) == v
  {
    var bits := v % 0x1_0000_0000_0000_0000;
    assert bits == v;
    assert bits % 0x1_0000_0000 == v && bits / 0x1_0000_0000 == 0;
    Pow2Value();
    XorZero(v, 32);
    assert Xor(v, 0, 32) == v;
  }

  /** The entities' `hashCode()`: the id's hash, or 0 for a null id. */
  function IdHashCode(id: Option<int>): (h: int)
    ensures id.None? ==> h == 0
    ensures id.Some? ==> h == LongHashCode(id.value)
  {
    if id.Some? then LongHashCode(id.value) else 0
  }
}
