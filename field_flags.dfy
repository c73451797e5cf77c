/** The field flags (the `Ff` entry) of a variable-text field: seven named
    boolean characteristics, each one bit of a Java `int`. Bits are numbered
    from 0 at the least significant end, so bit position 12 is the one the
    PDF standard calls bit 13. */
module FieldFlags {
  import opened JavaInt

  datatype Flag =
    | Multiline
    | Password
    | FileSelect
    | DoNotSpellCheck
    | DoNotScroll
    | Comb
    | RichText

  /** The bit position of each flag. */
  function Position(f: Flag): nat
  {
    match f
    case Multiline => 12
    case Password => 13
    case FileSelect => 20
    case DoNotSpellCheck => 22
    case DoNotScroll => 23
    case Comb => 24
    case RichText => 25
  }

  /** The masks the source writes as `1 << 12`, ... `1 << 25`, here as
      hexadecimal literals. */
  function Mask(f: Flag): int
  {
    match f
    case Multiline => 0x1000
    case Password => 0x2000
    case FileSelect => 0x10_0000
    case DoNotSpellCheck => 0x40_0000
    case DoNotScroll => 0x80_0000
    case Comb => 0x100_0000
    case RichText => 0x200_0000
  }

  function Pow2(n: nat): (r: int)
    ensures r >= 1
  {
    if n == 0 then 1 else 2 * Pow2(n - 1)
  }

  /** 2^31, the bound of a Java `int`, and the two masks the flags need
      the deepest unfolding of `Pow2` to reach. */
  lemma Pow2Values()
    ensures Pow2(24) == 0x100_0000 && Pow2(25) == 0x200_0000 && Pow2(31) == TWO_31
  {
    assert Pow2(12) == 0x1000;
  }

  /** Bit `n` of the (infinite) two's-complement representation of `x`;
      for a Java `int` and `n < 32` this is `(x & (1 << n)) != 0`. */
  predicate Bit(x: int, n: nat)
    decreases n
  {
    if n == 0 then x % 2 == 1 else Bit(x / 2, n - 1)
  }

  /** No bit of 0 is set. */
  lemma {:induction false} ZeroHasNoBits(n: nat)
    ensures !Bit(0, n)
    decreases n
  {
    if n > 0 {
      ZeroHasNoBits(n - 1);
    }
  }

  /** 2^k has bit k set and no other. */
  lemma {:induction false} BitsOfPower(k: nat, n: nat)
    ensures Bit(Pow2(k), n) == (k == n)
    decreases k
  {
    if k == 0 {
      if n > 0 {
        ZeroHasNoBits(n - 1);
      }
    } else if n > 0 {
      assert Pow2(k) / 2 == Pow2(k - 1);
      BitsOfPower(k - 1, n - 1);
    }
  }

  /** Each mask is the single bit at the flag's position, and no two flags
      share a position. */
  lemma MasksAreDistinctBits(f: Flag, g: Flag)
    ensures Mask(f) == Pow2(Position(f)) && Position(f) < 31
    ensures f != g ==> Position(f) != Position(g)
  {
    Pow2Values();
  }

  /** Adding 2^p to `x` flips bit p of `x`. */
  lemma {:induction false} AddFlipsBit(x: int, p: nat)
    ensures Bit(x + Pow2(p), p) == !Bit(x, p)
    decreases p
  {
    if p > 0 {
      assert (x + Pow2(p)) / 2 == x / 2 + Pow2(p - 1);
      AddFlipsBit(x / 2, p - 1);
    }
  }

  /** Adding 2^p to `x` when bit p of `x` is clear leaves every other bit. */
  lemma {:induction false} AddKeepsOtherBits(x: int, p: nat, q: nat)
    requires !Bit(x, p) && q != p
    ensures Bit(x + Pow2(p), q) == Bit(x, q)
    decreases p
  {
    if p == 0 {
      assert (x + 1) / 2 == x / 2;
    } else {
      assert (x + Pow2(p)) / 2 == x / 2 + Pow2(p - 1);
      if q > 0 {
        AddKeepsOtherBits(x / 2, p - 1, q - 1);
      }
    }
  }

  /** Setting a clear bit below bit n of a value in [-2^n, 2^n) stays in range. */
  lemma {:induction false} AddBitInRange(x: int, p: nat, n: nat)
    requires p < n && -Pow2(n) <= x < Pow2(n) && !Bit(x, p)
    ensures x + Pow2(p) < Pow2(n)
    decreases p
  {
    if p > 0 {
      assert Pow2(n) == 2 * Pow2(n - 1) && Pow2(p) == 2 * Pow2(p - 1);
      assert -Pow2(n - 1) <= x / 2 < Pow2(n - 1);
      AddBitInRange(x / 2, p - 1, n - 1);
    }
  }

  /** Clearing a set bit below bit n of a value in [-2^n, 2^n) stays in range. */
  lemma {:induction false} ClearBitInRange(x: int, p: nat, n: nat)
    requires p < n && -Pow2(n) <= x < Pow2(n) && Bit(x, p)
    ensures -Pow2(n) <= x - Pow2(p)
    decreases p
  {
    if p > 0 {
      assert Pow2(n) == 2 * Pow2(n - 1) && Pow2(p) == 2 * Pow2(p - 1);
      assert -Pow2(n - 1) <= x / 2 < Pow2(n - 1);
      ClearBitInRange(x / 2, p - 1, n - 1);
    }
  }

  /** Adding a multiple of 2^j to `x` leaves every bit below j. */
  lemma {:induction false} BitShift(x: int, m: int, j: nat, k: nat)
    requires k < j
    ensures Bit(x + Pow2(j) * m, k) == Bit(x, k)
    decreases k
  {
    assert Pow2(j) * m == 2 * (Pow2(j - 1) * m);
    if k > 0 {
      assert (x + Pow2(j) * m) / 2 == x / 2 + Pow2(j - 1) * m;
      BitShift(x / 2, m, j - 1, k - 1);
    }
  }

  /** Two integers congruent modulo 2^32 have the same low 32 bits, so a
      number and its `intValue()` answer every flag test alike. */
  lemma LowBitsAgree(x: int, y: int, k: nat)
    requires (x - y) % TWO_32 == 0 && k < 32
    ensures Bit(x, k) == Bit(y, k)
  {
    Pow2Values();
    assert Pow2(32) == TWO_32;
    var m := (x - y) / TWO_32;
    assert x == y + Pow2(32) * m;
    BitShift(y, m, 32, k);
  }

  /** `getFlag`: whether the flag's bit is set in the flags word. */
  function Test(flags: Int32, f: Flag): (r: bool)
    ensures flags == 0 ==> !r
    ensures flags == Mask(f) ==> r
  {
    ZeroHasNoBits(Position(f));
    MasksAreDistinctBits(f, f);
    BitsOfPower(Position(f), Position(f));
    Bit(flags, Position(f))
  }

  /** `setFlag`'s arithmetic: `flags | mask` when `value` holds, otherwise
      `flags & ~mask`. The result is again a Java `int`, has the flag's bit
      equal to `value`, and agrees with `flags` on every other bit. */
  function Set(flags: Int32, f: Flag, value: bool): (r: Int32)
    ensures Test(r, f) == value
    ensures forall q: nat :: q != Position(f) ==> Bit(r, q) == Bit(flags, q)
  {
    var p := Position(f);
    MasksAreDistinctBits(f, f);
    Pow2Values();
    if Bit(flags, p) == value then
      flags
    else if value then
      AddFlipsBit(flags, p);
      AddBitInRange(flags, p, 31);
      forall q: nat | q != p ensures Bit(flags + Mask(f), q) == Bit(flags, q) {
        AddKeepsOtherBits(flags, p, q);
      }
      flags + Mask(f)
    else
      AddFlipsBit(flags - Mask(f), p);
      ClearBitInRange(flags, p, 31);
      forall q: nat | q != p ensures Bit(flags - Mask(f), q) == Bit(flags, q) {
        AddKeepsOtherBits(flags - Mask(f), p, q);
      }
      flags - Mask(f)
  }

  /** Setting or clearing one flag leaves the reading of every other flag. */
  lemma SetKeepsOtherFlags(flags: Int32, f: Flag, g: Flag, value: bool)
    requires f != g
    ensures Test(Set(flags, f, value), g) == Test(flags, g)
  {
  }
}
