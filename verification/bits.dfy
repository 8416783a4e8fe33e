/** Unbounded non-negative integer bit operations, as Python performs them on
    `int`: shifts, bitwise and, single-bit tests, and the contiguous bit masks
    the field decoder builds. Every operation is defined by halving, and the
    lemmas connect it to ordinary division and remainder by powers of two. */
module BitOps {

  /** One byte of a save record. */
  type Byte = x: int | 0 <= x < 256

  /** `1 << n`. */
  function Pow2(n: nat): (r: nat)
    ensures r >= 1
  {
    if n == 0 then 1 else 2 * Pow2(n - 1)
  }

  /** `x >> n`: `n` successive halvings. */
  function ShiftRight(x: nat, n: nat): nat
  {
    if n == 0 then x else ShiftRight(x / 2, n - 1)
  }

  /** Bit `b` of `x` is set. */
  predicate TestBit(x: nat, b: nat)
  {
    ShiftRight(x, b) % 2 == 1
  }

  /** `x & y`. */
  function BitAnd(x: nat, y: nat): nat
    decreases x
  {
    if x == 0 || y == 0 then 0 else 2 * BitAnd(x / 2, y / 2) + (x % 2) * (y % 2)
  }

  /** The lowest `n` bits of `x` (`x & ((1 << n) - 1)`). */
  function LowBits(x: nat, n: nat): nat
  {
    if n == 0 then 0 else 2 * LowBits(x / 2, n - 1) + x % 2
  }

  /** The mask the decoder accumulates: the sum of `1 << b` for `b` running from
      `first` up to and including `last`; zero when the range is empty. */
  function Mask(first: nat, last: int): nat
    decreases if last < first then 0 else last - first + 1
  {
    if last < first then 0 else Mask(first, last - 1) + Pow2(last)
  }

  /** `lo | hi << 8`: a little-endian 16-bit word. The two bytes occupy
      disjoint bits, so the `|` is an addition. */
  function LittleEndianWord(lo: Byte, hi: Byte): (w: nat)
    ensures w < 65536
    ensures w % 256 == lo && w / 256 == hi
  {
    lo + 256 * hi
  }

  // ---------------------------------------------------------------------------
  // Division facts

  lemma MulAtLeast(k: int, d: int)
    requires k >= 1 && d > 0
    ensures k * d >= d
  {
  }

  /** Euclidean division is determined by its quotient-remainder equation. */
  lemma DivModUnique(x: int, d: int, q: int, r: int)
    requires d > 0 && 0 <= r < d && x == q * d + r
    ensures x / d == q && x % d == r
  {
    var q', r' := x / d, x % d;
    assert q' * d + r' == q * d + r;
    if q' < q {
      assert (q - q') * d == r' - r;
      MulAtLeast(q - q', d);
    } else if q' > q {
      assert (q' - q) * d == r - r';
      MulAtLeast(q' - q, d);
    }
  }

  lemma {:induction false} HalveThenDivide(x: nat, p: nat)
    requires p > 0
    ensures (x / 2) / p == x / (2 * p)
    ensures 2 * ((x / 2) % p) + x % 2 == x % (2 * p)
  {
    var q, s, t := x / 2, (x / 2) / p, (x / 2) % p;
    assert q == s * p + t;
    assert x == s * (2 * p) + (2 * t + x % 2);
    DivModUnique(x, 2 * p, s, 2 * t + x % 2);
  }

  /** `>>` is floor division by a power of two. */
  lemma {:induction false} ShiftRightIsDivision(x: nat, n: nat)
    ensures ShiftRight(x, n) == x / Pow2(n)
    decreases n
  {
    if n > 0 {
      ShiftRightIsDivision(x / 2, n - 1);
      HalveThenDivide(x, Pow2(n - 1));
    }
  }

  /** Keeping the low `n` bits is the remainder modulo `2^n`. */
  lemma {:induction false} LowBitsIsRemainder(x: nat, n: nat)
    ensures LowBits(x, n) == x % Pow2(n)
    decreases n
  {
    if n > 0 {
      LowBitsIsRemainder(x / 2, n - 1);
      HalveThenDivide(x, Pow2(n - 1));
    }
  }

  lemma {:induction false} LowBitsBound(x: nat, n: nat)
    ensures LowBits(x, n) < Pow2(n)
    decreases n
  {
    if n > 0 {
      LowBitsBound(x / 2, n - 1);
    }
  }

  // ---------------------------------------------------------------------------
  // Bitwise characterisations

  lemma {:induction false} ZeroHasNoBits(b: nat)
    ensures !TestBit(0, b)
    decreases b
  {
    if b > 0 {
      ZeroHasNoBits(b - 1);
    }
  }

  /** Two numbers with the same bits are equal. */
  lemma {:induction false} BitsDetermine(x: nat, y: nat)
    requires forall b: nat :: TestBit(x, b) == TestBit(y, b)
    ensures x == y
    decreases x + y
  {
    assert TestBit(x, 0) == TestBit(y, 0);
    if x != 0 || y != 0 {
      forall b: nat
        ensures TestBit(x / 2, b) == TestBit(y / 2, b)
      {
        assert TestBit(x, b + 1) == TestBit(y, b + 1);
      }
      BitsDetermine(x / 2, y / 2);
    }
  }

  /** A number is positive exactly when one of its bits is set. */
  lemma {:induction false} PositiveIffSomeBit(x: nat)
    ensures x > 0 <==> exists b: nat :: TestBit(x, b)
    decreases x
  {
    if x == 0 {
      forall b: nat
        ensures !TestBit(x, b)
      {
        ZeroHasNoBits(b);
      }
    } else if x % 2 == 1 {
      assert TestBit(x, 0);
    } else {
      PositiveIffSomeBit(x / 2);
      var b: nat :| TestBit(x / 2, b);
      assert TestBit(x, b + 1);
    }
  }

  lemma {:induction false} ShiftRightBits(x: nat, n: nat, b: nat)
    ensures TestBit(ShiftRight(x, n), b) == TestBit(x, b + n)
    decreases n
  {
    if n > 0 {
      ShiftRightBits(x / 2, n - 1, b);
    }
  }

  lemma {:induction false} BitAndBits(x: nat, y: nat, b: nat)
    ensures TestBit(BitAnd(x, y), b) == (TestBit(x, b) && TestBit(y, b))
    decreases b
  {
    if x == 0 || y == 0 {
      ZeroHasNoBits(b);
    } else {
      var z := BitAnd(x, y);
      assert z / 2 == BitAnd(x / 2, y / 2);
      if b == 0 {
        assert z % 2 == (x % 2) * (y % 2);
      } else {
        BitAndBits(x / 2, y / 2, b - 1);
      }
    }
  }

  lemma {:induction false} LowBitsBits(x: nat, n: nat, b: nat)
    ensures TestBit(LowBits(x, n), b) == (b < n && TestBit(x, b))
    decreases n
  {
    if n == 0 {
      ZeroHasNoBits(b);
    } else if b > 0 {
      LowBitsBits(x / 2, n - 1, b - 1);
    }
  }

  lemma {:induction false} MaskHalves(first: nat, last: int)
    ensures first >= 1 ==> Mask(first, last) == 2 * Mask(first - 1, last - 1)
    ensures first == 0 && last >= 0 ==> Mask(first, last) == 2 * Mask(0, last - 1) + 1
    decreases if last < first then 0 else last - first + 1
  {
    if last >= first {
      MaskHalves(first, last - 1);
    }
  }

  /** The mask has exactly the bits `first ..= last` set. */
  lemma {:induction false} MaskBits(first: nat, last: int, b: nat)
    ensures TestBit(Mask(first, last), b) <==> first <= b <= last
    decreases b
  {
    MaskHalves(first, last);
    if first == 0 && last < 0 {
      ZeroHasNoBits(b);
    } else if b > 0 {
      if first >= 1 {
        MaskBits(first - 1, last - 1, b - 1);
      } else {
        MaskBits(0, last - 1, b - 1);
      }
    }
  }

  // ---------------------------------------------------------------------------
  // Bit-field extraction

  /** `(x & mask) >> first`: the integer a `Bits` field decodes to. */
  function ExtractBits(x: nat, first: nat, last: int): nat
  {
    ShiftRight(BitAnd(x, Mask(first, last)), first)
  }

  /** `(x & mask) > 0`: the boolean a `Bit` field decodes to. */
  predicate AnyBitSet(x: nat, first: nat, last: int)
  {
    BitAnd(x, Mask(first, last)) > 0
  }

  /** Extracting bits `first ..= last` yields the `last - first + 1` bits of
      `x` starting at bit `first`, i.e. `(x / 2^first) % 2^(last - first + 1)`;
      an empty range yields zero. */
  lemma ExtractBitsValue(x: nat, first: nat, last: int)
    ensures first <= last ==>
      ExtractBits(x, first, last) == (x / Pow2(first)) % Pow2(last - first + 1)
    ensures first <= last ==> ExtractBits(x, first, last) < Pow2(last - first + 1)
    ensures last < first ==> ExtractBits(x, first, last) == 0
  {
    var e := ExtractBits(x, first, last);
    if first <= last {
      var n: nat := last - first + 1;
      var low := LowBits(ShiftRight(x, first), n);
      forall b: nat
        ensures TestBit(e, b) == TestBit(low, b)
      {
        ShiftRightBits(BitAnd(x, Mask(first, last)), first, b);
        BitAndBits(x, Mask(first, last), b + first);
        MaskBits(first, last, b + first);
        LowBitsBits(ShiftRight(x, first), n, b);
        ShiftRightBits(x, first, b);
      }
      BitsDetermine(e, low);
      LowBitsIsRemainder(ShiftRight(x, first), n);
      ShiftRightIsDivision(x, first);
      LowBitsBound(ShiftRight(x, first), n);
    } else {
      forall b: nat
        ensures TestBit(e, b) == TestBit(0, b)
      {
        ShiftRightBits(BitAnd(x, Mask(first, last)), first, b);
        BitAndBits(x, Mask(first, last), b + first);
        MaskBits(first, last, b + first);
        ZeroHasNoBits(b);
      }
      BitsDetermine(e, 0);
    }
  }

  /** `(x & mask) > 0` holds exactly when some bit of `x` in `first ..= last`
      is set; for a one-bit range it is exactly bit `first` of `x`. */
  lemma AnyBitSetMeaning(x: nat, first: nat, last: int)
    ensures AnyBitSet(x, first, last) <==> exists b: nat :: first <= b <= last && TestBit(x, b)
    ensures AnyBitSet(x, first, first) <==> TestBit(x, first)
  {
    AnySetInRange(x, first, last);
    AnySetInRange(x, first, first);
  }

  lemma AnySetInRange(x: nat, first: nat, last: int)
    ensures AnyBitSet(x, first, last) <==> exists b: nat :: first <= b <= last && TestBit(x, b)
  {
    var z := BitAnd(x, Mask(first, last));
    PositiveIffSomeBit(z);
    forall b: nat
      ensures TestBit(z, b) <==> first <= b <= last && TestBit(x, b)
    {
      BitAndBits(x, Mask(first, last), b);
      MaskBits(first, last, b);
    }
  }
}
