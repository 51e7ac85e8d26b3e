/**
 * Arithmetic in GF(2^8) as main.c does it: symbols are uint8_t values, addition
 * is XOR, and products are reduced by the primitive polynomial
 * x^8 + x^4 + x^3 + x^2 + 1 (poly_prime = 0x11D).
 *
 * The specification functions (Add, Double, Mul, Pow2, Inverse) describe the
 * field; the methods GfPow2, GfMult and GfInv are the source's loops, proved to
 * compute them. Symbolic proofs hide the bit-level bodies (`hide *`) and work from
 * the small laws proved next to each definition.
 */
module GF {

  /** A uint8_t used as a count, an index or an exponent: integer arithmetic whose
      every intermediate value must stay within 0..255. */
  newtype U8 = x: int | 0 <= x < 256

  /** poly_prime: the reduction polynomial, with its ninth bit (0x100) set. */
  const PolyPrime: bv16 := 0x11D

  /** Addition in the field: bitwise XOR. */
  function Add(a: bv8, b: bv8): bv8 {
    a ^ b
  }

  /** One doubling step: multiply by the primitive element 2 and reduce. This is
      `t <<= 1; if (t & 0x100) t ^= poly_prime;` on a value below 0x100 (ReduceStep),
      with the bit shifted out of the byte folded back in as 0x1D. */
  function Double(t: bv8): bv8 {
    (t << 1) ^ (if t & 0x80 != 0 then 0x1D else 0)
  }

  /** The contribution of the lowest bit of y in one round of shift-and-add. */
  function Low(x: bv8, y: bv8): bv8 {
    if y & 1 == 1 then x else 0
  }

  /** `y >> 1`. */
  function Half(y: bv8): bv8 {
    y >> 1
  }

  /** The number of significant bits of y: how many rounds `while (y > 0)` runs. */
  function Width(y: bv8): nat {
    if y >= 0x80 then 8 else if y >= 0x40 then 7 else if y >= 0x20 then 6
    else if y >= 0x10 then 5 else if y >= 0x08 then 4 else if y >= 0x04 then 3
    else if y >= 0x02 then 2 else if y >= 0x01 then 1 else 0
  }

  /** k rounds of the shift-and-add product: x times the low k bits of y. */
  function MulBits(x: bv8, y: bv8, k: nat): bv8
    decreases k
  {
    if k == 0 then 0 else Add(Low(x, y), MulBits(Double(x), Half(y), k - 1))
  }

  /** The field product x * y: one round per significant bit of y. */
  function Mul(x: bv8, y: bv8): bv8 {
    MulBits(x, y, Width(y))
  }

  /** 2^e in the field, by e doublings. */
  function Pow2(e: nat): bv8 {
    if e == 0 then 1 else Double(Pow2(e - 1))
  }

  // ---------------------------------------------------------------------------
  // Bit-level laws

  /** XOR is commutative, associative, has 0 as identity and is its own inverse. */
  lemma AddLaws(a: bv8, b: bv8, c: bv8)
    ensures Add(a, b) == Add(b, a)
    ensures Add(Add(a, b), c) == Add(a, Add(b, c))
    ensures Add(a, 0) == a && Add(a, a) == 0
  {}

  /** (a + b) + (c + d) == (a + c) + (b + d). */
  lemma AddSwap(a: bv8, b: bv8, c: bv8, d: bv8)
    ensures Add(Add(a, b), Add(c, d)) == Add(Add(a, c), Add(b, d))
  {
    hide Add;
    AddLaws(a, b, Add(c, d));
    AddLaws(b, c, d);
    AddLaws(c, b, d);
    AddLaws(a, c, Add(b, d));
  }

  /** The bits of a uint8_t counter. */
  function Bits(a: U8): bv8 {
    a as bv8
  }

  /** The counter a byte stands for. */
  function Value(z: bv8): U8 {
    z as U8
  }

  /** Value undoes Bits, here for the small counters whose bits the source exchanges. */
  lemma ValueBits(a: U8)
    requires a < 8
    ensures Value(Bits(a)) == a
  {
    if a == 0 {
    } else if a == 1 {
    } else if a == 2 {
    } else if a == 3 {
    } else if a == 4 {
    } else if a == 5 {
    } else if a == 6 {
    } else {
      assert a == 7;
    }
  }

  /** The three XORs of an in-place exchange: a ^= b, b ^= a, a ^= b. */
  lemma AddExchange(a: bv8, b: bv8)
    ensures Add(b, Add(a, b)) == a && Add(Add(a, b), a) == b
  {}

  /** x + r == 0 only when x == r. */
  lemma AddCancel(x: bv8, r: bv8)
    ensures Add(x, r) == 0 <==> x == r
  {}

  /** Doubling is additive. */
  lemma DoubleAdd(a: bv8, b: bv8)
    ensures Double(Add(a, b)) == Add(Double(a), Double(b))
  {
    if a & 0x80 != 0 && b & 0x80 != 0 {
      DoubleAddBothHigh(a, b);
    } else if a & 0x80 != 0 {
      DoubleAddOneHigh(a, b);
    } else if b & 0x80 != 0 {
      DoubleAddOneHigh(b, a);
      AddLaws(a, b, 0);
      AddLaws(Double(a), Double(b), 0);
    } else {
      DoubleAddLow(a, b);
    }
  }

  /** Both top bits set: the two reductions cancel. */
  lemma DoubleAddBothHigh(a: bv8, b: bv8)
    requires a & 0x80 != 0 && b & 0x80 != 0
    ensures Double(Add(a, b)) == Add(Double(a), Double(b))
  {}

  /** One top bit set: one reduction on each side. */
  lemma DoubleAddOneHigh(a: bv8, b: bv8)
    requires a & 0x80 != 0 && b & 0x80 == 0
    ensures Double(Add(a, b)) == Add(Double(a), Double(b))
  {}

  /** No top bit set: no reduction at all. */
  lemma DoubleAddLow(a: bv8, b: bv8)
    requires a & 0x80 == 0 && b & 0x80 == 0
    ensures Double(Add(a, b)) == Add(Double(a), Double(b))
  {}

  /** What 0 does in each bit-level operation. */
  lemma ZeroFacts(x: bv8)
    ensures Double(0) == 0 && Half(0) == 0 && Width(0) == 0
    ensures Low(x, 0) == 0 && Low(0, x) == 0 && Add(0, x) == x
  {}

  /** Low(x, y) is x or 0, according to the low bit of y. */
  lemma LowCases(x: bv8, y: bv8)
    ensures (Low(x, y) == x && Low(1, y) == 1) || (Low(x, y) == 0 && Low(1, y) == 0)
  {}

  /** y is its low bit plus twice its upper bits (twice y >> 1 never needs reduction). */
  lemma Decompose(y: bv8)
    ensures y == Add(Low(1, y), Double(Half(y)))
  {}

  lemma WidthHalf(y: bv8)
    requires y != 0
    ensures Width(Half(y)) == Width(y) - 1
  {}

  /** The uint16_t step of gf_pow2 and gf_mult keeps the value below 0x100 and is Double. */
  lemma ReduceStep(t: bv16)
    requires t < 0x100
    ensures var s := t << 1;
            var u := if s & 0x0100 != 0 then s ^ PolyPrime else s;
            u < 0x100 && u as bv8 == Double(t as bv8)
  {}

  // ---------------------------------------------------------------------------
  // The product: its defining equations, then the field laws. The bit-level bodies
  // are hidden in these proofs; the laws above are all they use.

  lemma MulZeroRight(x: bv8)
    ensures Mul(x, 0) == 0
  {
    hide Add; hide Double; hide Low; hide Half; hide Width;
    ZeroFacts(x);
  }

  /** One round of the loop of gf_mult. */
  lemma MulStep(x: bv8, y: bv8)
    requires y != 0
    ensures Mul(x, y) == Add(Low(x, y), Mul(Double(x), Half(y)))
  {
    hide Add; hide Double; hide Low; hide Half; hide Width;
    WidthHalf(y);
  }

  /** Rounds beyond the significant bits of y add nothing. */
  lemma {:induction false} MulBitsHigh(x: bv8, y: bv8, k: nat)
    requires Width(y) <= k
    ensures MulBits(x, y, k) == Mul(x, y)
    decreases k
  {
    hide Add; hide Double; hide Low; hide Half; hide Width;
    if y == 0 {
      ZeroFacts(x);
      MulZeroRight(x);
      if k > 0 {
        MulBitsHigh(Double(x), 0, k - 1);
        ZeroFacts(0);
        MulZeroRight(Double(x));
      }
    } else {
      WidthHalf(y);
      MulBitsHigh(Double(x), Half(y), k - 1);
      MulStep(x, y);
    }
  }

  lemma {:induction false} MulBitsZeroLeft(y: bv8, k: nat)
    ensures MulBits(0, y, k) == 0
    decreases k
  {
    hide Add; hide Double; hide Low; hide Half; hide Width;
    ZeroFacts(y);
    if k > 0 {
      MulBitsZeroLeft(Half(y), k - 1);
      ZeroFacts(0);
    }
  }

  lemma {:induction false} MulBitsDoubleLeft(x: bv8, y: bv8, k: nat)
    ensures MulBits(Double(x), y, k) == Double(MulBits(x, y, k))
    decreases k
  {
    hide Add; hide Double; hide Low; hide Half; hide Width;
    if k > 0 {
      MulBitsDoubleLeft(Double(x), Half(y), k - 1);
      DoubleAdd(Low(x, y), MulBits(Double(x), Half(y), k - 1));
      LowCases(x, y);
      LowCases(Double(x), y);
      ZeroFacts(x);
    } else {
      ZeroFacts(x);
    }
  }

  lemma {:induction false} MulBitsAddLeft(a: bv8, b: bv8, y: bv8, k: nat)
    ensures MulBits(Add(a, b), y, k) == Add(MulBits(a, y, k), MulBits(b, y, k))
    decreases k
  {
    hide Add; hide Double; hide Low; hide Half; hide Width;
    if k > 0 {
      var ma := MulBits(Double(a), Half(y), k - 1);
      var mb := MulBits(Double(b), Half(y), k - 1);
      DoubleAdd(a, b);
      MulBitsAddLeft(Double(a), Double(b), Half(y), k - 1);
      LowCases(a, y);
      LowCases(b, y);
      LowCases(Add(a, b), y);
      var la, lb := Low(a, y), Low(b, y);
      ZeroFacts(0);
      AddLaws(la, lb, Add(ma, mb));
      AddLaws(lb, ma, mb);
      AddLaws(ma, lb, mb);
      AddLaws(la, ma, Add(lb, mb));
    } else {
      ZeroFacts(0);
    }
  }

  /** 0 and 1 behave as in any field. */
  lemma MulIdentities(x: bv8)
    ensures Mul(x, 0) == 0 && Mul(0, x) == 0
    ensures Mul(x, 1) == x && Mul(1, x) == x
  {
    hide Add; hide Double; hide Low; hide Half; hide Width;
    MulZeroRight(x);
    MulBitsZeroLeft(x, Width(x));
    MulOneLeft(x);
    MulOneRight(x);
  }

  lemma MulOneRight(x: bv8)
    ensures Mul(x, 1) == x
  {
    hide Add; hide Double; hide Low; hide Half; hide Width;
    MulStep(x, 1);
    assert Half(1) == 0 && Low(x, 1) == x && Add(x, 0) == x by {
      OneFacts(x);
    }
    MulZeroRight(Double(x));
  }

  lemma OneFacts(x: bv8)
    ensures Half(1) == 0 && Low(x, 1) == x && Add(x, 0) == x
  {}

  lemma {:induction false} MulOneLeft(y: bv8)
    ensures Mul(1, y) == y
    decreases Width(y)
  {
    hide *;
    if y == 0 {
      MulZeroRight(1);
    } else {
      var h := Half(y);
      WidthHalf(y);
      MulStep(1, y);
      MulOneLeft(h);
      MulDoubleLeft(1, h);
      Decompose(y);
      LowCases(1, y);
    }
  }

  /** Doubling a factor doubles the product. */
  lemma MulDoubleLeft(x: bv8, y: bv8)
    ensures Mul(Double(x), y) == Double(Mul(x, y))
  {
    hide Add; hide Double; hide Low; hide Half; hide Width;
    MulBitsDoubleLeft(x, y, Width(y));
  }

  /** The product distributes over addition, on the left ... */
  lemma MulAddLeft(a: bv8, b: bv8, y: bv8)
    ensures Mul(Add(a, b), y) == Add(Mul(a, y), Mul(b, y))
  {
    hide Add; hide Double; hide Low; hide Half; hide Width;
    MulBitsAddLeft(a, b, y, Width(y));
  }

  /** Multiplication in GF(2^8) is commutative. */
  lemma {:induction false} MulComm(x: bv8, y: bv8)
    ensures Mul(x, y) == Mul(y, x)
    decreases Width(y)
  {
    hide *;
    if y == 0 {
      MulIdentities(x);
    } else {
      var h := Half(y);
      WidthHalf(y);
      // x * y == low(y) * x + 2 * (h * x)
      MulStep(x, y);
      MulDoubleLeft(x, h);
      MulComm(x, h);
      MulDoubleLeft(h, x);
      // y * x == (low(y) + 2 * h) * x
      Decompose(y);
      MulAddLeft(Low(1, y), Double(h), x);
      LowCases(x, y);
      MulIdentities(x);
    }
  }

  /** ... and on the right. */
  lemma MulAddRight(x: bv8, a: bv8, b: bv8)
    ensures Mul(x, Add(a, b)) == Add(Mul(x, a), Mul(x, b))
  {
    hide *;
    MulAddLeft(a, b, x);
    MulComm(x, Add(a, b));
    MulComm(x, a);
    MulComm(x, b);
  }

  lemma MulDoubleRight(x: bv8, y: bv8)
    ensures Mul(x, Double(y)) == Double(Mul(x, y))
  {
    hide *;
    MulComm(x, Double(y));
    MulDoubleLeft(y, x);
    MulComm(y, x);
  }

  /** Multiplication in GF(2^8) is associative. */
  lemma {:induction false} MulAssoc(x: bv8, y: bv8, z: bv8)
    ensures Mul(Mul(x, y), z) == Mul(x, Mul(y, z))
    decreases Width(z)
  {
    hide *;
    if z == 0 {
      MulZeroRight(Mul(x, y));
      MulZeroRight(y);
      MulZeroRight(x);
    } else {
      var h := Half(z);
      WidthHalf(z);
      MulAssoc(x, y, h);
      // (x * y) * z == low(z) * (x * y) + 2 * (x * (y * h))
      MulStep(Mul(x, y), z);
      MulDoubleLeft(Mul(x, y), h);
      // y * z == low(z) * y + 2 * (y * h)
      MulStep(y, z);
      MulDoubleLeft(y, h);
      MulAddRight(x, Low(y, z), Double(Mul(y, h)));
      MulDoubleRight(x, Mul(y, h));
      LowCases(y, z);
      LowCases(Mul(x, y), z);
      MulIdentities(x);
    }
  }

  // ---------------------------------------------------------------------------
  // Powers of 2

  lemma Pow2Zero()
    ensures Pow2(0) == 1
  {}

  /** 2^e is never 0. */
  lemma {:induction false} Pow2NonZero(e: nat)
    ensures Pow2(e) != 0
  {
    if e > 0 {
      Pow2NonZero(e - 1);
    }
  }

  /** Below 8 no reduction happens, so 2^i is the plain shift 1 << i; this is what
      lets compute_poly_syndromes pass `1 << i` as its evaluation point. */
  lemma {:induction false} Pow2Small(i: nat)
    requires i < 8
    ensures Pow2(i) == (1 as bv8) << i
  {
    if i > 0 {
      Pow2Small(i - 1);
    }
  }

  /** 2^(a+b) == 2^a * 2^b. */
  lemma {:induction false} Pow2Add(a: nat, b: nat)
    ensures Pow2(a + b) == Mul(Pow2(a), Pow2(b))
  {
    hide Add; hide Double; hide Low; hide Half; hide Width; hide Mul;
    if a == 0 {
      MulIdentities(Pow2(b));
    } else {
      Pow2Add(a - 1, b);
      MulDoubleLeft(Pow2(a - 1), Pow2(b));
    }
  }

  /** The values 2^1 .. 2^31, one doubling at a time: none of them is 1. */
  lemma Pow2Table()
    ensures Pow2(16) == 0x4C && Pow2(31) == 0xC0
    ensures forall d :: 1 <= d < 32 ==> Pow2(d) != 1
  {
    assert Pow2(1) == 0x02;
    assert Pow2(2) == 0x04;
    assert Pow2(3) == 0x08;
    assert Pow2(4) == 0x10;
    assert Pow2(5) == 0x20;
    assert Pow2(6) == 0x40;
    assert Pow2(7) == 0x80;
    assert Pow2(8) == 0x1D;
    assert Pow2(9) == 0x3A;
    assert Pow2(10) == 0x74;
    assert Pow2(11) == 0xE8;
    assert Pow2(12) == 0xCD;
    assert Pow2(13) == 0x87;
    assert Pow2(14) == 0x13;
    assert Pow2(15) == 0x26;
    assert Pow2(16) == 0x4C;
    assert Pow2(17) == 0x98;
    assert Pow2(18) == 0x2D;
    assert Pow2(19) == 0x5A;
    assert Pow2(20) == 0xB4;
    assert Pow2(21) == 0x75;
    assert Pow2(22) == 0xEA;
    assert Pow2(23) == 0xC9;
    assert Pow2(24) == 0x8F;
    assert Pow2(25) == 0x03;
    assert Pow2(26) == 0x06;
    assert Pow2(27) == 0x0C;
    assert Pow2(28) == 0x18;
    assert Pow2(29) == 0x30;
    assert Pow2(30) == 0x60;
    assert Pow2(31) == 0xC0;
  }

  /** 2 has order 255: 2^255 == 1. */
  lemma Pow2Cycle()
    ensures Pow2(255) == 1
  {
    Pow2Table();
    Pow2Add(16, 16);
    MulBitsHigh(0x4C, 0x4C, 8);
    assert Pow2(32) == 0x9D;
    Pow2Add(32, 32);
    MulBitsHigh(0x9D, 0x9D, 8);
    assert Pow2(64) == 0x5F;
    Pow2Add(64, 64);
    MulBitsHigh(0x5F, 0x5F, 8);
    assert Pow2(128) == 0x85;
    Pow2Add(128, 64);
    MulBitsHigh(0x85, 0x5F, 8);
    assert Pow2(192) == 0x82;
    Pow2Add(192, 32);
    MulBitsHigh(0x82, 0x9D, 8);
    assert Pow2(224) == 0x12;
    Pow2Add(224, 31);
    MulBitsHigh(0x12, 0xC0, 8);
  }

  /** Exponents of 2 can be taken modulo 255. */
  lemma {:induction false} Pow2Mod(e: nat)
    ensures Pow2(e) == Pow2(e % 255)
    decreases e
  {
    hide *;
    if e >= 255 {
      Pow2Mod(e - 255);
      Pow2Add(255, e - 255);
      Pow2Cycle();
      MulIdentities(Pow2(e - 255));
    }
  }

  // ---------------------------------------------------------------------------
  // Inverses

  /** Entry-by-entry check of the inverses of 0x01..0x0F. */
  lemma InverseWitness0(x: bv8) returns (y: bv8)
    requires 0x01 <= x <= 0x0F
    ensures Mul(x, y) == 1
  {
    if x == 0x01 { y := 0x01; MulBitsHigh(0x01, 0x01, 8);
    } else if x == 0x02 { y := 0x8E; MulBitsHigh(0x02, 0x8E, 8);
    } else if x == 0x03 { y := 0xF4; MulBitsHigh(0x03, 0xF4, 8);
    } else if x == 0x04 { y := 0x47; MulBitsHigh(0x04, 0x47, 8);
    } else if x == 0x05 { y := 0xA7; MulBitsHigh(0x05, 0xA7, 8);
    } else if x == 0x06 { y := 0x7A; MulBitsHigh(0x06, 0x7A, 8);
    } else if x == 0x07 { y := 0xBA; MulBitsHigh(0x07, 0xBA, 8);
    } else if x == 0x08 { y := 0xAD; MulBitsHigh(0x08, 0xAD, 8);
    } else if x == 0x09 { y := 0x9D; MulBitsHigh(0x09, 0x9D, 8);
    } else if x == 0x0A { y := 0xDD; MulBitsHigh(0x0A, 0xDD, 8);
    } else if x == 0x0B { y := 0x98; MulBitsHigh(0x0B, 0x98, 8);
    } else if x == 0x0C { y := 0x3D; MulBitsHigh(0x0C, 0x3D, 8);
    } else if x == 0x0D { y := 0xAA; MulBitsHigh(0x0D, 0xAA, 8);
    } else if x == 0x0E { y := 0x5D; MulBitsHigh(0x0E, 0x5D, 8);
    } else { y := 0x96; MulBitsHigh(0x0F, 0x96, 8);
    }
  }

  /** Entry-by-entry check of the inverses of 0x10..0x1F. */
  lemma InverseWitness1(x: bv8) returns (y: bv8)
    requires 0x10 <= x <= 0x1F
    ensures Mul(x, y) == 1
  {
    if x == 0x10 { y := 0xD8; MulBitsHigh(0x10, 0xD8, 8);
    } else if x == 0x11 { y := 0x72; MulBitsHigh(0x11, 0x72, 8);
    } else if x == 0x12 { y := 0xC0; MulBitsHigh(0x12, 0xC0, 8);
    } else if x == 0x13 { y := 0x58; MulBitsHigh(0x13, 0x58, 8);
    } else if x == 0x14 { y := 0xE0; MulBitsHigh(0x14, 0xE0, 8);
    } else if x == 0x15 { y := 0x3E; MulBitsHigh(0x15, 0x3E, 8);
    } else if x == 0x16 { y := 0x4C; MulBitsHigh(0x16, 0x4C, 8);
    } else if x == 0x17 { y := 0x66; MulBitsHigh(0x17, 0x66, 8);
    } else if x == 0x18 { y := 0x90; MulBitsHigh(0x18, 0x90, 8);
    } else if x == 0x19 { y := 0xDE; MulBitsHigh(0x19, 0xDE, 8);
    } else if x == 0x1A { y := 0x55; MulBitsHigh(0x1A, 0x55, 8);
    } else if x == 0x1B { y := 0x80; MulBitsHigh(0x1B, 0x80, 8);
    } else if x == 0x1C { y := 0xA0; MulBitsHigh(0x1C, 0xA0, 8);
    } else if x == 0x1D { y := 0x83; MulBitsHigh(0x1D, 0x83, 8);
    } else if x == 0x1E { y := 0x4B; MulBitsHigh(0x1E, 0x4B, 8);
    } else { y := 0x2A; MulBitsHigh(0x1F, 0x2A, 8);
    }
  }

  /** Entry-by-entry check of the inverses of 0x20..0x2F. */
  lemma InverseWitness2(x: bv8) returns (y: bv8)
    requires 0x20 <= x <= 0x2F
    ensures Mul(x, y) == 1
  {
    if x == 0x20 { y := 0x6C; MulBitsHigh(0x20, 0x6C, 8);
    } else if x == 0x21 { y := 0xED; MulBitsHigh(0x21, 0xED, 8);
    } else if x == 0x22 { y := 0x39; MulBitsHigh(0x22, 0x39, 8);
    } else if x == 0x23 { y := 0x51; MulBitsHigh(0x23, 0x51, 8);
    } else if x == 0x24 { y := 0x60; MulBitsHigh(0x24, 0x60, 8);
    } else if x == 0x25 { y := 0x56; MulBitsHigh(0x25, 0x56, 8);
    } else if x == 0x26 { y := 0x2C; MulBitsHigh(0x26, 0x2C, 8);
    } else if x == 0x27 { y := 0x8A; MulBitsHigh(0x27, 0x8A, 8);
    } else if x == 0x28 { y := 0x70; MulBitsHigh(0x28, 0x70, 8);
    } else if x == 0x29 { y := 0xD0; MulBitsHigh(0x29, 0xD0, 8);
    } else if x == 0x2A { y := 0x1F; MulBitsHigh(0x2A, 0x1F, 8);
    } else if x == 0x2B { y := 0x4A; MulBitsHigh(0x2B, 0x4A, 8);
    } else if x == 0x2C { y := 0x26; MulBitsHigh(0x2C, 0x26, 8);
    } else if x == 0x2D { y := 0x8B; MulBitsHigh(0x2D, 0x8B, 8);
    } else if x == 0x2E { y := 0x33; MulBitsHigh(0x2E, 0x33, 8);
    } else { y := 0x6E; MulBitsHigh(0x2F, 0x6E, 8);
    }
  }

  /** Entry-by-entry check of the inverses of 0x30..0x3F. */
  lemma InverseWitness3(x: bv8) returns (y: bv8)
    requires 0x30 <= x <= 0x3F
    ensures Mul(x, y) == 1
  {
    if x == 0x30 { y := 0x48; MulBitsHigh(0x30, 0x48, 8);
    } else if x == 0x31 { y := 0x89; MulBitsHigh(0x31, 0x89, 8);
    } else if x == 0x32 { y := 0x6F; MulBitsHigh(0x32, 0x6F, 8);
    } else if x == 0x33 { y := 0x2E; MulBitsHigh(0x33, 0x2E, 8);
    } else if x == 0x34 { y := 0xA4; MulBitsHigh(0x34, 0xA4, 8);
    } else if x == 0x35 { y := 0xC3; MulBitsHigh(0x35, 0xC3, 8);
    } else if x == 0x36 { y := 0x40; MulBitsHigh(0x36, 0x40, 8);
    } else if x == 0x37 { y := 0x5E; MulBitsHigh(0x37, 0x5E, 8);
    } else if x == 0x38 { y := 0x50; MulBitsHigh(0x38, 0x50, 8);
    } else if x == 0x39 { y := 0x22; MulBitsHigh(0x39, 0x22, 8);
    } else if x == 0x3A { y := 0xCF; MulBitsHigh(0x3A, 0xCF, 8);
    } else if x == 0x3B { y := 0xA9; MulBitsHigh(0x3B, 0xA9, 8);
    } else if x == 0x3C { y := 0xAB; MulBitsHigh(0x3C, 0xAB, 8);
    } else if x == 0x3D { y := 0x0C; MulBitsHigh(0x3D, 0x0C, 8);
    } else if x == 0x3E { y := 0x15; MulBitsHigh(0x3E, 0x15, 8);
    } else { y := 0xE1; MulBitsHigh(0x3F, 0xE1, 8);
    }
  }

  /** Entry-by-entry check of the inverses of 0x40..0x4F. */
  lemma InverseWitness4(x: bv8) returns (y: bv8)
    requires 0x40 <= x <= 0x4F
    ensures Mul(x, y) == 1
  {
    if x == 0x40 { y := 0x36; MulBitsHigh(0x40, 0x36, 8);
    } else if x == 0x41 { y := 0x5F; MulBitsHigh(0x41, 0x5F, 8);
    } else if x == 0x42 { y := 0xF8; MulBitsHigh(0x42, 0xF8, 8);
    } else if x == 0x43 { y := 0xD5; MulBitsHigh(0x43, 0xD5, 8);
    } else if x == 0x44 { y := 0x92; MulBitsHigh(0x44, 0x92, 8);
    } else if x == 0x45 { y := 0x4E; MulBitsHigh(0x45, 0x4E, 8);
    } else if x == 0x46 { y := 0xA6; MulBitsHigh(0x46, 0xA6, 8);
    } else if x == 0x47 { y := 0x04; MulBitsHigh(0x47, 0x04, 8);
    } else if x == 0x48 { y := 0x30; MulBitsHigh(0x48, 0x30, 8);
    } else if x == 0x49 { y := 0x88; MulBitsHigh(0x49, 0x88, 8);
    } else if x == 0x4A { y := 0x2B; MulBitsHigh(0x4A, 0x2B, 8);
    } else if x == 0x4B { y := 0x1E; MulBitsHigh(0x4B, 0x1E, 8);
    } else if x == 0x4C { y := 0x16; MulBitsHigh(0x4C, 0x16, 8);
    } else if x == 0x4D { y := 0x67; MulBitsHigh(0x4D, 0x67, 8);
    } else if x == 0x4E { y := 0x45; MulBitsHigh(0x4E, 0x45, 8);
    } else { y := 0x93; MulBitsHigh(0x4F, 0x93, 8);
    }
  }

  /** Entry-by-entry check of the inverses of 0x50..0x5F. */
  lemma InverseWitness5(x: bv8) returns (y: bv8)
    requires 0x50 <= x <= 0x5F
    ensures Mul(x, y) == 1
  {
    if x == 0x50 { y := 0x38; MulBitsHigh(0x50, 0x38, 8);
    } else if x == 0x51 { y := 0x23; MulBitsHigh(0x51, 0x23, 8);
    } else if x == 0x52 { y := 0x68; MulBitsHigh(0x52, 0x68, 8);
    } else if x == 0x53 { y := 0x8C; MulBitsHigh(0x53, 0x8C, 8);
    } else if x == 0x54 { y := 0x81; MulBitsHigh(0x54, 0x81, 8);
    } else if x == 0x55 { y := 0x1A; MulBitsHigh(0x55, 0x1A, 8);
    } else if x == 0x56 { y := 0x25; MulBitsHigh(0x56, 0x25, 8);
    } else if x == 0x57 { y := 0x61; MulBitsHigh(0x57, 0x61, 8);
    } else if x == 0x58 { y := 0x13; MulBitsHigh(0x58, 0x13, 8);
    } else if x == 0x59 { y := 0xC1; MulBitsHigh(0x59, 0xC1, 8);
    } else if x == 0x5A { y := 0xCB; MulBitsHigh(0x5A, 0xCB, 8);
    } else if x == 0x5B { y := 0x63; MulBitsHigh(0x5B, 0x63, 8);
    } else if x == 0x5C { y := 0x97; MulBitsHigh(0x5C, 0x97, 8);
    } else if x == 0x5D { y := 0x0E; MulBitsHigh(0x5D, 0x0E, 8);
    } else if x == 0x5E { y := 0x37; MulBitsHigh(0x5E, 0x37, 8);
    } else { y := 0x41; MulBitsHigh(0x5F, 0x41, 8);
    }
  }

  /** Entry-by-entry check of the inverses of 0x60..0x6F. */
  lemma InverseWitness6(x: bv8) returns (y: bv8)
    requires 0x60 <= x <= 0x6F
    ensures Mul(x, y) == 1
  {
    if x == 0x60 { y := 0x24; MulBitsHigh(0x60, 0x24, 8);
    } else if x == 0x61 { y := 0x57; MulBitsHigh(0x61, 0x57, 8);
    } else if x == 0x62 { y := 0xCA; MulBitsHigh(0x62, 0xCA, 8);
    } else if x == 0x63 { y := 0x5B; MulBitsHigh(0x63, 0x5B, 8);
    } else if x == 0x64 { y := 0xB9; MulBitsHigh(0x64, 0xB9, 8);
    } else if x == 0x65 { y := 0xC4; MulBitsHigh(0x65, 0xC4, 8);
    } else if x == 0x66 { y := 0x17; MulBitsHigh(0x66, 0x17, 8);
    } else if x == 0x67 { y := 0x4D; MulBitsHigh(0x67, 0x4D, 8);
    } else if x == 0x68 { y := 0x52; MulBitsHigh(0x68, 0x52, 8);
    } else if x == 0x69 { y := 0x8D; MulBitsHigh(0x69, 0x8D, 8);
    } else if x == 0x6A { y := 0xEF; MulBitsHigh(0x6A, 0xEF, 8);
    } else if x == 0x6B { y := 0xB3; MulBitsHigh(0x6B, 0xB3, 8);
    } else if x == 0x6C { y := 0x20; MulBitsHigh(0x6C, 0x20, 8);
    } else if x == 0x6D { y := 0xEC; MulBitsHigh(0x6D, 0xEC, 8);
    } else if x == 0x6E { y := 0x2F; MulBitsHigh(0x6E, 0x2F, 8);
    } else { y := 0x32; MulBitsHigh(0x6F, 0x32, 8);
    }
  }

  /** Entry-by-entry check of the inverses of 0x70..0x7F. */
  lemma InverseWitness7(x: bv8) returns (y: bv8)
    requires 0x70 <= x <= 0x7F
    ensures Mul(x, y) == 1
  {
    if x == 0x70 { y := 0x28; MulBitsHigh(0x70, 0x28, 8);
    } else if x == 0x71 { y := 0xD1; MulBitsHigh(0x71, 0xD1, 8);
    } else if x == 0x72 { y := 0x11; MulBitsHigh(0x72, 0x11, 8);
    } else if x == 0x73 { y := 0xD9; MulBitsHigh(0x73, 0xD9, 8);
    } else if x == 0x74 { y := 0xE9; MulBitsHigh(0x74, 0xE9, 8);
    } else if x == 0x75 { y := 0xFB; MulBitsHigh(0x75, 0xFB, 8);
    } else if x == 0x76 { y := 0xDA; MulBitsHigh(0x76, 0xDA, 8);
    } else if x == 0x77 { y := 0x79; MulBitsHigh(0x77, 0x79, 8);
    } else if x == 0x78 { y := 0xDB; MulBitsHigh(0x78, 0xDB, 8);
    } else if x == 0x79 { y := 0x77; MulBitsHigh(0x79, 0x77, 8);
    } else if x == 0x7A { y := 0x06; MulBitsHigh(0x7A, 0x06, 8);
    } else if x == 0x7B { y := 0xBB; MulBitsHigh(0x7B, 0xBB, 8);
    } else if x == 0x7C { y := 0x84; MulBitsHigh(0x7C, 0x84, 8);
    } else if x == 0x7D { y := 0xCD; MulBitsHigh(0x7D, 0xCD, 8);
    } else if x == 0x7E { y := 0xFE; MulBitsHigh(0x7E, 0xFE, 8);
    } else { y := 0xFC; MulBitsHigh(0x7F, 0xFC, 8);
    }
  }

  /** Entry-by-entry check of the inverses of 0x80..0x8F. */
  lemma InverseWitness8(x: bv8) returns (y: bv8)
    requires 0x80 <= x <= 0x8F
    ensures Mul(x, y) == 1
  {
    if x == 0x80 { y := 0x1B; MulBitsHigh(0x80, 0x1B, 8);
    } else if x == 0x81 { y := 0x54; MulBitsHigh(0x81, 0x54, 8);
    } else if x == 0x82 { y := 0xA1; MulBitsHigh(0x82, 0xA1, 8);
    } else if x == 0x83 { y := 0x1D; MulBitsHigh(0x83, 0x1D, 8);
    } else if x == 0x84 { y := 0x7C; MulBitsHigh(0x84, 0x7C, 8);
    } else if x == 0x85 { y := 0xCC; MulBitsHigh(0x85, 0xCC, 8);
    } else if x == 0x86 { y := 0xE4; MulBitsHigh(0x86, 0xE4, 8);
    } else if x == 0x87 { y := 0xB0; MulBitsHigh(0x87, 0xB0, 8);
    } else if x == 0x88 { y := 0x49; MulBitsHigh(0x88, 0x49, 8);
    } else if x == 0x89 { y := 0x31; MulBitsHigh(0x89, 0x31, 8);
    } else if x == 0x8A { y := 0x27; MulBitsHigh(0x8A, 0x27, 8);
    } else if x == 0x8B { y := 0x2D; MulBitsHigh(0x8B, 0x2D, 8);
    } else if x == 0x8C { y := 0x53; MulBitsHigh(0x8C, 0x53, 8);
    } else if x == 0x8D { y := 0x69; MulBitsHigh(0x8D, 0x69, 8);
    } else if x == 0x8E { y := 0x02; MulBitsHigh(0x8E, 0x02, 8);
    } else { y := 0xF5; MulBitsHigh(0x8F, 0xF5, 8);
    }
  }

  /** Entry-by-entry check of the inverses of 0x90..0x9F. */
  lemma InverseWitness9(x: bv8) returns (y: bv8)
    requires 0x90 <= x <= 0x9F
    ensures Mul(x, y) == 1
  {
    if x == 0x90 { y := 0x18; MulBitsHigh(0x90, 0x18, 8);
    } else if x == 0x91 { y := 0xDF; MulBitsHigh(0x91, 0xDF, 8);
    } else if x == 0x92 { y := 0x44; MulBitsHigh(0x92, 0x44, 8);
    } else if x == 0x93 { y := 0x4F; MulBitsHigh(0x93, 0x4F, 8);
    } else if x == 0x94 { y := 0x9B; MulBitsHigh(0x94, 0x9B, 8);
    } else if x == 0x95 { y := 0xBC; MulBitsHigh(0x95, 0xBC, 8);
    } else if x == 0x96 { y := 0x0F; MulBitsHigh(0x96, 0x0F, 8);
    } else if x == 0x97 { y := 0x5C; MulBitsHigh(0x97, 0x5C, 8);
    } else if x == 0x98 { y := 0x0B; MulBitsHigh(0x98, 0x0B, 8);
    } else if x == 0x99 { y := 0xDC; MulBitsHigh(0x99, 0xDC, 8);
    } else if x == 0x9A { y := 0xBD; MulBitsHigh(0x9A, 0xBD, 8);
    } else if x == 0x9B { y := 0x94; MulBitsHigh(0x9B, 0x94, 8);
    } else if x == 0x9C { y := 0xAC; MulBitsHigh(0x9C, 0xAC, 8);
    } else if x == 0x9D { y := 0x09; MulBitsHigh(0x9D, 0x09, 8);
    } else if x == 0x9E { y := 0xC7; MulBitsHigh(0x9E, 0xC7, 8);
    } else { y := 0xA2; MulBitsHigh(0x9F, 0xA2, 8);
    }
  }

  /** Entry-by-entry check of the inverses of 0xA0..0xAF. */
  lemma InverseWitnessA(x: bv8) returns (y: bv8)
    requires 0xA0 <= x <= 0xAF
    ensures Mul(x, y) == 1
  {
    if x == 0xA0 { y := 0x1C; MulBitsHigh(0xA0, 0x1C, 8);
    } else if x == 0xA1 { y := 0x82; MulBitsHigh(0xA1, 0x82, 8);
    } else if x == 0xA2 { y := 0x9F; MulBitsHigh(0xA2, 0x9F, 8);
    } else if x == 0xA3 { y := 0xC6; MulBitsHigh(0xA3, 0xC6, 8);
    } else if x == 0xA4 { y := 0x34; MulBitsHigh(0xA4, 0x34, 8);
    } else if x == 0xA5 { y := 0xC2; MulBitsHigh(0xA5, 0xC2, 8);
    } else if x == 0xA6 { y := 0x46; MulBitsHigh(0xA6, 0x46, 8);
    } else if x == 0xA7 { y := 0x05; MulBitsHigh(0xA7, 0x05, 8);
    } else if x == 0xA8 { y := 0xCE; MulBitsHigh(0xA8, 0xCE, 8);
    } else if x == 0xA9 { y := 0x3B; MulBitsHigh(0xA9, 0x3B, 8);
    } else if x == 0xAA { y := 0x0D; MulBitsHigh(0xAA, 0x0D, 8);
    } else if x == 0xAB { y := 0x3C; MulBitsHigh(0xAB, 0x3C, 8);
    } else if x == 0xAC { y := 0x9C; MulBitsHigh(0xAC, 0x9C, 8);
    } else if x == 0xAD { y := 0x08; MulBitsHigh(0xAD, 0x08, 8);
    } else if x == 0xAE { y := 0xBE; MulBitsHigh(0xAE, 0xBE, 8);
    } else { y := 0xB7; MulBitsHigh(0xAF, 0xB7, 8);
    }
  }

  /** Entry-by-entry check of the inverses of 0xB0..0xBF. */
  lemma InverseWitnessB(x: bv8) returns (y: bv8)
    requires 0xB0 <= x <= 0xBF
    ensures Mul(x, y) == 1
  {
    if x == 0xB0 { y := 0x87; MulBitsHigh(0xB0, 0x87, 8);
    } else if x == 0xB1 { y := 0xE5; MulBitsHigh(0xB1, 0xE5, 8);
    } else if x == 0xB2 { y := 0xEE; MulBitsHigh(0xB2, 0xEE, 8);
    } else if x == 0xB3 { y := 0x6B; MulBitsHigh(0xB3, 0x6B, 8);
    } else if x == 0xB4 { y := 0xEB; MulBitsHigh(0xB4, 0xEB, 8);
    } else if x == 0xB5 { y := 0xF2; MulBitsHigh(0xB5, 0xF2, 8);
    } else if x == 0xB6 { y := 0xBF; MulBitsHigh(0xB6, 0xBF, 8);
    } else if x == 0xB7 { y := 0xAF; MulBitsHigh(0xB7, 0xAF, 8);
    } else if x == 0xB8 { y := 0xC5; MulBitsHigh(0xB8, 0xC5, 8);
    } else if x == 0xB9 { y := 0x64; MulBitsHigh(0xB9, 0x64, 8);
    } else if x == 0xBA { y := 0x07; MulBitsHigh(0xBA, 0x07, 8);
    } else if x == 0xBB { y := 0x7B; MulBitsHigh(0xBB, 0x7B, 8);
    } else if x == 0xBC { y := 0x95; MulBitsHigh(0xBC, 0x95, 8);
    } else if x == 0xBD { y := 0x9A; MulBitsHigh(0xBD, 0x9A, 8);
    } else if x == 0xBE { y := 0xAE; MulBitsHigh(0xBE, 0xAE, 8);
    } else { y := 0xB6; MulBitsHigh(0xBF, 0xB6, 8);
    }
  }

  /** Entry-by-entry check of the inverses of 0xC0..0xCF. */
  lemma InverseWitnessC(x: bv8) returns (y: bv8)
    requires 0xC0 <= x <= 0xCF
    ensures Mul(x, y) == 1
  {
    if x == 0xC0 { y := 0x12; MulBitsHigh(0xC0, 0x12, 8);
    } else if x == 0xC1 { y := 0x59; MulBitsHigh(0xC1, 0x59, 8);
    } else if x == 0xC2 { y := 0xA5; MulBitsHigh(0xC2, 0xA5, 8);
    } else if x == 0xC3 { y := 0x35; MulBitsHigh(0xC3, 0x35, 8);
    } else if x == 0xC4 { y := 0x65; MulBitsHigh(0xC4, 0x65, 8);
    } else if x == 0xC5 { y := 0xB8; MulBitsHigh(0xC5, 0xB8, 8);
    } else if x == 0xC6 { y := 0xA3; MulBitsHigh(0xC6, 0xA3, 8);
    } else if x == 0xC7 { y := 0x9E; MulBitsHigh(0xC7, 0x9E, 8);
    } else if x == 0xC8 { y := 0xD2; MulBitsHigh(0xC8, 0xD2, 8);
    } else if x == 0xC9 { y := 0xF7; MulBitsHigh(0xC9, 0xF7, 8);
    } else if x == 0xCA { y := 0x62; MulBitsHigh(0xCA, 0x62, 8);
    } else if x == 0xCB { y := 0x5A; MulBitsHigh(0xCB, 0x5A, 8);
    } else if x == 0xCC { y := 0x85; MulBitsHigh(0xCC, 0x85, 8);
    } else if x == 0xCD { y := 0x7D; MulBitsHigh(0xCD, 0x7D, 8);
    } else if x == 0xCE { y := 0xA8; MulBitsHigh(0xCE, 0xA8, 8);
    } else { y := 0x3A; MulBitsHigh(0xCF, 0x3A, 8);
    }
  }

  /** Entry-by-entry check of the inverses of 0xD0..0xDF. */
  lemma InverseWitnessD(x: bv8) returns (y: bv8)
    requires 0xD0 <= x <= 0xDF
    ensures Mul(x, y) == 1
  {
    if x == 0xD0 { y := 0x29; MulBitsHigh(0xD0, 0x29, 8);
    } else if x == 0xD1 { y := 0x71; MulBitsHigh(0xD1, 0x71, 8);
    } else if x == 0xD2 { y := 0xC8; MulBitsHigh(0xD2, 0xC8, 8);
    } else if x == 0xD3 { y := 0xF6; MulBitsHigh(0xD3, 0xF6, 8);
    } else if x == 0xD4 { y := 0xF9; MulBitsHigh(0xD4, 0xF9, 8);
    } else if x == 0xD5 { y := 0x43; MulBitsHigh(0xD5, 0x43, 8);
    } else if x == 0xD6 { y := 0xD7; MulBitsHigh(0xD6, 0xD7, 8);
    } else if x == 0xD7 { y := 0xD6; MulBitsHigh(0xD7, 0xD6, 8);
    } else if x == 0xD8 { y := 0x10; MulBitsHigh(0xD8, 0x10, 8);
    } else if x == 0xD9 { y := 0x73; MulBitsHigh(0xD9, 0x73, 8);
    } else if x == 0xDA { y := 0x76; MulBitsHigh(0xDA, 0x76, 8);
    } else if x == 0xDB { y := 0x78; MulBitsHigh(0xDB, 0x78, 8);
    } else if x == 0xDC { y := 0x99; MulBitsHigh(0xDC, 0x99, 8);
    } else if x == 0xDD { y := 0x0A; MulBitsHigh(0xDD, 0x0A, 8);
    } else if x == 0xDE { y := 0x19; MulBitsHigh(0xDE, 0x19, 8);
    } else { y := 0x91; MulBitsHigh(0xDF, 0x91, 8);
    }
  }

  /** Entry-by-entry check of the inverses of 0xE0..0xEF. */
  lemma InverseWitnessE(x: bv8) returns (y: bv8)
    requires 0xE0 <= x <= 0xEF
    ensures Mul(x, y) == 1
  {
    if x == 0xE0 { y := 0x14; MulBitsHigh(0xE0, 0x14, 8);
    } else if x == 0xE1 { y := 0x3F; MulBitsHigh(0xE1, 0x3F, 8);
    } else if x == 0xE2 { y := 0xE6; MulBitsHigh(0xE2, 0xE6, 8);
    } else if x == 0xE3 { y := 0xF0; MulBitsHigh(0xE3, 0xF0, 8);
    } else if x == 0xE4 { y := 0x86; MulBitsHigh(0xE4, 0x86, 8);
    } else if x == 0xE5 { y := 0xB1; MulBitsHigh(0xE5, 0xB1, 8);
    } else if x == 0xE6 { y := 0xE2; MulBitsHigh(0xE6, 0xE2, 8);
    } else if x == 0xE7 { y := 0xF1; MulBitsHigh(0xE7, 0xF1, 8);
    } else if x == 0xE8 { y := 0xFA; MulBitsHigh(0xE8, 0xFA, 8);
    } else if x == 0xE9 { y := 0x74; MulBitsHigh(0xE9, 0x74, 8);
    } else if x == 0xEA { y := 0xF3; MulBitsHigh(0xEA, 0xF3, 8);
    } else if x == 0xEB { y := 0xB4; MulBitsHigh(0xEB, 0xB4, 8);
    } else if x == 0xEC { y := 0x6D; MulBitsHigh(0xEC, 0x6D, 8);
    } else if x == 0xED { y := 0x21; MulBitsHigh(0xED, 0x21, 8);
    } else if x == 0xEE { y := 0xB2; MulBitsHigh(0xEE, 0xB2, 8);
    } else { y := 0x6A; MulBitsHigh(0xEF, 0x6A, 8);
    }
  }

  /** Entry-by-entry check of the inverses of 0xF0..0xFF. */
  lemma InverseWitnessF(x: bv8) returns (y: bv8)
    requires 0xF0 <= x <= 0xFF
    ensures Mul(x, y) == 1
  {
    if x == 0xF0 { y := 0xE3; MulBitsHigh(0xF0, 0xE3, 8);
    } else if x == 0xF1 { y := 0xE7; MulBitsHigh(0xF1, 0xE7, 8);
    } else if x == 0xF2 { y := 0xB5; MulBitsHigh(0xF2, 0xB5, 8);
    } else if x == 0xF3 { y := 0xEA; MulBitsHigh(0xF3, 0xEA, 8);
    } else if x == 0xF4 { y := 0x03; MulBitsHigh(0xF4, 0x03, 8);
    } else if x == 0xF5 { y := 0x8F; MulBitsHigh(0xF5, 0x8F, 8);
    } else if x == 0xF6 { y := 0xD3; MulBitsHigh(0xF6, 0xD3, 8);
    } else if x == 0xF7 { y := 0xC9; MulBitsHigh(0xF7, 0xC9, 8);
    } else if x == 0xF8 { y := 0x42; MulBitsHigh(0xF8, 0x42, 8);
    } else if x == 0xF9 { y := 0xD4; MulBitsHigh(0xF9, 0xD4, 8);
    } else if x == 0xFA { y := 0xE8; MulBitsHigh(0xFA, 0xE8, 8);
    } else if x == 0xFB { y := 0x75; MulBitsHigh(0xFB, 0x75, 8);
    } else if x == 0xFC { y := 0x7F; MulBitsHigh(0xFC, 0x7F, 8);
    } else if x == 0xFD { y := 0xFF; MulBitsHigh(0xFD, 0xFF, 8);
    } else if x == 0xFE { y := 0x7E; MulBitsHigh(0xFE, 0x7E, 8);
    } else { y := 0xFD; MulBitsHigh(0xFF, 0xFD, 8);
    }
  }

  /** Every non-zero symbol has an inverse. */
  lemma InverseExists(x: bv8)
    requires x != 0
    ensures exists y :: Mul(x, y) == 1
  {
    var y;
    if x < 0x10 { y := InverseWitness0(x); }
    else if x < 0x20 { y := InverseWitness1(x); }
    else if x < 0x30 { y := InverseWitness2(x); }
    else if x < 0x40 { y := InverseWitness3(x); }
    else if x < 0x50 { y := InverseWitness4(x); }
    else if x < 0x60 { y := InverseWitness5(x); }
    else if x < 0x70 { y := InverseWitness6(x); }
    else if x < 0x80 { y := InverseWitness7(x); }
    else if x < 0x90 { y := InverseWitness8(x); }
    else if x < 0xA0 { y := InverseWitness9(x); }
    else if x < 0xB0 { y := InverseWitnessA(x); }
    else if x < 0xC0 { y := InverseWitnessB(x); }
    else if x < 0xD0 { y := InverseWitnessC(x); }
    else if x < 0xE0 { y := InverseWitnessD(x); }
    else if x < 0xF0 { y := InverseWitnessE(x); }
    else { y := InverseWitnessF(x); }
  }

  /** An inverse is unique: y == y * (x * z) == (y * x) * z == z. */
  lemma InverseUnique(x: bv8, y: bv8, z: bv8)
    requires Mul(x, y) == 1 && Mul(x, z) == 1
    ensures y == z
  {
    hide *;
    MulIdentities(y);
    MulIdentities(z);
    MulAssoc(y, x, z);
    MulComm(y, x);
  }

  /** The inverse of x, and 0 for 0 (the convention of gf_inv). */
  ghost function Inverse(x: bv8): (y: bv8)
    ensures x == 0 <==> y == 0
    ensures x != 0 ==> Mul(x, y) == 1
  {
    if x == 0 then 0
    else
      InverseExists(x);
      var y :| Mul(x, y) == 1;
      MulIdentities(x);
      y
  }

  /** A product is zero only when a factor is: a nonzero x can be divided out. */
  lemma MulNoZeroDivisors(x: bv8, y: bv8)
    ensures Mul(x, y) == 0 <==> x == 0 || y == 0
  {
    hide *;
    MulIdentities(x);
    MulIdentities(y);
    if x != 0 && Mul(x, y) == 0 {
      var v := Inverse(x);
      MulAssoc(v, x, y);
      MulComm(v, x);
      MulIdentities(v);
      MulIdentities(y);
    }
  }

  /** Inverse(x) is the one and only y with x * y == 1. */
  lemma InverseCharacterized(x: bv8, y: bv8)
    ensures Mul(x, y) == 1 <==> x != 0 && y == Inverse(x)
  {
    hide *;
    MulIdentities(y);
    if Mul(x, y) == 1 {
      InverseUnique(x, y, Inverse(x));
    }
  }

  /** Inverting twice gives the original back. */
  lemma InverseInverse(x: bv8)
    ensures Inverse(Inverse(x)) == x
  {
    hide *;
    if x != 0 {
      MulComm(x, Inverse(x));
      InverseCharacterized(Inverse(x), x);
    }
  }

  /** A factor that leaves a non-zero value unchanged is 1. */
  lemma MulCancel(a: bv8, b: bv8)
    requires a != 0 && Mul(a, b) == a
    ensures b == 1
  {
    hide *;
    var v := Inverse(a);
    MulAssoc(v, a, b);
    MulComm(v, a);
    MulIdentities(b);
  }

  /** Distinct exponents below 32 give distinct powers of 2. */
  lemma Pow2Distinct(a: nat, b: nat)
    requires a < b && b - a < 32
    ensures Pow2(a) != Pow2(b)
  {
    hide Add; hide Double; hide Low; hide Half; hide Width; hide Mul; hide Pow2;
    Pow2Add(a, b - a);
    Pow2NonZero(a);
    Pow2Table();
    if Pow2(a) == Pow2(b) {
      MulCancel(Pow2(a), Pow2(b - a));
    }
  }

  // ---------------------------------------------------------------------------
  // The source's loops

  /** gf_pow2: `pow` doublings of a uint16_t accumulator, reduced whenever bit 8 is set. */
  method GfPow2(pow: U8) returns (r: bv8)
    ensures r == Pow2(pow as nat)
  {
    var result: bv16 := 1;
    var p := pow;
    while p > 0
      invariant result < 0x100
      invariant result as bv8 == Pow2((pow - p) as nat)
    {
      p := p - 1;
      ReduceStep(result);
      result := result << 1;
      if result & 0x0100 != 0 {
        result := result ^ PolyPrime;
      }
    }
    r := result as bv8;
  }

  /** gf_mult: shift-and-XOR over the bits of y; temp_x is a uint16_t that stays
      below 0x100, so XOR-ing it into the uint8_t result (Add) loses nothing. */
  method GfMult(x: bv8, y: bv8) returns (r: bv8)
    ensures r == Mul(x, y)
  {
    hide Add; hide Double; hide Low; hide Half; hide Width;
    var result: bv8 := 0;
    var tempX: bv16 := x as bv16;
    var yy := y;
    ZeroFacts(Mul(x, y));
    while yy > 0
      invariant tempX < 0x100
      invariant Add(result, Mul(tempX as bv8, yy)) == Mul(x, y)
      decreases yy
    {
      hide Mul;
      MulStep(tempX as bv8, yy);
      ReduceStep(tempX);
      MulLoopStep(result, tempX as bv8, yy, Mul(Double(tempX as bv8), Half(yy)));
      if yy & 0x01 != 0 {
        result := Add(result, tempX as bv8);
      }
      yy := yy >> 1;
      tempX := tempX << 1;
      if tempX & 0x0100 != 0 {
        tempX := tempX ^ PolyPrime;
      }
    }
    MulZeroRight(tempX as bv8);
    AddLaws(result, 0, 0);
    r := result;
  }

  /** The bookkeeping of one round of gf_mult on the accumulator. */
  lemma MulLoopStep(result: bv8, t: bv8, y: bv8, rest: bv8)
    ensures Add(result, Add(Low(t, y), rest))
         == Add(if y & 0x01 != 0 then Add(result, t) else result, rest)
    ensures y >> 1 == Half(y) && (y != 0 ==> y >> 1 < y)
  {}

  /** The position of a byte in the order 0, 1, ..., 255, used to bound loops over bytes. */
  function Ord(y: bv8): (n: nat)
    ensures n < 256
  {
    y as nat
  }

  /** Stepping a uint8_t counter that is below a bound does not wrap around. */
  lemma OrdStep(y: bv8, w: bv8)
    requires y < w
    ensures Ord(y) < Ord(y + 1) <= Ord(w)
  {}

  /** gf_inv: 0 for 0; otherwise the first y = 1, 2, ... with x * y == 1. The search
      ends because an inverse exists, and it finds the only one. */
  method GfInv(x: bv8) returns (r: bv8)
    ensures r == Inverse(x)
    ensures x != 0 ==> Mul(x, r) == 1
  {
    hide *;
    if x == 0 {
      return 0;
    }
    var y: bv8 := 1;
    var p := GfMult(x, y);
    while p != 1
      invariant 1 <= y <= Inverse(x)
      invariant p == Mul(x, y)
      decreases Ord(Inverse(x)) - Ord(y)
    {
      OrdStep(y, Inverse(x));
      y := y + 1;
      p := GfMult(x, y);
    }
    InverseCharacterized(x, y);
    r := y;
  }
}
