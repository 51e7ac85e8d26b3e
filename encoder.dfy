/**
 * The systematic encoder of main.c (lines 61-76): the 28 message symbols are copied
 * into a 32-symbol buffer, divided in place by the generator polynomial, and copied
 * back over the quotient, which leaves the message followed by the remainder.
 *
 * Encoded is the specification of that loop; EncodedRoots proves that every
 * codeword vanishes at the roots of the generator, and GeneratorRoots that those
 * roots are 1, 2, 4 and 8, the points compute_poly_syndromes evaluates at.
 */
module Encoder {
  import opened GF
  import opened Poly
  import opened Config

  // ---------------------------------------------------------------------------
  // The generator polynomial

  /** The coefficients of p * (x + r). */
  function MulLinear(p: seq<bv8>, r: bv8): seq<bv8> {
    Sum(p + [0], [0] + Scale(p, r))
  }

  /** (x + r0)(x + r1)...(x + rk) for the roots listed, most significant coefficient first. */
  function Product(roots: seq<bv8>): seq<bv8>
    decreases |roots|
  {
    if |roots| == 0 then [1]
    else MulLinear(Product(roots[..|roots| - 1]), roots[|roots| - 1])
  }

  /** Multiplying by (x + r) multiplies every value by x + r. */
  lemma HornerMulLinear(p: seq<bv8>, r: bv8, x: bv8)
    ensures Horner(MulLinear(p, r), x) == Mul(Horner(p, x), Add(x, r))
  {
    hide Add; hide Mul; hide Double; hide Pow2;
    var hp := Horner(p, x);
    HornerSum(p + [0], [0] + Scale(p, r), x);
    HornerAppend(p, [0], x);
    HornerConstant(0, x);
    MulIdentities(x);
    AddLaws(Mul(hp, x), 0, 0);
    assert [0] + Scale(p, r) == Zeros(1) + Scale(p, r);
    HornerLeadingZeros(1, Scale(p, r), x);
    HornerScale(p, r, x);
    MulAddRight(hp, x, r);
  }

  /** A product of linear factors vanishes exactly at the listed roots. */
  lemma {:induction false} ProductRoots(roots: seq<bv8>, x: bv8)
    ensures Horner(Product(roots), x) == 0 <==> x in roots
    decreases |roots|
  {
    hide Add; hide Mul; hide Double; hide Pow2;
    if |roots| == 0 {
      HornerConstant(1, x);
    } else {
      var init := roots[..|roots| - 1];
      var r := roots[|roots| - 1];
      assert roots == init + [r];
      ProductRoots(init, x);
      HornerMulLinear(Product(init), r, x);
      MulNoZeroDivisors(Horner(Product(init), x), Add(x, r));
      MulIdentities(Horner(Product(init), x));
      MulIdentities(Add(x, r));
      AddCancel(x, r);
    }
  }

  /** The products and sums of constants that expanding the generator needs. */
  lemma ExpansionFacts()
    ensures Mul(0x01, 0x01) == 0x01 && Mul(0x01, 0x02) == 0x02
    ensures Mul(0x01, 0x04) == 0x04 && Mul(0x03, 0x04) == 0x0C && Mul(0x02, 0x04) == 0x08
    ensures Mul(0x01, 0x08) == 0x08 && Mul(0x07, 0x08) == 0x38
    ensures Mul(0x0E, 0x08) == 0x70 && Mul(0x08, 0x08) == 0x40
    ensures Add(0x01, 0x02) == 0x03 && Add(0x03, 0x04) == 0x07 && Add(0x02, 0x0C) == 0x0E
    ensures Add(0x07, 0x08) == 0x0F && Add(0x0E, 0x38) == 0x36 && Add(0x08, 0x70) == 0x78
  {
    hide Add; hide Mul; hide Double; hide Pow2;
    MulShiftFacts();
    MulByEightFacts();
    AddFacts();
  }

  lemma MulShiftFacts()
    ensures Mul(0x01, 0x01) == 0x01 && Mul(0x01, 0x02) == 0x02
    ensures Mul(0x01, 0x04) == 0x04 && Mul(0x03, 0x04) == 0x0C && Mul(0x02, 0x04) == 0x08
  {
    MulBitsHigh(0x01, 0x01, 8);
    MulBitsHigh(0x01, 0x02, 8);
    MulBitsHigh(0x01, 0x04, 8);
    MulBitsHigh(0x03, 0x04, 8);
    MulBitsHigh(0x02, 0x04, 8);
  }

  lemma MulByEightFacts()
    ensures Mul(0x01, 0x08) == 0x08 && Mul(0x07, 0x08) == 0x38
    ensures Mul(0x0E, 0x08) == 0x70 && Mul(0x08, 0x08) == 0x40
  {
    MulBitsHigh(0x01, 0x08, 8);
    MulBitsHigh(0x07, 0x08, 8);
    MulBitsHigh(0x0E, 0x08, 8);
    MulBitsHigh(0x08, 0x08, 8);
  }

  lemma AddFacts()
    ensures Add(0x01, 0x02) == 0x03 && Add(0x03, 0x04) == 0x07 && Add(0x02, 0x0C) == 0x0E
    ensures Add(0x07, 0x08) == 0x0F && Add(0x0E, 0x38) == 0x36 && Add(0x08, 0x70) == 0x78
  {}

  /** The precomputed generator is (x + 1)(x + 2)(x + 4)(x + 8). */
  lemma GeneratorIsProduct()
    ensures Generator == Product([1, 2, 4, 8])
  {
    hide Add; hide Mul; hide Double; hide Pow2;
    ExpansionFacts();
    ZeroFacts(0x01); ZeroFacts(0x02); ZeroFacts(0x08); ZeroFacts(0x40);
    AddLaws(0x01, 0, 0);
    var roots: seq<bv8> := [1, 2, 4, 8];
    assert roots[..1][..0] == [];
    assert Product(roots[..1]) == [0x01, 0x01];
    assert roots[..2][..1] == roots[..1];
    assert Product(roots[..2]) == [0x01, 0x03, 0x02];
    assert roots[..3][..2] == roots[..2];
    assert Product(roots[..3]) == [0x01, 0x07, 0x0E, 0x08];
    assert roots[..3] == roots[..|roots| - 1];
  }

  /** The generator vanishes exactly at 1, 2, 4 and 8, which are 2^0 .. 2^3. */
  lemma GeneratorRoots(x: bv8)
    ensures Horner(Generator, x) == 0 <==> x in [1, 2, 4, 8]
    ensures forall i :: 0 <= i < NSymbols ==> Horner(Generator, Pow2(i)) == 0
  {
    GeneratorIsProduct();
    ProductRoots([1, 2, 4, 8], x);
    forall i | 0 <= i < NSymbols
      ensures Horner(Generator, Pow2(i)) == 0
    {
      Pow2Small(i);
      ProductRoots([1, 2, 4, 8], Pow2(i));
    }
  }

  // ---------------------------------------------------------------------------
  // The division loop

  /** One pass of the outer encoding loop at row i: when the symbol c at i is non-zero,
      c times the generator's lower coefficients is XORed into positions i+1 .. i+4.
      Position i keeps c, the quotient coefficient. */
  function DivStep(s: seq<bv8>, i: nat): (t: seq<bv8>)
    requires |s| == CodeSize && i < DataSize
    ensures |t| == CodeSize
  {
    var c := s[i];
    if c == 0 then s
    else seq(CodeSize, k requires 0 <= k < CodeSize =>
               if i < k <= i + NSymbols then Add(s[k], Mul(Generator[k - i], c)) else s[k])
  }

  /** The first n passes of the encoding loop. */
  function Divide(s: seq<bv8>, n: nat): (t: seq<bv8>)
    requires |s| == CodeSize && n <= DataSize
    ensures |t| == CodeSize
  {
    if n == 0 then s else DivStep(Divide(s, n - 1), n - 1)
  }

  /** The codeword main.c builds for message m: m, then the last four symbols left by
      the division of m followed by four zeros. */
  function Encoded(m: seq<bv8>): seq<bv8>
    requires |m| == DataSize
  {
    m + Divide(m + Zeros(NSymbols), DataSize)[DataSize..]
  }

  /** The encoder of main.c (lines 61-76) on a zero-initialised buffer. */
  method Encode(message: array<bv8>) returns (encoded: array<bv8>)
    requires message.Length == DataSize
    ensures fresh(encoded)
    ensures encoded[..] == Encoded(message[..])
  {
    hide Add; hide Mul; hide Double; hide Pow2;
    ghost var msg := message[..];
    encoded := new bv8[CodeSize](k => 0);
    forall k | 0 <= k < DataSize {
      encoded[k] := message[k];
    }
    ghost var start := encoded[..];
    assert start == msg + Zeros(NSymbols);
    var i: U8 := 0;
    while i < DataSize as U8
      invariant i as int <= DataSize
      invariant encoded[..] == Divide(start, i as nat)
    {
      var c := encoded[i];
      if c != 0 {
        XorMultiple(encoded, i, c);
      }
      i := i + 1;
    }
    assert i as nat == DataSize;
    ghost var divided := encoded[..];
    assert divided == Divide(msg + Zeros(NSymbols), DataSize);
    forall k | 0 <= k < DataSize {
      encoded[k] := message[k];
    }
    assert message[..] == msg;
    assert encoded[..] == msg + divided[DataSize..];
  }

  /** The inner loop of the encoder (main.c:69-72) for a non-zero coefficient c at
      row i: one row of the division. */
  method XorMultiple(encoded: array<bv8>, i: U8, c: bv8)
    requires encoded.Length == CodeSize && (i as int) < DataSize
    requires encoded[i] == c && c != 0
    modifies encoded
    ensures encoded[..] == DivStep(old(encoded[..]), i as nat)
  {
    hide Add; hide Mul; hide Double; hide Pow2;
    ghost var before := encoded[..];
    var j: U8 := 1;
    while j < (NSymbols + 1) as U8
      invariant 1 <= j as int <= NSymbols + 1
      invariant forall k :: 0 <= k < CodeSize ==>
                  encoded[k] == if i as int < k < (i + j) as int
                                then Add(before[k], Mul(Generator[k - i as int], c))
                                else before[k]
    {
      var g := GfMult(Generator[j], c);
      encoded[i + j] := Add(encoded[i + j], g);
      j := j + 1;
    }
    assert encoded[..] == DivStep(before, i as nat);
  }

  // ---------------------------------------------------------------------------
  // Every codeword is a multiple of the generator

  /** The division state with the quotient coefficients below i replaced by zeros: what
      is left of the dividend after i rows. */
  function Remaining(s: seq<bv8>, i: nat): seq<bv8>
    requires i <= |s|
  {
    seq(|s|, k requires 0 <= k < |s| => if k < i then 0 else s[k])
  }

  /** c times the generator, aligned to start at position i of a codeword. */
  function Shifted(i: nat, c: bv8): seq<bv8>
    requires i < DataSize
  {
    seq(CodeSize, k requires 0 <= k < CodeSize =>
          if i <= k <= i + NSymbols then Mul(Generator[k - i], c) else 0)
  }

  /** A shifted multiple of the generator vanishes at its roots. */
  lemma HornerShifted(i: nat, c: bv8, r: bv8)
    requires i < DataSize && Horner(Generator, r) == 0
    ensures Horner(Shifted(i, c), r) == 0
  {
    hide Add; hide Mul; hide Double; hide Pow2;
    var tail := Zeros(DataSize - 1 - i);
    assert Shifted(i, c) == Zeros(i) + (Scale(Generator, c) + tail);
    HornerLeadingZeros(i, Scale(Generator, c) + tail, r);
    HornerAppend(Scale(Generator, c), tail, r);
    HornerZeros(DataSize - 1 - i, r);
    HornerScale(Generator, c, r);
    MulIdentities(c);
    MulIdentities(Power(r, |tail|));
    AddLaws(0, 0, 0);
  }

  /** One row of the division subtracts a multiple of the generator from what is left
      of the dividend, so the value at a root of the generator does not change. */
  lemma DivStepHorner(s: seq<bv8>, i: nat, r: bv8)
    requires |s| == CodeSize && i < DataSize && Horner(Generator, r) == 0
    ensures Horner(Remaining(DivStep(s, i), i + 1), r) == Horner(Remaining(s, i), r)
  {
    hide Add; hide Mul; hide Double; hide Pow2;
    var c := s[i];
    if c == 0 {
      assert Remaining(DivStep(s, i), i + 1) == Remaining(s, i);
    } else {
      var t := DivStep(s, i);
      var sh := Shifted(i, c);
      forall k | 0 <= k < CodeSize
        ensures Remaining(t, i + 1)[k] == Sum(Remaining(s, i), sh)[k]
      {
        if k < i {
          AddLaws(0, 0, 0);
        } else if k == i {
          MulIdentities(c);
          AddLaws(c, c, 0);
        } else if k > i + NSymbols {
          AddLaws(s[k], 0, 0);
        }
      }
      assert Remaining(t, i + 1) == Sum(Remaining(s, i), sh);
      HornerSum(Remaining(s, i), sh, r);
      HornerShifted(i, c, r);
      AddLaws(Horner(Remaining(s, i), r), 0, 0);
    }
  }

  /** After n rows, what is left of the dividend has the dividend's value at every root
      of the generator. */
  lemma {:induction false} DivideHorner(s: seq<bv8>, n: nat, r: bv8)
    requires |s| == CodeSize && n <= DataSize && Horner(Generator, r) == 0
    ensures Horner(Remaining(Divide(s, n), n), r) == Horner(s, r)
  {
    if n == 0 {
      assert Remaining(s, 0) == s;
    } else {
      DivideHorner(s, n - 1, r);
      DivStepHorner(Divide(s, n - 1), n - 1, r);
    }
  }

  /** Every codeword vanishes at every root of the generator: the message shifted by
      four places plus the remainder is the dividend minus what was left of it. */
  lemma EncodedRoots(m: seq<bv8>, r: bv8)
    requires |m| == DataSize && Horner(Generator, r) == 0
    ensures Horner(Encoded(m), r) == 0
  {
    hide Add; hide Mul; hide Double; hide Pow2;
    var dividend := m + Zeros(NSymbols);
    var rest := Remaining(Divide(dividend, DataSize), DataSize);
    forall k | 0 <= k < CodeSize
      ensures Encoded(m)[k] == Sum(dividend, rest)[k]
    {
      if k < DataSize {
        AddLaws(m[k], 0, 0);
      } else {
        ZeroFacts(rest[k]);
      }
    }
    assert Encoded(m) == Sum(dividend, rest);
    HornerSum(dividend, rest, r);
    DivideHorner(dividend, DataSize, r);
    AddLaws(Horner(dividend, r), 0, 0);
  }

  /** The codeword starts with the message and all four of its syndromes are zero. */
  lemma EncodedSyndromesZero(m: seq<bv8>)
    requires |m| == DataSize
    ensures |Encoded(m)| == CodeSize && Encoded(m)[..DataSize] == m
    ensures forall i :: 0 <= i < NSymbols ==> Horner(Encoded(m), Pow2(i)) == 0
  {
    assert Encoded(m)[..DataSize] == m;
    forall i | 0 <= i < NSymbols
      ensures Horner(Encoded(m), Pow2(i)) == 0
    {
      GeneratorRoots(Pow2(i));
      EncodedRoots(m, Pow2(i));
    }
  }
}
