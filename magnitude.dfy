/**
 * The Forney step of main.c (compute_poly_corruption, lines 314-377): the error
 * magnitudes for one or two located errors, with ERR_CODE for any other count and
 * for a zero denominator.
 *
 * Corruption is what the function returns and writes into poly_corruption; the
 * lemmas say when it fails, what the exponent 256 - DATA_SIZE - N_SYMBOLS + pos
 * stands for, and what the one-error magnitude comes to.
 */
module Magnitude {
  import opened GF
  import opened Poly
  import opened Config

  /** The exponent 256 - DATA_SIZE - N_SYMBOLS + pos as gf_pow2 receives it: a uint8_t,
      so taken modulo 256. */
  function Exponent(pos: U8): U8 {
    ((256 - DataSize - NSymbols + pos as int) % 256) as U8
  }

  /** X_inv for the recorded position pos. */
  function XInv(pos: U8): bv8 {
    Pow2(Exponent(pos) as nat)
  }

  /** The status compute_poly_corruption returns and the contents of poly_corruption. */
  datatype Forney = Forney(status: U8, corruption: seq<bv8>)

  /** err_eval of the two-error branch (main.c:333-337). */
  function PairEvaluator(s: seq<bv8>, loc: seq<bv8>): seq<bv8>
    requires |s| == NSymbols && |loc| == NSymbols
  {
    [Add(Mul(s[1], loc[1]), Mul(s[0], loc[2])), Mul(s[0], loc[1]), 0]
  }

  /** The two-error branch of compute_poly_corruption (main.c:331-371) for the
      positions p0 and p1: both magnitudes are written, and the status is ERR_CODE
      when either denominator is zero. */
  ghost function PairMagnitudes(s: seq<bv8>, loc: seq<bv8>, p0: U8, p1: U8): Forney
    requires |s| == NSymbols && |loc| == NSymbols
  {
    var errEval := PairEvaluator(s, loc);
    var xInv0, xInv1 := XInv(p0), XInv(p1);
    var x0, x1 := Inverse(xInv0), Inverse(xInv1);
    var adjust0 := Add(1, Mul(xInv0, x1));
    var adjust1 := Add(1, Mul(xInv1, x0));
    var y0 := Mul(Mul(x0, Horner(errEval, xInv0)), Inverse(adjust0));
    var y1 := Mul(Mul(x1, Horner(errEval, xInv1)), Inverse(adjust1));
    Forney(if adjust0 == 0 || adjust1 == 0 then ErrCode else 0, [y0, y1])
  }

  /** compute_poly_corruption for syndromes s, the reversed locator loc, the recorded
      positions e of which size are valid, and the previous contents c of
      poly_corruption. The one-error case writes only the first magnitude. */
  ghost function Corruption(s: seq<bv8>, loc: seq<bv8>, e: seq<U8>, size: U8, c: seq<bv8>): (r: Forney)
    requires |s| == NSymbols && |loc| == NSymbols && |e| == NSymbols && |c| == NSymbols / 2
    ensures |r.corruption| == NSymbols / 2
  {
    if size == 1 then
      var errEval := [Mul(s[0], loc[2]), 0];
      var xInv := XInv(e[0]);
      var x := Inverse(xInv);
      Forney(0, c[0 := Mul(x, Horner(errEval, xInv))])
    else if size == 2 then PairMagnitudes(s, loc, e[0], e[1])
    else
      Forney(ErrCode, c)
  }

  // ---------------------------------------------------------------------------
  // What the step computes

  /** For a position below 32 the exponent 224 + pos does not wrap, and X_inv is the
      inverse of 2^(31 - pos), the locator value of that position; so X, its inverse
      as gf_inv computes it, is 2^(31 - pos). */
  lemma XInvOfPosition(pos: U8)
    requires pos as int < CodeSize
    ensures Exponent(pos) as int == 256 - DataSize - NSymbols + pos as int
    ensures Mul(XInv(pos), Pow2(CodeSize - 1 - pos as int)) == 1
    ensures Inverse(XInv(pos)) == Pow2(CodeSize - 1 - pos as int)
  {
    hide Add; hide Double; hide Low; hide Half; hide Width; hide Mul; hide Pow2;
    var e := 256 - DataSize - NSymbols + pos as int;
    assert Exponent(pos) as int == e;
    Pow2Add(e, CodeSize - 1 - pos as int);
    Pow2Cycle();
    InverseCharacterized(XInv(pos), Pow2(CodeSize - 1 - pos as int));
  }

  /** Two positions below 32 have the same X_inv only if they are equal. */
  lemma XInvInjective(p: U8, q: U8)
    requires p as int < CodeSize && q as int < CodeSize
    ensures XInv(p) == XInv(q) <==> p == q
  {
    hide Add; hide Double; hide Low; hide Half; hide Width; hide Mul; hide Pow2;
    XInvOfPosition(p);
    XInvOfPosition(q);
    if p < q {
      Pow2Distinct(Exponent(p) as nat, Exponent(q) as nat);
    } else if q < p {
      Pow2Distinct(Exponent(q) as nat, Exponent(p) as nat);
    }
  }

  /** A denominator 1 + X_inv[a] * X[b] is zero exactly when the two positions are equal. */
  lemma AdjustmentZero(p: U8, q: U8)
    requires p as int < CodeSize && q as int < CodeSize
    ensures Add(1, Mul(XInv(p), Inverse(XInv(q)))) == 0 <==> p == q
  {
    hide Add; hide Double; hide Low; hide Half; hide Width; hide Mul; hide Pow2;
    var a, b := XInv(p), XInv(q);
    XInvOfPosition(p);
    XInvOfPosition(q);
    Pow2NonZero(CodeSize - 1 - p as int);
    AddCancel(1, Mul(a, Inverse(b)));
    InverseCharacterized(a, Inverse(b));
    InverseInverse(a);
    InverseInverse(b);
    XInvInjective(p, q);
  }

  /** compute_poly_corruption fails exactly when the count is neither 1 nor 2, or when
      two errors are reported at the same position; for distinct positions neither
      denominator is zero. */
  lemma CorruptionStatus(s: seq<bv8>, loc: seq<bv8>, e: seq<U8>, size: U8, c: seq<bv8>)
    requires |s| == NSymbols && |loc| == NSymbols && |e| == NSymbols && |c| == NSymbols / 2
    requires size == 2 ==> e[0] as int < CodeSize && e[1] as int < CodeSize
    ensures Corruption(s, loc, e, size, c).status == ErrCode <==>
              (size != 1 && size != 2) || (size == 2 && e[0] == e[1])
    ensures Corruption(s, loc, e, size, c).status != ErrCode ==>
              Corruption(s, loc, e, size, c).status == 0
  {
    hide Add; hide Double; hide Low; hide Half; hide Width; hide Mul; hide Pow2; hide XInv;
    if size == 2 {
      AdjustmentZero(e[0], e[1]);
      AdjustmentZero(e[1], e[0]);
    }
  }

  /** With one error the magnitude is syndrome 0 times the locator coefficient
      poly_err_locator[2]: X * (S0 * loc[2] * X_inv) with X the inverse of X_inv. The
      second entry of poly_corruption keeps its previous value. */
  lemma CorruptionSingle(s: seq<bv8>, loc: seq<bv8>, e: seq<U8>, c: seq<bv8>)
    requires |s| == NSymbols && |loc| == NSymbols && |e| == NSymbols && |c| == NSymbols / 2
    requires e[0] as int < CodeSize
    ensures Corruption(s, loc, e, 1, c) == Forney(0, [Mul(s[0], loc[2]), c[1]])
  {
    hide Add; hide Double; hide Low; hide Half; hide Width; hide Mul; hide Pow2; hide XInv;
    var a := Mul(s[0], loc[2]);
    var xInv := XInv(e[0]);
    var x := Inverse(xInv);
    // Horner([a, 0], xInv) == a * xInv
    assert [a, 0][..1] == [a];
    HornerConstant(a, xInv);
    AddLaws(Mul(a, xInv), 0, 0);
    // x * (a * xInv) == a * (xInv * x) == a
    XInvOfPosition(e[0]);
    Pow2NonZero(CodeSize - 1 - e[0] as int);
    MulComm(x, Mul(a, xInv));
    MulAssoc(a, xInv, x);
    MulIdentities(a);
  }

  // ---------------------------------------------------------------------------
  // The source's code

  /** The two-error branch of compute_poly_corruption (main.c:331-371) on the syndrome
      and locator buffers. */
  method TwoErrors(s: array<bv8>, loc: array<bv8>, p0: U8, p1: U8) returns (status: U8, y0: bv8, y1: bv8)
    requires s.Length == NSymbols && loc.Length == NSymbols
    ensures Forney(status, [y0, y1]) == PairMagnitudes(s[..], loc[..], p0, p1)
  {
    hide Add; hide Mul; hide Horner; hide Pow2; hide Inverse;
    status := 0;
    var a := GfMult(s[1], loc[1]);
    var b := GfMult(s[0], loc[2]);
    var errEval := new bv8[3];
    errEval[0] := Add(a, b);
    errEval[1] := GfMult(s[0], loc[1]);
    errEval[2] := 0;
    assert errEval[..] == PairEvaluator(s[..], loc[..]);
    var xInv0 := GfPow2(Exponent(p0));
    var xInv1 := GfPow2(Exponent(p1));
    var x0 := GfInv(xInv0);
    var x1 := GfInv(xInv1);
    var adjust0, adjust1;
    adjust0, y0 := TwoErrorTerm(errEval, xInv0, x0, x1);
    if adjust0 == 0 {
      status := ErrCode;
    }
    adjust1, y1 := TwoErrorTerm(errEval, xInv1, x1, x0);
    if adjust1 == 0 {
      status := ErrCode;
    }
  }

  /** One index of the two-error branch (main.c:350-359, and 361-370 for the other):
      the denominator 1 + X_inv[k] * X[j] and the magnitude
      X[k] * err_eval(X_inv[k]) / denominator, with gf_inv's 0 for a zero denominator. */
  method TwoErrorTerm(errEval: array<bv8>, xInv: bv8, x: bv8, xOther: bv8) returns (adjust: bv8, y: bv8)
    requires errEval.Length == 3
    ensures adjust == Add(1, Mul(xInv, xOther))
    ensures y == Mul(Mul(x, Horner(errEval[..], xInv)), Inverse(adjust))
  {
    hide Add; hide Mul; hide Horner; hide Pow2;
    var m := GfMult(xInv, xOther);
    adjust := Add(1, m);
    var h := PolyEvaluate(errEval, 3, xInv);
    assert errEval[..3] == errEval[..];
    var t := GfMult(x, h);
    var inv := GfInv(adjust);
    y := GfMult(t, inv);
  }
}
