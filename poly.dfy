/**
 * Polynomials over GF(2^8) as main.c stores them: a uint8_t array of coefficients,
 * the most significant first, so that `polynomial[0]` is the leading coefficient
 * and the last entry is the constant term.
 *
 * Horner is the meaning of such an array (the value gf_poly_evaluate computes);
 * PolySum is the textbook sum of coefficient times power, proved to agree with it.
 * The remaining lemmas are the algebra the encoder and the decoder rely on.
 */
module Poly {
  import opened GF

  /** The value at x of the polynomial with coefficients p, most significant first;
      the empty polynomial is 0. */
  function Horner(p: seq<bv8>, x: bv8): bv8
    decreases |p|
  {
    if |p| == 0 then 0 else Add(Mul(Horner(p[..|p| - 1], x), x), p[|p| - 1])
  }

  /** x^n in the field. */
  function Power(x: bv8, n: nat): bv8 {
    if n == 0 then 1 else Mul(Power(x, n - 1), x)
  }

  /** The reference reading of p: the sum of p[k] * x^(|p|-1-k) over all k. */
  function PolySum(p: seq<bv8>, x: bv8): bv8
    decreases |p|
  {
    if |p| == 0 then 0 else Add(Mul(p[0], Power(x, |p| - 1)), PolySum(p[1..], x))
  }

  /** Every coefficient multiplied by c. */
  function Scale(p: seq<bv8>, c: bv8): seq<bv8> {
    seq(|p|, k requires 0 <= k < |p| => Mul(p[k], c))
  }

  /** The coefficient-wise sum (XOR) of two polynomials of the same length. */
  function Sum(p: seq<bv8>, q: seq<bv8>): seq<bv8>
    requires |p| == |q|
  {
    seq(|p|, k requires 0 <= k < |p| => Add(p[k], q[k]))
  }

  /** n zero coefficients. */
  function Zeros(n: nat): seq<bv8> {
    seq(n, k => 0)
  }

  // ---------------------------------------------------------------------------
  // Algebra of Horner's scheme

  /** Splitting the coefficient list: p followed by q is p * x^|q| + q. */
  lemma {:induction false} HornerAppend(p: seq<bv8>, q: seq<bv8>, x: bv8)
    ensures Horner(p + q, x) == Add(Mul(Horner(p, x), Power(x, |q|)), Horner(q, x))
    decreases |q|
  {
    hide Add; hide Mul; hide Double; hide Pow2;
    if |q| == 0 {
      assert p + q == p;
      MulIdentities(Horner(p, x));
      AddLaws(Horner(p, x), 0, 0);
    } else {
      var q' := q[..|q| - 1];
      var l := q[|q| - 1];
      assert (p + q)[..|p + q| - 1] == p + q';
      HornerAppend(p, q', x);
      var hp := Horner(p, x);
      var hq' := Horner(q', x);
      var pw := Power(x, |q'|);
      // Horner(p + q) == ((hp * pw + hq') * x) + l
      MulAddLeft(Mul(hp, pw), hq', x);
      MulAssoc(hp, pw, x);
      AddLaws(Mul(hp, Mul(pw, x)), Mul(hq', x), l);
    }
  }

  /** The value of a one-coefficient polynomial is that coefficient. */
  lemma HornerConstant(c: bv8, x: bv8)
    ensures Horner([c], x) == c
  {
    hide Add; hide Mul; hide Double; hide Pow2;
    assert [c][..0] == [];
    MulIdentities(x);
    ZeroFacts(c);
  }

  /** Horner's scheme computes the sum of coefficient times power. */
  lemma {:induction false} HornerIsSum(p: seq<bv8>, x: bv8)
    ensures Horner(p, x) == PolySum(p, x)
    decreases |p|
  {
    hide Add; hide Mul; hide Double; hide Pow2;
    if |p| > 0 {
      assert p == [p[0]] + p[1..];
      HornerAppend([p[0]], p[1..], x);
      HornerConstant(p[0], x);
      HornerIsSum(p[1..], x);
    }
  }

  /** The zero polynomial vanishes everywhere. */
  lemma {:induction false} HornerZeros(n: nat, x: bv8)
    ensures Horner(Zeros(n), x) == 0
  {
    hide Add; hide Mul; hide Double; hide Pow2;
    if n > 0 {
      assert Zeros(n)[..n - 1] == Zeros(n - 1);
      HornerZeros(n - 1, x);
      MulIdentities(x);
      AddLaws(0, 0, 0);
    }
  }

  /** Leading zero coefficients do not change the value. */
  lemma HornerLeadingZeros(n: nat, q: seq<bv8>, x: bv8)
    ensures Horner(Zeros(n) + q, x) == Horner(q, x)
  {
    hide Add; hide Mul; hide Double; hide Pow2;
    HornerAppend(Zeros(n), q, x);
    HornerZeros(n, x);
    MulIdentities(Power(x, |q|));
    ZeroFacts(Horner(q, x));
  }

  /** Evaluation is additive. */
  lemma {:induction false} HornerSum(p: seq<bv8>, q: seq<bv8>, x: bv8)
    requires |p| == |q|
    ensures Horner(Sum(p, q), x) == Add(Horner(p, x), Horner(q, x))
    decreases |p|
  {
    hide Add; hide Mul; hide Double; hide Pow2;
    if |p| > 0 {
      var n := |p| - 1;
      assert |Sum(p, q)| == |p| && Sum(p, q)[n] == Add(p[n], q[n]);
      assert Sum(p, q)[..n] == Sum(p[..n], q[..n]);
      HornerSum(p[..n], q[..n], x);
      var a := Horner(p[..n], x);
      var b := Horner(q[..n], x);
      MulAddLeft(a, b, x);
      AddSwap(Mul(a, x), Mul(b, x), p[n], q[n]);
    } else {
      ZeroFacts(0);
    }
  }

  /** Evaluation commutes with scaling. */
  lemma {:induction false} HornerScale(p: seq<bv8>, c: bv8, x: bv8)
    ensures Horner(Scale(p, c), x) == Mul(Horner(p, x), c)
    decreases |p|
  {
    hide Add; hide Mul; hide Double; hide Pow2;
    if |p| == 0 {
      MulIdentities(c);
    } else {
      var n := |p| - 1;
      assert Scale(p, c)[..n] == Scale(p[..n], c);
      HornerScale(p[..n], c, x);
      var h := Horner(p[..n], x);
      // (h * c) * x + p[n] * c == (h * x + p[n]) * c
      MulAssoc(h, c, x);
      MulComm(c, x);
      MulAssoc(h, x, c);
      MulAddLeft(Mul(h, x), p[n], c);
    }
  }

  /** Adding v to coefficient p adds v * x^(|c|-1-p) to the value. */
  lemma HornerPoke(c: seq<bv8>, p: nat, v: bv8, x: bv8)
    requires p < |c|
    ensures Horner(c[p := Add(c[p], v)], x) == Add(Horner(c, x), Mul(v, Power(x, |c| - 1 - p)))
  {
    hide Add; hide Mul; hide Double; hide Pow2;
    var n := |c| - 1 - p;
    var unit := Zeros(p) + ([v] + Zeros(n));
    forall k | 0 <= k < |c|
      ensures c[p := Add(c[p], v)][k] == Sum(c, unit)[k]
    {
      AddLaws(c[k], 0, 0);
    }
    assert c[p := Add(c[p], v)] == Sum(c, unit);
    HornerSum(c, unit, x);
    HornerLeadingZeros(p, [v] + Zeros(n), x);
    HornerAppend([v], Zeros(n), x);
    HornerConstant(v, x);
    HornerZeros(n, x);
    AddLaws(Mul(v, Power(x, n)), 0, 0);
  }

  /** Powers of 2 multiply their exponents: (2^i)^n == 2^(i*n). */
  lemma {:induction false} PowerPow2(i: nat, n: nat)
    ensures Power(Pow2(i), n) == Pow2(i * n)
  {
    hide Add; hide Mul; hide Double; hide Pow2;
    if n > 0 {
      PowerPow2(i, n - 1);
      Pow2Add(i * (n - 1), i);
      assert i * (n - 1) + i == i * n;
    } else {
      Pow2Zero();
    }
  }

  // ---------------------------------------------------------------------------
  // The source's loops

  /** gf_poly_evaluate: Horner's scheme starting from `polynomial[0]`, which it reads
      even when size is 0; then the result is that leading coefficient. */
  method PolyEvaluate(poly: array<bv8>, size: U8, x: bv8) returns (y: bv8)
    requires 1 <= poly.Length && size as int <= poly.Length
    ensures y == Horner(poly[..if size == 0 then 1 else size as int], x)
  {
    hide Add; hide Mul; hide Double; hide Pow2;
    y := poly[0];
    HornerConstant(y, x);
    assert poly[..1] == [y];
    var i: U8 := 1;
    while i < size
      invariant 1 <= i && (i <= size || i == 1)
      invariant y == Horner(poly[..i], x)
    {
      var m := GfMult(y, x);
      assert poly[..i + 1][..i] == poly[..i];
      y := Add(m, poly[i]);
      i := i + 1;
    }
  }

  /** gf_poly_scale: writes `old_poly[i] * scale` into `new_poly[i]` for i < size and
      leaves the rest of new_poly alone. The two arrays may be the same one, since each
      entry is read before it is written. */
  method PolyScale(newPoly: array<bv8>, oldPoly: array<bv8>, size: U8, scale: bv8)
    requires size as int <= newPoly.Length && size as int <= oldPoly.Length
    modifies newPoly
    ensures newPoly[..size] == Scale(old(oldPoly[..size]), scale)
    ensures newPoly[size..] == old(newPoly[size..])
  {
    hide Add; hide Mul; hide Double; hide Pow2;
    var i: U8 := 0;
    while i < size
      invariant i <= size
      invariant forall k :: 0 <= k < i ==> newPoly[k] == Mul(old(oldPoly[k]), scale)
      invariant forall k :: i <= k < size ==> oldPoly[k] == old(oldPoly[k])
      invariant newPoly[size..] == old(newPoly[size..])
    {
      newPoly[i] := GfMult(oldPoly[i], scale);
      i := i + 1;
    }
  }
}
