/**
 * What the decoder achieves, stated on Decoded, the function the decoding branch of
 * main.c (lines 92-139) is proved to compute:
 *
 *  - a codeword produced by the encoder is reported as not corrupted and left alone;
 *  - the outcome is "too many errors" exactly when the locator has three roots among
 *    2^0 .. 2^31, and "error locators error" exactly when it has none;
 *  - a codeword with one corrupted symbol, whatever the symbol and the corruption, is
 *    restored, provided the second entry of poly_corruption is still 0 (as it is on
 *    the first decoding, since static storage starts out zero).
 */
module Correction {
  import opened GF
  import opened Poly
  import opened Config
  import opened Encoder
  import opened Locator
  import opened Search
  import opened Magnitude
  import opened Decoding

  // ---------------------------------------------------------------------------
  // Berlekamp-Massey on the syndromes of a single error

  /** Syndromes v, v*x, v*x^2, v*x^3: what one error of value v with locator x gives. */
  predicate Geometric(s: seq<bv8>, x: bv8)
    requires |s| == NSymbols
  {
    s[0] != 0 && forall i :: 0 <= i < NSymbols - 1 ==> s[i + 1] == Mul(s[i], x)
  }

  /** Iteration 0: the discrepancy is S0 = v, the buffers are exchanged, and the
      locator becomes v*X + 1. */
  lemma SingleStep0(s: seq<bv8>, x: bv8)
    requires |s| == NSymbols && Geometric(s, x)
    ensures Step(s, Start, 0) == Solver([s[0], 1, 0, 0], [Inverse(s[0]), 0, 0, 0], 2, 1)
  {
    hide Add; hide Mul; hide Double; hide Pow2;
    var v := s[0];
    MulIdentities(v);
    MulIdentities(Inverse(v));
    MulComm(Inverse(v), v);
    ZeroFacts(1);
    ZeroFacts(0);
    assert Scale([1, 0, 0, 0], v) == [v, 0, 0, 0];
    assert Scale([1, 0, 0, 0], Inverse(v)) == [Inverse(v), 0, 0, 0];
    assert Scale([Inverse(v), 0, 0, 0], v) == [1, 0, 0, 0];
  }

  /** Iteration 1: the discrepancy v*x + v*v, divided by v, corrects the leading
      coefficient from v to x. */
  lemma SingleStep1(s: seq<bv8>, x: bv8)
    requires |s| == NSymbols && Geometric(s, x)
    ensures Step(s, Solver([s[0], 1, 0, 0], [Inverse(s[0]), 0, 0, 0], 2, 1), 1)
         == Solver([x, 1, 0, 0], [Inverse(s[0]), 0, 0, 0], 2, 2)
  {
    hide Add; hide Mul; hide Double; hide Pow2;
    var v := s[0];
    var iv := Inverse(v);
    var st := Solver([v, 1, 0, 0], [iv, 0, 0, 0], 2, 1);
    var d := Discrepancy(s, st.curr, 2, 1, 2);
    assert d == Add(s[1], Mul(v, v));
    // d == v * (x + v)
    MulComm(v, x);
    MulAddRight(v, x, v);
    AddLaws(x, v, v);
    AddLaws(v, x, v);
    AddLaws(x, v, 0);
    AddLaws(v, x, 0);
    if d == 0 {
      MulNoZeroDivisors(v, Add(x, v));
      AddCancel(x, v);
    } else {
      // iv * d == (iv * v) * (x + v) == x + v, and v + (x + v) == x
      MulAssoc(iv, v, Add(x, v));
      MulComm(iv, v);
      MulIdentities(Add(x, v));
      MulIdentities(d);
      ZeroFacts(0);
      AddLaws(1, 0, 0);
      assert Scale([iv, 0, 0, 0], d) == [Add(x, v), 0, 0, 0];
    }
  }

  /** Iterations 2 and 3: the discrepancy S[i] + x * S[i-1] is 0 and only the previous
      locator grows. */
  lemma SingleStepLater(s: seq<bv8>, x: bv8, iv: bv8, i: nat, prevSize: U8)
    requires |s| == NSymbols && Geometric(s, x) && 2 <= i < NSymbols && prevSize as int == i
    ensures Step(s, Solver([x, 1, 0, 0], [iv, 0, 0, 0], 2, prevSize), i)
         == Solver([x, 1, 0, 0], [iv, 0, 0, 0], 2, prevSize + 1)
  {
    hide Add; hide Mul; hide Double; hide Pow2;
    assert Discrepancy(s, [x, 1, 0, 0], 2, i, 2) == Add(s[i], Mul(x, s[i - 1]));
    MulComm(x, s[i - 1]);
    AddLaws(s[i], 0, 0);
  }

  /** For the syndromes of a single error the solver ends with the locator x*X + 1 of
      size 2. */
  lemma SingleLocator(s: seq<bv8>, x: bv8)
    requires |s| == NSymbols && Geometric(s, x)
    ensures ErrLocator(s).curr == [x, 1, 0, 0] && ErrLocator(s).currSize == 2
  {
    hide Step;
    var iv := Inverse(s[0]);
    SingleStep0(s, x);
    assert Run(s, 1) == Solver([s[0], 1, 0, 0], [iv, 0, 0, 0], 2, 1);
    SingleStep1(s, x);
    assert Run(s, 2) == Solver([x, 1, 0, 0], [iv, 0, 0, 0], 2, 2);
    SingleStepLater(s, x, iv, 2, 2);
    assert Run(s, 3) == Solver([x, 1, 0, 0], [iv, 0, 0, 0], 2, 3);
    SingleStepLater(s, x, iv, 3, 3);
    assert Run(s, 4) == Solver([x, 1, 0, 0], [iv, 0, 0, 0], 2, 4);
  }

  // ---------------------------------------------------------------------------
  // The root search on the reversed locator

  /** The reversed single-error locator [0, 0, 1, x] is y + x. */
  lemma LineValue(x: bv8, y: bv8)
    ensures Horner([0, 0, 1, x], y) == Add(y, x)
  {
    hide Add; hide Mul; hide Double; hide Pow2;
    assert Reverse([x, 1, 0, 0]) == [0, 0, 1, x];
    HornerReverse([x, 1, 0, 0], y);
    MulIdentities(y);
    MulIdentities(Power(y, 2));
    MulIdentities(Power(y, 3));
    ZeroFacts(Add(y, x));
    ZeroFacts(Add(0, Add(y, x)));
  }

  /** The only root of [0, 0, 1, 2^t] among 2^0 .. 2^31 is 2^t itself. */
  lemma LineRoots(t: nat)
    requires t < CodeSize
    ensures RootsBelow([0, 0, 1, Pow2(t)], CodeSize) == [t]
  {
    hide Add; hide Mul; hide Double; hide Pow2; hide RootsBelow;
    var loc: seq<bv8> := [0, 0, 1, Pow2(t)];
    forall i: nat | i < CodeSize
      ensures IsRoot(loc, i) <==> i == t
    {
      LineValue(Pow2(t), Pow2(i));
      AddCancel(Pow2(i), Pow2(t));
      if i < t {
        Pow2Distinct(i, t);
      } else if t < i {
        Pow2Distinct(t, i);
      }
    }
    SingleRoot(loc, t, CodeSize);
  }

  /** The scan of [0, 0, 1, 2^t] records position 31 - t once. */
  lemma LineScan(t: nat, e: seq<U8>)
    requires t < CodeSize && |e| == NSymbols
    ensures ChienResult([0, 0, 1, Pow2(t)], e) == Scan(e[0 := Position(t)], 1)
  {
    hide Add; hide Mul; hide Double; hide Pow2; hide RootsBelow; hide Position;
    LineRoots(t);
  }

  // ---------------------------------------------------------------------------
  // One corrupted symbol

  /** The codeword w with v added to the symbol at position p. */
  function Corrupt(w: seq<bv8>, p: nat, v: bv8): seq<bv8>
    requires p < |w|
  {
    w[p := Add(w[p], v)]
  }

  /** The syndromes of a clean codeword with one corrupted symbol are v * X^i, where
      X = 2^(31 - p) is the locator of position p. */
  lemma CorruptSyndromes(w: seq<bv8>, p: nat, v: bv8)
    requires |w| == CodeSize && Clean(Syndromes(w)) && p < CodeSize && v != 0
    ensures Syndromes(Corrupt(w, p, v))[0] == v
    ensures Geometric(Syndromes(Corrupt(w, p, v)), Pow2(CodeSize - 1 - p))
  {
    hide Add; hide Mul; hide Double; hide Pow2; hide Horner;
    var t := CodeSize - 1 - p;
    var s := Syndromes(Corrupt(w, p, v));
    forall i | 0 <= i < NSymbols
      ensures s[i] == Mul(v, Pow2(i * t))
    {
      assert Syndromes(w)[i] == 0;
      HornerPoke(w, p, v, Pow2(i));
      PowerPow2(i, t);
      ZeroFacts(Mul(v, Power(Pow2(i), t)));
    }
    Pow2Zero();
    MulIdentities(v);
    forall i | 0 <= i < NSymbols - 1
      ensures s[i + 1] == Mul(s[i], Pow2(t))
    {
      assert (i + 1) * t == i * t + t;
      Pow2Add(i * t, t);
      MulAssoc(v, Pow2(i * t), Pow2(t));
    }
  }

  /** One corrupted symbol, anywhere and of any value, is found and removed; the second
      correction of main.c:134 then adds whatever poly_corruption[1] still holds to
      the symbol at the position poly_err_evaluator[1] still holds. */
  lemma SingleErrorDecoding(w: seq<bv8>, p: nat, v: bv8, e: seq<U8>, k: seq<bv8>)
    requires |w| == CodeSize && Clean(Syndromes(w)) && p < CodeSize && v != 0
    requires |e| == NSymbols && |k| == NSymbols / 2
    requires forall j :: 0 <= j < NSymbols ==> e[j] as int < CodeSize
    ensures Decoded(Corrupt(w, p, v), e, k) == Result(Recovered, w[e[1] := Add(w[e[1]], k[1])])
  {
    hide Add; hide Mul; hide Double; hide Pow2; hide Horner; hide Syndromes;
    hide ErrLocator; hide ChienResult; hide Corruption;
    var c := Corrupt(w, p, v);
    var t := CodeSize - 1 - p;
    var s := Syndromes(c);
    CorruptSyndromes(w, p, v);
    assert !Clean(s);
    SingleLocator(s, Pow2(t));
    var loc := Reverse(ErrLocator(s).curr);
    assert loc == [0, 0, 1, Pow2(t)];
    LineScan(t, e);
    var ev := e[0 := Position(t)];
    assert ev[0] as int == p;
    CorruptionSingle(s, loc, ev, k);
    MulIdentities(v);
    AddLaws(w[p], v, v);
    AddLaws(v, 0, 0);
    AddLaws(w[p], 0, 0);
    var c1 := c[p := Add(c[p], v)];
    assert c1 == w;
  }

  /** What decoding one corrupted symbol leaves in the static buffers: the reversed
      locator [0, 0, 1, X] of size 2 with X = 2^(31 - p), the single position p with
      count 1, and the magnitude v in poly_corruption[0]; poly_corruption[1] keeps its
      value, so a decoder whose poly_corruption[1] is 0 keeps it 0. */
  lemma SingleErrorState(w: seq<bv8>, p: nat, v: bv8, b: Buffers)
    requires |w| == CodeSize && Clean(Syndromes(w)) && p < CodeSize && v != 0 && Sized(b)
    ensures var r := DecodedState(Corrupt(w, p, v), b);
            r.syndromes == Syndromes(Corrupt(w, p, v))
            && r.errLocator == [0, 0, 1, Pow2(CodeSize - 1 - p)] && r.errLocatorSize == 2
            && r.errEvaluator == b.errEvaluator[0 := p as U8] && r.errEvaluatorSize == 1
            && r.corruption == [v, b.corruption[1]]
  {
    hide Add; hide Mul; hide Double; hide Pow2; hide Horner;
    var c := Corrupt(w, p, v);
    var t := CodeSize - 1 - p;
    var s := Syndromes(c);
    CorruptSyndromes(w, p, v);
    assert !Clean(s);
    SingleLocator(s, Pow2(t));
    var loc := Reverse(ErrLocator(s).curr);
    assert loc == [0, 0, 1, Pow2(t)];
    LineScan(t, b.errEvaluator);
    var ev := b.errEvaluator[0 := Position(t)];
    assert ev[0] as int == p;
    CorruptionSingle(s, loc, ev, b.corruption);
    MulIdentities(v);
  }

  /** On a decoder whose poly_corruption[1] is 0, as on the first run, one corrupted
      symbol is corrected and the codeword restored exactly. */
  lemma CorrectsSingleError(w: seq<bv8>, p: nat, v: bv8, e: seq<U8>, k: seq<bv8>)
    requires |w| == CodeSize && Clean(Syndromes(w)) && p < CodeSize && v != 0
    requires |e| == NSymbols && |k| == NSymbols / 2 && k[1] == 0
    requires forall j :: 0 <= j < NSymbols ==> e[j] as int < CodeSize
    ensures Decoded(Corrupt(w, p, v), e, k) == Result(Recovered, w)
  {
    hide Add; hide Decoded;
    SingleErrorDecoding(w, p, v, e, k);
    AddLaws(w[e[1]], 0, 0);
  }

  // ---------------------------------------------------------------------------
  // Clean codewords and the meaning of the outcome

  /** Every encoder output has zero syndromes, so it is reported as not corrupted and
      left unchanged. */
  lemma DecodesCodeword(m: seq<bv8>, e: seq<U8>, k: seq<bv8>)
    requires |m| == DataSize && |e| == NSymbols && |k| == NSymbols / 2
    requires forall j :: 0 <= j < NSymbols ==> e[j] as int < CodeSize
    ensures |Encoded(m)| == CodeSize && Clean(Syndromes(Encoded(m)))
    ensures Decoded(Encoded(m), e, k) == Result(NotCorrupted, Encoded(m))
  {
    hide Horner; hide Pow2; hide Encoded;
    EncodedSyndromesZero(m);
  }

  /** What each outcome means: "not corrupted" exactly when the syndromes are zero; "too
      many errors" exactly when the locator has three roots among 2^0 .. 2^31; "error
      locators error" exactly when it has none; and the codeword is changed only on
      "recovered". So the zero-denominator checks of compute_poly_corruption never
      decide the outcome: the two positions the search records are distinct. */
  lemma DecodedOutcome(c: seq<bv8>, e: seq<U8>, k: seq<bv8>)
    requires |c| == CodeSize && |e| == NSymbols && |k| == NSymbols / 2
    requires forall j :: 0 <= j < NSymbols ==> e[j] as int < CodeSize
    ensures var r := Decoded(c, e, k);
            (r.outcome == NotCorrupted <==> Clean(Syndromes(c)))
            && (r.outcome != Recovered ==> r.codeword == c)
    ensures var r := Decoded(c, e, k);
            var loc := ReceivedLocator(c);
            r.outcome == TooManyErrors <==>
              !Clean(Syndromes(c))
              && (exists a: nat, b: nat, d: nat :: a < b < d < CodeSize
                    && IsRoot(loc, a) && IsRoot(loc, b) && IsRoot(loc, d))
    ensures var r := Decoded(c, e, k);
            var loc := ReceivedLocator(c);
            r.outcome == LocatorsError <==>
              !Clean(Syndromes(c)) && forall i: nat :: i < CodeSize ==> !IsRoot(loc, i)
  {
    hide Add; hide Mul; hide Double; hide Pow2; hide Horner; hide Syndromes;
    hide ErrLocator; hide ChienResult; hide Corruption; hide IsRoot; hide ReceivedLocator;
    var s := Syndromes(c);
    var loc := ReceivedLocator(c);
    var scan := ChienResult(loc, e);
    ChienSize(loc, e);
    ChienRecorded(loc, e);
    if !Clean(s) && scan.size != ErrCode {
      CorruptionStatus(s, loc, scan.evaluator, scan.size, k);
      if scan.size == 0 {
        forall i: nat | i < CodeSize
          ensures !IsRoot(loc, i)
        {
          ChienComplete(loc, e, i);
        }
      } else {
        assert IsRoot(loc, CodeSize - 1 - scan.evaluator[0] as int);
      }
    }
  }
}
