/**
 * The root search of main.c (compute_poly_err_evaluator, lines 289-311; despite its
 * name it finds the error positions). It evaluates the reversed locator at 2^i for
 * i = 0 .. 31, records position 31 - i for each root, and gives up with ERR_CODE
 * when a third root turns up.
 *
 * RootsBelow is the declarative reference (the roots in increasing order) and
 * ChienResult what the scan leaves behind; the lemmas state what the recorded
 * positions mean.
 */
module Search {
  import opened GF
  import opened Poly
  import opened Config

  /** The locator vanishes at 2^i. */
  predicate IsRoot(loc: seq<bv8>, i: nat) {
    Horner(loc, Pow2(i)) == 0
  }

  /** The i < n with loc(2^i) == 0, in increasing order. */
  function RootsBelow(loc: seq<bv8>, n: nat): seq<nat>
    decreases n
  {
    if n == 0 then []
    else RootsBelow(loc, n - 1) + (if IsRoot(loc, n - 1) then [n - 1] else [])
  }

  /** The codeword position of the symbol whose locator is 2^i: DATA_SIZE + N_SYMBOLS - 1 - i. */
  function Position(i: nat): (p: U8)
    requires i < CodeSize
    ensures p as int < CodeSize
  {
    (CodeSize - 1 - i) as U8
  }

  /** What the scan leaves: poly_err_evaluator and poly_err_evaluator_size. */
  datatype Scan = Scan(evaluator: seq<U8>, size: U8)

  /** The positions of the first two roots written over the first entries of e. */
  function Record(e: seq<U8>, roots: seq<nat>): seq<U8>
    requires |e| == NSymbols && forall k :: 0 <= k < |roots| ==> roots[k] < CodeSize
  {
    seq(NSymbols, k requires 0 <= k < NSymbols =>
          if k < |roots| && k < NSymbols / 2 then Position(roots[k]) else e[k])
  }

  /** The outcome of the scan of loc, starting from the evaluator buffer e: the positions
      of the first two roots, and their number, or ERR_CODE for three or more. */
  function ChienResult(loc: seq<bv8>, e: seq<U8>): (r: Scan)
    requires |e| == NSymbols
    ensures |r.evaluator| == NSymbols
    ensures forall k :: 0 <= k < NSymbols ==> r.evaluator[k] as int < CodeSize || r.evaluator[k] == e[k]
  {
    var roots := RootsBelow(loc, CodeSize);
    RootsBelowSpec(loc, CodeSize);
    Scan(Partial(loc, e, CodeSize), if |roots| > NSymbols / 2 then ErrCode else |roots| as U8)
  }

  /** The evaluator buffer once the candidates 2^0 .. 2^(n-1) have been examined. */
  function Partial(loc: seq<bv8>, e: seq<U8>, n: nat): (r: seq<U8>)
    requires |e| == NSymbols && n <= CodeSize
    ensures |r| == NSymbols
    ensures forall k :: 0 <= k < NSymbols ==> r[k] as int < CodeSize || r[k] == e[k]
  {
    RootsBelowSpec(loc, n);
    Record(e, RootsBelow(loc, n))
  }

  // ---------------------------------------------------------------------------
  // What the roots are

  /** RootsBelow holds exactly the i < n where the locator vanishes at 2^i, strictly
      increasing. */
  lemma {:induction false} RootsBelowSpec(loc: seq<bv8>, n: nat)
    ensures forall i: nat :: i in RootsBelow(loc, n) <==> i < n && IsRoot(loc, i)
    ensures forall k :: 0 <= k < |RootsBelow(loc, n)| ==> RootsBelow(loc, n)[k] < n
    ensures forall a, b :: 0 <= a < b < |RootsBelow(loc, n)| ==>
              RootsBelow(loc, n)[a] < RootsBelow(loc, n)[b]
  {
    hide IsRoot;
    if n > 0 {
      RootsBelowSpec(loc, n - 1);
    }
  }

  /** One more candidate: 2^n joins the roots when it is one. */
  lemma RootsBelowNext(loc: seq<bv8>, n: nat)
    ensures RootsBelow(loc, 0) == []
    ensures RootsBelow(loc, n + 1) == RootsBelow(loc, n) + if IsRoot(loc, n) then [n] else []
  {}

  /** Before the scan the buffer is as it was. */
  lemma PartialStart(loc: seq<bv8>, e: seq<U8>)
    requires |e| == NSymbols
    ensures RootsBelow(loc, 0) == [] && Partial(loc, e, 0) == e
  {}

  /** Examining 2^n records position 31 - n in the next free entry when it is a root
      (which needs a free entry), and changes nothing otherwise. */
  lemma PartialNext(loc: seq<bv8>, e: seq<U8>, n: nat)
    requires |e| == NSymbols && n < CodeSize && |RootsBelow(loc, n)| <= NSymbols / 2
    requires IsRoot(loc, n) ==> |RootsBelow(loc, n)| < NSymbols / 2
    ensures Partial(loc, e, n + 1)
         == if IsRoot(loc, n) then Partial(loc, e, n)[|RootsBelow(loc, n)| := Position(n)]
            else Partial(loc, e, n)
  {
    hide IsRoot; hide RootsBelow; hide Position;
    RootsBelowNext(loc, n);
    RootsBelowSpec(loc, n);
    RootsBelowSpec(loc, n + 1);
  }

  /** A third root at 2^n ends the scan with ERR_CODE and the first two positions. */
  lemma PartialStop(loc: seq<bv8>, e: seq<U8>, n: nat)
    requires |e| == NSymbols && n < CodeSize
    requires |RootsBelow(loc, n)| == NSymbols / 2 && IsRoot(loc, n)
    ensures ChienResult(loc, e) == Scan(Partial(loc, e, n), ErrCode)
  {
    hide IsRoot; hide RootsBelow; hide Position;
    RootsBelowNext(loc, n);
    RootsBelowSpec(loc, n);
    RootsBelowSpec(loc, CodeSize);
    RootsBelowPrefix(loc, n + 1, CodeSize);
    RootsBelowPrefix(loc, n, CodeSize);
  }

  /** With at most two roots the scan runs to the end. */
  lemma PartialEnd(loc: seq<bv8>, e: seq<U8>)
    requires |e| == NSymbols && |RootsBelow(loc, CodeSize)| <= NSymbols / 2
    ensures ChienResult(loc, e) == Scan(Partial(loc, e, CodeSize), |RootsBelow(loc, CodeSize)| as U8)
  {
    hide IsRoot; hide RootsBelow;
  }

  /** The roots below n are the first roots below any larger bound. */
  lemma {:induction false} RootsBelowPrefix(loc: seq<bv8>, n: nat, m: nat)
    requires n <= m
    ensures RootsBelow(loc, n) <= RootsBelow(loc, m)
    decreases m
  {
    hide IsRoot;
    if n < m {
      RootsBelowPrefix(loc, n, m - 1);
    }
  }

  /** When 2^t is the only root among 2^0 .. 2^(n-1), the roots below n are [t] (or none
      when t is out of range). */
  lemma {:induction false} SingleRoot(loc: seq<bv8>, t: nat, n: nat)
    requires forall i: nat :: i < n ==> (IsRoot(loc, i) <==> i == t)
    ensures RootsBelow(loc, n) == if t < n then [t] else []
  {
    hide IsRoot;
    if n > 0 {
      SingleRoot(loc, t, n - 1);
    }
  }

  /** The scan's size is 0, 1, 2 or ERR_CODE; ERR_CODE exactly when at least three of
      2^0 .. 2^31 are roots. */
  lemma ChienSize(loc: seq<bv8>, e: seq<U8>)
    requires |e| == NSymbols
    ensures ChienResult(loc, e).size in {0, 1, 2, ErrCode}
    ensures ChienResult(loc, e).size == ErrCode <==>
              exists a: nat, b: nat, c: nat :: a < b < c < CodeSize && IsRoot(loc, a)
                && IsRoot(loc, b) && IsRoot(loc, c)
  {
    hide IsRoot; hide RootsBelow;
    var roots := RootsBelow(loc, CodeSize);
    RootsBelowSpec(loc, CodeSize);
    if |roots| > 2 {
      var a, b, c := roots[0], roots[1], roots[2];
      assert a in roots && b in roots && c in roots;
    }
    if exists a: nat, b: nat, c: nat :: a < b < c < CodeSize && IsRoot(loc, a)
         && IsRoot(loc, b) && IsRoot(loc, c) {
      var a: nat, b: nat, c: nat :| a < b < c < CodeSize && IsRoot(loc, a)
                   && IsRoot(loc, b) && IsRoot(loc, c);
      assert a in roots && b in roots && c in roots;
      ThreeDistinct(roots, a, b, c);
    }
  }

  /** A strictly increasing sequence holding three distinct values has at least three
      elements. */
  lemma ThreeDistinct(r: seq<nat>, a: nat, b: nat, c: nat)
    requires a in r && b in r && c in r && a < b < c
    ensures |r| > 2
  {
    var ia :| 0 <= ia < |r| && r[ia] == a;
    var ib :| 0 <= ib < |r| && r[ib] == b;
    var ic :| 0 <= ic < |r| && r[ic] == c;
    assert ia != ib && ib != ic && ia != ic;
  }

  /** Each recorded position p marks a root: the locator vanishes at 2^(31-p); and when
      two are recorded they are strictly decreasing. */
  lemma ChienRecorded(loc: seq<bv8>, e: seq<U8>)
    requires |e| == NSymbols
    ensures var r := ChienResult(loc, e);
            forall k :: 0 <= k < NSymbols / 2 && (k < r.size as int || r.size == ErrCode) ==>
              r.evaluator[k] as int < CodeSize
              && IsRoot(loc, CodeSize - 1 - r.evaluator[k] as int)
    ensures var r := ChienResult(loc, e);
            (r.size == 2 || r.size == ErrCode) ==> r.evaluator[0] > r.evaluator[1]
  {
    hide IsRoot; hide RootsBelow;
    RootsBelowSpec(loc, CodeSize);
    var roots := RootsBelow(loc, CodeSize);
    forall k | 0 <= k < |roots|
      ensures IsRoot(loc, roots[k])
    {
      assert roots[k] in roots;
    }
  }

  /** When the scan succeeds it found every root: 2^i is a root exactly when 31 - i is
      among the recorded positions. */
  lemma ChienComplete(loc: seq<bv8>, e: seq<U8>, i: nat)
    requires |e| == NSymbols && i < CodeSize
    requires ChienResult(loc, e).size != ErrCode
    ensures var r := ChienResult(loc, e);
            IsRoot(loc, i) <==>
              exists k :: 0 <= k < r.size as int && r.evaluator[k] as int == CodeSize - 1 - i
  {
    hide IsRoot; hide RootsBelow;
    RootsBelowSpec(loc, CodeSize);
    var roots := RootsBelow(loc, CodeSize);
    var r := ChienResult(loc, e);
    if IsRoot(loc, i) {
      assert i in roots;
      var k :| 0 <= k < |roots| && roots[k] == i;
      assert r.evaluator[k] as int == CodeSize - 1 - i;
    }
    if exists k :: 0 <= k < r.size as int && r.evaluator[k] as int == CodeSize - 1 - i {
      var k :| 0 <= k < r.size as int && r.evaluator[k] as int == CodeSize - 1 - i;
      assert roots[k] == i;
      assert roots[k] in roots;
    }
  }
}
