/**
 * The Berlekamp-Massey error-locator solver of main.c (compute_poly_err_locator,
 * lines 238-286) as a function of the syndromes, one outer iteration at a time,
 * and the coefficient reversal main applies to its result (lines 110-115).
 *
 * The solver keeps two 4-wide buffers, most significant coefficient first: the
 * current locator and the previous one (old_poly_err_locator in the source), with
 * a length counter each. Step is one iteration of the outer loop; its contract
 * carries the counter invariant curr_size + old_size == i + 2 that keeps every
 * index of the loop body inside the buffers.
 */
module Locator {
  import opened GF
  import opened Poly
  import opened Config

  /** The solver's variables at the top of an iteration. */
  datatype Solver = Solver(curr: seq<bv8>, prev: seq<bv8>, currSize: U8, prevSize: U8)

  /** The counters at the top of iteration i: both at least 1, summing to i + 2. */
  predicate Invariant(st: Solver, i: nat) {
    |st.curr| == NSymbols && |st.prev| == NSymbols
    && 1 <= st.currSize && 1 <= st.prevSize
    && st.currSize as int + st.prevSize as int == i + 2
  }

  /** Both buffers are zero beyond their sizes. */
  predicate Padded(st: Solver)
    requires |st.curr| == NSymbols && |st.prev| == NSymbols
  {
    (forall k :: st.currSize as int <= k < NSymbols ==> st.curr[k] == 0)
    && (forall k :: st.prevSize as int <= k < NSymbols ==> st.prev[k] == 0)
  }

  /** The constant term of the current locator, its last coefficient, is 1 whenever
      the locator fits the buffer. */
  predicate ConstantOne(st: Solver)
    requires |st.curr| == NSymbols && 1 <= st.currSize
  {
    st.currSize as int <= NSymbols ==> st.curr[st.currSize - 1] == 1
  }

  /** { 1, 0, 0, 0 } for both buffers, both sizes 1 (main.c:240-243). */
  const Start: Solver := Solver([1, 0, 0, 0], [1, 0, 0, 0], 1, 1)

  /** The discrepancy after the inner loop has run for j = 1 .. n-1 (main.c:248-253):
      syndrome i plus curr[size-j-1] * syndrome[i-j] for each of those j. */
  function Discrepancy(s: seq<bv8>, curr: seq<bv8>, size: U8, i: nat, n: nat): bv8
    requires |s| == NSymbols && |curr| == NSymbols && i < NSymbols
    requires 1 <= n <= size as int <= i + 1
    decreases n
  {
    if n == 1 then s[i]
    else Add(Discrepancy(s, curr, size, i, n - 1),
             Mul(curr[size as int - (n - 1) - 1], s[i - (n - 1)]))
  }

  /** curr[k] ^= temp[k - shift] for k = shift .. 3 (main.c:277-280). */
  function ShiftAdd(curr: seq<bv8>, temp: seq<bv8>, shift: U8): seq<bv8>
    requires |curr| == NSymbols && |temp| == NSymbols
  {
    seq(NSymbols, k requires 0 <= k < NSymbols =>
          if k >= shift as int then Add(curr[k], temp[k - shift as int]) else curr[k])
  }

  /** The optional swap of main.c:260-271 for a non-zero discrepancy d, once old_size
      has been incremented: when the previous locator is longer, the current one
      becomes d times the previous one, the previous one becomes the current one
      divided by d, and the sizes trade places. Afterwards curr_size >= old_size,
      so the size_shift of line 275 does not underflow. */
  ghost function Swap(st: Solver, d: bv8): (r: Solver)
    requires |st.curr| == NSymbols && |st.prev| == NSymbols
    ensures |r.curr| == NSymbols && |r.prev| == NSymbols
    ensures r.currSize >= r.prevSize
    ensures {r.currSize, r.prevSize} == {st.currSize, st.prevSize}
  {
    if st.prevSize > st.currSize then
      Solver(Scale(st.prev, d), Scale(st.curr, Inverse(d)), st.prevSize, st.currSize)
    else st
  }

  /** Iteration i of the outer loop (main.c:246-282). */
  ghost function Step(s: seq<bv8>, st: Solver, i: nat): (r: Solver)
    requires |s| == NSymbols && i < NSymbols && Invariant(st, i)
    ensures Invariant(r, i + 1)
  {
    var d := Discrepancy(s, st.curr, st.currSize, i, st.currSize as nat);
    var grown := st.(prevSize := st.prevSize + 1);
    if d == 0 then grown
    else
      var sw := Swap(grown, d);
      sw.(curr := ShiftAdd(sw.curr, Scale(sw.prev, d), sw.currSize - sw.prevSize))
  }

  /** The solver after the first n iterations. */
  ghost function Run(s: seq<bv8>, n: nat): (r: Solver)
    requires |s| == NSymbols && n <= NSymbols
    ensures Invariant(r, n)
  {
    if n == 0 then Start else Step(s, Run(s, n - 1), n - 1)
  }

  /** What compute_poly_err_locator leaves in poly_err_locator and its size. */
  ghost function ErrLocator(s: seq<bv8>): Solver
    requires |s| == NSymbols
  {
    Run(s, NSymbols)
  }

  // ---------------------------------------------------------------------------
  // Shape of the locators

  /** The state just before the shifted addition: padded, with the constant terms
      arranged so that adding d times the previous locator leaves a constant term 1. */
  predicate ReadyToAdd(sw: Solver, d: bv8)
    requires |sw.curr| == NSymbols && |sw.prev| == NSymbols
    requires 1 <= sw.prevSize <= sw.currSize
  {
    Padded(sw)
    && (sw.currSize as int <= NSymbols ==>
          Add(sw.curr[sw.currSize - 1], Mul(sw.prev[sw.prevSize - 1], d)) == 1)
  }

  /** Lengthening the previous locator and the optional swap prepare the addition. */
  lemma SwapShape(st: Solver, d: bv8, i: nat)
    requires i < NSymbols && Invariant(st, i) && Padded(st) && ConstantOne(st) && d != 0
    ensures var sw := Swap(st.(prevSize := st.prevSize + 1), d);
            1 <= sw.prevSize && ReadyToAdd(sw, d)
  {
    hide Add; hide Mul; hide Double; hide Pow2;
    var grown := st.(prevSize := st.prevSize + 1);
    var sw := Swap(grown, d);
    MulIdentities(d);
    if grown.prevSize > grown.currSize {
      MulIdentities(Inverse(d));
      assert sw.curr == Scale(st.prev, d) && sw.prev == Scale(st.curr, Inverse(d));
      if sw.currSize as int <= NSymbols {
        assert sw.curr[sw.currSize - 1] == Mul(st.prev[st.prevSize], d);
        MulAssoc(st.curr[st.currSize - 1], Inverse(d), d);
        MulComm(Inverse(d), d);
        ZeroFacts(1);
      }
    } else {
      AddLaws(1, 0, 0);
    }
  }

  /** The shifted addition keeps the padding and makes the constant term 1. */
  lemma ShiftAddShape(sw: Solver, d: bv8)
    requires |sw.curr| == NSymbols && |sw.prev| == NSymbols
    requires 1 <= sw.prevSize <= sw.currSize && ReadyToAdd(sw, d)
    ensures var next := sw.(curr := ShiftAdd(sw.curr, Scale(sw.prev, d), sw.currSize - sw.prevSize));
            Padded(next) && ConstantOne(next)
  {
    hide Add; hide Mul; hide Double; hide Pow2;
    var shift := sw.currSize - sw.prevSize;
    var temp := Scale(sw.prev, d);
    var next := ShiftAdd(sw.curr, temp, shift);
    MulIdentities(d);
    AddLaws(0, 0, 0);
    forall k | sw.currSize as int <= k < NSymbols
      ensures next[k] == 0
    {
      assert temp[k - shift as int] == Mul(sw.prev[k - shift as int], d);
    }
  }

  /** One iteration keeps both buffers zero beyond their sizes and the constant term
      of the current locator at 1. */
  lemma StepShape(s: seq<bv8>, st: Solver, i: nat)
    requires |s| == NSymbols && i < NSymbols && Invariant(st, i)
    requires Padded(st) && ConstantOne(st)
    ensures Padded(Step(s, st, i)) && ConstantOne(Step(s, st, i))
  {
    hide Add; hide Mul; hide Double; hide Pow2; hide Scale; hide ShiftAdd;
    var d := Discrepancy(s, st.curr, st.currSize, i, st.currSize as nat);
    if d != 0 {
      SwapShape(st, d, i);
      ShiftAddShape(Swap(st.(prevSize := st.prevSize + 1), d), d);
    }
  }

  /** After any number of iterations the buffers are padded with zeros and the current
      locator's constant term is 1 (when it fits). */
  lemma {:induction false} RunShape(s: seq<bv8>, n: nat)
    requires |s| == NSymbols && n <= NSymbols
    ensures Padded(Run(s, n)) && ConstantOne(Run(s, n))
  {
    hide Step;
    if n > 0 {
      RunShape(s, n - 1);
      StepShape(s, Run(s, n - 1), n - 1);
    }
  }

  /** While all syndromes seen so far are zero the solver does nothing but lengthen the
      previous locator. */
  lemma {:induction false} RunZero(s: seq<bv8>, n: nat)
    requires |s| == NSymbols && n <= NSymbols
    requires forall k :: 0 <= k < n ==> s[k] == 0
    ensures Run(s, n) == Start.(prevSize := 1 + n as U8)
  {
    hide Add; hide Mul; hide Double; hide Pow2;
    if n > 0 {
      RunZero(s, n - 1);
    }
  }

  // ---------------------------------------------------------------------------
  // The reversal of main.c:110-115

  /** The four coefficients in the opposite order. */
  function Reverse(p: seq<bv8>): (r: seq<bv8>)
    requires |p| == NSymbols
    ensures |r| == NSymbols
  {
    seq(NSymbols, k requires 0 <= k < NSymbols => p[NSymbols - 1 - k])
  }

  /** Reversing twice gives the original back. */
  lemma ReverseReverse(p: seq<bv8>)
    requires |p| == NSymbols
    ensures Reverse(Reverse(p)) == p
  {}

  /** Reading the reversed buffer most significant first is reading the original least
      significant first: p[k] is the coefficient of x^k. */
  lemma HornerReverse(p: seq<bv8>, x: bv8)
    requires |p| == NSymbols
    ensures Horner(Reverse(p), x)
         == Add(Mul(p[3], Power(x, 3)), Add(Mul(p[2], Power(x, 2)), Add(Mul(p[1], x), p[0])))
  {
    hide Add; hide Mul;
    var r := Reverse(p);
    assert r == [p[3], p[2], p[1], p[0]];
    HornerIsSum(r, x);
    assert r[1..] == [p[2], p[1], p[0]] && r[1..][1..] == [p[1], p[0]] && r[1..][1..][1..] == [p[0]];
    assert PolySum([p[0]], x) == Add(Mul(p[0], Power(x, 0)), PolySum([], x));
    assert PolySum([p[1], p[0]], x) == Add(Mul(p[1], Power(x, 1)), PolySum([p[0]], x));
    assert PolySum([p[2], p[1], p[0]], x) == Add(Mul(p[2], Power(x, 2)), PolySum([p[1], p[0]], x));
    assert Power(x, 1) == Mul(1, x);
    MulIdentities(x);
    MulIdentities(p[0]);
    AddLaws(p[0], 0, 0);
  }

  // ---------------------------------------------------------------------------
  // The source's loops

  /** The inner loop of main.c:248-253: the discrepancy of iteration i for the current
      locator of the given size. */
  method ComputeDiscrepancy(s: array<bv8>, curr: array<bv8>, size: U8, i: U8) returns (d: bv8)
    requires s.Length == NSymbols && curr.Length == NSymbols && (i as int) < NSymbols
    requires 1 <= size && size as int <= i as int + 1
    ensures d == Discrepancy(s[..], curr[..], size, i as nat, size as nat)
  {
    hide Add; hide Mul; hide Double; hide Pow2;
    d := s[i];
    var j: U8 := 1;
    while j < size
      invariant 1 <= j <= size
      invariant d == Discrepancy(s[..], curr[..], size, i as nat, j as nat)
    {
      var m := GfMult(curr[size - j - 1], s[i - j]);
      d := Add(d, m);
      j := j + 1;
    }
  }

  /** The exchange of main.c:260-271, taken when old_size > curr_size: temp becomes
      d * old, old becomes curr / d, the counters trade places by three XORs, and
      temp is copied into curr. */
  method SwapLocators(curr: array<bv8>, prev: array<bv8>, temp: array<bv8>,
                      currSize: U8, prevSize: U8, d: bv8)
    returns (currSize': U8, prevSize': U8)
    requires curr.Length == NSymbols && prev.Length == NSymbols && temp.Length == NSymbols
    requires curr != prev && curr != temp && prev != temp
    requires currSize < prevSize < 8
    modifies curr, prev, temp
    ensures Solver(curr[..], prev[..], currSize', prevSize')
         == Swap(Solver(old(curr[..]), old(prev[..]), currSize, prevSize), d)
    ensures temp[..] == curr[..]
  {
    hide Mul; hide Scale;
    PolyScale(temp, prev, NSymbols as U8, d);
    var inv := GfInv(d);
    PolyScale(prev, curr, NSymbols as U8, inv);
    assert temp[..] == temp[..NSymbols] && prev[..] == prev[..NSymbols];
    assert old(prev[..]) == old(prev[..NSymbols]) && old(curr[..]) == old(curr[..NSymbols]);
    hide Add; hide Bits; hide Value;
    var o, c := Bits(prevSize), Bits(currSize);
    AddExchange(o, c);
    o := Add(o, c);
    c := Add(c, o);
    o := Add(o, c);
    ValueBits(prevSize);
    ValueBits(currSize);
    currSize', prevSize' := Value(c), Value(o);
    forall k | 0 <= k < NSymbols {
      curr[k] := temp[k];
    }
  }

  /** The loop of main.c:277-280: curr[k] ^= temp[k - shift] for k = shift .. 3. */
  method AddShifted(curr: array<bv8>, temp: array<bv8>, shift: U8)
    requires curr.Length == NSymbols && temp.Length == NSymbols && curr != temp
    modifies curr
    ensures curr[..] == ShiftAdd(old(curr[..]), temp[..], shift)
  {
    hide Add;
    var k := shift;
    while k < NSymbols as U8
      invariant shift <= k
      invariant forall j :: 0 <= j < NSymbols ==>
                  curr[j] == if shift as int <= j < k as int then Add(old(curr[j]), temp[j - shift as int])
                             else old(curr[j])
    {
      curr[k] := Add(curr[k], temp[k - shift]);
      k := k + 1;
    }
  }

  /** One iteration of the outer loop of main.c:246-282 on the two buffers: Step. */
  method Iterate(s: array<bv8>, curr: array<bv8>, prev: array<bv8>, currSize: U8, prevSize: U8, i: U8)
    returns (currSize': U8, prevSize': U8)
    requires s.Length == NSymbols && curr.Length == NSymbols && prev.Length == NSymbols
    requires s != curr && s != prev && curr != prev && (i as int) < NSymbols
    requires Invariant(Solver(curr[..], prev[..], currSize, prevSize), i as nat)
    modifies curr, prev
    ensures Solver(curr[..], prev[..], currSize', prevSize')
         == Step(s[..], Solver(old(curr[..]), old(prev[..]), currSize, prevSize), i as nat)
  {
    hide Add; hide Mul; hide Double; hide Pow2; hide Scale; hide ShiftAdd; hide Discrepancy;
    var d := ComputeDiscrepancy(s, curr, currSize, i);
    currSize', prevSize' := currSize, prevSize + 1;
    if d != 0 {
      var temp := new bv8[NSymbols];
      if prevSize' > currSize' {
        currSize', prevSize' := SwapLocators(curr, prev, temp, currSize', prevSize', d);
      }
      PolyScale(temp, prev, NSymbols as U8, d);
      assert temp[..] == temp[..NSymbols] && prev[..] == prev[..NSymbols];
      AddShifted(curr, temp, currSize' - prevSize');
    }
  }
}
