/**
 * The decoding half of main.c: the static buffers of lines 20-26 as the fields of a
 * Decoder object, the four compute_* functions as its methods, and the decoding
 * branch of main (lines 92-139) as Decode.
 *
 * Each method is proved against the specification functions of the other modules;
 * Decoded is the whole decoding branch as one function of the received codeword and
 * of the buffer contents a previous run left behind.
 */
module Decoding {
  import opened GF
  import opened Poly
  import opened Config
  import opened Locator
  import opened Search
  import opened Magnitude

  /** The received codeword evaluated at 2^0 .. 2^3, the roots of the generator. */
  function Syndromes(c: seq<bv8>): (s: seq<bv8>)
    requires |c| == CodeSize
    ensures |s| == NSymbols
  {
    seq(NSymbols, i requires 0 <= i < NSymbols => Horner(c, Pow2(i)))
  }

  /** All four syndromes are zero: the uint32_t comparison of main.c:95, which reads
      the four syndrome bytes as one word. */
  predicate Clean(s: seq<bv8>)
    requires |s| == NSymbols
  {
    forall i :: 0 <= i < NSymbols ==> s[i] == 0
  }

  /** The error locator main searches: the solver's result, reversed (main.c:110-115). */
  ghost function ReceivedLocator(c: seq<bv8>): (loc: seq<bv8>)
    requires |c| == CodeSize
    ensures |loc| == NSymbols
  {
    Reverse(ErrLocator(Syndromes(c)).curr)
  }

  /** Which message main prints at the end of decoding. */
  datatype Outcome = NotCorrupted | TooManyErrors | LocatorsError | Recovered

  /** The outcome and the codeword as main leaves it. */
  datatype Result = Result(outcome: Outcome, codeword: seq<bv8>)

  /** The decoding branch of main (lines 92-139) on the received codeword c, where e
      and k are what poly_err_evaluator and poly_corruption held before. Both
      corrections of lines 133-134 are applied, the second one even when only one
      error was located, with whatever the buffers still hold at index 1. */
  ghost function Decoded(c: seq<bv8>, e: seq<U8>, k: seq<bv8>): Result
    requires |c| == CodeSize && |e| == NSymbols && |k| == NSymbols / 2
    requires forall j :: 0 <= j < NSymbols ==> e[j] as int < CodeSize
  {
    var s := Syndromes(c);
    if Clean(s) then Result(NotCorrupted, c)
    else
      var loc := ReceivedLocator(c);
      var scan := ChienResult(loc, e);
      if scan.size == ErrCode then Result(TooManyErrors, c)
      else
        var f := Corruption(s, loc, scan.evaluator, scan.size, k);
        if f.status == ErrCode then Result(LocatorsError, c)
        else
          var p0, p1 := scan.evaluator[0], scan.evaluator[1];
          var c1 := c[p0 := Add(c[p0], f.corruption[0])];
          Result(Recovered, c1[p1 := Add(c1[p1], f.corruption[1])])
  }

  /** The static buffers and counters of main.c:20-26 as values. */
  datatype Buffers = Buffers(syndromes: seq<bv8>, errLocator: seq<bv8>, errLocatorSize: U8,
                             errEvaluator: seq<U8>, errEvaluatorSize: U8, corruption: seq<bv8>)

  /** The buffers have the lengths of their declarations. */
  predicate Sized(b: Buffers) {
    |b.syndromes| == NSymbols && |b.errLocator| == NSymbols
    && |b.errEvaluator| == NSymbols && |b.corruption| == NSymbols / 2
  }

  /** What the decoding branch of main leaves in the static buffers b on the received
      codeword c: the syndromes always; when they are not all zero, also the reversed
      locator and its size and the scan's positions and count; and the magnitudes
      unless the scan ended with ERR_CODE, in which case compute_poly_corruption is
      not called and poly_corruption keeps its contents. */
  ghost function DecodedState(c: seq<bv8>, b: Buffers): (r: Buffers)
    requires |c| == CodeSize && Sized(b)
    ensures Sized(r)
  {
    var s := Syndromes(c);
    if Clean(s) then b.(syndromes := s)
    else
      var solved := ErrLocator(s);
      var loc := Reverse(solved.curr);
      var scan := ChienResult(loc, b.errEvaluator);
      var k := if scan.size == ErrCode then b.corruption
               else Corruption(s, loc, scan.evaluator, scan.size, b.corruption).corruption;
      Buffers(s, loc, solved.currSize, scan.evaluator, scan.size, k)
  }

  /** The state of the decoder: the static buffers and counters of main.c:20-26. */
  class Decoder {
    const syndromes: array<bv8>
    const errLocator: array<bv8>
    const errEvaluator: array<U8>
    const corruption: array<bv8>
    var errLocatorSize: U8
    var errEvaluatorSize: U8

    /** The buffers have the sizes of their declarations, are distinct, and every
        recorded position lies inside the codeword. */
    ghost predicate Valid()
      reads this, errEvaluator
    {
      syndromes.Length == NSymbols && errLocator.Length == NSymbols
      && errEvaluator.Length == NSymbols && corruption.Length == NSymbols / 2
      && syndromes != errLocator
      && errEvaluator as object != syndromes as object
      && errEvaluator as object != errLocator as object
      && errEvaluator as object != corruption as object
      && forall j :: 0 <= j < NSymbols ==> errEvaluator[j] as int < CodeSize
    }

    /** The buffers' contents and the two counters. */
    ghost function State(): Buffers
      reads this, syndromes, errLocator, errEvaluator, corruption
    {
      Buffers(syndromes[..], errLocator[..], errLocatorSize,
              errEvaluator[..], errEvaluatorSize, corruption[..])
    }

    /** Static storage starts out zero. */
    constructor ()
      ensures Valid()
      ensures fresh(syndromes) && fresh(errLocator) && fresh(errEvaluator) && fresh(corruption)
      ensures syndromes[..] == Zeros(NSymbols) && errLocator[..] == Zeros(NSymbols)
      ensures errEvaluator[..] == seq(NSymbols, j => 0) && corruption[..] == Zeros(NSymbols / 2)
      ensures errLocatorSize == 0 && errEvaluatorSize == 0
    {
      syndromes := new bv8[NSymbols](j => 0);
      errLocator := new bv8[NSymbols](j => 0);
      errEvaluator := new U8[NSymbols](j => 0);
      corruption := new bv8[NSymbols / 2](j => 0);
      errLocatorSize, errEvaluatorSize := 0, 0;
    }

    /** compute_poly_syndromes (main.c:229-235): the codeword at 1 << i, which is 2^i
        for i < 8 since no reduction happens. */
    method ComputeSyndromes(codeword: array<bv8>)
      requires Valid() && codeword.Length == CodeSize
      modifies syndromes
      ensures Valid()
      ensures syndromes[..] == Syndromes(codeword[..])
    {
      hide Horner; hide Pow2;
      var i: U8 := 0;
      while i < NSymbols as U8
        invariant i as int <= NSymbols
        invariant forall j :: 0 <= j < i as int ==> syndromes[j] == Horner(codeword[..], Pow2(j))
      {
        Pow2Small(i as nat);
        assert codeword[..CodeSize] == codeword[..];
        syndromes[i] := PolyEvaluate(codeword, CodeSize as U8, (1 as bv8) << i as nat);
        i := i + 1;
      }
      assert forall j :: 0 <= j < NSymbols ==> syndromes[..][j] == Syndromes(codeword[..])[j];
    }

    /** compute_poly_err_locator (main.c:238-286): Berlekamp-Massey on local buffers,
        then the current locator and its size copied out. */
    method ComputeErrLocator()
      requires Valid()
      modifies this, errLocator
      ensures Valid()
      ensures errLocator[..] == ErrLocator(syndromes[..]).curr
      ensures errLocatorSize == ErrLocator(syndromes[..]).currSize
      ensures errEvaluatorSize == old(errEvaluatorSize)
    {
      hide Step;
      var curr := new bv8[] [1, 0, 0, 0];
      var prev := new bv8[] [1, 0, 0, 0];
      var currSize: U8, prevSize: U8 := 1, 1;
      var i: U8 := 0;
      while i < NSymbols as U8
        modifies curr, prev
        invariant i as int <= NSymbols
        invariant Solver(curr[..], prev[..], currSize, prevSize) == Run(syndromes[..], i as nat)
      {
        currSize, prevSize := Iterate(syndromes, curr, prev, currSize, prevSize, i);
        i := i + 1;
      }
      assert Solver(curr[..], prev[..], currSize, prevSize) == ErrLocator(syndromes[..]);
      forall j | 0 <= j < NSymbols {
        errLocator[j] := curr[j];
      }
      assert errLocator[..] == curr[..];
      assert syndromes[..] == old(syndromes[..]);
      errLocatorSize := currSize;
      assert errLocator[..] == ErrLocator(syndromes[..]).curr;
    }

    /** The reversal of main.c:110-115: each outer pair exchanged by three XORs. */
    method ReverseLocator()
      requires Valid()
      modifies errLocator
      ensures Valid()
      ensures errLocator[..] == Reverse(old(errLocator[..]))
    {
      hide Add;
      var i: U8 := 0;
      while i < (NSymbols / 2) as U8
        invariant i as int <= NSymbols / 2
        invariant forall j :: 0 <= j < NSymbols ==>
                    errLocator[j] == if j < i as int || j >= NSymbols - i as int
                                     then old(errLocator[NSymbols - 1 - j]) else old(errLocator[j])
      {
        var o := NSymbols as U8 - i - 1;
        AddExchange(errLocator[i], errLocator[o]);
        errLocator[i] := Add(errLocator[i], errLocator[o]);
        errLocator[o] := Add(errLocator[o], errLocator[i]);
        errLocator[i] := Add(errLocator[i], errLocator[o]);
        i := i + 1;
      }
    }

    /** compute_poly_err_evaluator (main.c:289-311): the reversed locator at 2^i for
        i = 0 .. 31, recording 31 - i for each root and stopping with ERR_CODE at the
        third. */
    method ComputeErrEvaluator()
      requires Valid()
      modifies this, errEvaluator
      ensures Valid()
      ensures Scan(errEvaluator[..], errEvaluatorSize) == ChienResult(errLocator[..], old(errEvaluator[..]))
      ensures errLocatorSize == old(errLocatorSize)
    {
      hide Horner; hide Pow2; hide RootsBelow; hide Partial; hide Record;
      ghost var loc := errLocator[..];
      ghost var e := errEvaluator[..];
      var counter: U8 := 0;
      var i: U8 := 0;
      PartialStart(loc, e);
      while i < CodeSize as U8
        modifies errEvaluator
        invariant i as int <= CodeSize
        invariant counter as int == |RootsBelow(loc, i as nat)| <= NSymbols / 2
        invariant errEvaluator[..] == Partial(loc, e, i as nat)
      {
        var x := GfPow2(i);
        assert errLocator[..NSymbols] == loc;
        var value := PolyEvaluate(errLocator, NSymbols as U8, x);
        RootsBelowNext(loc, i as nat);
        if value == 0 {
          if 2 * counter >= NSymbols as U8 {
            counter := ErrCode;
            PartialStop(loc, e, i as nat);
            break;
          }
          PartialNext(loc, e, i as nat);
          errEvaluator[counter] := (CodeSize - 1 - i as int) as U8;
          counter := counter + 1;
        } else {
          PartialNext(loc, e, i as nat);
        }
        i := i + 1;
      }
      if counter != ErrCode {
        PartialEnd(loc, e);
      }
      errEvaluatorSize := counter;
    }

    /** compute_poly_corruption (main.c:314-377): Forney's formula for one or two
        errors; returns 0 or ERR_CODE. */
    method ComputeCorruption() returns (status: U8)
      requires Valid()
      modifies corruption
      ensures Valid()
      ensures Forney(status, corruption[..])
           == Corruption(syndromes[..], errLocator[..], errEvaluator[..], errEvaluatorSize, old(corruption[..]))
    {
      hide Add; hide Mul; hide Horner; hide Pow2;
      status := 0;
      if errEvaluatorSize == 1 {
        var errEval := new bv8[2];
        errEval[0] := GfMult(syndromes[0], errLocator[2]);
        errEval[1] := 0;
        var xInv := GfPow2(Exponent(errEvaluator[0]));
        var x := GfInv(xInv);
        var y := PolyEvaluate(errEval, 2, xInv);
        assert errEval[..2] == [Mul(syndromes[0], errLocator[2]), 0];
        corruption[0] := GfMult(x, y);
      } else if errEvaluatorSize == 2 {
        var y0, y1;
        status, y0, y1 := TwoErrors(syndromes, errLocator, errEvaluator[0], errEvaluator[1]);
        corruption[0] := y0;
        corruption[1] := y1;
        assert corruption[..] == [y0, y1];
      } else {
        status := ErrCode;
      }
    }

    /** The decoding branch of main (lines 92-139) on the received codeword. */
    method Decode(codeword: array<bv8>) returns (outcome: Outcome)
      requires Valid() && codeword.Length == CodeSize
      modifies this, syndromes, errLocator, errEvaluator, corruption, codeword
      ensures Valid()
      ensures Result(outcome, codeword[..]) == Decoded(old(codeword[..]), old(errEvaluator[..]), old(corruption[..]))
      ensures State() == DecodedState(old(codeword[..]), old(State()))
    {
      hide Syndromes; hide ErrLocator; hide ChienResult; hide Corruption; hide Reverse;
      hide Add; hide Mul; hide Horner; hide Pow2; hide Record; hide RootsBelow;
      ghost var c := codeword[..];
      ghost var e := errEvaluator[..];
      ghost var k := corruption[..];
      ComputeSyndromes(codeword);
      if syndromes[0] == 0 && syndromes[1] == 0 && syndromes[2] == 0 && syndromes[3] == 0 {
        return NotCorrupted;
      }
      assert syndromes[..][0] != 0 || syndromes[..][1] != 0 || syndromes[..][2] != 0 || syndromes[..][3] != 0;
      ComputeErrLocator();
      ReverseLocator();
      ComputeErrEvaluator();
      if errEvaluatorSize == ErrCode {
        return TooManyErrors;
      }
      var status := ComputeCorruption();
      if status == ErrCode {
        return LocatorsError;
      }
      codeword[errEvaluator[0]] := Add(codeword[errEvaluator[0]], corruption[0]);
      codeword[errEvaluator[1]] := Add(codeword[errEvaluator[1]], corruption[1]);
      outcome := Recovered;
    }
  }
}
