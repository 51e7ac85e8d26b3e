# Reed–Solomon codec over GF(2^8): a verified model

This project models `main.c`, a small fixed-size Reed–Solomon codec over GF(2^8).
The field is reduced by x^8 + x^4 + x^3 + x^2 + 1 (0x11D). A 28-byte message gets 4
parity bytes, and the decoder corrects up to two corrupted bytes.

The model follows the program's own structure:

- `GF` (gf.dfy) defines field addition (XOR), doubling, the shift-and-add product
  `Mul`, powers of two `Pow2` and the inverse `Inverse`. It proves the laws the
  decoder relies on. `GfPow2`, `GfMult` and `GfInv` are the source's loops, proved to
  compute those functions.
- `Poly` (poly.dfy) defines Horner evaluation, most significant coefficient first.
  `PolyEvaluate` and `PolyScale` are the source's loops.
- `Config` (config.dfy) holds `N_SYMBOLS`, `DATA_SIZE`, `ERR_CODE` and the
  precomputed generator polynomial.
- `Encoder` (encoder.dfy) models the systematic encoder as synthetic division by the
  generator, done in place on the codeword buffer. Every output vanishes at the
  generator's four roots 2^0 .. 2^3 (`Encoder.EncodedRoots`).
- `Locator` (locator.dfy) models the Berlekamp–Massey solver, one outer iteration at
  a time, on its two 4-wide buffers and XOR-swapped counters. It also holds the
  coefficient reversal.
- `Search` (search.dfy) models the root scan over 2^0 .. 2^31 that records error
  positions. The source calls it `compute_poly_err_evaluator`.
- `Magnitude` (magnitude.dfy) models Forney's step for one or two errors.
- `Decoding` (decoder.dfy) turns the static buffers into the fields of a `Decoder`
  class, with one method per `compute_*` function. `Decode` is main's decoding
  branch. It is proved equal to the specification function `Decoded` for the outcome
  and the codeword, and to `DecodedState` for the buffers and counters it leaves
  behind.
- `Correction` (correction.dfy) states what decoding achieves:
  - an intact codeword is reported as not corrupted;
  - each outcome has an exact meaning;
  - any single corrupted byte is corrected.
- `Program` (program.dfy) models main's flow: encode, then decode with zeroed
  statics.

Bytes are `bv8`. Counters, sizes and positions are the `U8` newtype (0..255).
Where the source's `uint8_t` arithmetic could wrap, the model writes the wrap out
(`Magnitude.Exponent`).

## Model

| member | source | states |
|---|---|---|
| GF.GfPow2 | main.c:154-168 | returns Pow2(pow): 1 doubled pow times with reduction by 0x11D |
| GF.ReduceStep | main.c:159-163 | the uint16_t shift-and-reduce of a value below 0x100 stays below 0x100 and equals one field doubling |
| GF.Pow2NonZero | main.c:154-168 | 2^e is never 0 |
| GF.Pow2Small | main.c:233 | for i < 8, 2^i is 1 << i, so no reduction happens; this justifies using 1 << i as the syndrome evaluation point |
| GF.Pow2Add | main.c:154-168 | 2^(a+b) == 2^a * 2^b |
| GF.Pow2Cycle | main.c:154-168 | 2^255 == 1 |
| GF.Pow2Mod | main.c:154-168 | 2^e == 2^(e mod 255) |
| GF.Pow2Table | main.c:154-168 | 2^d != 1 for 1 <= d < 32; 2^16 == 0x4C and 2^31 == 0xC0 |
| GF.Pow2Distinct | main.c:293-296 | two exponents less than 32 apart give different powers, so the 32 scanned points are distinct |
| GF.GfMult | main.c:172-194 | returns Mul(x, y); temp_x stays below 0x100 in every round |
| GF.MulIdentities | main.c:172-194 | x*0 == 0*x == 0 and x*1 == 1*x == x |
| GF.MulComm | main.c:172-194 | the product is commutative |
| GF.MulAssoc | main.c:172-194 | the product is associative |
| GF.MulAddLeft | main.c:172-194 | the product distributes over XOR on the left |
| GF.MulAddRight | main.c:172-194 | the product distributes over XOR on the right |
| GF.MulNoZeroDivisors | main.c:172-194 | x*y == 0 exactly when x == 0 or y == 0 |
| GF.MulCancel | main.c:172-194 | a*b == a with a != 0 forces b == 1 |
| GF.AddLaws | main.c:179-182 | XOR is commutative and associative, with identity 0, and is its own inverse |
| GF.AddExchange | main.c:112-114 | the three XORs of an in-place exchange swap the two values |
| GF.AddCancel | main.c:297 | x ^ r == 0 exactly when x == r |
| GF.DoubleAdd | main.c:185-190 | doubling with reduction is additive |
| GF.Inverse | main.c:197-206 | 0 for 0; otherwise the y with x*y == 1 |
| GF.InverseExists | main.c:203 | every non-zero byte has an inverse, which is what makes gf_inv's search end |
| GF.InverseUnique | main.c:203 | the inverse is unique |
| GF.InverseCharacterized | main.c:197-206 | x*y == 1 exactly when x != 0 and y is Inverse(x) |
| GF.InverseInverse | main.c:197-206 | Inverse is an involution, including at 0 |
| GF.GfInv | main.c:197-206 | returns Inverse(x), with x*r == 1 for x != 0; the search terminates |
| Poly.PolyEvaluate | main.c:209-217 | returns the Horner value of the first size coefficients, or of polynomial[0] alone when size is 0 |
| Poly.HornerIsSum | main.c:209-217 | Horner evaluation equals the sum of c[k] * x^(n-1-k) |
| Poly.HornerAppend | main.c:209-217 | evaluating p ++ q is p(x) * x^len(q) + q(x) |
| Poly.HornerSum | main.c:209-217 | evaluation is additive in the coefficients |
| Poly.HornerScale | main.c:219-226 | evaluating a scaled polynomial scales its value |
| Poly.HornerPoke | main.c:209-217 | adding v to coefficient p adds v * x^(n-1-p) to the value |
| Poly.HornerLeadingZeros | main.c:209-217 | leading zero coefficients do not change the value |
| Poly.PowerPow2 | main.c:233 | (2^i)^n == 2^(i*n) |
| Poly.PolyScale | main.c:220-226 | writes old_poly[k] * scale into the first size entries and leaves the rest alone |
| Encoder.GeneratorIsProduct | main.c:16 | the precomputed generator is (x+1)(x+2)(x+4)(x+8) |
| Encoder.ProductRoots | main.c:16 | a product of linear factors vanishes exactly at its roots |
| Encoder.GeneratorRoots | main.c:16 | the generator vanishes exactly at 1, 2, 4 and 8, that is at 2^0 .. 2^3 |
| Encoder.XorMultiple | main.c:69-72 | one row of the division: generator * c added at offset i, all writes inside the 32-byte buffer |
| Encoder.DivStepHorner | main.c:63-74 | each division row keeps the value of the unprocessed part at every root of the generator |
| Encoder.DivideHorner | main.c:63-74 | the whole division keeps that value |
| Encoder.Encode | main.c:61-76 | the buffer ends as Encoded(message): the message followed by the division remainder |
| Encoder.EncodedRoots | main.c:61-76 | every encoded message vanishes at every root of the generator |
| Encoder.EncodedSyndromesZero | main.c:61-76 | the first 28 symbols are the message and all four syndromes are zero |
| Locator.Step | main.c:246-282 | one outer iteration keeps curr_size + old_size == i + 2 with both at least 1 |
| Locator.Run | main.c:238-286 | after n iterations the counters sum to n + 2 |
| Locator.Swap | main.c:260-271 | the exchange leaves curr_size >= old_size and the same two counters, so size_shift never underflows |
| Locator.ComputeDiscrepancy | main.c:248-253 | returns syndrome i plus the sum of curr[size-j-1] * syndrome[i-j] for j < size |
| Locator.SwapLocators | main.c:260-271 | the buffers and counters are exchanged and scaled as Swap says |
| Locator.AddShifted | main.c:277-280 | curr[k] ^= temp[k - shift] for k >= shift, as ShiftAdd says |
| Locator.Iterate | main.c:246-282 | one iteration of the outer loop on the arrays is Step |
| Locator.StepShape | main.c:246-282 | each iteration keeps both buffers zero beyond their sizes and the current locator's constant term 1 |
| Locator.RunShape | main.c:238-286 | the solver's result is padded with zeros and has constant term 1 |
| Locator.RunZero | main.c:238-286 | zero syndromes leave the locator at its start value { 1, 0, 0, 0 } |
| Locator.ReverseReverse | main.c:110-115 | reversing twice gives the original |
| Locator.HornerReverse | main.c:110-115 | after the reversal, buffer entry k is the coefficient of x^k: the reversed buffer evaluates to p3*x^3 + p2*x^2 + p1*x + p0 |
| Search.Position | main.c:306 | the recorded position 31 - i lies inside the codeword |
| Search.ChienResult | main.c:289-311 | every entry of the result lies inside the codeword or is the entry that was there before |
| Search.Partial | main.c:289-311 | the buffer after n candidates keeps the length 4 and writes only positions inside the codeword |
| Search.RootsBelowSpec | main.c:293-297 | the roots found are exactly the i < n where the locator vanishes at 2^i, in increasing order |
| Search.PartialNext | main.c:293-308 | one candidate records 31 - i at the next free entry when it is a root, and changes nothing otherwise |
| Search.PartialStop | main.c:297-305 | a third root ends the scan with ERR_CODE and the first two positions |
| Search.PartialEnd | main.c:289-311 | with at most two roots the scan runs to the end and the count is the number of roots |
| Search.SingleRoot | main.c:293-297 | when 2^t is the only root, the roots found are [t] |
| Search.ChienSize | main.c:289-311 | the count is 0, 1, 2 or ERR_CODE; ERR_CODE exactly when three of 2^0 .. 2^31 are roots |
| Search.ChienRecorded | main.c:293-308 | every recorded position p marks a root at 2^(31-p); two recorded positions are strictly decreasing |
| Search.ChienComplete | main.c:289-311 | when the scan succeeds, 2^i is a root exactly when 31 - i is among the recorded positions |
| Magnitude.XInvOfPosition | main.c:324 | for pos < 32 the exponent 224 + pos does not wrap, and X = gf_inv(X_inv) is 2^(31 - pos) |
| Magnitude.XInvInjective | main.c:340-341 | different positions give different X_inv |
| Magnitude.AdjustmentZero | main.c:350-354 | the denominator 1 ^ X_inv[a] * X[b] is zero exactly when the two positions are equal |
| Magnitude.CorruptionStatus | main.c:314-377 | ERR_CODE exactly when the count is neither 1 nor 2, or when it is 2 and both positions are equal; otherwise 0 |
| Magnitude.CorruptionSingle | main.c:317-328 | with one error the magnitude is S0 * loc[2], and poly_corruption[1] keeps its old value |
| Magnitude.TwoErrorTerm | main.c:350-359 | returns the denominator and the magnitude X * err_eval(X_inv) * inv(denominator) |
| Magnitude.TwoErrors | main.c:331-371 | the two-error branch computes PairMagnitudes: both magnitudes written, ERR_CODE on a zero denominator |
| Decoding.Decoder.constructor | main.c:20-26 | the static buffers start out zero, with the sizes of their declarations |
| Decoding.Decoder.ComputeSyndromes | main.c:229-235 | syndrome i is the codeword evaluated at 2^i |
| Decoding.Decoder.ComputeErrLocator | main.c:238-286 | the locator and its size are the Berlekamp–Massey result on the syndromes |
| Decoding.Decoder.ReverseLocator | main.c:110-115 | the XOR exchanges reverse the locator buffer |
| Decoding.Decoder.ComputeErrEvaluator | main.c:289-311 | the position buffer and its size are ChienResult of the (reversed) locator buffer and the old position buffer |
| Decoding.Decoder.ComputeCorruption | main.c:314-377 | the status and poly_corruption are Corruption of the buffers |
| Decoding.DecodedState | main.c:92-139 | the buffers and counters after the decoding branch: the syndromes always; on zero syndromes nothing else; otherwise the reversed locator with its size, the scan's positions with their count, and poly_corruption from Forney's step unless the scan ended with ERR_CODE |
| Decoding.Decoder.Decode | main.c:92-139 | the outcome and the codeword as main leaves them are Decoded of the received codeword and the old buffer contents; the buffers and counters it leaves are DecodedState of the received codeword and the old ones |
| Correction.SingleStep0 | main.c:246-282 | for the syndromes of one error, iteration 0 makes the locator S0*X + 1 |
| Correction.SingleStep1 | main.c:246-282 | iteration 1 turns it into x*X + 1, where x is the error's locator value |
| Correction.SingleStepLater | main.c:246-282 | iterations 2 and 3 find a zero discrepancy and only grow old_size |
| Correction.SingleLocator | main.c:238-286 | for the syndromes of one error the solver returns x*X + 1 with size 2 |
| Correction.LineValue | main.c:209-217 | the reversed single-error locator [0, 0, 1, x] evaluates to y ^ x |
| Correction.LineRoots | main.c:293-297 | its only root among 2^0 .. 2^31 is x = 2^t |
| Correction.LineScan | main.c:289-311 | the scan of that locator records the single position 31 - t |
| Correction.CorruptSyndromes | main.c:229-235 | one byte changed by v at position p gives syndromes v, v*X, v*X^2, v*X^3 with X = 2^(31-p) |
| Correction.SingleErrorDecoding | main.c:92-139 | one changed byte, anywhere and by any value, is found and removed; line 134 then applies the stale poly_corruption[1] at the stale poly_err_evaluator[1] |
| Correction.SingleErrorState | main.c:92-139 | decoding one changed byte leaves the locator [0, 0, 1, 2^(31-p)] of size 2, the one position p with count 1, the magnitude in poly_corruption[0] and poly_corruption[1] as it was |
| Correction.CorrectsSingleError | main.c:92-139 | with poly_corruption[1] == 0, as on the first run, one changed byte is restored exactly and the outcome is "recovered" |
| Correction.DecodesCodeword | main.c:92-97 | an encoder output has zero syndromes, is reported as not corrupted and is left unchanged |
| Correction.DecodedOutcome | main.c:92-139 | "not corrupted" exactly when all four syndromes are zero; "too many errors" exactly when the locator has three roots; "locators error" exactly when it has none; the codeword changes only on "recovered" |
| Program.EncodeThenDecode | main.c:61-97 | encoding and then decoding with fresh statics reports "not corrupted" and leaves the message followed by its parity |
| Program.RecoverOneByte | main.c:61-139 | encoding, changing one byte, and decoding with fresh statics reports "recovered" and restores the codeword |
| Program.RecoverOn | main.c:61-139 | on statics whose poly_corruption[1] is 0, encoding, changing one byte and decoding reports "recovered", restores the codeword and leaves poly_corruption[1] at 0 |
| Program.RecoverTwoRuns | main.c:20-26 | the statics persist between decodings; two single-byte corruptions decoded one after the other with the same statics are both recovered |

## Left out

- `print_hex_n` (main.c:381-387) and every `printf` are left out. They include the "Found error" print inside the root scan, and all of it is console output.
- The fixed message of main (main.c:50-53) and its three-byte demonstration corruption (main.c:87-89) are left out. That corruption uses modular `+=`/`-=` on three bytes, which is more than the code corrects, and the code promises no outcome for it. `Program.RecoverOneByte` states main's flow for any message and one changed byte instead.
- main.c:95 reads the four syndrome bytes as one `uint32_t`. The model states it as "all four syndrome bytes are zero", which is what a zero word means whatever the byte order.
- General correction of two errors is not proved. It needs the full Reed–Solomon theory. The model proves correction of every single error, and for every input what each outcome means (`Correction.DecodedOutcome`).
- `GF.Inverse` is a ghost function, defined as the unique y with x*y == 1. `GF.GfInv` is the source's linear search, proved to return that value.
- `Decoding.Decoded`: line 134 always applies `poly_corruption[1]` at `poly_err_evaluator[1]`, even when only one error was located, using whatever those buffers hold from before. The model keeps this as written. `Correction.CorrectsSingleError` needs `poly_corruption[1] == 0`, which holds on main's only decoding run because the statics start at zero, and still holds after any single-error decoding (`Correction.SingleErrorState`, `Program.RecoverTwoRuns`).
- `Locator.SwapLocators` requires both counters to be below 8. At that point the counter invariant keeps them at 5 or less, and the bound lets the XOR exchange of the counters be reasoned about as small values.
- `Poly.PolyEvaluate` requires a buffer of at least one entry, since the source reads `polynomial[0]` unconditionally. Every call site passes 2, 3, 4 or 32 entries.
- Other code sizes, error counts and fields are not modelled. The source fixes `N_SYMBOLS = 4`, `DATA_SIZE = 28` and the generator.
