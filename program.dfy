/**
 * The flow of main (main.c:44-139): encode a 28-byte message into a 32-byte
 * codeword, then run the decoding branch with the static buffers in their initial,
 * zeroed state. main's own message and its three-byte demonstration corruption are
 * not modelled; instead the two methods here state what that flow does for an
 * intact codeword and for a codeword with one changed byte.
 */
module Program {
  import opened GF
  import opened Config
  import opened Encoder
  import opened Decoding
  import opened Correction

  /** Encoding followed by decoding reports an intact message and leaves the codeword
      as the encoder produced it: the message followed by its four parity bytes. */
  method EncodeThenDecode(message: array<bv8>) returns (outcome: Outcome, codeword: array<bv8>)
    requires message.Length == DataSize
    ensures outcome == NotCorrupted
    ensures codeword[..] == Encoded(message[..]) && codeword[..DataSize] == message[..]
  {
    hide Decoded; hide Encoded; hide Syndromes; hide Clean;
    codeword := Encode(message);
    EncodedSyndromesZero(message[..]);
    var decoder := new Decoder();
    DecodesCodeword(message[..], decoder.errEvaluator[..], decoder.corruption[..]);
    outcome := decoder.Decode(codeword);
  }

  /** Changing any one byte of a fresh codeword (XOR with a nonzero v covers every new
      value) and decoding recovers the codeword exactly. */
  method RecoverOneByte(message: array<bv8>, p: U8, v: bv8) returns (outcome: Outcome, codeword: array<bv8>)
    requires message.Length == DataSize && (p as int) < CodeSize && v != 0
    ensures outcome == Recovered
    ensures codeword[..] == Encoded(message[..]) && codeword[..DataSize] == message[..]
  {
    hide Decoded; hide Encoded; hide Syndromes; hide Clean; hide Add;
    codeword := Encode(message);
    ghost var w := codeword[..];
    EncodedSyndromesZero(message[..]);
    var decoder := new Decoder();
    DecodesCodeword(message[..], decoder.errEvaluator[..], decoder.corruption[..]);
    codeword[p] := Add(codeword[p], v);
    assert codeword[..] == Corrupt(w, p as nat, v);
    CorrectsSingleError(w, p as nat, v, decoder.errEvaluator[..], decoder.corruption[..]);
    outcome := decoder.Decode(codeword);
  }

  /** One run of the flow on an existing decoder whose poly_corruption[1] is 0: the
      changed byte is recovered, and poly_corruption[1] is still 0 afterwards. */
  method RecoverOn(decoder: Decoder, message: array<bv8>, p: U8, v: bv8)
    returns (outcome: Outcome, codeword: array<bv8>)
    requires decoder.Valid() && decoder.corruption[1] == 0
    requires message.Length == DataSize && (p as int) < CodeSize && v != 0
    modifies decoder, decoder.syndromes, decoder.errLocator, decoder.errEvaluator, decoder.corruption
    ensures decoder.Valid() && decoder.corruption[1] == 0
    ensures outcome == Recovered
    ensures codeword[..] == Encoded(message[..])
  {
    hide Decoded; hide Encoded; hide Syndromes; hide Clean; hide Add; hide DecodedState;
    codeword := Encode(message);
    ghost var w := codeword[..];
    DecodesCodeword(message[..], decoder.errEvaluator[..], decoder.corruption[..]);
    codeword[p] := Add(codeword[p], v);
    assert codeword[..] == Corrupt(w, p as nat, v);
    CorrectsSingleError(w, p as nat, v, decoder.errEvaluator[..], decoder.corruption[..]);
    ghost var b := decoder.State();
    SingleErrorState(w, p as nat, v, b);
    outcome := decoder.Decode(codeword);
    assert decoder.State().corruption == [v, b.corruption[1]];
  }

  /** The static buffers outlive one decoding: two codewords, each with one changed
      byte, decoded one after the other by the same decoder are both recovered. */
  method RecoverTwoRuns(first: array<bv8>, p: U8, v: bv8, second: array<bv8>, q: U8, u: bv8)
    returns (outcome1: Outcome, codeword1: array<bv8>, outcome2: Outcome, codeword2: array<bv8>)
    requires first.Length == DataSize && (p as int) < CodeSize && v != 0
    requires second.Length == DataSize && (q as int) < CodeSize && u != 0
    ensures outcome1 == Recovered && outcome2 == Recovered
    ensures codeword1[..] == Encoded(first[..]) && codeword2[..] == Encoded(second[..])
  {
    var decoder := new Decoder();
    outcome1, codeword1 := RecoverOn(decoder, first, p, v);
    outcome2, codeword2 := RecoverOn(decoder, second, q, u);
  }
}
