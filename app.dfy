/** The encoder loop of the application, proved against the reference
    definition in module SequenceEncoding. */
module App {
  import opened SequenceEncoding

  /** Walks the raw input, skips every character that has no base angle,
      and appends the base angle of each nucleotide scaled by the factor
      chosen from it and the raw character before it. */
  method EncodeSequence(sequence: string) returns (encoded: seq<real>)
    ensures encoded == Encoding(sequence)
    ensures |encoded| == NucleotideCount(sequence)
  {
    encoded := [];
    for i := 0 to |sequence|
      invariant encoded == Encoding(sequence[..i])
    {
      assert sequence[..i + 1][..i] == sequence[..i];
      var nucleotide := sequence[i];
      if nucleotide !in BaseAngles {
        continue;
      }
      var angle := BaseAngles[nucleotide];
      if i > 0 {
        var prev := sequence[i - 1];
        if prev in Purines && nucleotide in Purines {
          angle := angle * Amplify;
        } else if (prev in Purines && nucleotide in Pyrimidines) || (prev in Pyrimidines && nucleotide in Purines) {
          angle := angle * Dampen;
        }
      }
      encoded := encoded + [angle];
    }
    assert sequence[..|sequence|] == sequence;
  }
}
