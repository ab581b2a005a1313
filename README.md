# Nucleotide encoder of the quantum sequence representation

This project models the sequence encoder of a quantum-inspired genome
comparison program. The encoder turns a raw character string into an ordered
sequence of rotation angles. Each character outside {A, C, G, T} is skipped.
Each nucleotide gets a base angle: A 0, G pi/4, C pi/2, T 3*pi/4. That angle is
then scaled by a factor chosen from the nucleotide's class (purine A/G or
pyrimidine C/T) and the class of the character just before it in the raw input.
The lookback reads the raw input, so it sees a character the encoder skipped.
The factors are:

- purine after purine: 1.2;
- purine next to a pyrimidine, in either order: 0.8;
- anything else, including index 0 and a predecessor that is not a
  nucleotide: 1.

Angles are exact reals measured in units of pi/4. An encoded element `r` stands
for the angle `r * pi/4`, so pi never has to be represented. The factors are
the exact rationals 6/5 and 4/5.

Layout:

- `encoding.dfy`, module `SequenceEncoding`: the fixed tables. `BaseAngles`
  is the angle table of App.py:10-15; `Purines` and `Pyrimidines` are the
  class sets of App.py:17-18; `Amplify` and `Dampen` are the factors of
  App.py:28 and App.py:31. `AngleAt` is the per-element angle formula of
  App.py:24-31. The module also holds the reference
  definition `Encoding`, which is defined from the end of the input, as the
  encoder's append loop builds it. A second, independent definition `Scan`
  walks the input left to right and carries the raw previous character. The
  module proves the two definitions equal and proves the encoder's properties
  about `Encoding`.
- `app.dfy`, module `App`: `EncodeSequence`, the encoder's loop as a method.
  It skips with `continue` and scales the angle in place. It is proved to
  return exactly `Encoding(sequence)`.

Each emitted angle still identifies its nucleotide, and every purine angle
stays below every pyrimidine angle. However, the split of the base angles at
pi/2 does not survive the adjustment: a C after a purine is emitted as 1.6
units, that is 0.4*pi, below pi/2.

## Model

| member | source | states |
|---|---|---|
| App.EncodeSequence | App.py:4-34 | the loop returns exactly the reference encoding of the raw input, with one angle per nucleotide of the input |
| SequenceEncoding.Encoding | App.py:20-32 | the encoding holds exactly as many angles as the input has characters in {A, C, G, T}; all other characters are skipped |
| SequenceEncoding.Factor | App.py:25-31 | the scale factor is always one of 1, 1.2 and 0.8, and it is 1 when there is no previous character (index 0) |
| SequenceEncoding.AngleAt | App.py:24-31 | the angle of the nucleotide at raw index i is its base angle at index 0, times 1.2 after a purine if it is a purine, times 0.8 next to the other class, and unscaled after a non-nucleotide or for a pyrimidine after a pyrimidine |
| SequenceEncoding.AngleDeterminesNucleotide | App.py:10-31 | whatever the raw predecessors, two distinct nucleotides never receive the same adjusted angle, so each nucleotide maps to its own set of angles |
| SequenceEncoding.AngleAtDeterminesNucleotide | App.py:24-31 | the angle emitted at a raw index identifies the nucleotide at that index |
| SequenceEncoding.EqualAnglesSameNucleotide | App.py:10-32 | two equal elements of two encodings come from the same nucleotide letter |
| SequenceEncoding.PurinesBelowPyrimidines | App.py:10-31 | whatever the raw predecessors, an adjusted purine angle is below an adjusted pyrimidine angle |
| SequenceEncoding.AngleAtPurineBelowPyrimidine | App.py:24-31 | the angle emitted for a purine at any raw index is below the angle emitted for a pyrimidine at any raw index of any input |
| SequenceEncoding.EncodedPurinesBelowPyrimidines | App.py:10-32 | in any two encodings, the element of a purine is below the element of a pyrimidine |
| SequenceEncoding.Scan | App.py:20-32 | the left-to-right walk carrying the raw previous character emits at most one angle per input character; `EncodingIsScan` proves it equal to `Encoding` |
| SequenceEncoding.EncodingSnoc | App.py:21-32 | appending one raw character appends its angle when it is a nucleotide, scaled by the factor chosen from it and the raw character before it, and appends nothing otherwise |
| SequenceEncoding.EncodingSplit | App.py:20-32 | the encoding of p + s is the encoding of p followed by the left-to-right scan of s, started from the last raw character of p |
| SequenceEncoding.EncodingIsScan | App.py:20-32 | the append-loop definition and the independent left-to-right scan carrying the raw previous character agree on every input |
| SequenceEncoding.EncodingOfPrefix | App.py:20-32 | encoding a prefix of the input yields a prefix of the encoding, whose length is the number of nucleotides in that prefix |
| SequenceEncoding.EncodingAt | App.py:21-32 | the nucleotide at raw index i is emitted at output index "number of nucleotides before i", with its base angle times the factor chosen from it and raw character i-1 |
| SequenceEncoding.EncodingOrigin | App.py:21-32 | the j-th output element comes from the j-th nucleotide of the input, the one preceded by exactly j nucleotides, so input order is preserved |
| SequenceEncoding.EncodingElement | App.py:10-31 | every output element j is the base angle of its own nucleotide, the one preceded by exactly j nucleotides (A 0, G pi/4, C pi/2, T 3*pi/4) times one of 1, 1.2 and 0.8 |
| SequenceEncoding.FirstUnadjusted | App.py:25 | a nucleotide at raw index 0 keeps its base angle |
| SequenceEncoding.PurineAfterPurine | App.py:26-28 | a purine whose raw predecessor is a purine is emitted as its base angle times 1.2 |
| SequenceEncoding.CrossClassDampened | App.py:29-31 | a purine preceded by a pyrimidine, or a pyrimidine preceded by a purine, is emitted as its base angle times 0.8 |
| SequenceEncoding.Unadjusted | App.py:26-31 | a nucleotide whose raw predecessor is not a nucleotide, including a skipped one, or a pyrimidine after a pyrimidine, keeps its base angle |
| SequenceEncoding.AdenineIsZero | App.py:11 | an A is emitted as angle 0 whatever its context |
| SequenceEncoding.EmptyEncoding | App.py:20-23 | the encoding is empty if and only if the input holds no character in {A, C, G, T}; this includes the empty input |
| SequenceEncoding.LookbackIsRaw | App.py:26 | the lookback reads the unfiltered input: "AXG" encodes to [0, pi/4] while "AG" encodes to [0, 1.2*pi/4], and "AXC" to [0, pi/2] while "AC" encodes to [0, 0.8*pi/2] |
| SequenceEncoding.Examples | App.py:10-34 | sample encodings: "" to [], "A" to [0], "GG" to [pi/4, 1.2*pi/4], "XA" to [0], "TC" to [3*pi/4, pi/2], "GT" to [pi/4, 0.8*3*pi/4] |

## Left out

- App.EncodeSequence: does not model IEEE-754 double rounding. Angles are exact reals in units of pi/4, so products such as `np.pi / 4 * 1.2` are exact here. The result is a sequence rather than a numpy array.
- `compute_superposition` (App.py:36-49) is not part of this model. It builds a one-qubit simulator device from an external quantum library, applies an RY rotation by the mean angle and reads out a complex float state vector. The mean of an empty angle array (a NaN) belongs to it too.
- `quantum_sequence_comparison` (App.py:51-66) is not part of this model. Its fidelity is a complex conjugate dot product and squared magnitude on floats, and its symmetry and [0, 1] bounds rest on trigonometry and float rounding.
- The interactive entry point (App.py:69-74) is not part of this model. It reads two strings from the terminal and prints the score to four decimals.
