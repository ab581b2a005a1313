/**
 The nucleotide encoding of the quantum sequence representation: the fixed
 tables, a reference definition of what the encoder computes, and the
 properties of that definition.

 Angles are exact reals measured in units of pi/4: an element r of an
 encoding stands for the rotation angle r * pi/4. The amplify and dampen
 factors are the exact rationals 6/5 and 4/5.
 */
module SequenceEncoding {

  datatype Option<T> = None | Some(value: T)

  /** Base angle of each recognised nucleotide, in units of pi/4:
      A is 0, G is pi/4, C is pi/2 and T is 3*pi/4. */
  const BaseAngles: map<char, real> := map['A' := 0.0, 'G' := 1.0, 'C' := 2.0, 'T' := 3.0]

  const Purines: set<char> := {'A', 'G'}
  const Pyrimidines: set<char> := {'C', 'T'}

  /** Factor for a purine following a purine. */
  const Amplify: real := 1.2
  /** Factor for a purine next to a pyrimidine, in either order. */
  const Dampen: real := 0.8

  predicate IsNucleotide(c: char) {
    c in BaseAngles
  }

  /** The factor applied to the base angle of `c`, given the raw input
      character just before it (None at index 0). */
  function Factor(prev: Option<char>, c: char): (f: real)
    ensures f == 1.0 || f == Amplify || f == Dampen
    ensures prev.None? ==> f == 1.0
  {
    match prev
    case None => 1.0
    case Some(p) =>
      if p in Purines && c in Purines then Amplify
      else if (p in Purines && c in Pyrimidines) || (p in Pyrimidines && c in Purines) then Dampen
      else 1.0
  }

  /** The last raw character of s, whether or not it is a nucleotide; None
      when s is empty. The character before index i of s is Last(s[..i]). */
  function Last(s: string): Option<char> {
    if s == [] then None else Some(s[|s| - 1])
  }

  /** The angle emitted for the nucleotide at raw index i of s: its base
      angle scaled by the class of s[i] and of the raw character before it. */
  function AngleAt(s: string, i: nat): (r: real)
    requires i < |s| && IsNucleotide(s[i])
    ensures i == 0 ==> r == BaseAngles[s[i]]
    ensures 0 < i && s[i - 1] in Purines && s[i] in Purines ==> r == BaseAngles[s[i]] * 1.2
    ensures (0 < i && ((s[i - 1] in Purines && s[i] in Pyrimidines) || (s[i - 1] in Pyrimidines && s[i] in Purines)))
              ==> r == BaseAngles[s[i]] * 0.8
    ensures (0 < i && (!IsNucleotide(s[i - 1]) || (s[i - 1] in Pyrimidines && s[i] in Pyrimidines)))
              ==> r == BaseAngles[s[i]]
  {
    BaseAngles[s[i]] * Factor(Last(s[..i]), s[i])
  }

  /** Number of characters of s that are recognised nucleotides. */
  function NucleotideCount(s: string): nat {
    if s == [] then 0
    else NucleotideCount(s[..|s| - 1]) + (if IsNucleotide(s[|s| - 1]) then 1 else 0)
  }

  /** Reference definition of the encoder: the encoding of all but the last
      character, followed by the angle of the last character when it is a
      nucleotide. */
  function Encoding(s: string): (r: seq<real>)
    ensures |r| == NucleotideCount(s)
  {
    if s == [] then []
    else
      var n := |s| - 1;
      Encoding(s[..n]) + if IsNucleotide(s[n]) then [AngleAt(s, n)] else []
  }

  /** An independent left-to-right definition of the encoder that carries the
      raw previous character `prev` along the input. */
  function Scan(prev: Option<char>, s: string): (r: seq<real>)
    ensures |r| <= |s|
    decreases |s|
  {
    if s == [] then []
    else
      (if IsNucleotide(s[0]) then [BaseAngles[s[0]] * Factor(prev, s[0])] else [])
      + Scan(Some(s[0]), s[1..])
  }

  /** Appending one raw character c to p appends its angle, if any, scaled
      by the factor chosen from c and the last character of p. */
  lemma EncodingSnoc(p: string, c: char)
    ensures Encoding(p + [c]) == Encoding(p)
              + if IsNucleotide(c) then [BaseAngles[c] * Factor(Last(p), c)] else []
  {
  }

  lemma {:induction false} EncodingSplit(p: string, s: string)
    ensures Encoding(p + s) == Encoding(p) + Scan(Last(p), s)
    decreases |s|
  {
    if s == [] {
      assert p + s == p;
    } else {
      var q := p + [s[0]];
      assert p + s == q + s[1..];
      var head := if IsNucleotide(s[0]) then [BaseAngles[s[0]] * Factor(Last(p), s[0])] else [];
      var rest := Scan(Some(s[0]), s[1..]);
      calc {
        Encoding(p + s);
        Encoding(q + s[1..]);
        { EncodingSplit(q, s[1..]); assert Last(q) == Some(s[0]); }
        Encoding(q) + rest;
        { EncodingSnoc(p, s[0]); }
        (Encoding(p) + head) + rest;
        Encoding(p) + (head + rest);
        Encoding(p) + Scan(Last(p), s);
      }
    }
  }

  /** Encoding and the left-to-right scan agree on every input. */
  lemma EncodingIsScan(s: string)
    ensures Encoding(s) == Scan(None, s)
  {
    EncodingSplit([], s);
    assert [] + s == s;
  }

  /** Encoding a prefix of the input gives a prefix of the encoding, holding
      one angle per nucleotide of that prefix. */
  lemma {:induction false} EncodingOfPrefix(s: string, k: nat)
    requires k <= |s|
    ensures NucleotideCount(s[..k]) <= NucleotideCount(s)
    ensures Encoding(s[..k]) == Encoding(s)[..NucleotideCount(s[..k])]
    decreases |s| - k
  {
    if k == |s| {
      assert s[..k] == s;
    } else {
      var n := |s| - 1;
      EncodingOfPrefix(s[..n], k);
      assert s[..n][..k] == s[..k];
    }
  }

  /** The nucleotide at raw index i is emitted at output index
      NucleotideCount(s[..i]), the number of nucleotides before it. */
  lemma EncodingAt(s: string, i: nat)
    requires i < |s| && IsNucleotide(s[i])
    ensures NucleotideCount(s[..i]) < |Encoding(s)|
    ensures Encoding(s)[NucleotideCount(s[..i])] == AngleAt(s, i)
  {
    EncodingOfPrefix(s, i + 1);
    var t := s[..i + 1];
    assert t[..i] == s[..i];
    assert AngleAt(t, i) == AngleAt(s, i);
  }

  /** Every output element comes from the nucleotide preceded by exactly as
      many nucleotides as the element's index. */
  lemma {:induction false} EncodingOrigin(s: string, j: nat)
    requires j < |Encoding(s)|
    ensures exists i :: 0 <= i < |s| && IsNucleotide(s[i]) && NucleotideCount(s[..i]) == j
                        && Encoding(s)[j] == AngleAt(s, i)
  {
    var n := |s| - 1;
    var t := s[..n];
    if j < |Encoding(t)| {
      EncodingOrigin(t, j);
      var i :| 0 <= i < |t| && IsNucleotide(t[i]) && NucleotideCount(t[..i]) == j
               && Encoding(t)[j] == AngleAt(t, i);
      assert t[..i] == s[..i];
      assert AngleAt(t, i) == AngleAt(s, i);
      assert Encoding(s)[j] == AngleAt(s, i);
    } else {
      assert Encoding(s)[j] == AngleAt(s, n);
    }
  }

  /** Every output element is the base angle of its own nucleotide, the one
      preceded by exactly as many nucleotides as the element's index, times
      exactly one of the factors 1, 1.2 and 0.8. */
  lemma EncodingElement(s: string, j: nat)
    requires j < |Encoding(s)|
    ensures exists i :: 0 <= i < |s| && IsNucleotide(s[i]) && NucleotideCount(s[..i]) == j
                        && (Encoding(s)[j] == BaseAngles[s[i]]
                            || Encoding(s)[j] == BaseAngles[s[i]] * 1.2
                            || Encoding(s)[j] == BaseAngles[s[i]] * 0.8)
  {
    EncodingOrigin(s, j);
  }

  /** An emitted angle identifies its nucleotide: whatever the two raw
      predecessors, distinct nucleotides never produce the same angle
      (A gives 0, G one of 1, 1.2, 0.8, C one of 2, 1.6, T one of 3, 2.4). */
  lemma AngleDeterminesNucleotide(p: Option<char>, c: char, q: Option<char>, d: char)
    requires IsNucleotide(c) && IsNucleotide(d)
    requires BaseAngles[c] * Factor(p, c) == BaseAngles[d] * Factor(q, d)
    ensures c == d
  {
  }

  /** The angle emitted at a raw index identifies the nucleotide there. */
  lemma AngleAtDeterminesNucleotide(s: string, i: nat, t: string, k: nat)
    requires i < |s| && IsNucleotide(s[i]) && k < |t| && IsNucleotide(t[k])
    requires AngleAt(s, i) == AngleAt(t, k)
    ensures s[i] == t[k]
  {
  }

  /** Whatever the raw predecessors, a purine's angle is below a pyrimidine's. */
  lemma PurinesBelowPyrimidines(p: Option<char>, c: char, q: Option<char>, d: char)
    requires c in Purines && d in Pyrimidines
    ensures BaseAngles[c] * Factor(p, c) < BaseAngles[d] * Factor(q, d)
  {
  }

  /** Two elements of two encodings that are equal come from the same
      nucleotide letter. */
  lemma EqualAnglesSameNucleotide(s: string, i: nat, t: string, k: nat)
    requires i < |s| && IsNucleotide(s[i]) && k < |t| && IsNucleotide(t[k])
    requires NucleotideCount(s[..i]) < |Encoding(s)| && NucleotideCount(t[..k]) < |Encoding(t)|
    requires Encoding(s)[NucleotideCount(s[..i])] == Encoding(t)[NucleotideCount(t[..k])]
    ensures s[i] == t[k]
  {
    EncodingAt(s, i);
    EncodingAt(t, k);
    AngleAtDeterminesNucleotide(s, i, t, k);
  }

  /** The angle emitted for a purine is below the angle emitted for a
      pyrimidine, at any raw indices of any two inputs. */
  lemma AngleAtPurineBelowPyrimidine(s: string, i: nat, t: string, k: nat)
    requires i < |s| && s[i] in Purines && k < |t| && t[k] in Pyrimidines
    ensures AngleAt(s, i) < AngleAt(t, k)
  {
  }

  /** In every encoding, the element of a purine is below the element of a
      pyrimidine, in the same input or in another one. */
  lemma EncodedPurinesBelowPyrimidines(s: string, i: nat, t: string, k: nat)
    requires i < |s| && s[i] in Purines && k < |t| && t[k] in Pyrimidines
    ensures NucleotideCount(s[..i]) < |Encoding(s)| && NucleotideCount(t[..k]) < |Encoding(t)|
    ensures Encoding(s)[NucleotideCount(s[..i])] < Encoding(t)[NucleotideCount(t[..k])]
  {
    EncodingAt(s, i);
    EncodingAt(t, k);
    AngleAtPurineBelowPyrimidine(s, i, t, k);
  }

  /** The character at index 0 is never adjusted. */
  lemma FirstUnadjusted(s: string)
    requires |s| > 0 && IsNucleotide(s[0])
    ensures |Encoding(s)| > 0 && Encoding(s)[0] == BaseAngles[s[0]]
  {
  }

  /** A purine whose raw predecessor is a purine is amplified by 1.2. */
  lemma PurineAfterPurine(s: string, i: nat)
    requires 0 < i < |s| && s[i - 1] in Purines && s[i] in Purines
    ensures NucleotideCount(s[..i]) < |Encoding(s)|
    ensures Encoding(s)[NucleotideCount(s[..i])] == BaseAngles[s[i]] * 1.2
  {
    EncodingAt(s, i);
  }

  /** A purine next to a pyrimidine, in either order, is dampened by 0.8. */
  lemma CrossClassDampened(s: string, i: nat)
    requires 0 < i < |s|
    requires (s[i - 1] in Purines && s[i] in Pyrimidines) || (s[i - 1] in Pyrimidines && s[i] in Purines)
    ensures NucleotideCount(s[..i]) < |Encoding(s)|
    ensures Encoding(s)[NucleotideCount(s[..i])] == BaseAngles[s[i]] * 0.8
  {
    EncodingAt(s, i);
  }

  /** A nucleotide whose raw predecessor is not a nucleotide (even one the
      encoder skipped), or a pyrimidine after a pyrimidine, keeps its base angle. */
  lemma Unadjusted(s: string, i: nat)
    requires 0 < i < |s| && IsNucleotide(s[i])
    requires !IsNucleotide(s[i - 1]) || (s[i - 1] in Pyrimidines && s[i] in Pyrimidines)
    ensures NucleotideCount(s[..i]) < |Encoding(s)|
    ensures Encoding(s)[NucleotideCount(s[..i])] == BaseAngles[s[i]]
  {
    EncodingAt(s, i);
  }

  /** An 'A' encodes to 0 whatever its context. */
  lemma AdenineIsZero(s: string, i: nat)
    requires i < |s| && s[i] == 'A'
    ensures NucleotideCount(s[..i]) < |Encoding(s)|
    ensures Encoding(s)[NucleotideCount(s[..i])] == 0.0
  {
    EncodingAt(s, i);
  }

  /** The encoding is empty exactly when the input holds no nucleotide. */
  lemma {:induction false} EmptyEncoding(s: string)
    ensures Encoding(s) == [] <==> forall i :: 0 <= i < |s| ==> !IsNucleotide(s[i])
  {
    if s != [] {
      var n := |s| - 1;
      var t := s[..n];
      EmptyEncoding(t);
      assert forall i :: 0 <= i < n ==> t[i] == s[i];
    }
  }

  /** The lookback reads the raw input: a skipped character still breaks the
      adjustment, so "AXG" and "AG" encode their G differently. */
  lemma LookbackIsRaw()
    ensures Encoding("AXG") == [0.0, 1.0]
    ensures Encoding("AG") == [0.0, 1.2]
    ensures Encoding("AXC") == [0.0, 2.0]
    ensures Encoding("AC") == [0.0, 1.6]
  {
  }

  /** Small inputs and their encodings. */
  lemma Examples()
    ensures Encoding("") == []
    ensures Encoding("A") == [0.0]
    ensures Encoding("GG") == [1.0, 1.2]
    ensures Encoding("XA") == [0.0]
    ensures Encoding("TC") == [3.0, 2.0]
    ensures Encoding("GT") == [1.0, 2.4]
  {
  }
}
