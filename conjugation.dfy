/** Reverse complement of a spike sequence (`conjugate`): the string is read
    backwards and every base is replaced by its pairing partner, A<->T and
    G<->C; any other character is kept as it is. */
module Conjugation {

  /** The pairing table of `conjugate`. */
  const Pairing: map<char, char> := map['A' := 'T', 'T' := 'A', 'G' := 'C', 'C' := 'G']

  function Complement(c: char): char {
    if c in Pairing then Pairing[c] else c
  }

  lemma ComplementInvolution(c: char)
    ensures Complement(Complement(c)) == c
  {
  }

  /** Reference definition: the complement of the last character comes first. */
  function ReverseComplement(s: string): (r: string)
    ensures |r| == |s|
  {
    if s == [] then [] else ReverseComplement(s[1..]) + [Complement(s[0])]
  }

  /** Position `i` of the result is the complement of position `|s| - 1 - i` of `s`. */
  lemma {:induction false} ReverseComplementAt(s: string, i: nat)
    requires i < |s|
    ensures ReverseComplement(s)[i] == Complement(s[|s| - 1 - i])
  {
    if i < |s| - 1 {
      ReverseComplementAt(s[1..], i);
    }
  }

  /** Conjugating twice gives back the original sequence. */
  lemma {:induction false} ReverseComplementInvolution(s: string)
    ensures ReverseComplement(ReverseComplement(s)) == s
  {
    var r := ReverseComplement(s);
    forall i | 0 <= i < |s|
      ensures ReverseComplement(r)[i] == s[i]
    {
      ReverseComplementAt(r, i);
      ReverseComplementAt(s, |s| - 1 - i);
      ComplementInvolution(s[i]);
    }
  }

  /** The first `n` characters of the reverse complement are the reverse
      complement of the last `n` characters. */
  lemma {:induction false} ReverseComplementPrefix(s: string, n: nat)
    requires n <= |s|
    ensures ReverseComplement(s)[..n] == ReverseComplement(s[|s| - n..])
  {
    var t := s[|s| - n..];
    forall i | 0 <= i < n
      ensures ReverseComplement(s)[i] == ReverseComplement(t)[i]
    {
      ReverseComplementAt(s, i);
      ReverseComplementAt(t, i);
    }
  }

  /** The last `n` characters of the reverse complement are the reverse
      complement of the first `n` characters. */
  lemma {:induction false} ReverseComplementSuffix(s: string, n: nat)
    requires n <= |s|
    ensures ReverseComplement(s)[|s| - n..] == ReverseComplement(s[..n])
  {
    var t := s[..n];
    forall i | 0 <= i < n
      ensures ReverseComplement(s)[|s| - n + i] == ReverseComplement(t)[i]
    {
      ReverseComplementAt(s, |s| - n + i);
      ReverseComplementAt(t, i);
    }
  }

  /** `conjugate`: walks the characters from last to first and appends the
      complement of each. */
  method Conjugate(spikeChars: string) returns (newSpike: string)
    ensures newSpike == ReverseComplement(spikeChars)
  {
    newSpike := "";
    var n := |spikeChars|;
    for i := 0 to n
      invariant newSpike == ReverseComplement(spikeChars[n - i..])
    {
      var c := spikeChars[n - 1 - i];
      assert spikeChars[n - 1 - i..][1..] == spikeChars[n - i..];
      newSpike := newSpike + [Complement(c)];
    }
    assert spikeChars[0..] == spikeChars;
  }
}
