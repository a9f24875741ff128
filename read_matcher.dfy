/** `process`: finds the first spike in a read. A 34-character window slides
    over the read; a window is considered only when its first and last
    characters agree with the anchor pair, and then it is compared exactly with
    every spike in list order. */
module ReadMatcher {
  import opened Conjugation
  import opened SpikeLibrary

  /** Step `c` of the anchor check at window `i`: the c-th character from the
      left agrees with the prefix and the c-th from the right with the suffix. */
  predicate CharsAgree(read: string, i: nat, a: Anchors, c: nat)
    requires WellFormed(a) && i + SpikeLen <= |read| && c < |a.prefix|
  {
    read[i + c] == a.prefix[c] && read[i + SpikeLen - c - 1] == a.suffix[|a.suffix| - 1 - c]
  }

  /** Window `i` carries all required anchor characters. */
  predicate AnchorsAt(read: string, i: nat, a: Anchors)
    requires WellFormed(a) && i + SpikeLen <= |read|
  {
    forall c :: 0 <= c < |a.prefix| ==> CharsAgree(read, i, a, c)
  }

  /** The window starting at `i`. */
  function Window(read: string, i: nat): string
    requires i + SpikeLen <= |read|
  {
    read[i..i + SpikeLen]
  }

  /** Window `i` exists, passes the anchor check and equals some spike. */
  predicate IsHit(read: string, a: Anchors, spikes: seq<Spike>, i: nat)
    requires WellFormed(a)
  {
    && i + SpikeLen <= |read|
    && AnchorsAt(read, i, a)
    && exists k :: 0 <= k < |spikes| && spikes[k].sequence == Window(read, i)
  }

  /** Window `j` is the leftmost hit and spike `k` the first spike equal to it. */
  predicate IsFirstMatch(read: string, a: Anchors, spikes: seq<Spike>, j: nat, k: nat)
    requires WellFormed(a)
  {
    && j + SpikeLen <= |read|
    && AnchorsAt(read, j, a)
    && k < |spikes|
    && spikes[k].sequence == Window(read, j)
    && (forall l :: 0 <= l < k ==> spikes[l].sequence != Window(read, j))
    && (forall l :: 0 <= l < j ==> !IsHit(read, a, spikes, l))
  }

  /** Index of the first spike at or after `k` whose sequence is `w`, or `|spikes|`. */
  function FirstSpikeFrom(spikes: seq<Spike>, w: string, k: nat): (j: nat)
    requires k <= |spikes|
    ensures k <= j <= |spikes|
    ensures j < |spikes| ==> spikes[j].sequence == w
    ensures forall l :: k <= l < j ==> spikes[l].sequence != w
    decreases |spikes| - k
  {
    if k == |spikes| then k
    else if spikes[k].sequence == w then k
    else FirstSpikeFrom(spikes, w, k + 1)
  }

  /** Result of the scan from window `i` on. */
  function MatchFrom(read: string, a: Anchors, spikes: seq<Spike>, i: nat): Spike
    requires WellFormed(a)
    decreases |read| - i
  {
    if |read| < i + SpikeLen then NoMatch
    else
      var k := FirstSpikeFrom(spikes, Window(read, i), 0);
      if AnchorsAt(read, i, a) && k < |spikes| then spikes[k]
      else MatchFrom(read, a, spikes, i + 1)
  }

  /** Specification of `process`. */
  function Match(read: string, a: Anchors, spikes: seq<Spike>): Spike
    requires WellFormed(a)
  {
    MatchFrom(read, a, spikes, 0)
  }

  lemma {:induction false} MatchFromNone(read: string, a: Anchors, spikes: seq<Spike>, i: nat)
    requires WellFormed(a)
    ensures MatchFrom(read, a, spikes, i) == NoMatch <==>
      forall j :: i <= j ==> !IsHit(read, a, spikes, j)
    decreases |read| - i
  {
    if i + SpikeLen <= |read| {
      MatchFromNone(read, a, spikes, i + 1);
      var k := FirstSpikeFrom(spikes, Window(read, i), 0);
      if AnchorsAt(read, i, a) && k < |spikes| {
        assert |spikes[k].sequence| == SpikeLen;
        assert IsHit(read, a, spikes, i);
      } else {
        assert !IsHit(read, a, spikes, i);
        assert forall j :: i <= j ==> (!IsHit(read, a, spikes, j) <==> (j == i || (i + 1 <= j && !IsHit(read, a, spikes, j))));
      }
    }
  }

  lemma {:induction false} MatchFromFirst(read: string, a: Anchors, spikes: seq<Spike>, i: nat, j: nat, k: nat)
    requires WellFormed(a) && i <= j
    requires IsFirstMatch(read, a, spikes, j, k)
    ensures MatchFrom(read, a, spikes, i) == spikes[k]
    decreases j - i
  {
    var f := FirstSpikeFrom(spikes, Window(read, i), 0);
    if i == j {
      assert f == k;
    } else {
      assert !IsHit(read, a, spikes, i);
      assert !(AnchorsAt(read, i, a) && f < |spikes|);
      MatchFromFirst(read, a, spikes, i + 1, j, k);
    }
  }

  lemma {:induction false} MatchFromSound(read: string, a: Anchors, spikes: seq<Spike>, i: nat)
    requires WellFormed(a)
    requires forall l :: 0 <= l < i ==> !IsHit(read, a, spikes, l)
    requires MatchFrom(read, a, spikes, i) != NoMatch
    ensures exists j: nat, k: nat :: IsFirstMatch(read, a, spikes, j, k) && MatchFrom(read, a, spikes, i) == spikes[k]
    decreases |read| - i
  {
    var f := FirstSpikeFrom(spikes, Window(read, i), 0);
    if AnchorsAt(read, i, a) && f < |spikes| {
      assert IsFirstMatch(read, a, spikes, i, f);
    } else {
      assert !IsHit(read, a, spikes, i);
      MatchFromSound(read, a, spikes, i + 1);
    }
  }

  /** No match exactly when no window passes both the anchor check and the
      exact comparison; in particular a read shorter than a spike never matches. */
  lemma MatchNoneIff(read: string, a: Anchors, spikes: seq<Spike>)
    requires WellFormed(a)
    ensures Match(read, a, spikes) == NoMatch <==>
      forall j :: 0 <= j && j + SpikeLen <= |read| ==> !IsHit(read, a, spikes, j)
  {
    MatchFromNone(read, a, spikes, 0);
  }

  /** Soundness: a non-sentinel result is a spike of the list that equals the
      leftmost hit window, and no earlier spike equals that window. */
  lemma MatchSound(read: string, a: Anchors, spikes: seq<Spike>)
    requires WellFormed(a)
    requires Match(read, a, spikes) != NoMatch
    ensures exists j: nat, k: nat :: IsFirstMatch(read, a, spikes, j, k) && Match(read, a, spikes) == spikes[k]
  {
    MatchFromSound(read, a, spikes, 0);
  }

  /** First match wins: the leftmost hit window and, inside it, the first spike
      in list order decide the result. */
  lemma MatchFirstWins(read: string, a: Anchors, spikes: seq<Spike>, j: nat, k: nat)
    requires WellFormed(a)
    requires IsFirstMatch(read, a, spikes, j, k)
    ensures Match(read, a, spikes) == spikes[k]
  {
    MatchFromFirst(read, a, spikes, 0, j, k);
  }

  /** A non-sentinel result is an element of the spike list with a full-width
      sequence. */
  lemma MatchInSpikes(read: string, a: Anchors, spikes: seq<Spike>)
    requires WellFormed(a)
    requires Match(read, a, spikes) != NoMatch
    ensures Match(read, a, spikes) in spikes
    ensures |Match(read, a, spikes).sequence| == SpikeLen
  {
    MatchSound(read, a, spikes);
    var j: nat, k: nat :| IsFirstMatch(read, a, spikes, j, k) && Match(read, a, spikes) == spikes[k];
  }

  /** The interleaved anchor check at window `i` says that the window starts
      with the prefix anchor and ends with the last `m` characters of the suffix
      anchor, `m` being the prefix length. */
  lemma AnchorsAtSlices(read: string, i: nat, a: Anchors)
    requires WellFormed(a) && i + SpikeLen <= |read|
    ensures var m := |a.prefix|;
      AnchorsAt(read, i, a) <==>
        read[i..i + m] == a.prefix && read[i + SpikeLen - m..i + SpikeLen] == a.suffix[|a.suffix| - m..]
  {
    var m := |a.prefix|;
    var front, back := read[i..i + m], read[i + SpikeLen - m..i + SpikeLen];
    var tail := a.suffix[|a.suffix| - m..];
    if AnchorsAt(read, i, a) {
      forall c | 0 <= c < m ensures front[c] == a.prefix[c] {
        assert CharsAgree(read, i, a, c);
      }
      forall c | 0 <= c < m ensures back[c] == tail[c] {
        assert CharsAgree(read, i, a, m - 1 - c);
      }
    }
    if front == a.prefix && back == tail {
      forall c | 0 <= c < m ensures CharsAgree(read, i, a, c) {
        assert front[c] == a.prefix[c];
        assert back[m - 1 - c] == tail[m - 1 - c];
      }
    }
  }

  /** A reverse-strand read equal to the reverse complement of forward spike
      `k`, where spike `k` shares the anchor spike's flanks, passes the reverse
      anchor check and is identified with spike `k`'s id when no earlier spike
      has the same sequence. */
  lemma ReverseReadIdentified(spikeList: SpikeLists, read: string, k: nat)
    requires Paired(spikeList) && |spikeList.forward| >= 2
    requires k < |spikeList.forward| && SharesFlanks(spikeList, k)
    requires read == ReverseComplement(spikeList.forward[k].sequence)
    requires forall l :: 0 <= l < k ==> spikeList.forward[l].sequence != spikeList.forward[k].sequence
    ensures Match(read, ProcessSpikes(spikeList).reverse, spikeList.reverse).id == spikeList.forward[k].id
  {
    var a := ProcessSpikes(spikeList).reverse;
    var spikes := spikeList.reverse;
    var s := spikeList.forward[k].sequence;
    ReverseAnchorsConjugate(spikeList);
    ReverseComplementPrefix(s, AnchorLen);
    ReverseComplementSuffix(s, AnchorLen);
    AnchorsAtSlices(read, 0, a);
    assert AnchorsAt(read, 0, a);
    assert Window(read, 0) == read;
    forall l | 0 <= l < k
      ensures spikes[l].sequence != Window(read, 0)
    {
      ReverseComplementInvolution(spikeList.forward[l].sequence);
      ReverseComplementInvolution(s);
    }
    assert IsFirstMatch(read, a, spikes, 0, k);
    MatchFirstWins(read, a, spikes, 0, k);
  }

  /** A hit at window `i`, where the scan from `i` decides the result, is the result. */
  lemma WindowHit(read: string, a: Anchors, spikes: seq<Spike>, i: nat, k: nat)
    requires WellFormed(a) && i + SpikeLen <= |read|
    requires Match(read, a, spikes) == MatchFrom(read, a, spikes, i)
    requires AnchorsAt(read, i, a) && k < |spikes| && spikes[k].sequence == Window(read, i)
    requires forall l :: 0 <= l < k ==> spikes[l].sequence != Window(read, i)
    ensures Match(read, a, spikes) == spikes[k] && spikes[k] in spikes
  {
    assert FirstSpikeFrom(spikes, Window(read, i), 0) == k;
  }

  /** A window that fails the anchor check or equals no spike passes the decision on. */
  lemma WindowMiss(read: string, a: Anchors, spikes: seq<Spike>, i: nat)
    requires WellFormed(a) && i + SpikeLen <= |read|
    requires Match(read, a, spikes) == MatchFrom(read, a, spikes, i)
    requires !AnchorsAt(read, i, a) || forall l :: 0 <= l < |spikes| ==> spikes[l].sequence != Window(read, i)
    ensures Match(read, a, spikes) == MatchFrom(read, a, spikes, i + 1)
  {
    if AnchorsAt(read, i, a) {
      assert FirstSpikeFrom(spikes, Window(read, i), 0) == |spikes|;
    }
  }

  /** `process` (the unused error budget and `spikedata` are dropped). */
  method Process(read: string, anchors: Anchors, spikes: seq<Spike>) returns (spike: Spike)
    requires WellFormed(anchors)
    ensures spike == Match(read, anchors, spikes)
    ensures |read| < SpikeLen ==> spike == NoMatch
    ensures spike != NoMatch ==> spike in spikes
  {
    var m := |anchors.prefix|;
    var i := 0;
    while i + SpikeLen <= |read|
      invariant Match(read, anchors, spikes) == MatchFrom(read, anchors, spikes, i)
      decreases |read| - i
    {
      var requiredChars := true;
      var charNo := 0;
      while charNo < m
        invariant 0 <= charNo <= m
        invariant requiredChars
        invariant forall c :: 0 <= c < charNo ==> CharsAgree(read, i, anchors, c)
      {
        if read[i + charNo] != anchors.prefix[charNo] {
          assert !CharsAgree(read, i, anchors, charNo);
          requiredChars := false;
          break;
        }
        if read[i + SpikeLen - charNo - 1] != anchors.suffix[|anchors.suffix| - 1 - charNo] {
          assert !CharsAgree(read, i, anchors, charNo);
          requiredChars := false;
          break;
        }
        assert CharsAgree(read, i, anchors, charNo);
        charNo := charNo + 1;
      }
      assert requiredChars <==> AnchorsAt(read, i, anchors);
      if requiredChars {
        var k := 0;
        while k < |spikes|
          invariant 0 <= k <= |spikes|
          invariant forall l :: 0 <= l < k ==> spikes[l].sequence != Window(read, i)
        {
          if read[i..i + SpikeLen] == spikes[k].sequence {
            WindowHit(read, anchors, spikes, i, k);
            spike := spikes[k];
            return;
          }
          k := k + 1;
        }
      }
      WindowMiss(read, anchors, spikes, i);
      i := i + 1;
    }
    spike := NoMatch;
  }
}
