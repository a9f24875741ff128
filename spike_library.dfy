/** The spike library: `parse_spikes` reads the definition file into a forward
    and a reverse-complement list of (id, sequence) spikes, and
    `process_spikes` takes the shared anchors of each orientation from the
    entry at index 1. */
module SpikeLibrary {
  import opened Text
  import opened Conjugation

  /** Width of the window compared against a spike (`spikelen` in `process`). */
  const SpikeLen := 34
  /** Length of the shared prefix and suffix anchors (`[:9]`, `[-9:]`). */
  const AnchorLen := 9

  /** A spike tuple `(SPIKE_ID, SPIKE)`. */
  datatype Spike = Spike(id: string, sequence: string)

  /** The tuple `('0', '')` that `process` returns when nothing matches; it is
      also the key of the no-match counter. */
  const NoMatch := Spike("0", "")

  /** `spikeli`: index 0 holds the spikes as read, index 1 their reverse complements. */
  datatype SpikeLists = SpikeLists(forward: seq<Spike>, reverse: seq<Spike>) {
    /** `spikeli[reverse]`, with the Boolean used as the list index. */
    function For(rev: bool): seq<Spike> {
      if rev then reverse else forward
    }
  }

  /** A prefix / suffix pair of `sharedstrs`. */
  datatype Anchors = Anchors(prefix: string, suffix: string)

  /** `sharedstrs`: one anchor pair per orientation. */
  datatype SharedAnchors = SharedAnchors(forward: Anchors, reverse: Anchors) {
    function For(rev: bool): Anchors {
      if rev then reverse else forward
    }
  }

  /** What `process` needs of an anchor pair so that none of its index
      operations fails: the suffix is at least as long as the prefix, and the
      prefix fits in a window. */
  predicate WellFormed(a: Anchors) {
    |a.prefix| <= |a.suffix| && |a.prefix| <= SpikeLen
  }

  /** A token produced by `str.split()`: non-empty and free of whitespace. */
  predicate IsToken(t: string) {
    t != [] && forall i :: 0 <= i < |t| ==> !IsWhitespace(t[i])
  }

  /** The two lists have equal length and entry k of the reverse list is entry
      k of the forward list with its sequence conjugated. */
  predicate Paired(lists: SpikeLists) {
    && |lists.forward| == |lists.reverse|
    && forall k :: 0 <= k < |lists.forward| ==>
         lists.reverse[k] == Spike(lists.forward[k].id, ReverseComplement(lists.forward[k].sequence))
  }

  /** `parse_spikes` over the already-split lines of the definition file; every
      line splits into an id and a sequence token. */
  method ParseSpikes(lines: seq<seq<string>>) returns (spikeList: SpikeLists)
    requires forall k :: 0 <= k < |lines| ==> |lines[k]| == 2 && IsToken(lines[k][0]) && IsToken(lines[k][1])
    ensures |spikeList.forward| == |lines|
    ensures forall k :: 0 <= k < |lines| ==> spikeList.forward[k] == Spike(lines[k][0], lines[k][1])
    ensures Paired(spikeList)
    ensures NoMatch !in spikeList.forward && NoMatch !in spikeList.reverse
  {
    var forward: seq<Spike> := [];
    var reverse: seq<Spike> := [];
    for k := 0 to |lines|
      invariant |forward| == k && |reverse| == k
      invariant forall j :: 0 <= j < k ==> forward[j] == Spike(lines[j][0], lines[j][1])
      invariant forall j :: 0 <= j < k ==> reverse[j] == Spike(lines[j][0], ReverseComplement(lines[j][1]))
      invariant forall j :: 0 <= j < k ==> forward[j].sequence != [] && reverse[j].sequence != []
    {
      var vals := lines[k];
      forward := forward + [Spike(vals[0], vals[1])];
      var conjugated := Conjugate(vals[1]);
      reverse := reverse + [Spike(vals[0], conjugated)];
    }
    spikeList := SpikeLists(forward, reverse);
  }

  /** The reverse list determines the forward list: conjugating each reverse
      sequence gives back the sequence as read. */
  lemma {:induction false} PairedRoundTrip(lists: SpikeLists)
    requires Paired(lists)
    ensures forall k :: 0 <= k < |lists.reverse| ==>
      Spike(lists.reverse[k].id, ReverseComplement(lists.reverse[k].sequence)) == lists.forward[k]
  {
    forall k | 0 <= k < |lists.reverse|
      ensures ReverseComplement(lists.reverse[k].sequence) == lists.forward[k].sequence
    {
      ReverseComplementInvolution(lists.forward[k].sequence);
    }
  }

  /** Forward spike `k` is 34 characters long and has the same first and last
      9 characters as the anchor-defining spike at index 1. */
  predicate SharesFlanks(lists: SpikeLists, k: nat)
    requires 2 <= |lists.forward| && k < |lists.forward|
  {
    var s, e := lists.forward[k].sequence, lists.forward[1].sequence;
    && |s| == SpikeLen && AnchorLen <= |e|
    && s[..AnchorLen] == e[..AnchorLen]
    && s[SpikeLen - AnchorLen..] == e[|e| - AnchorLen..]
  }

  /** `(s[:9], s[-9:])`; a sequence of at most 9 characters is its own prefix
      and suffix, as Python's slices clamp. */
  function AnchorsOf(s: string): (a: Anchors)
    ensures |a.prefix| == |a.suffix| == if |s| < AnchorLen then |s| else AnchorLen
    ensures a.prefix == s[..|a.prefix|] && a.suffix == s[|s| - |a.suffix|..]
  {
    if |s| <= AnchorLen then Anchors(s, s)
    else Anchors(s[..AnchorLen], s[|s| - AnchorLen..])
  }

  /** `process_spikes` without the unused `spikedata`: each orientation's anchors
      are the first and last 9 characters of its entry at index 1. */
  function ProcessSpikes(spikeList: SpikeLists): (shared: SharedAnchors)
    requires |spikeList.forward| >= 2 && |spikeList.reverse| >= 2
    ensures forall rev: bool :: WellFormed(shared.For(rev))
    ensures forall rev: bool :: shared.For(rev) == AnchorsOf(spikeList.For(rev)[1].sequence)
  {
    SharedAnchors(AnchorsOf(spikeList.forward[1].sequence), AnchorsOf(spikeList.reverse[1].sequence))
  }

  /** With paired lists, the reverse anchors are the conjugated forward anchors
      with their roles swapped. */
  lemma {:induction false} ReverseAnchorsConjugate(spikeList: SpikeLists)
    requires |spikeList.forward| >= 2 && Paired(spikeList)
    ensures ProcessSpikes(spikeList).reverse.prefix == ReverseComplement(ProcessSpikes(spikeList).forward.suffix)
    ensures ProcessSpikes(spikeList).reverse.suffix == ReverseComplement(ProcessSpikes(spikeList).forward.prefix)
  {
    var s := spikeList.forward[1].sequence;
    var r := spikeList.reverse[1].sequence;
    assert r == ReverseComplement(s);
    if |s| <= AnchorLen {
    } else {
      ReverseComplementPrefix(s, AnchorLen);
      ReverseComplementSuffix(s, AnchorLen);
    }
  }
}
