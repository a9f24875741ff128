/** `spikedict` of `parse_reads`: an insertion-ordered dictionary from spikes to
    counts, its starting contents, and the effect of counting a sequence of
    matcher results. */
module SpikeCounts {
  import opened SpikeLibrary

  /** A value of `spikedict`: a count, or the literal "COUNT" of the header entry. */
  datatype Value = Count(n: nat) | Header

  /** `spikedict`: its keys in iteration order and its key-to-value map. */
  datatype SpikeDict = SpikeDict(keys: seq<Spike>, vals: map<Spike, Value>)

  /** Every key occurs once in the order and the order lists exactly the map's keys. */
  ghost predicate Valid(d: SpikeDict) {
    && (forall i, j :: 0 <= i < j < |d.keys| ==> d.keys[i] != d.keys[j])
    && (forall k :: k in d.vals <==> k in d.keys)
  }

  const EmptyDict := SpikeDict([], map[])

  /** `d[k] = v`: a new key goes last, an existing key keeps its place. */
  function SetKey(d: SpikeDict, k: Spike, v: Value): (r: SpikeDict)
    ensures Valid(d) ==> Valid(r)
    ensures r.vals == d.vals[k := v]
    ensures forall x :: x in d.keys ==> x in r.keys
  {
    if k in d.vals then SpikeDict(d.keys, d.vals[k := v]) else SpikeDict(d.keys + [k], d.vals[k := v])
  }

  /** `k` is present with a numeric value, so `d[k] += 1` succeeds. */
  predicate IsCounter(d: SpikeDict, k: Spike) {
    k in d.vals && d.vals[k].Count?
  }

  predicate AllCounters(d: SpikeDict, rs: seq<Spike>) {
    forall j :: 0 <= j < |rs| ==> IsCounter(d, rs[j])
  }

  /** `d[k] += 1`. */
  function Inc(d: SpikeDict, k: Spike): SpikeDict
    requires IsCounter(d, k)
  {
    SpikeDict(d.keys, d.vals[k := Count(d.vals[k].n + 1)])
  }

  /** `d[k] += 1` where `k` holds a number. The source fails on any other key;
      the scans only reach such a step when every result holds a number. */
  function Bump(d: SpikeDict, k: Spike): SpikeDict {
    if IsCounter(d, k) then Inc(d, k) else d
  }

  /** The dictionary after `d[r] += 1` for every result `r` in turn. */
  function Tally(d: SpikeDict, rs: seq<Spike>): SpikeDict
    decreases |rs|
  {
    if rs == [] then d else Tally(Bump(d, rs[0]), rs[1..])
  }

  /** Tallying changes neither the keys, nor their order, nor which of them
      hold numbers. */
  lemma {:induction false} TallyShape(d: SpikeDict, rs: seq<Spike>)
    ensures Tally(d, rs).keys == d.keys && Tally(d, rs).vals.Keys == d.vals.Keys
    ensures forall k :: IsCounter(Tally(d, rs), k) <==> IsCounter(d, k)
    decreases |rs|
  {
    if rs != [] {
      TallyShape(Bump(d, rs[0]), rs[1..]);
    }
  }

  function CountOf(vals: map<Spike, Value>, k: Spike): nat {
    if k in vals && vals[k].Count? then vals[k].n else 0
  }

  function SumCounts(ks: seq<Spike>, vals: map<Spike, Value>): nat {
    if ks == [] then 0 else CountOf(vals, ks[0]) + SumCounts(ks[1..], vals)
  }

  /** Sum of all numeric entries, the no-match counter included. */
  function Total(d: SpikeDict): nat {
    SumCounts(d.keys, d.vals)
  }

  lemma {:induction false} SumCountsInc(ks: seq<Spike>, vals: map<Spike, Value>, k: Spike)
    requires forall i, j :: 0 <= i < j < |ks| ==> ks[i] != ks[j]
    requires k in vals && vals[k].Count?
    ensures SumCounts(ks, vals[k := Count(vals[k].n + 1)]) == SumCounts(ks, vals) + (if k in ks then 1 else 0)
  {
    if ks != [] {
      SumCountsInc(ks[1..], vals, k);
      assert k in ks <==> k == ks[0] || k in ks[1..];
      assert k == ks[0] ==> k !in ks[1..];
    }
  }

  lemma {:induction false} SumCountsZero(ks: seq<Spike>, vals: map<Spike, Value>)
    requires forall k :: k in vals ==> vals[k] == Count(0) || vals[k] == Header
    ensures SumCounts(ks, vals) == 0
  {
    if ks != [] {
      SumCountsZero(ks[1..], vals);
    }
  }

  /** Counts grow by exactly one per result tallied. */
  lemma {:induction false} TallyTotal(d: SpikeDict, rs: seq<Spike>)
    requires Valid(d) && AllCounters(d, rs)
    ensures Total(Tally(d, rs)) == Total(d) + |rs|
    decreases |rs|
  {
    if rs != [] {
      var x := rs[0];
      assert x in d.keys;
      SumCountsInc(d.keys, d.vals, x);
      TallyTotal(Inc(d, x), rs[1..]);
    }
  }

  /** Tallying results that all hold a number keeps the dictionary valid and
      adds one to the total per result. */
  lemma TallyValid(d: SpikeDict, rs: seq<Spike>)
    requires Valid(d) && AllCounters(d, rs)
    ensures Valid(Tally(d, rs)) && Total(Tally(d, rs)) == Total(d) + |rs|
  {
    TallyShape(d, rs);
    TallyTotal(d, rs);
  }

  /** Tallying one more result increments its entry in the tally so far. */
  lemma {:induction false} TallySnoc(d: SpikeDict, rs: seq<Spike>, x: Spike)
    ensures Tally(d, rs + [x]) == Bump(Tally(d, rs), x)
    decreases |rs|
  {
    if rs != [] {
      assert (rs + [x])[1..] == rs[1..] + [x];
      TallySnoc(Bump(d, rs[0]), rs[1..], x);
    }
  }

  /** Each numeric entry grows by the number of times it occurs among the results. */
  lemma {:induction false} TallyCount(d: SpikeDict, rs: seq<Spike>, k: Spike)
    requires IsCounter(d, k)
    ensures IsCounter(Tally(d, rs), k) && Tally(d, rs).vals[k] == Count(d.vals[k].n + multiset(rs)[k])
    decreases |rs|
  {
    TallyShape(d, rs);
    if rs != [] {
      TallyCount(Bump(d, rs[0]), rs[1..], k);
      assert rs == [rs[0]] + rs[1..];
    }
  }

  /** Every spike given a zero count. */
  function ZeroAll(spikes: seq<Spike>): (d: SpikeDict)
    ensures Valid(d)
    ensures forall k :: k in d.vals <==> k in spikes
    ensures forall k :: k in d.vals ==> d.vals[k] == Count(0)
  {
    if spikes == [] then EmptyDict
    else SetKey(ZeroAll(spikes[..|spikes| - 1]), spikes[|spikes| - 1], Count(0))
  }

  /** `spikes[1:]`. */
  function Rest(spikes: seq<Spike>): seq<Spike> {
    if spikes == [] then [] else spikes[1..]
  }

  /** The dictionary `parse_reads` starts from: a zero for every spike of the
      chosen orientation but its first, then the header entry `spikeli[0][0]`
      set to "COUNT", then the no-match counter set to zero. */
  function InitialDict(spikeList: SpikeLists, rev: bool): SpikeDict
    requires |spikeList.forward| >= 1
  {
    SetKey(SetKey(ZeroAll(Rest(spikeList.For(rev))), spikeList.forward[0], Header), NoMatch, Count(0))
  }

  lemma InitialDictValid(spikeList: SpikeLists, rev: bool)
    requires |spikeList.forward| >= 1
    ensures Valid(InitialDict(spikeList, rev)) && Total(InitialDict(spikeList, rev)) == 0
  {
    var d := InitialDict(spikeList, rev);
    SumCountsZero(d.keys, d.vals);
  }

  /** The keys of the starting dictionary, and which of them may be incremented:
      the header key `spikeli[0][0]` holds "COUNT", every other key zero. */
  lemma InitialDictShape(spikeList: SpikeLists, rev: bool)
    requires |spikeList.forward| >= 1 && spikeList.forward[0] != NoMatch
    ensures var d := InitialDict(spikeList, rev);
      && (forall k :: k in d.vals <==> k in Rest(spikeList.For(rev)) || k == spikeList.forward[0] || k == NoMatch)
      && d.vals[spikeList.forward[0]] == Header
      && (forall k :: k in d.vals && k != spikeList.forward[0] ==> d.vals[k] == Count(0))
      && (forall k :: IsCounter(d, k) <==> k == NoMatch || (k in Rest(spikeList.For(rev)) && k != spikeList.forward[0]))
  {
  }

  /** The starting dictionary, built entry by entry as `parse_reads` does. */
  method NewSpikeDict(spikeList: SpikeLists, rev: bool) returns (spikedict: SpikeDict)
    requires |spikeList.forward| >= 1
    ensures spikedict == InitialDict(spikeList, rev)
  {
    var rest := Rest(spikeList.For(rev));
    spikedict := EmptyDict;
    for j := 0 to |rest|
      invariant spikedict == ZeroAll(rest[..j])
    {
      assert rest[..j + 1][..j] == rest[..j];
      spikedict := SetKey(spikedict, rest[j], Count(0));
    }
    assert rest[..|rest|] == rest;
    spikedict := SetKey(spikedict, spikeList.forward[0], Header);
    spikedict := SetKey(spikedict, NoMatch, Count(0));
  }
}
