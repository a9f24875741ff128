/** `dist_write`: the lines of the spike-count file. The header entry is
    written as it is met, the counted entries afterwards, sorted by count
    (largest first) and then by spike sequence. */
module CountReport {
  import opened Text
  import opened SpikeLibrary
  import opened SpikeCounts

  /** An entry `(key, spikedict[key])` of `kvpairs`. */
  datatype Pair = Pair(key: Spike, count: nat)

  /** `p` sorts strictly before `q` under the sort key `(-count, sequence)`. */
  predicate Before(p: Pair, q: Pair) {
    p.count > q.count || (p.count == q.count && LexLess(p.key.sequence, q.key.sequence))
  }

  /** No entry sorts strictly before an earlier one. */
  predicate SortedPairs(ps: seq<Pair>) {
    forall i, j :: 0 <= i < j < |ps| ==> !Before(ps[j], ps[i])
  }

  /** The header line: the key's id and sequence and the word COUNT, joined by
      commas and ended by a newline. */
  function HeaderRow(key: Spike): string {
    key.id + "," + key.sequence + ",COUNT\n"
  }

  /** A count line: the key's id and sequence and the decimal count, joined by
      commas and ended by a newline. */
  function CountRow(p: Pair): string {
    p.key.id + "," + p.key.sequence + "," + NatToString(p.count) + "\n"
  }

  /** The header lines the first loop writes: one for every key whose value is
      "COUNT", in iteration order. */
  function HeaderRows(keys: seq<Spike>, vals: map<Spike, Value>): seq<string>
    requires forall k :: k in keys ==> k in vals
  {
    if keys == [] then []
    else (if vals[keys[0]] == Header then [HeaderRow(keys[0])] else []) + HeaderRows(keys[1..], vals)
  }

  /** The pairs the first loop collects: one for every key holding a number, in
      iteration order. */
  function PairsOf(keys: seq<Spike>, vals: map<Spike, Value>): seq<Pair>
    requires forall k :: k in keys ==> k in vals
  {
    if keys == [] then []
    else (if vals[keys[0]].Count? then [Pair(keys[0], vals[keys[0]].n)] else []) + PairsOf(keys[1..], vals)
  }

  /** `sorted`, which is stable: `p` goes before the first entry that does not
      sort strictly before it. */
  function Insert(p: Pair, ps: seq<Pair>): (r: seq<Pair>)
    ensures |r| == |ps| + 1 && multiset(r) == multiset(ps) + multiset{p}
  {
    if ps == [] || !Before(ps[0], p) then [p] + ps
    else
      assert ps == [ps[0]] + ps[1..];
      [ps[0]] + Insert(p, ps[1..])
  }

  function SortPairs(ps: seq<Pair>): (r: seq<Pair>)
    ensures |r| == |ps| && multiset(r) == multiset(ps)
  {
    if ps == [] then []
    else
      assert ps == [ps[0]] + ps[1..];
      Insert(ps[0], SortPairs(ps[1..]))
  }

  /** The count lines of the second loop, in the order given. */
  function Rows(ps: seq<Pair>): seq<string> {
    if ps == [] then [] else [CountRow(ps[0])] + Rows(ps[1..])
  }

  /** Every key met while iterating has a value. */
  predicate KeysPresent(d: SpikeDict) {
    forall k :: k in d.keys ==> k in d.vals
  }

  /** The lines of the spike-count file for `d`. */
  function Report(d: SpikeDict): seq<string>
    requires KeysPresent(d)
  {
    HeaderRows(d.keys, d.vals) + Rows(SortPairs(PairsOf(d.keys, d.vals)))
  }

  // Sorting

  lemma BeforeAsymmetric(p: Pair, q: Pair)
    requires Before(p, q)
    ensures !Before(q, p)
  {
    if p.count == q.count && LexLess(q.key.sequence, p.key.sequence) {
      LexLessTransitive(p.key.sequence, q.key.sequence, p.key.sequence);
      LexLessIrreflexive(p.key.sequence);
    }
  }

  /** Not sorting before is transitive. */
  lemma NotBeforeTransitive(x: Pair, y: Pair, z: Pair)
    requires !Before(x, y) && !Before(y, z)
    ensures !Before(x, z)
  {
    if x.count == y.count == z.count && LexLess(x.key.sequence, z.key.sequence) {
      if x.key.sequence == y.key.sequence {
      } else {
        LexLessTotal(x.key.sequence, y.key.sequence);
        LexLessTransitive(y.key.sequence, x.key.sequence, z.key.sequence);
      }
    }
  }

  lemma SortedCons(h: Pair, t: seq<Pair>)
    requires SortedPairs(t) && forall y :: y in t ==> !Before(y, h)
    ensures SortedPairs([h] + t)
  {
    var r := [h] + t;
    forall i, j | 0 <= i < j < |r|
      ensures !Before(r[j], r[i])
    {
      assert r[j] == t[j - 1];
      if i > 0 {
        assert r[i] == t[i - 1];
      }
    }
  }

  lemma {:induction false} InsertSorted(p: Pair, ps: seq<Pair>)
    requires SortedPairs(ps)
    ensures SortedPairs(Insert(p, ps))
  {
    if ps == [] || !Before(ps[0], p) {
      forall y | y in ps
        ensures !Before(y, p)
      {
        var m :| 0 <= m < |ps| && ps[m] == y;
        if m > 0 {
          assert !Before(ps[m], ps[0]);
          NotBeforeTransitive(y, ps[0], p);
        }
      }
      SortedCons(p, ps);
    } else {
      var t := Insert(p, ps[1..]);
      InsertSorted(p, ps[1..]);
      forall y | y in t
        ensures !Before(y, ps[0])
      {
        assert y in multiset(t);
        if y == p {
          BeforeAsymmetric(ps[0], p);
        } else {
          assert y in multiset(ps[1..]);
          var m :| 0 <= m < |ps[1..]| && ps[1..][m] == y;
          assert ps[m + 1] == y;
        }
      }
      SortedCons(ps[0], t);
    }
  }

  /** `sorted` orders the pairs by the sort key and keeps every pair. */
  lemma {:induction false} SortPairsSorted(ps: seq<Pair>)
    ensures SortedPairs(SortPairs(ps)) && multiset(SortPairs(ps)) == multiset(ps)
  {
    if ps != [] {
      SortPairsSorted(ps[1..]);
      InsertSorted(ps[0], SortPairs(ps[1..]));
    }
  }

  /** In sorted pairs the counts never increase, and equal counts come in
      ascending order of sequence. */
  lemma SortedMeaning(ps: seq<Pair>, i: nat, j: nat)
    requires SortedPairs(ps) && i < j < |ps|
    ensures ps[i].count >= ps[j].count
    ensures ps[i].count == ps[j].count && ps[i].key.sequence != ps[j].key.sequence ==>
      LexLess(ps[i].key.sequence, ps[j].key.sequence)
  {
    if ps[i].count == ps[j].count && ps[i].key.sequence != ps[j].key.sequence {
      LexLessTotal(ps[i].key.sequence, ps[j].key.sequence);
    }
  }

  // The collected entries

  /** A pair is collected exactly when its key is in the dictionary holding
      that number. */
  lemma {:induction false} PairsOfMembers(keys: seq<Spike>, vals: map<Spike, Value>, p: Pair)
    requires forall k :: k in keys ==> k in vals
    ensures p in PairsOf(keys, vals) <==> p.key in keys && vals[p.key] == Count(p.count)
  {
    if keys != [] {
      PairsOfMembers(keys[1..], vals, p);
      assert p.key in keys <==> p.key == keys[0] || p.key in keys[1..];
    }
  }

  /** Every key gives exactly one line, a header line or a count line. */
  lemma {:induction false} OneLinePerKey(keys: seq<Spike>, vals: map<Spike, Value>)
    requires forall k :: k in keys ==> k in vals
    ensures |HeaderRows(keys, vals)| + |PairsOf(keys, vals)| == |keys|
  {
    if keys != [] {
      OneLinePerKey(keys[1..], vals);
    }
  }

  function SumPairs(ps: seq<Pair>): nat {
    if ps == [] then 0 else ps[0].count + SumPairs(ps[1..])
  }

  lemma {:induction false} SumPairsInsert(p: Pair, ps: seq<Pair>)
    ensures SumPairs(Insert(p, ps)) == p.count + SumPairs(ps)
  {
    if ps != [] && Before(ps[0], p) {
      SumPairsInsert(p, ps[1..]);
    }
  }

  /** Sorting does not change the sum of the counts. */
  lemma {:induction false} SumPairsSorted(ps: seq<Pair>)
    ensures SumPairs(SortPairs(ps)) == SumPairs(ps)
  {
    if ps != [] {
      SumPairsSorted(ps[1..]);
      SumPairsInsert(ps[0], SortPairs(ps[1..]));
    }
  }

  /** The collected counts add up to the dictionary's total. */
  lemma {:induction false} SumPairsOf(keys: seq<Spike>, vals: map<Spike, Value>)
    requires forall k :: k in keys ==> k in vals
    ensures SumPairs(PairsOf(keys, vals)) == SumCounts(keys, vals)
  {
    if keys != [] {
      SumPairsOf(keys[1..], vals);
      var head := if vals[keys[0]].Count? then [Pair(keys[0], vals[keys[0]].n)] else [];
      SumPairsAppend(head, PairsOf(keys[1..], vals));
    }
  }

  lemma {:induction false} SumPairsAppend(a: seq<Pair>, b: seq<Pair>)
    ensures SumPairs(a + b) == SumPairs(a) + SumPairs(b)
  {
    if a != [] {
      assert (a + b)[0] == a[0] && (a + b)[1..] == a[1..] + b;
      SumPairsAppend(a[1..], b);
    } else {
      assert a + b == b;
    }
  }

  /** Without a "COUNT" value there is no header line. */
  lemma {:induction false} NoHeaderRows(keys: seq<Spike>, vals: map<Spike, Value>)
    requires forall k :: k in keys ==> k in vals && vals[k] != Header
    ensures HeaderRows(keys, vals) == []
  {
    if keys != [] {
      NoHeaderRows(keys[1..], vals);
    }
  }

  /** With distinct keys of which exactly `h` holds "COUNT", the one header line
      is that of `h`. */
  lemma {:induction false} OneHeaderRow(keys: seq<Spike>, vals: map<Spike, Value>, h: Spike)
    requires forall i, j :: 0 <= i < j < |keys| ==> keys[i] != keys[j]
    requires forall k :: k in keys ==> k in vals && (vals[k] == Header <==> k == h)
    requires h in keys
    ensures HeaderRows(keys, vals) == [HeaderRow(h)]
  {
    if keys[0] == h {
      forall k | k in keys[1..]
        ensures k != h
      {
        var m :| 0 <= m < |keys[1..]| && keys[1..][m] == k;
        assert keys[m + 1] == k;
      }
      NoHeaderRows(keys[1..], vals);
    } else {
      OneHeaderRow(keys[1..], vals, h);
    }
  }

  lemma {:induction false} HeaderRowsAppend(a: seq<Spike>, b: seq<Spike>, vals: map<Spike, Value>)
    requires forall k :: k in a + b ==> k in vals
    ensures HeaderRows(a + b, vals) == HeaderRows(a, vals) + HeaderRows(b, vals)
  {
    if a != [] {
      assert (a + b)[0] == a[0] && (a + b)[1..] == a[1..] + b;
      HeaderRowsAppend(a[1..], b, vals);
      var head := if vals[a[0]] == Header then [HeaderRow(a[0])] else [];
      assert HeaderRows(a, vals) + HeaderRows(b, vals) == head + (HeaderRows(a[1..], vals) + HeaderRows(b, vals));
    } else {
      assert a + b == b;
    }
  }

  lemma {:induction false} PairsOfAppend(a: seq<Spike>, b: seq<Spike>, vals: map<Spike, Value>)
    requires forall k :: k in a + b ==> k in vals
    ensures PairsOf(a + b, vals) == PairsOf(a, vals) + PairsOf(b, vals)
  {
    if a != [] {
      assert (a + b)[0] == a[0] && (a + b)[1..] == a[1..] + b;
      PairsOfAppend(a[1..], b, vals);
      var head := if vals[a[0]].Count? then [Pair(a[0], vals[a[0]].n)] else [];
      assert PairsOf(a, vals) + PairsOf(b, vals) == head + (PairsOf(a[1..], vals) + PairsOf(b, vals));
    } else {
      assert a + b == b;
    }
  }

  lemma {:induction false} RowsAppend(a: seq<Pair>, b: seq<Pair>)
    ensures Rows(a + b) == Rows(a) + Rows(b)
  {
    if a != [] {
      assert (a + b)[0] == a[0] && (a + b)[1..] == a[1..] + b;
      RowsAppend(a[1..], b);
      assert Rows(a) + Rows(b) == [CountRow(a[0])] + (Rows(a[1..]) + Rows(b));
    } else {
      assert a + b == b;
    }
  }

  /** The dictionary `parse_reads` returns is valid, its counts add up to the
      number of results, and `spikeli[0][0]` is its one key holding "COUNT". */
  lemma ScanDictShape(spikeList: SpikeLists, rev: bool, rs: seq<Spike>)
    requires |spikeList.forward| >= 1 && spikeList.forward[0] != NoMatch
    requires AllCounters(InitialDict(spikeList, rev), rs)
    ensures var d := Tally(InitialDict(spikeList, rev), rs);
      && Valid(d) && Total(d) == |rs| && spikeList.forward[0] in d.keys
      && forall k :: k in d.keys ==> k in d.vals && (d.vals[k] == Header <==> k == spikeList.forward[0])
  {
    var init := InitialDict(spikeList, rev);
    var d := Tally(init, rs);
    InitialDictValid(spikeList, rev);
    InitialDictShape(spikeList, rev);
    TallyValid(init, rs);
    TallyShape(init, rs);
    forall k | k in d.keys
      ensures d.vals[k] == Header <==> k == spikeList.forward[0]
    {
      assert IsCounter(d, k) <==> IsCounter(init, k);
    }
  }

  /** The counts file of a dictionary `parse_reads` returns: its single header
      line, that of `spikeli[0][0]`, comes first, there is one line per key,
      and the count lines sum to the number of results counted. */
  lemma ScanReport(spikeList: SpikeLists, rev: bool, rs: seq<Spike>)
    requires |spikeList.forward| >= 1 && spikeList.forward[0] != NoMatch
    requires AllCounters(InitialDict(spikeList, rev), rs)
    ensures var d := Tally(InitialDict(spikeList, rev), rs);
      && KeysPresent(d)
      && HeaderRows(d.keys, d.vals) == [HeaderRow(spikeList.forward[0])]
      && Report(d)[0] == HeaderRow(spikeList.forward[0])
      && |Report(d)| == |d.keys|
      && SumPairs(SortPairs(PairsOf(d.keys, d.vals))) == |rs|
  {
    var d := Tally(InitialDict(spikeList, rev), rs);
    ScanDictShape(spikeList, rev, rs);
    OneHeaderRow(d.keys, d.vals, spikeList.forward[0]);
    OneLinePerKey(d.keys, d.vals);
    var ps := PairsOf(d.keys, d.vals);
    RowsLength(SortPairs(ps));
    SumPairsSorted(ps);
    SumPairsOf(d.keys, d.vals);
  }

  lemma {:induction false} RowsLength(ps: seq<Pair>)
    ensures |Rows(ps)| == |ps|
  {
    if ps != [] {
      RowsLength(ps[1..]);
    }
  }

  /** The lines and pairs of the first `j + 1` keys extend those of the
      first `j` by key `j`'s. */
  lemma KeysSnoc(keys: seq<Spike>, vals: map<Spike, Value>, j: nat)
    requires forall k :: k in keys ==> k in vals
    requires j < |keys|
    ensures HeaderRows(keys[..j + 1], vals)
      == HeaderRows(keys[..j], vals) + if vals[keys[j]] == Header then [HeaderRow(keys[j])] else []
    ensures PairsOf(keys[..j + 1], vals)
      == PairsOf(keys[..j], vals) + if vals[keys[j]].Count? then [Pair(keys[j], vals[keys[j]].n)] else []
  {
    TakeSnoc(keys, j);
    HeaderRowsAppend(keys[..j], [keys[j]], vals);
    PairsOfAppend(keys[..j], [keys[j]], vals);
    assert [keys[j]][1..] == [];
  }

  lemma RowsSnoc(ps: seq<Pair>, j: nat)
    requires j < |ps|
    ensures Rows(ps[..j + 1]) == Rows(ps[..j]) + [CountRow(ps[j])]
  {
    TakeSnoc(ps, j);
    RowsAppend(ps[..j], [ps[j]]);
    assert [ps[j]][1..] == [];
  }

  /** `dist_write`: the first loop writes the header lines and collects the
      counted pairs in iteration order, the second writes the sorted pairs. */
  method DistWrite(spikedict: SpikeDict) returns (outfile: seq<string>)
    requires KeysPresent(spikedict)
    ensures outfile == Report(spikedict)
  {
    var keys := spikedict.keys;
    outfile := [];
    var kvpairs: seq<Pair> := [];
    for j := 0 to |keys|
      invariant outfile == HeaderRows(keys[..j], spikedict.vals)
      invariant kvpairs == PairsOf(keys[..j], spikedict.vals)
    {
      var key := keys[j];
      KeysSnoc(keys, spikedict.vals, j);
      if spikedict.vals[key] == Header {
        outfile := outfile + [HeaderRow(key)];
      } else {
        kvpairs := kvpairs + [Pair(key, spikedict.vals[key].n)];
      }
    }
    assert keys[..|keys|] == keys;
    ghost var headers := outfile;
    var sortedPairs := SortPairs(kvpairs);
    for j := 0 to |sortedPairs|
      invariant outfile == headers + Rows(sortedPairs[..j])
    {
      RowsSnoc(sortedPairs, j);
      outfile := outfile + [CountRow(sortedPairs[j])];
    }
    assert sortedPairs[..|sortedPairs|] == sortedPairs;
  }
}
