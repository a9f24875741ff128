/** `parse_reads`: scans one read file, four lines per record (id, sequence,
    separator, quality), counts the matcher's result for every sequence line in
    `spikedict`, and in removal mode keeps the records whose sequence matched
    no spike. The read file is its sequence of lines (each with its line
    terminator); the files it writes are returned as sequences of lines. */
module FileScanner {
  import opened Text
  import opened SpikeLibrary
  import opened ReadMatcher
  import opened SpikeCounts

  /** `readline()` at line `pos`: the empty string once the file is exhausted. */
  function ReadLine(lines: seq<string>, pos: nat): string {
    if pos < |lines| then lines[pos] else ""
  }

  /** A path ending in "R2_001" names a reverse-strand file, which is matched
      against the reverse-complement spikes and anchors. */
  predicate IsReverse(path: string) {
    EndsWith(path, "R2_001")
  }

  /** The matcher's result for every read, in order. */
  function Matches(seqs: seq<string>, a: Anchors, spikes: seq<Spike>): (rs: seq<Spike>)
    requires WellFormed(a)
    ensures |rs| == |seqs|
    decreases |seqs|
  {
    if seqs == [] then [] else [Match(seqs[0], a, spikes)] + Matches(seqs[1..], a, spikes)
  }

  /** Result `k` is the matcher's result for read `k`. */
  lemma {:induction false} MatchesAt(seqs: seq<string>, a: Anchors, spikes: seq<Spike>, k: nat)
    requires WellFormed(a) && k < |seqs|
    ensures Matches(seqs, a, spikes)[k] == Match(seqs[k], a, spikes)
    decreases k
  {
    if k > 0 {
      MatchesAt(seqs[1..], a, spikes, k - 1);
    }
  }

  // Removal mode

  /** The stripped sequence lines that removal mode matches, one per record
      (index 1 modulo 4), a trailing partial record included once its sequence
      line is there. */
  function RemovalReads(lines: seq<string>): (seqs: seq<string>)
  {
    seq((|lines| + 2) / 4, p requires 0 <= p < (|lines| + 2) / 4 => Strip(lines[4 * p + 1]))
  }

  /** The first `q` complete records, less those whose result is not the
      sentinel, each kept whole and in order. */
  function Kept(lines: seq<string>, results: seq<Spike>, q: nat): seq<string>
    requires 4 * q <= |lines| && q <= |results|
  {
    if q == 0 then []
    else
      var record := if results[q - 1] != NoMatch then [] else lines[4 * q - 4..4 * q];
      Kept(lines, results, q - 1) + record
  }

  /** The records written in removal mode are four lines for every record whose
      result is the sentinel. */
  lemma {:induction false} KeptCount(lines: seq<string>, results: seq<Spike>, q: nat)
    requires 4 * q <= |lines| && q <= |results|
    ensures |Kept(lines, results, q)| == 4 * multiset(results[..q])[NoMatch]
  {
    if q > 0 {
      KeptCount(lines, results, q - 1);
      assert results[..q] == results[..q - 1] + [results[q - 1]];
    }
  }

  /** The end of record `q` writes it unless result `q` is a match. */
  lemma KeptStep(lines: seq<string>, results: seq<Spike>, q: nat)
    requires 4 * q + 4 <= |lines| && q < |results|
    ensures Kept(lines, results, q + 1)
      == Kept(lines, results, q) + if results[q] != NoMatch then [] else lines[4 * q..4 * q + 4]
  {
  }

  /** When no record matched, removal mode writes every complete record back. */
  lemma {:induction false} KeptAllUnmatched(lines: seq<string>, results: seq<Spike>, q: nat)
    requires 4 * q <= |lines| && q <= |results|
    requires forall p :: 0 <= p < q ==> results[p] == NoMatch
    ensures Kept(lines, results, q) == lines[..4 * q]
  {
    if q > 0 {
      KeptAllUnmatched(lines, results, q - 1);
      assert lines[..4 * q] == lines[..4 * q - 4] + lines[4 * q - 4..4 * q];
    }
  }

  /** When every record matched, removal mode writes nothing. */
  lemma {:induction false} KeptNoneMatched(lines: seq<string>, results: seq<Spike>, q: nat)
    requires 4 * q <= |lines| && q <= |results|
    requires forall p :: 0 <= p < q ==> results[p] != NoMatch
    ensures Kept(lines, results, q) == []
  {
    if q > 0 {
      KeptNoneMatched(lines, results, q - 1);
    }
  }

  // Non-removal mode

  /** The sequence lines read through `readline` from line `pos`, one per
      record, unstripped, until an id line is ""; a sequence line past the end
      of the file reads as "". */
  function ListedReads(lines: seq<string>, pos: nat): seq<string>
    decreases |lines| - pos
  {
    if ReadLine(lines, pos) == "" then [] else [ReadLine(lines, pos + 1)] + ListedReads(lines, pos + 4)
  }

  /** Record `k` from line `pos` on starts at line `pos + 4 * k`; the listing
      stops at the first record whose id line is "". */
  lemma {:induction false} ListedAt(lines: seq<string>, pos: nat, k: nat)
    requires k <= |ListedReads(lines, pos)|
    ensures k < |ListedReads(lines, pos)| ==>
      ReadLine(lines, pos + 4 * k) != "" && ListedReads(lines, pos)[k] == ReadLine(lines, pos + 4 * k + 1)
    ensures k == |ListedReads(lines, pos)| ==> ReadLine(lines, pos + 4 * k) == ""
    decreases k
  {
    if k > 0 {
      ListedAt(lines, pos + 4, k - 1);
      assert pos + 4 + 4 * (k - 1) == pos + 4 * k;
    }
  }

  /** The test for writing a read's id: the joined id and sequence of its result differ from "0". */
  predicate Reported(s: Spike) {
    s.id + s.sequence != "0"
  }

  /** The id lines written to the reads-to-remove file for the first `k`
      records: that of record `j` whenever result `j` is reported. */
  function WrittenIds(lines: seq<string>, results: seq<Spike>, k: nat): seq<string>
    requires k <= |results|
  {
    if k == 0 then []
    else WrittenIds(lines, results, k - 1) + if Reported(results[k - 1]) then [ReadLine(lines, 4 * (k - 1))] else []
  }

  /** The joined-string test is exactly the test for the sentinel on the
      matcher's results. */
  lemma JoinedSentinel(read: string, a: Anchors, spikes: seq<Spike>)
    requires WellFormed(a)
    ensures !Reported(Match(read, a, spikes)) <==> Match(read, a, spikes) == NoMatch
  {
    if Match(read, a, spikes) != NoMatch {
      MatchInSpikes(read, a, spikes);
      assert |Match(read, a, spikes).id + Match(read, a, spikes).sequence| >= SpikeLen;
    }
  }

  /** Result `j` is reported exactly when it is not the sentinel. */
  predicate ReportedIffMatched(results: seq<Spike>, j: nat)
    requires j < |results|
  {
    Reported(results[j]) <==> results[j] != NoMatch
  }

  /** One id is written for every result that is not the sentinel, when the
      joined-string test agrees with the sentinel test. */
  lemma {:induction false} WrittenCount(lines: seq<string>, results: seq<Spike>, n: nat)
    requires n <= |results|
    requires forall j | 0 <= j < |results| :: ReportedIffMatched(results, j)
    ensures |WrittenIds(lines, results, n)| == n - multiset(results[..n])[NoMatch]
  {
    if n > 0 {
      WrittenCount(lines, results, n - 1);
      assert ReportedIffMatched(results, n - 1);
      TakeSnoc(results, n - 1);
    }
  }

  /** One id is written for every read that matched a spike. */
  lemma WrittenMatched(lines: seq<string>, seqs: seq<string>, a: Anchors, spikes: seq<Spike>)
    requires WellFormed(a)
    ensures |WrittenIds(lines, Matches(seqs, a, spikes), |seqs|)| == |seqs| - multiset(Matches(seqs, a, spikes))[NoMatch]
  {
    var rs := Matches(seqs, a, spikes);
    forall j | 0 <= j < |rs|
      ensures ReportedIffMatched(rs, j)
    {
      MatchesAt(seqs, a, spikes, j);
      JoinedSentinel(seqs[j], a, spikes);
    }
    WrittenCount(lines, rs, |rs|);
    assert rs[..|rs|] == rs;
  }

  /** Every line a file yields carries at least its terminator, so only the end
      of the file reads as "". */
  predicate NonEmptyLines(lines: seq<string>) {
    forall k :: 0 <= k < |lines| ==> lines[k] != ""
  }

  /** With every line non-empty, non-removal mode reads one record per four
      lines, a trailing partial record included. */
  lemma {:induction false} ListedLength(lines: seq<string>, pos: nat)
    requires NonEmptyLines(lines)
    ensures |ListedReads(lines, pos)| == if |lines| <= pos then 0 else (|lines| - pos + 3) / 4
    decreases |lines| - pos
  {
    if pos < |lines| {
      ListedLength(lines, pos + 4);
    }
  }

  /** Over the lines of a real file both modes read the same sequence lines,
      removal mode stripping them; non-removal mode reads one record more when
      the file ends with a lone id line, whose sequence reads as "". */
  lemma ModesAgree(lines: seq<string>)
    requires NonEmptyLines(lines)
    ensures |ListedReads(lines, 0)| == |RemovalReads(lines)| + if |lines| % 4 == 1 then 1 else 0
    ensures forall k :: 0 <= k < |RemovalReads(lines)| ==> Strip(ListedReads(lines, 0)[k]) == RemovalReads(lines)[k]
  {
    ListedLength(lines, 0);
    forall k | 0 <= k < |RemovalReads(lines)|
      ensures Strip(ListedReads(lines, 0)[k]) == RemovalReads(lines)[k]
    {
      ListedAt(lines, 0, k);
    }
  }

  /** The reads matched in either mode. */
  function ScannedReads(lines: seq<string>, removal: bool): seq<string> {
    if removal then RemovalReads(lines) else ListedReads(lines, 0)
  }

  /** What removal mode holds between lines: the buffered lines of the current
      record, whether its sequence line matched, the lines written so far and
      the counts. */
  datatype Removal = Removal(currecord: seq<string>, toRemove: bool, out: seq<string>, spikedict: SpikeDict)

  /** Result `q`, or the sentinel past the end. */
  function ResultOf(results: seq<Spike>, q: nat): Spike {
    if q < |results| then results[q] else NoMatch
  }

  /** Removal mode's handling of `record`, line `r` of its record (0 the id,
      1 the sequence, 2 the separator, 3 the quality line), given the
      matcher's result `curspike` for the record's stripped sequence line. */
  function RecordLine(st: Removal, r: nat, record: string, curspike: Spike): Removal {
    var currecord := st.currecord + [record];
    if r == 1 then
      Removal(currecord, st.toRemove || curspike != NoMatch, st.out, Bump(st.spikedict, curspike))
    else if r == 3 then
      Removal([], false, if st.toRemove then st.out else st.out + currecord, st.spikedict)
    else
      Removal(currecord, st.toRemove, st.out, st.spikedict)
  }

  /** The removal-mode state before line `r` of record `q`, `results` holding
      the matcher's result for each record. */
  function RemovalAfter(lines: seq<string>, results: seq<Spike>, init: SpikeDict, q: nat, r: nat): Removal
    requires r < 4 && 4 * q + r <= |lines|
    decreases 4 * q + r
  {
    if r > 0 then RecordLine(RemovalAfter(lines, results, init, q, r - 1), r - 1, lines[4 * q + r - 1], ResultOf(results, q))
    else if q > 0 then RecordLine(RemovalAfter(lines, results, init, q - 1, 3), 3, lines[4 * q - 1], ResultOf(results, q - 1))
    else Removal([], false, [], init)
  }

  /** Reading line `r` of record `q` moves to the next line, or to the next
      record after the quality line. */
  lemma RemovalNext(lines: seq<string>, results: seq<Spike>, init: SpikeDict, q: nat, r: nat, q': nat, r': nat)
    requires r < 4 && 4 * q + r < |lines|
    requires if r == 3 then q' == q + 1 && r' == 0 else q' == q && r' == r + 1
    ensures RemovalAfter(lines, results, init, q', r')
      == RecordLine(RemovalAfter(lines, results, init, q, r), r, lines[4 * q + r], ResultOf(results, q))
  {
  }

  /** Record `q` as removal mode reads it: result `q` is the matcher's result
      for its stripped sequence line. */
  ghost predicate RemovedRecord(lines: seq<string>, a: Anchors, spikes: seq<Spike>, results: seq<Spike>, q: nat)
    requires WellFormed(a) && q < |results| && 4 * q + 1 < |lines|
  {
    results[q] == Match(Strip(lines[4 * q + 1]), a, spikes)
  }

  /** The results removal mode computes: one per record it reaches, that of
      the matcher on the record's stripped sequence line. */
  ghost predicate RemovalResults(lines: seq<string>, a: Anchors, spikes: seq<Spike>, results: seq<Spike>)
    requires WellFormed(a)
  {
    && ResultsFit(lines, results)
    && forall q | 0 <= q < |results| :: RemovedRecord(lines, a, spikes, results, q)
  }

  /** The matcher's results for the stripped sequence lines are the ones
      removal mode computes. */
  lemma RemovedResults(lines: seq<string>, a: Anchors, spikes: seq<Spike>)
    requires WellFormed(a)
    ensures RemovalResults(lines, a, spikes, Matches(RemovalReads(lines), a, spikes))
  {
    var results := Matches(RemovalReads(lines), a, spikes);
    forall q | 0 <= q < |results|
      ensures RemovedRecord(lines, a, spikes, results, q)
    {
      MatchesAt(RemovalReads(lines), a, spikes, q);
    }
  }

  /** In removal mode the matcher's result `res` for the stripped line at `pos`,
      the sequence line of record `q`, is result `q`. */
  lemma RemovalRecord(lines: seq<string>, a: Anchors, spikes: seq<Spike>, results: seq<Spike>, q: nat, pos: nat, res: Spike)
    requires WellFormed(a) && RemovalResults(lines, a, spikes, results)
    requires pos == 4 * q + 1 && pos < |lines| && res == Match(Strip(lines[pos]), a, spikes)
    ensures res == ResultOf(results, q)
  {
    assert RemovedRecord(lines, a, spikes, results, q);
  }

  /** Number of results counted once line `r` of record `q` is about to be read. */
  function Counted(q: nat, r: nat): nat {
    q + if r >= 2 then 1 else 0
  }

  /** One result per record removal mode reaches, a trailing partial record
      counting once its sequence line is there. */
  predicate ResultsFit(lines: seq<string>, results: seq<Spike>) {
    4 * |results| <= |lines| + 2 < 4 * |results| + 4
  }

  /** The meaning of a removal-mode state before line `r` of record `q`: the
      record's earlier lines are buffered, `toRemove` tells whether its result
      is a match, the complete records before it are written unless they
      matched, and the first `n` results are counted. */
  ghost predicate RemovalMeans(lines: seq<string>, results: seq<Spike>, init: SpikeDict, q: nat, r: nat, n: nat, st: Removal) {
    && r < 4 && 4 * q + r <= |lines| && n == Counted(q, r) && n <= |results|
    && st.currecord == lines[4 * q..4 * q + r]
    && st.toRemove == (r >= 2 && results[q] != NoMatch)
    && st.out == Kept(lines, results, q)
    && st.spikedict == Tally(init, results[..n])
  }

  /** The id and separator lines are only buffered. */
  lemma BufferStep(lines: seq<string>, results: seq<Spike>, init: SpikeDict, q: nat, r: nat, n: nat, st: Removal, m: Spike)
    requires (r == 0 || r == 2) && 4 * q + r < |lines|
    requires RemovalMeans(lines, results, init, q, r, n, st)
    ensures RemovalMeans(lines, results, init, q, r + 1, n, RecordLine(st, r, lines[4 * q + r], m))
  {
    SliceSnoc(lines, 4 * q, 4 * q + r);
  }

  /** The sequence line is buffered and its result counted. */
  lemma SequenceStep(lines: seq<string>, results: seq<Spike>, init: SpikeDict, q: nat, st: Removal)
    requires 4 * q + 1 < |lines| && ResultsFit(lines, results) && AllCounters(init, results)
    requires RemovalMeans(lines, results, init, q, 1, q, st)
    ensures q < |results| && IsCounter(st.spikedict, results[q])
    ensures RemovalMeans(lines, results, init, q, 2, q + 1, RecordLine(st, 1, lines[4 * q + 1], ResultOf(results, q)))
  {
    SliceSnoc(lines, 4 * q, 4 * q + 1);
    CountOne(init, results, q);
  }

  /** The quality line completes record `q`, which is written unless it matched. */
  lemma QualityStep(lines: seq<string>, results: seq<Spike>, init: SpikeDict, q: nat, n: nat, st: Removal, m: Spike)
    requires 4 * q + 3 < |lines|
    requires RemovalMeans(lines, results, init, q, 3, n, st)
    ensures RemovalMeans(lines, results, init, q + 1, 0, n, RecordLine(st, 3, lines[4 * q + 3], m))
  {
    SliceSnoc(lines, 4 * q, 4 * q + 3);
    KeptStep(lines, results, q);
  }

  /** Before line `r` of record `q` the first `Counted(q, r)` results are
      counted and the state means what `RemovalMeans` says. */
  lemma {:induction false} RemovalMeaning(lines: seq<string>, results: seq<Spike>, init: SpikeDict, q: nat, r: nat)
    requires ResultsFit(lines, results) && AllCounters(init, results)
    requires r < 4 && 4 * q + r <= |lines|
    ensures RemovalMeans(lines, results, init, q, r, Counted(q, r), RemovalAfter(lines, results, init, q, r))
    decreases 4 * q + r, 1
  {
    if r == 1 || r == 3 {
      MeaningAfterBuffer(lines, results, init, q, r);
    } else if r == 2 {
      MeaningAfterSequence(lines, results, init, q);
    } else if q > 0 {
      MeaningAfterQuality(lines, results, init, q);
    } else {
      assert results[..0] == [];
    }
  }

  lemma {:induction false} MeaningAfterBuffer(lines: seq<string>, results: seq<Spike>, init: SpikeDict, q: nat, r: nat)
    requires ResultsFit(lines, results) && AllCounters(init, results)
    requires (r == 1 || r == 3) && 4 * q + r <= |lines|
    ensures RemovalMeans(lines, results, init, q, r, Counted(q, r), RemovalAfter(lines, results, init, q, r))
    decreases 4 * q + r, 0
  {
    RemovalMeaning(lines, results, init, q, r - 1);
    BufferStep(lines, results, init, q, r - 1, Counted(q, r - 1), RemovalAfter(lines, results, init, q, r - 1), ResultOf(results, q));
    RemovalNext(lines, results, init, q, r - 1, q, r);
  }

  lemma {:induction false} MeaningAfterSequence(lines: seq<string>, results: seq<Spike>, init: SpikeDict, q: nat)
    requires ResultsFit(lines, results) && AllCounters(init, results)
    requires 4 * q + 2 <= |lines|
    ensures RemovalMeans(lines, results, init, q, 2, Counted(q, 2), RemovalAfter(lines, results, init, q, 2))
    decreases 4 * q + 2, 0
  {
    RemovalMeaning(lines, results, init, q, 1);
    SequenceStep(lines, results, init, q, RemovalAfter(lines, results, init, q, 1));
    RemovalNext(lines, results, init, q, 1, q, 2);
  }

  lemma {:induction false} MeaningAfterQuality(lines: seq<string>, results: seq<Spike>, init: SpikeDict, q: nat)
    requires ResultsFit(lines, results) && AllCounters(init, results)
    requires q > 0 && 4 * q <= |lines|
    ensures RemovalMeans(lines, results, init, q, 0, Counted(q, 0), RemovalAfter(lines, results, init, q, 0))
    decreases 4 * q, 0
  {
    RemovalMeaning(lines, results, init, q - 1, 3);
    QualityStep(lines, results, init, q - 1, Counted(q - 1, 3), RemovalAfter(lines, results, init, q - 1, 3), ResultOf(results, q - 1));
    RemovalNext(lines, results, init, q - 1, 3, q, 0);
  }

  /** Every sequence line removal mode reaches has a count to increment. */
  lemma RemovalCounter(lines: seq<string>, results: seq<Spike>, init: SpikeDict, q: nat)
    requires ResultsFit(lines, results) && AllCounters(init, results) && 4 * q + 1 < |lines|
    ensures IsCounter(RemovalAfter(lines, results, init, q, 1).spikedict, ResultOf(results, q))
  {
    RemovalMeaning(lines, results, init, q, 1);
    SequenceStep(lines, results, init, q, RemovalAfter(lines, results, init, q, 1));
  }

  /** Once the whole file is read, every result is counted and the complete
      records that matched nothing are written. */
  lemma RemovalDone(lines: seq<string>, results: seq<Spike>, init: SpikeDict, q: nat, r: nat)
    requires ResultsFit(lines, results) && AllCounters(init, results)
    requires r < 4 && |lines| == 4 * q + r
    ensures RemovalAfter(lines, results, init, q, r).spikedict == Tally(init, results)
    ensures RemovalAfter(lines, results, init, q, r).out == Kept(lines, results, q)
  {
    RemovalMeaning(lines, results, init, q, r);
    assert Counted(q, r) == |results|;
    assert results[..|results|] == results;
  }

  /** Removal mode of `parse_reads`: every line is buffered; the stripped line
      whose index is 1 modulo 4 is matched and counted; on the fourth line the
      buffered record is written unless it matched. */
  method ScanRemoving(lines: seq<string>, anchors: Anchors, spikes: seq<Spike>, init: SpikeDict, ghost results: seq<Spike>)
    returns (spikedict: SpikeDict, out: seq<string>)
    requires WellFormed(anchors) && RemovalResults(lines, anchors, spikes, results)
    requires AllCounters(init, results)
    ensures spikedict == Tally(init, results)
    ensures out == Kept(lines, results, |lines| / 4)
  {
    spikedict := init;
    out := [];
    var currecord: seq<string> := [];
    var toRemove := false;
    ghost var q, r := 0, 0;
    for i := 0 to |lines|
      invariant r < 4 && i == 4 * q + r
      invariant Removal(currecord, toRemove, out, spikedict) == RemovalAfter(lines, results, init, q, r)
    {
      DivMod(q, r);
      ghost var q', r' := if r == 3 then q + 1 else q, if r == 3 then 0 else r + 1;
      RemovalNext(lines, results, init, q, r, q', r');
      var record := lines[i];
      currecord := currecord + [record];
      if i % 4 == 1 {
        var curspike := Process(Strip(record), anchors, spikes);
        if curspike != NoMatch {
          toRemove := true;
        }
        RemovalRecord(lines, anchors, spikes, results, q, i, curspike);
        RemovalCounter(lines, results, init, q);
        spikedict := Inc(spikedict, curspike);
      }
      if i % 4 == 3 {
        if !toRemove {
          out := out + currecord;
        }
        currecord := [];
        toRemove := false;
      }
      q, r := q', r';
    }
    DivMod(q, r);
    RemovalDone(lines, results, init, q, r);
  }

  /** `4 * q + r` with `r < 4` has quotient `q` and remainder `r` by 4. */
  lemma DivMod(q: nat, r: nat)
    requires r < 4
    ensures (4 * q + r) / 4 == q && (4 * q + r) % 4 == r
  {
  }

  /** Counting result `k` of `rs` after the ones before it; it holds a number
      when every result does. */
  lemma CountOne(d: SpikeDict, rs: seq<Spike>, k: nat)
    requires AllCounters(d, rs) && k < |rs|
    ensures IsCounter(Tally(d, rs[..k]), rs[k])
    ensures Tally(d, rs[..k + 1]) == Inc(Tally(d, rs[..k]), rs[k])
  {
    assert rs[..k + 1] == rs[..k] + [rs[k]];
    TallyShape(d, rs[..k]);
    TallySnoc(d, rs[..k], rs[k]);
  }

  /** Record `k` as non-removal mode reads it: its id line is not "" and
      result `k` is the matcher's result for its unstripped sequence line. */
  ghost predicate ListedRecord(lines: seq<string>, a: Anchors, spikes: seq<Spike>, results: seq<Spike>, k: nat)
    requires WellFormed(a) && k < |results|
  {
    ReadLine(lines, 4 * k) != "" && results[k] == Match(ReadLine(lines, 4 * k + 1), a, spikes)
  }

  /** The results non-removal mode computes, one per record read through
      `readline`, up to the first id line that is "". */
  ghost predicate ListingResults(lines: seq<string>, a: Anchors, spikes: seq<Spike>, results: seq<Spike>)
    requires WellFormed(a)
  {
    && (forall k | 0 <= k < |results| :: ListedRecord(lines, a, spikes, results, k))
    && ReadLine(lines, 4 * |results|) == ""
  }

  /** The matcher's results for the listed reads are the ones non-removal mode
      computes. */
  lemma ListedResults(lines: seq<string>, a: Anchors, spikes: seq<Spike>)
    requires WellFormed(a)
    ensures ListingResults(lines, a, spikes, Matches(ListedReads(lines, 0), a, spikes))
  {
    var listed := ListedReads(lines, 0);
    forall k | 0 <= k < |listed|
      ensures ListedRecord(lines, a, spikes, Matches(listed, a, spikes), k)
    {
      ListedAt(lines, 0, k);
      MatchesAt(listed, a, spikes, k);
    }
    ListedAt(lines, 0, |listed|);
  }

  /** In non-removal mode the matcher's result `res` for the sequence line
      at `pos` is result `k`, and the next id line is "" exactly when record
      `k` was the last. */
  lemma ListingRecord(lines: seq<string>, a: Anchors, spikes: seq<Spike>, results: seq<Spike>, k: nat, pos: nat, res: Spike)
    requires WellFormed(a) && ListingResults(lines, a, spikes, results)
    requires k < |results| && pos == 4 * k + 1 && res == Match(ReadLine(lines, pos), a, spikes)
    ensures res == results[k]
    ensures ReadLine(lines, pos + 3) == ReadLine(lines, 4 * (k + 1))
    ensures ReadLine(lines, pos + 3) != "" <==> k + 1 < |results|
  {
    assert ListedRecord(lines, a, spikes, results, k);
    if k + 1 < |results| {
      assert ListedRecord(lines, a, spikes, results, k + 1);
    }
  }

  /** What non-removal mode holds between records: the ids written so far and
      the counts. */
  datatype Listing = Listing(readIds: seq<string>, spikedict: SpikeDict)

  /** Non-removal mode's handling of record `k`, whose result is `res`: the id
      line is written when the result is reported, and the result is counted. */
  function ListedLine(st: Listing, lines: seq<string>, k: nat, res: Spike): Listing {
    Listing(if Reported(res) then st.readIds + [ReadLine(lines, 4 * k)] else st.readIds, Bump(st.spikedict, res))
  }

  /** The non-removal-mode state after the first `k` records. */
  function ListingAfter(lines: seq<string>, results: seq<Spike>, init: SpikeDict, k: nat): Listing
    requires k <= |results|
  {
    if k == 0 then Listing([], init)
    else ListedLine(ListingAfter(lines, results, init, k - 1), lines, k - 1, results[k - 1])
  }

  /** The state after `k` records holds the ids of `WrittenIds` and the tally
      of the first `k` results. */
  lemma {:induction false} ListingMeaning(lines: seq<string>, results: seq<Spike>, init: SpikeDict, k: nat)
    requires AllCounters(init, results) && k <= |results|
    ensures ListingAfter(lines, results, init, k) == Listing(WrittenIds(lines, results, k), Tally(init, results[..k]))
  {
    if k == 0 {
      assert results[..0] == [];
    } else {
      ListingMeaning(lines, results, init, k - 1);
      CountOne(init, results, k - 1);
    }
  }

  /** Record `k` moves the state to the one after `k + 1` records; its result
      has a count to increment. */
  lemma ListingNext(lines: seq<string>, results: seq<Spike>, init: SpikeDict, k: nat, res: Spike)
    requires AllCounters(init, results) && k < |results| && res == results[k]
    ensures IsCounter(ListingAfter(lines, results, init, k).spikedict, res)
    ensures ListingAfter(lines, results, init, k + 1) == ListedLine(ListingAfter(lines, results, init, k), lines, k, res)
  {
    ListingMeaning(lines, results, init, k);
    CountOne(init, results, k);
  }

  /** Non-removal mode of `parse_reads`: record by record through `readline`,
      the sequence line matched unstripped and counted, the id line written when
      the joined result is not "0", the other two lines skipped. */
  method ScanListing(lines: seq<string>, anchors: Anchors, spikes: seq<Spike>, init: SpikeDict, ghost results: seq<Spike>)
    returns (spikedict: SpikeDict, readIds: seq<string>)
    requires WellFormed(anchors) && ListingResults(lines, anchors, spikes, results)
    requires AllCounters(init, results)
    ensures spikedict == Tally(init, results)
    ensures readIds == WrittenIds(lines, results, |results|)
  {
    spikedict := init;
    readIds := [];
    var pos := 0;
    var currentReadId := ReadLine(lines, pos);
    pos := pos + 1;
    ghost var k := 0;
    if |results| > 0 {
      assert ListedRecord(lines, anchors, spikes, results, 0);
    }
    while currentReadId != ""
      invariant k <= |results| && pos == 4 * k + 1 && currentReadId == ReadLine(lines, 4 * k)
      invariant currentReadId != "" <==> k < |results|
      invariant Listing(readIds, spikedict) == ListingAfter(lines, results, init, k)
      decreases |results| - k
    {
      var searchResult := Process(ReadLine(lines, pos), anchors, spikes);
      ListingRecord(lines, anchors, spikes, results, k, pos, searchResult);
      ListingNext(lines, results, init, k, searchResult);
      pos := pos + 1;
      if Reported(searchResult) {
        readIds := readIds + [currentReadId];
      }
      spikedict := Inc(spikedict, searchResult);
      pos := pos + 1;  // separator line
      pos := pos + 1;  // quality line
      currentReadId := ReadLine(lines, pos);
      pos := pos + 1;
      k := k + 1;
    }
    ListingMeaning(lines, results, init, k);
    assert results[..k] == results;
  }

  /** A matched spike has a full-width sequence, so a first entry whose
      sequence is not 34 characters long (a column-header line) is never the
      result; every result is then a numeric key of the starting dictionary. */
  lemma MatchCounted(spikeList: SpikeLists, rev: bool, read: string, a: Anchors)
    requires WellFormed(a) && Paired(spikeList) && |spikeList.forward| >= 1
    requires spikeList.forward[0] != NoMatch && |spikeList.forward[0].sequence| != SpikeLen
    ensures IsCounter(InitialDict(spikeList, rev), Match(read, a, spikeList.For(rev)))
  {
    var spikes := spikeList.For(rev);
    var r := Match(read, a, spikes);
    InitialDictShape(spikeList, rev);
    if r != NoMatch {
      MatchSound(read, a, spikes);
      var j: nat, k: nat :| IsFirstMatch(read, a, spikes, j, k) && r == spikes[k];
      assert |spikes[0].sequence| == |spikeList.forward[0].sequence|;
      assert k != 0;
      assert r == Rest(spikes)[k - 1];
    }
  }

  /** With such a first entry, the requirement of `ParseReads` on the results
      always holds. */
  lemma ResultsCounted(spikeList: SpikeLists, rev: bool, seqs: seq<string>, a: Anchors)
    requires WellFormed(a) && Paired(spikeList) && |spikeList.forward| >= 1
    requires spikeList.forward[0] != NoMatch && |spikeList.forward[0].sequence| != SpikeLen
    ensures AllCounters(InitialDict(spikeList, rev), Matches(seqs, a, spikeList.For(rev)))
  {
    forall j | 0 <= j < |seqs|
      ensures IsCounter(InitialDict(spikeList, rev), Matches(seqs, a, spikeList.For(rev))[j])
    {
      MatchesAt(seqs, a, spikeList.For(rev), j);
      MatchCounted(spikeList, rev, seqs[j], a);
    }
  }

  /** `parse_reads` (the unused error budget and `spikedata` are dropped):
      `path` is the base path, `lines` the lines of `path + '.fastq'`. Returns
      the count dictionary, the lines of `path + 'rm.fastq'` (written only in
      removal mode) and the lines of `path + '.reads.to.remove.txt'`. */
  method ParseReads(path: string, lines: seq<string>, shared: SharedAnchors, spikeList: SpikeLists, removal: bool)
    returns (spikedict: SpikeDict, filtered: Option<seq<string>>, removedIds: seq<string>)
    requires |spikeList.forward| >= 1
    requires WellFormed(shared.For(IsReverse(path)))
    requires var rev := IsReverse(path);
      AllCounters(InitialDict(spikeList, rev), Matches(ScannedReads(lines, removal), shared.For(rev), spikeList.For(rev)))
    ensures var rev := IsReverse(path);
      var results := Matches(ScannedReads(lines, removal), shared.For(rev), spikeList.For(rev));
      && spikedict == Tally(InitialDict(spikeList, rev), results)
      && Valid(spikedict) && Total(spikedict) == |results|
      && filtered == (if removal then Some(Kept(lines, results, |lines| / 4)) else None)
      && removedIds == if removal then [] else WrittenIds(lines, results, |results|)
  {
    var rev := IsReverse(path);
    var anchors := shared.For(rev);
    var spikes := spikeList.For(rev);
    var init := NewSpikeDict(spikeList, rev);
    InitialDictValid(spikeList, rev);
    ghost var results := Matches(ScannedReads(lines, removal), anchors, spikes);
    if removal {
      RemovedResults(lines, anchors, spikes);
      var out;
      spikedict, out := ScanRemoving(lines, anchors, spikes, init, results);
      filtered := Some(out);
      removedIds := [];
    } else {
      ListedResults(lines, anchors, spikes);
      spikedict, removedIds := ScanListing(lines, anchors, spikes, init, results);
      filtered := None;
    }
    TallyValid(init, results);
  }
}
