# Spike counter model

A Dafny model of `fastqcount_modified.py`, which counts spikes in FASTQ read files. Spikes are 34-character marker sequences from a fixed library.

- **Spike library.** The library file holds one `id sequence` pair per line. It is read into a forward list and a reverse-complement list. The anchors of each orientation are the first and last nine characters of that list's entry at index 1.
- **Matching.** The matcher slides a 34-character window over a read. A window counts only if its ends agree with the anchors. It is then compared with every spike in list order, and the first exact match is the result. `("0", "")` means no match.
- **Scanning.** A file scan counts, in a dictionary, the matcher's result for every record's sequence line:
  - in removal mode, it also keeps every record whose sequence matched nothing;
  - otherwise, it lists the id lines of the matched records.
- **Report.** The report writes the header entry first. Then come the counted entries, sorted by count (largest first) and then by sequence.

Modules, one file each:

| file | module | models |
|---|---|---|
| `text.dfy` | `Text` | the Python 2 string built-ins involved: `strip`, `endswith`, `str(n)`, `<` on strings |
| `conjugation.dfy` | `Conjugation` | `conjugate` |
| `spike_library.dfy` | `SpikeLibrary` | `parse_spikes`, `process_spikes` |
| `read_matcher.dfy` | `ReadMatcher` | `process` |
| `spike_counts.dfy` | `SpikeCounts` | the count dictionary of `parse_reads` |
| `file_scanner.dfy` | `FileScanner` | `parse_reads` |
| `count_report.dfy` | `CountReport` | `dist_write` |

How the model represents the source:

- **Loops.** Each loop of the source is a method with a loop, proved equal to a function that defines its result.
  - `Conjugate` is proved against `ReverseComplement`.
  - `Process` is proved against `Match`.
  - `ScanRemoving` and `ScanListing` are proved against `Tally`, `Kept` and `WrittenIds`.
  - `DistWrite` is proved against `Report`.
- **Dictionaries.** A Python dictionary is a `SpikeDict`: the keys in insertion order plus a map. A new key goes last.
- **The header value.** The value `"COUNT"` of the header entry is the constructor `Header`.
- **Files.**
  - Input files are sequences of lines, each with its line terminator.
  - Output files are the sequences of lines written to them.
  - `readline` past the end returns `""`.
  - Every line of a real file is non-empty, since it carries at least its terminator (`FileScanner.NonEmptyLines`). Non-removal mode stops at the first `""`, so its lemmas about records are stated over such files.

## Model

| member | source | states |
|---|---|---|
| Conjugation.Conjugate | gen_res_archive/fastqcount_modified.py:140-148 | the result is the reverse complement of the input: A/T and G/C swapped, any other character unchanged, read last to first |
| Conjugation.ReverseComplementAt | gen_res_archive/fastqcount_modified.py:143-147 | position i of the result is the complement of position n-1-i of the input |
| Conjugation.ReverseComplementInvolution | gen_res_archive/fastqcount_modified.py:140-148 | conjugating twice gives back the sequence |
| Conjugation.ReverseComplementPrefix | gen_res_archive/fastqcount_modified.py:140-148 | the first n characters of a conjugate are the conjugate of the last n characters |
| Conjugation.ReverseComplementSuffix | gen_res_archive/fastqcount_modified.py:140-148 | the last n characters of a conjugate are the conjugate of the first n characters |
| SpikeLibrary.ParseSpikes | gen_res_archive/fastqcount_modified.py:105-118 | one forward spike per line, holding the line's id and sequence; the reverse list holds the same ids with conjugated sequences, so the lists are paired; the no-match tuple is in neither list |
| SpikeLibrary.PairedRoundTrip | gen_res_archive/fastqcount_modified.py:115-117 | conjugating a reverse-list sequence gives back the forward sequence |
| SpikeLibrary.AnchorsOf | gen_res_archive/fastqcount_modified.py:130-131 | the anchors are the first and last min(9, length) characters of the sequence, as Python's clamping slices give |
| SpikeLibrary.ProcessSpikes | gen_res_archive/fastqcount_modified.py:120-138 | each orientation's anchors come from its entry at index 1; they are well formed enough for every index that `process` computes |
| SpikeLibrary.ReverseAnchorsConjugate | gen_res_archive/fastqcount_modified.py:129-131 | the reverse prefix anchor is the conjugate of the forward suffix anchor, and the reverse suffix anchor the conjugate of the forward prefix anchor |
| ReadMatcher.Process | gen_res_archive/fastqcount_modified.py:76-103 | the result is `Match`; a read shorter than 34 characters gives no match; a result other than no-match is a spike of the list |
| ReadMatcher.MatchNoneIff | gen_res_archive/fastqcount_modified.py:89-103 | no match if and only if no window both passes the anchor check and equals some spike |
| ReadMatcher.MatchSound | gen_res_archive/fastqcount_modified.py:98-102 | a match is the first spike equal to the leftmost window that passes the anchor check and equals a spike |
| ReadMatcher.MatchFirstWins | gen_res_archive/fastqcount_modified.py:89-102 | the leftmost hit window, and within it the first equal spike in list order, is the result |
| ReadMatcher.MatchInSpikes | gen_res_archive/fastqcount_modified.py:100-102 | a match is an element of the spike list, and its sequence is 34 characters long |
| ReadMatcher.AnchorsAtSlices | gen_res_archive/fastqcount_modified.py:90-97 | the interleaved character loop accepts a window exactly when it starts with the prefix anchor and ends with the last m characters of the suffix anchor |
| ReadMatcher.ReverseReadIdentified | gen_res_archive/fastqcount_modified.py:76-103 | with the reverse anchors taken from entry 1 (lines 130-131) and the reverse list, a read that is the conjugate of a 34-character forward spike k sharing entry 1's first and last 9 characters passes the anchor check and is identified by spike k's id, unless an earlier spike has the same sequence |
| SpikeCounts.SetKey | gen_res_archive/fastqcount_modified.py:30-32 | assigning a key keeps the dictionary valid, updates the map, and keeps every existing key |
| SpikeCounts.NewSpikeDict | gen_res_archive/fastqcount_modified.py:28-32 | the method builds the starting dictionary `InitialDict` |
| SpikeCounts.InitialDictShape | gen_res_archive/fastqcount_modified.py:28-32 | the keys are the chosen list minus its first entry, plus the forward list's first entry and the no-match tuple; the first forward entry holds "COUNT" and every other key zero; exactly the no-match tuple and the other listed spikes can be incremented |
| SpikeCounts.InitialDictValid | gen_res_archive/fastqcount_modified.py:28-32 | the starting dictionary has distinct keys that match its map, and its counts sum to zero |
| SpikeCounts.TallyTotal | gen_res_archive/fastqcount_modified.py:48 | counting results adds one to the sum of the counts per result |
| SpikeCounts.TallyValid | gen_res_archive/fastqcount_modified.py:70 | counting results keeps the dictionary valid and adds one to the total per result |
| SpikeCounts.TallySnoc | gen_res_archive/fastqcount_modified.py:48 | counting one more result increments that result's entry in the running tally |
| SpikeCounts.TallyCount | gen_res_archive/fastqcount_modified.py:48 | each numeric entry ends up at its starting value plus the number of times it occurs among the results |
| FileScanner.ScanRemoving | gen_res_archive/fastqcount_modified.py:36-55 | removal mode's counts are the tally of the stripped sequence lines' results; it writes exactly the complete records whose result is no-match, whole and in order |
| FileScanner.RemovedResults | gen_res_archive/fastqcount_modified.py:44-45 | the result for record q is the match of the stripped line 4q+1 |
| FileScanner.KeptCount | gen_res_archive/fastqcount_modified.py:49-54 | removal mode writes four lines per record whose result is no-match |
| FileScanner.KeptStep | gen_res_archive/fastqcount_modified.py:49-54 | the end of a record appends its four lines exactly when its result is no-match |
| FileScanner.KeptAllUnmatched | gen_res_archive/fastqcount_modified.py:49-54 | when no record matched, every complete record is written back |
| FileScanner.KeptNoneMatched | gen_res_archive/fastqcount_modified.py:49-54 | when every record matched, nothing is written |
| FileScanner.ScanListing | gen_res_archive/fastqcount_modified.py:56-73 | non-removal mode's counts are the tally of the unstripped sequence lines' results; the listed ids are, in order, the id lines of records whose joined result differs from "0" |
| FileScanner.ListedResults | gen_res_archive/fastqcount_modified.py:57-73 | record k read by `readline` has a non-empty id line 4k and is matched on line 4k+1; the loop stops at the first empty id line |
| FileScanner.ListedAt | gen_res_archive/fastqcount_modified.py:58-73 | listed read k starts 4k lines further on, and the listing ends exactly at an empty id line |
| FileScanner.ListedLength | gen_res_archive/fastqcount_modified.py:59-73 | with no empty line, non-removal mode reads one record per four lines, a trailing partial record included |
| FileScanner.ModesAgree | gen_res_archive/fastqcount_modified.py:40-73 | over a file with no empty line, both modes match the same sequence lines (removal mode strips them); non-removal mode reads one record more exactly when the file ends with a lone id line |
| FileScanner.JoinedSentinel | gen_res_archive/fastqcount_modified.py:66-67 | the joined-string test fails exactly when the result is the no-match tuple |
| FileScanner.WrittenMatched | gen_res_archive/fastqcount_modified.py:66-69 | one id is listed for every read whose result is not no-match |
| FileScanner.MatchCounted | gen_res_archive/fastqcount_modified.py:29-31 | when the first spike entry's sequence is not 34 characters long, every result is a key of the starting dictionary that holds a number |
| FileScanner.ResultsCounted | gen_res_archive/fastqcount_modified.py:45-48 | under the same condition every `+= 1` of a scan succeeds, which is what `ParseReads` requires |
| FileScanner.ParseReads | gen_res_archive/fastqcount_modified.py:14-74 | files ending in R2_001 use the reverse lists and anchors; the counts are the starting dictionary plus the tally of the results, valid, summing to the number of reads scanned; removal mode returns the kept records and lists no ids; otherwise no filtered file is returned and the matched reads' ids are listed |
| CountReport.DistWrite | gen_res_archive/fastqcount_modified.py:150-169 | the written lines are `Report`: one header line per "COUNT" key in iteration order, then one count line per numeric key in sorted order |
| CountReport.InsertSorted | gen_res_archive/fastqcount_modified.py:166 | inserting into a sorted list keeps it sorted |
| CountReport.SortPairsSorted | gen_res_archive/fastqcount_modified.py:166 | `sorted` orders the pairs by (-count, sequence) and keeps exactly the same pairs |
| CountReport.SortedMeaning | gen_res_archive/fastqcount_modified.py:166 | in sorted pairs the counts never increase, and among equal counts a smaller sequence comes first |
| CountReport.PairsOfMembers | gen_res_archive/fastqcount_modified.py:161-165 | a pair is collected if and only if its key is in the dictionary and holds that number |
| CountReport.OneLinePerKey | gen_res_archive/fastqcount_modified.py:161-165 | every key gives exactly one header line or one pair |
| CountReport.SumPairsSorted | gen_res_archive/fastqcount_modified.py:166 | sorting keeps the sum of the counts |
| CountReport.SumPairsOf | gen_res_archive/fastqcount_modified.py:161-165 | the collected pairs' counts sum to the dictionary's total |
| CountReport.ScanDictShape | gen_res_archive/fastqcount_modified.py:28-32 | after a scan the dictionary is valid, its counts sum to the number of results, and the first forward entry is its only key holding "COUNT" |
| CountReport.ScanReport | gen_res_archive/fastqcount_modified.py:159-169 | for a scanned dictionary the report has one line per key, its only header line comes first, and the written counts sum to the number of reads scanned |
| CountReport.RowsLength | gen_res_archive/fastqcount_modified.py:167-169 | one line per pair |
| Text.StripEnds | gen_res_archive/fastqcount_modified.py:45 | a stripped line neither starts nor ends with whitespace |
| Text.StripSlice | gen_res_archive/fastqcount_modified.py:45 | a stripped line is a slice of the line with only whitespace cut off at both ends |
| Text.NatToString | gen_res_archive/fastqcount_modified.py:168 | the count is written as one or more decimal digits with no leading zero |
| Text.NatToStringValue | gen_res_archive/fastqcount_modified.py:168 | the written digits denote the count |
| Text.LexLessIrreflexive | gen_res_archive/fastqcount_modified.py:166 | no sequence sorts before itself |
| Text.LexLessTransitive | gen_res_archive/fastqcount_modified.py:166 | string order on sequences is transitive |
| Text.LexLessTotal | gen_res_archive/fastqcount_modified.py:166 | of two different sequences, one sorts before the other |

## Left out

- `main`, the directory walk and the command line are not part of this model.
- File I/O:
  - the read file is given as its lines;
  - the written files are returned as line sequences;
  - files are not opened, closed or created.
  - The `.reads.to.remove.txt` file is still created in removal mode, but empty; the model returns `[]` for it.
- The error budget `maxerrs` and `spikedata` are dropped. Neither is used by the matching.
- Python 2 dictionary iteration follows hash order. The model iterates in insertion order, which affects only where header lines fall among other header lines and the order of tied entries before sorting.
- CountReport.SortPairsSorted: `sorted` is stable. The model sorts by stable insertion, but the proof covers only sortedness and the permutation, not the relative order of entries equal in both count and sequence.
- SpikeLibrary.ParseSpikes requires exactly two whitespace-free tokens per line. The source also accepts more tokens, and fails with an IndexError on fewer.
- SpikeLibrary.ProcessSpikes requires at least two spikes per list, where the source fails with an IndexError.
- FileScanner.ParseReads requires every result to hold a number in the starting dictionary. The source fails with a TypeError on the "COUNT" entry and a KeyError on a missing key. `FileScanner.ResultsCounted` shows when this requirement holds. `Bump` leaves a dictionary unchanged on such a key, but is only reached when the requirement holds.
- FileScanner.ParseReads requires well-formed anchors, where the source could fail with an IndexError. `ProcessSpikes` always yields well-formed anchors.
- `strip` removes only the six ASCII whitespace characters, as Python 2's byte strings do. Unicode is not modelled.
- Behaviour of the code that may look unintended, modelled as written:
  - the header entry is the forward list's first entry in both orientations;
  - in non-removal mode the sequence line is matched unstripped;
  - a trailing partial record is counted (its missing sequence line reads as `""`) rather than discarded;
  - removal mode matches the sequence line of a trailing partial record, counts it, and never writes the record;
  - a spike file with a single line fails at `spikeli[0][1]` (line 130), so a one-spike library has no counterpart in the model.
