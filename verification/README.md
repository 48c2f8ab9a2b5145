# dfam-pipeline core, modelled in Dafny

This project models the scripts of the dfam-pipeline that prepare genome
data for score-threshold work on Dfam consensus sequences, and the scripts
that analyse their output:

- **Genome binning** (`split_genome.py`, `bin_genome.py`). A genome FASTA
  file is cut into 60 kb batches with a 2 kb overlap. Each batch is named
  `seq: start-end` and appended to the bin file of its rounded GC
  background.
- **Consensus handling** (`generate_alignments.py`, `sequence_util.py`).
  A consensus FASTA file is split into one file per record. The size of a
  consensus or genome file is counted. A family divergence is rounded to
  the nearest matrix divergence.
- **Score thresholds** (`score_thresholds.py`). The scores of an RMBlast
  search output are read and sorted. The empirical FDR walk finds the
  genomic score at which the counted false hits first reach one in 500
  genomic hits. The theoretical E-value target is computed. The more
  conservative of the two thresholds is kept.
- **Analysis scripts** (`analysis/too_high.py`, `analysis/alu_union.py`,
  `analysis/old_alu_union.py`). Per-position coverage counts are built
  from alignment ranges. Alu hits above a threshold are converted into BED
  lines.
- **Chart data** (`charts/scripts.js`). Cumulative hit counts per score
  are computed for the TP/FP chart, and rows with unchanged counts are
  dropped.

Files are modelled as the list of raw lines `readline` returns, each with
its terminator. An empty string in that list marks end of file, as
readline's `""` does. A directory of files is a `map` from path to
contents. Exceptions the code raises become `Err` values of a `Result`
(`Common.Error` names them after the Python exception). The regular
expressions are modelled by a greedy token matcher (`Pattern`). It is
proved sound and complete with respect to the maximal-munch reading of
these patterns (`Pattern.Parses`). That reading equals the regex's
backtracking one because neighbouring character classes are disjoint; this
last step is argued, not proved. Floats are exact reals.

Modules: `Common` (results, Python slicing, the readline loop), `Text`
(`str()`, `int()`, `split()`, `split(c)`), `Pattern`, `Nearest` (the
nearest-value scan shared by `nearestDivergence` and
`GenomeBatch.gcBackground`), then one module per source file:
`SplitGenome` with `SplitGenomeLoop`, `BinGenome`, `SequenceUtil`,
`ScoreThresholds`, `GenerateAlignments`, `TooHigh`, `AluUnion`,
`OldAluUnion` and `Charts`.

Where a docstring and the code disagree, the model follows the code:

- `empiricalFDRCalculation` stops as soon as `fp_hits / hits` reaches
  0.002 (`>=`). Its docstring says it stops when the ratio exceeds it.
- `empiricalFDRCalculation`'s docstring promises a threshold that keeps
  the false discovery rate below 0.2%. The walk returns the score at which
  the counted false hits first reach one in 500 genomic hits, so above it
  the rate is at least 0.2% (`ScoreThresholds.EmpiricalBelowBest`): genomic
  scores 10, 5 and benchmark score 7 give 5.05, with one genomic and one
  benchmark hit above it (`ScoreThresholds.WalkExample`).
- `theoreticalFDRCalculation`'s docstring promises an E-value target of
  `min(1000, (genomic - benchmark) * FDR_threshold)`. The code multiplies
  the estimate by 0.01 (`FDR_THEORY_TARGET`) and turns a zero estimate
  into 1000 (`ScoreThresholds.TheoreticalTarget`, `ScoreThresholds.TargetDrop`).
- `splitConsensus` returns None. Its docstring promises the directory
  name.
- `GenomeBatch.batchName` would raise even with its names bound, because
  it adds an int to a str. Its docstring example, `chr1:1-60000`, is what
  `BinGenome.BatchName` produces.
- The chart's `hits.push(prehits[0])` pushes `undefined` for an empty
  list. `Charts.Dedupe` returns `[None]` in that case.

## Model

| member | source | states |
|---|---|---|
| SplitGenome.CountGCATLetters | src/split_genome.py:26-45 | the G/C count is the number of occurrences of g, G, c and C; the A/T count is the same for a, A, t and T; no other symbol counts |
| SplitGenome.CountGCATAppend | src/split_genome.py:38-45 | counting is additive over concatenation, for both counts |
| SplitGenome.CountGCATZero | src/split_genome.py:38-45 | a text counts (0, 0) exactly when it has no A, C, G or T in either case |
| SplitGenome.GcBackground | src/split_genome.py:70-88 | -1 exactly when nothing was counted; otherwise 0..100, the GC percentage rounded to the nearest integer, with exact halves going to the even one as Python's `round` does |
| SplitGenome.RoundsHalfEvenUnique | src/split_genome.py:88 | the rounding result is unique, so the GC background is determined by the counts alone |
| SplitGenome.GcBackgroundExamples | src/split_genome.py:88 | 1 of 8 gives 12 and 3 of 8 gives 38 (the exact halves 12.5 and 37.5 round to even); all G/C gives 100 and none gives 0 |
| SplitGenome.BatchNameRoundTrip | src/split_genome.py:47-68 | a batch name read back from the right gives the sequence name and the 0-based half-open range it was built from |
| SplitGenome.BatchNameExample | src/split_genome.py:65-66 | start 0 and end 60000 of chr1 are named `chr1: 1-60000` |
| SplitGenome.TruncDiv | src/split_genome.py:112 | `int(a / b)` truncates toward zero: floor division for a non-negative `a`, the negated floor of `-a / b` otherwise |
| SplitGenome.RowCount | src/split_genome.py:112 | for a non-empty batch, the rows number just enough to cover every base and no more; for an empty batch, no row exactly when the row length is 1 (`int(-1 / rl)` truncates to 0 otherwise) |
| SplitGenome.RowsSpellBatch | src/split_genome.py:111-116 | the rows written for a batch spell the batch back, for any row length |
| SplitGenome.RowsShape | src/split_genome.py:111-114 | with a positive row length, every row but the last is full and the last is non-empty and at most one row long |
| SplitGenome.WriteBatchToBin | src/split_genome.py:90-117 | nothing is written exactly when the bin is negative; otherwise it writes the `>` header of the batch name to that bin and rows that spell the batch (one row when the row length is not positive) |
| SplitGenomeLoop.CutAt | src/split_genome.py:160-174 | the overflow branch flushes a batch of exactly the batch length, restarts an empty batch and carries a text shorter than the batch plus the line |
| SplitGenomeLoop.Feed | src/split_genome.py:144-181 | one line fed through every pass it takes keeps the batch below the batch length, and every batch it flushes has `end - start` bases, never more than the batch length, and exactly that many only when cut by an overflow |
| SplitGenomeLoop.Run | src/split_genome.py:119-181 | a run of `splitGenome` ends with the end-of-input flush, and every batch it hands to `writeBatchToBin` satisfies the same size law |
| SplitGenomeLoop.Reconstruction | src/split_genome.py:139-181 | batching loses and invents nothing: dropping each carried overlap and regrouping the batches by sequence gives back exactly the sequences and bases of the input |
| SplitGenomeLoop.OverlapChain | src/split_genome.py:168-172 | a batch cut by an overflow is followed by a batch of the same sequence that starts `batch_overlap` bases before it ends and repeats its last `batch_overlap` bases |
| SplitGenomeLoop.CountsMatchBatches | src/split_genome.py:160-181 | with the overflow branch counting only the bases it reads, every batch carries the counts of exactly its own bases, so it is written to the bin of its own GC background under the name of its range |
| SplitGenomeLoop.WholeLineMiscounts | src/split_genome.py:165-169 | as written, `ACGTGG` with batch length 4 and overlap 1 gives a first batch `ACGT` counted as 4 G/C and 2 A/T, binned at 67 instead of 50 |
| SplitGenomeLoop.AllNBatchWritten | src/split_genome.py:160-169 | as written, `NNNNAC` with batch length 4 and overlap 1 gives a first batch `NNNN` with no A/C/G/T that is still written, to bin 50, because the carried `AC` is counted with it; counting only the bases read leaves it unwritten |
| SplitGenomeLoop.OverlapOnlyBatch | src/split_genome.py:145-150 | a sequence ending exactly at a full batch still produces a last batch holding only the carried overlap |
| SplitGenomeLoop.BlankLineEndsInput | src/split_genome.py:145-150 | a blank line is taken for the end of the file: nothing after it is read |
| SplitGenomeLoop.WrittenIffBases | src/split_genome.py:107-108 | with the overflow branch counting only the bases it reads, a batch reaches a bin file exactly when it holds some A, C, G or T |
| Nearest.NearestValueSpec | src/sequence_util.py:28-36 | the scan returns -1 when every value is at distance 100 or more, and otherwise the first of the values nearest to the input |
| Nearest.FirstNearestExists | src/sequence_util.py:31-34 | when some value lies within the bound, a first-nearest one exists, so the scan's result is always characterised |
| SequenceUtil.DivScanBuckets | src/sequence_util.py:15-36 | over DIV_VALUES the scan picks the value whose half-way points bound the divergence, with ties going to the smaller value and -1 outside (-86, 130) |
| SequenceUtil.NearestDivergence | src/sequence_util.py:17-36 | the result is -1 exactly when every matrix divergence is 100 or more away, and is otherwise one of 14, 18, 20, 25, 30 |
| SequenceUtil.GenomeSize | src/sequence_util.py:66-88 | the size is the number of characters of the non-header lines, one terminator per line not counted |
| SequenceUtil.ConsensusSize | src/sequence_util.py:38-64 | the result is an error exactly when the header does not parse, with the header's exception; otherwise it is the same base count as `genomeSize` |
| SequenceUtil.ConsensusHeader | src/sequence_util.py:55-58 | a parsed header's divergence is -1 or one of the matrix divergences |
| SequenceUtil.ConsensusHeaderRoundTrip | src/sequence_util.py:55-58 | a header `>name key=d ...` parses back to its name and the rounded divergence of `d` |
| SequenceUtil.ConsensusHeaderOneWord | src/sequence_util.py:56-58 | a header of a single word raises IndexError |
| BinGenome.CountIntoCounts | src/bin_genome.py:155-177 | the batch's counters grow by the G/C count and by the G/C plus A/T count of `split_genome.countGCAT` on the same text |
| BinGenome.CountCallResolves | src/bin_genome.py:49 | `self.__countGCAT` is mangled to `_GenomeBatch__countGCAT`, which the class does not define, so the call raises AttributeError; `self.__countGCAT__` resolves and counts |
| BinGenome.InitMangled | src/bin_genome.py:32-49 | as written, constructing any batch raises AttributeError; the intended constructor succeeds |
| BinGenome.Init | src/bin_genome.py:32-49 | the intended constructor keeps name, start and bases, and its counters are exactly the counts of its bases |
| BinGenome.AddToBatch | src/bin_genome.py:94-119 | with line 114's call resolving and line 118 slicing from the length before the append (the intended behaviour; `BinGenome.AddToBatchLine118` covers line 118 as written), the counters stay exact; a batch not past BATCH_LENGTH grows by the part of the argument that fits and never past BATCH_LENGTH, returns "" below BATCH_LENGTH, and once full returns its last BATCH_OVERLAP bases followed by the part not appended; a batch already past BATCH_LENGTH (as `combineBatch` makes) takes the argument without its last `len(self.seq) - BATCH_LENGTH` characters and returns "" |
| BinGenome.AddToBatchMangled | src/bin_genome.py:113-114 | as written, every call raises AttributeError at line 114 before the batch changes, since `self.__countGCAT` is mangled; with the call spelled `__countGCAT__` it succeeds |
| BinGenome.AddToBatchKeepsAll | src/bin_genome.py:100-111 | once the batch is full, the batch followed by the returned text past its overlap is the old batch plus the whole argument |
| BinGenome.AddToBatchLine118 | src/bin_genome.py:113-118 | with line 114 as written, a call raises AttributeError; once that call resolves, line 118 as written makes a call that fills a batch return the overlap followed by the whole argument, which differs from the intended result |
| BinGenome.CombineBatch | src/bin_genome.py:137-153 | combining keeps name and start and keeps the counters exact |
| BinGenome.CombineContiguous | src/bin_genome.py:143-153 | combining a batch with the one that follows it in the genome gives their contiguous union, ending where the second ends |
| BinGenome.GcBackground | src/bin_genome.py:67-92 | a batch with no A/C/G/T divides by zero; otherwise the result is the first bin nearest to the GC percentage, or -1 when none is within 100 |
| BinGenome.NoBinsNoBin | src/bin_genome.py:25 | with the module's empty GC_BINS, every batch with some A, C, G or T gets bin -1 (one with none divides by zero) |
| BinGenome.GcBackgroundUnbound | src/bin_genome.py:82 | as written, the method reads the unbound names `gc` and `gcat` and raises NameError |
| BinGenome.BatchNameUnbound | src/bin_genome.py:65 | as written, the method reads the unbound names `seq_name`, `start` and `seq` and raises NameError |
| BinGenome.BatchNameVersusSplit | src/bin_genome.py:51-65 | the name the docstring describes is the name `split_genome.batchName` gives the same range, without the space after the colon |
| BinGenome.BatchNameExample | src/bin_genome.py:62-63 | start 0 with 60000 bases of chr1 is named `chr1:1-60000` |
| ScoreThresholds.LineScore | src/score_thresholds.py:102-109 | a score is read only from a line the pattern matches from its start, and it is the value of the line's first digit run |
| ScoreThresholds.LineScoreComplete | src/score_thresholds.py:102-109 | every line the pattern matches yields the value of its first group |
| ScoreThresholds.ScoresAppend | src/score_thresholds.py:104-110 | lines are read independently and in order |
| ScoreThresholds.ScoresCount | src/score_thresholds.py:104-110 | there is one score per matching line |
| ScoreThresholds.ReadScores | src/score_thresholds.py:87-112 | the result is the multiset of scores of the lines up to end of file, sorted non-increasing |
| ScoreThresholds.SortedUnique | src/score_thresholds.py:111 | a multiset has one non-increasing arrangement, so any sort gives the list `hits.sort(reverse=True)` gives |
| ScoreThresholds.RatioBelow | src/score_thresholds.py:143 | `fp_hits / hits < 0.002` holds exactly when `500 * fp_hits < hits` |
| ScoreThresholds.Walk | src/score_thresholds.py:143-149 | the walk only moves forward and stops where false hits reach one in 500 genomic hits |
| ScoreThresholds.EmpiricalFDR | src/score_thresholds.py:114-150 | IndexError for an empty list or a walk that runs off a list; the best genomic score plus 0.05 when the best benchmark score beats it; otherwise the genomic score where the walk stops, plus 0.05 |
| ScoreThresholds.WalkExample | src/score_thresholds.py:139-150 | genomic scores 10, 5 and benchmark score 7 stop the walk at index 1 after one false hit, so the threshold 5.05 has as many false hits as genomic hits above it |
| ScoreThresholds.WalkOutranks | src/score_thresholds.py:143-149 | on sorted genomic scores, every benchmark hit the walk counted outranks the genomic hit it stops at |
| ScoreThresholds.EmpiricalBelowBest | src/score_thresholds.py:135-150 | on sorted lists, an empirical threshold lies below the best benchmark score, and at least one false hit per 500 genomic hits was counted |
| ScoreThresholds.TheoreticalTarget | src/score_thresholds.py:173-178 | the target lies in (0, 1000]; it is 1000 exactly when the TP estimate is 0 or its 1% reaches 1000, and otherwise 1% of the estimate |
| ScoreThresholds.TargetMonotone | src/score_thresholds.py:173-178 | for genomic counts above the benchmark count, the target never decreases as the number of genomic hits grows |
| ScoreThresholds.TargetDrop | src/score_thresholds.py:173-178 | at genomic == benchmark the estimate 0 is replaced by the cap 1000, and one more genomic hit gives 0.01, so the target is not monotone across that point |
| ScoreThresholds.FinalThreshold | src/score_thresholds.py:214 | the final threshold is one of the two, and at least each of them |
| ScoreThresholds.MatrixName | src/score_thresholds.py:201 | `name[-9:-3]` is the six characters before the three-character extension |
| ScoreThresholds.AlignmentFileNames | src/score_thresholds.py:200-201 | a path `<dir>/<consensus>_<matrix>.sc` gives back its consensus and its matrix |
| ScoreThresholds.DirConsensusName | src/score_thresholds.py:245 | a directory `<parent>/<consensus>/` gives back its consensus |
| GenerateAlignments.HeaderPath | src/generate_alignments.py:42-44 | a header opens a file exactly when it has a word after `>` |
| GenerateAlignments.AppendGet | src/generate_alignments.py:43-45 | appending changes one file only, by exactly the appended text |
| GenerateAlignments.WellFormedAll | src/generate_alignments.py:40-46 | the line-by-line acceptance condition is the same as: the file starts with a header, and every header has a name |
| GenerateAlignments.SplitSpec | src/generate_alignments.py:22-46 | the loop ends without an exception exactly when the file is well formed; then every file holds its prior contents followed by exactly the lines of its own records, in input order, and the last record's file is left open |
| TooHigh.Forward | src/analysis/too_high.py:17-22 | a forward match is a parse of the line's end by `a b (c)`, and the range is `(a, b)` |
| TooHigh.Backward | src/analysis/too_high.py:18-26 | a backward match is a parse of the line's end by `(c) a b`, and the range is `(b, a)` |
| TooHigh.RangesComplete | src/analysis/too_high.py:11-12 | any parse of the line's end yields the range read from it |
| TooHigh.AtMostOneRange | src/analysis/too_high.py:19-26 | no line matches both patterns, so a line adds at most one range |
| TooHigh.RangesAppend | src/analysis/too_high.py:15-27 | lines are read independently and in order |
| TooHigh.ReadRanges | src/analysis/too_high.py:15-27 | the readline loop collects the ranges of the lines before the end of the file, line by line and in order |
| TooHigh.FileCounts | src/analysis/too_high.py:6-34 | `main(fpath)`: IndexError exactly when a range read before the end of the file covers position 5102 or later (its start is below its end and its end exceeds 5102); otherwise a list of 5102 counts, each the number of those ranges covering its position |
| TooHigh.CountCoverage | src/analysis/too_high.py:30-34 | IndexError exactly when some range reaches past the list; otherwise each position counts the ranges `[start, end)` covering it |
| TooHigh.Final | src/analysis/too_high.py:49-51 | each position of `final` is the sum over the ten lists at that position |
| TooHigh.ColumnCovers | src/analysis/too_high.py:49-51 | when each list counts the ranges of one file, `final` counts the ranges of all files together |
| AluUnion.LineHitMatches | src/analysis/alu_union.py:20-24 | a hit is read from a line exactly when the pattern matches it from its start |
| AluUnion.LineHitComplete | src/analysis/alu_union.py:20-28 | the groups read are those of the (only) parse of the line |
| AluUnion.HitChromDigits | src/analysis/alu_union.py:20 | the target name of a hit is a non-empty run of digits, so target names such as `chr1` never match |
| AluUnion.BedLineFields | src/analysis/alu_union.py:26-28 | a BED line splits on tabs into the target name and the two coordinates, offset plus start and offset plus end |
| AluUnion.StrictThreshold | src/analysis/alu_union.py:25 | at threshold 120.05 a matching line is written exactly when its score is at least 121 |
| AluUnion.BedAppend | src/analysis/alu_union.py:22-29 | lines are converted independently and in order |
| AluUnion.BedMembers | src/analysis/alu_union.py:22-29 | a line is written exactly when some input line matches, passes the threshold and converts to it |
| AluUnion.ConvertFile | src/analysis/alu_union.py:18-29 | a missing file raises FileNotFound before anything is written; otherwise a line is written exactly when some line of the file before its end matches the pattern, scores above the threshold and converts to it |
| AluUnion.SequenceSpec | src/analysis/alu_union.py:38-39 | conversions into one file complete exactly when each does, and then hold all their lines in order; otherwise they stop with the first one's exception |
| AluUnion.UnionMain | src/analysis/alu_union.py:31-39 | the BED file holds the lines of the first file and then of the second, both at 120.05, and stops after the first when the second is missing |
| OldAluUnion.AluEntryIsHeader | src/analysis/old_alu_union.py:24-27 | a list line is read as the header of a consensus file is by `consensusSize`, with the same exceptions |
| OldAluUnion.AluEntryDivergence | src/analysis/old_alu_union.py:26-27 | the divergence text of an entry is one of `-1`, `14`, `18`, `20`, `25`, `30` |
| OldAluUnion.GetAlusSpec | src/analysis/old_alu_union.py:20-28 | the list is read exactly when every line parses, one entry per line in order; otherwise the exception of the first bad line |
| OldAluUnion.AluPathNames | src/analysis/old_alu_union.py:47 | the path of an alu names its consensus and its `<div>p43g` matrix the way the threshold script reads them back |
| OldAluUnion.AlusToBedSpec | src/analysis/old_alu_union.py:44-49 | the output is complete exactly when every alu's file exists, and then holds each file's BED lines in list order; otherwise it stops at the first missing file |
| OldAluUnion.MakeBeds | src/analysis/old_alu_union.py:51-53 | the genomic file is written first; the benchmark file is written, at the same threshold, exactly when the genomic one completed |
| OldAluUnion.OldUnionMainSpec | src/analysis/old_alu_union.py:20-67 | nothing is written exactly when a line of the list does not parse, with the first bad line's exception; otherwise the alus are the list's entries in order, the genomic BED file is written first and the benchmark one exactly when every genomic search output exists, and each holds at 120.05 the BED lines of its alus' search outputs in list order, or stops with FileNotFound at the first missing one |
| Charts.LineScoreComplete | src/charts/scripts.js:71-75 | a line the pattern matches yields its first digit run |
| Charts.SameScoreAsThresholds | src/charts/scripts.js:71-75 | the chart reads a line's score as the threshold script does, unless the line holds a character only Python counts as whitespace (over the ASCII classes of the model) |
| Charts.Histogram | src/charts/scripts.js:68-80 | slot `v` of the histogram counts the scores equal to `v`; scores above 10000 are dropped |
| Charts.SumFromTop | src/charts/scripts.js:81-83 | after the second loop, slot `v` counts the scores from `v` to 10000 |
| Charts.CountAtLeastStep | src/charts/scripts.js:82 | the cumulative count at `k` is the count at `k` plus the cumulative count at `k + 1` |
| Charts.CountAtLeastMonotone | src/charts/scripts.js:81-84 | cumulative counts never increase with the score |
| Charts.Window | src/charts/scripts.js:84 | the slice holds 141 pairs, `(60 + j, cumulative count at 60 + j)` |
| Charts.CountHits | src/charts/scripts.js:67-85 | the chart data is the 141 pairs of score 60 to 200 and the number of matching lines scoring at least that, up to 10000 |
| Charts.Prehits | src/charts/scripts.js:88-91 | a TypeError exactly when the benchmark list is shorter; otherwise one row per genomic pair with score, TP, FP and TP minus FP |
| Charts.KeptAgainstLast | src/charts/scripts.js:92-98 | comparing each row with the row before it in `prehits` keeps the same rows as comparing it with the last row kept |
| Charts.KeptDistinct | src/charts/scripts.js:92-98 | no two consecutive chart rows have the same TP and FP counts |
| Charts.KeptFromPre | src/charts/scripts.js:92-98 | every chart row is a row of `prehits` |
| Text.NatToStringRoundTrip | src/analysis/alu_union.py:28 | `int(str(n)) == n` for every natural number |
| Text.SplitOnJoin | src/analysis/old_alu_union.py:26 | `split(c)` of parts joined by `c` gives the parts back when no part holds `c` |
| Text.WordsSkipsSpace | src/sequence_util.py:56 | leading whitespace does not change `split()` |
| Pattern.MatchAtComplete | src/score_thresholds.py:102 | the greedy scan finds every parse that exists, and with its soundness contract it finds exactly the parse |
| Pattern.MatchAtSameClass | src/charts/scripts.js:71 | two whitespace classes that agree on a line's characters match it the same way |
| Common.CollectAllSpec | src/analysis/old_alu_union.py:23-27 | a loop that stops at the first exception succeeds exactly when every step does, and otherwise fails with the first failing step's exception |

## Left out

- File I/O, `print`, `argparse` and the `__main__` blocks are left out. Files are lists of lines or maps from path to contents, and each script's `main` is a function of those.
- `os.mkdir`, `os.path.exists` and `os.listdir` are left out, and so is the order of a directory listing. `scoreThresholds` only loops over the listing.
- `computeEValue` is left out, and so is the logarithm in `theoreticalFDRCalculation`, because they use floating-point `exp` and `log`. The E-value target (`ScoreThresholds.TheoreticalTarget`) is modelled; the conversion to a score is not.
- `generateScoreThreshold`'s output line is left out: `str(float)` formatting is not modelled. Its parts (`ConsensusName`, `MatrixName`, `FinalThreshold`) are.
- Floats are exact reals. Rounding of `100.0 * gc / (gc + at)` and of `abs(v - div)` is not modelled.
- `\s` and `\d` are ASCII-only in the model. Python's `\s` and `str.split()` also match Unicode separators, and `\d` matches Unicode digits. JavaScript's `\s` also matches Unicode spaces, including U+FEFF, which Python's `\s` does not, so outside ASCII the two whitespace classes differ on more than `Charts.SameScoreAsThresholds` states.
- `float()` is modelled for the forms the data files use: an optional sign, digits and an optional fraction (`Text.ParseDecimal`). Exponents, underscores between digits (`1_5`), `inf` and `nan` are left out.
- JavaScript `parseInt` is modelled as exact, including above 2^53.
- `GenomeBatch.writeToBin` is a stub that returns False, and it is not modelled.
- bin_genome.py's module-level `writeBatchToBin` repeats split_genome.py's, and `SplitGenome.WriteBatchToBin` models both. Its `splitGenome` repeats the text of split_genome.py's, but bin_genome.py imports only `argparse` and `io` and defines no module-level `batchName`, `gcBackground` or `countGCAT`. So as written it raises NameError on its first pass through the loop (at line 237 or 241 on `batchName`, at line 254 or 267 on `countGCAT`). `SplitGenomeLoop` models split_genome.py's loop, not that behaviour.
- `splitChromosomes` in old_alu_union.py only prints blank lines, and it is not modelled.
- old_alu_union.py's `convertToBed` is alu_union.py's plus a progress message. `AluUnion.ConvertToBed` models both.
- The chart page's AJAX loading, Google Charts drawing and SVG overlay (scripts.js outside `countHits` and the row filtering of `drawChart`) are user interface and are left out.
- SplitGenomeLoop.Reconstruction: requires base lines that contain no `>`. A `>` inside the bases can start a carried overlap, which the loop then reads as a header.
- SplitGenomeLoop.Run: requires `1 <= batch_overlap < batch_length`. With `batch_overlap` 0, `batch_overlap >= batch_length` or `batch_length <= 0` the source loop never terminates: the carry is the whole batch or more, so it overflows again. A negative `batch_overlap` makes `batch[-batch_overlap:]` drop bases from the front of the batch, so the loop ends with gaps between batches; that case is not modelled either.
- SplitGenomeLoop.CountsMatchBatches: proved for the corrected counting. For the counting as written, `SplitGenomeLoop.WholeLineMiscounts` exhibits the discrepancy.
- SplitGenomeLoop.WrittenIffBases: proved for the corrected counting. As written, a batch with no A, C, G or T can still be written when the rest of its overflowing line holds bases; `SplitGenomeLoop.AllNBatchWritten` exhibits one.
- BinGenome.AddToBatchLine118: compares line 118 as written with the intended slice while taking line 114's call as fixed, because as written that call raises first. `BinGenome.AddToBatchMangled` records the AttributeError.
- GenerateAlignments.SplitSpec: requires no `""` inside the line list. A `""` is end of file, so such lines are never read. Files are a flat map from path to contents, so a header word holding `/` (`>a/b`) names a file in a subdirectory that `open(..., "a")` would fail to create unless it exists; the model accepts it, and that FileNotFoundError is not modelled.

## Findings

| source | as written | input that shows it | evidently intended | confidence | as-written member | corrected member |
|---|---|---|---|---|---|---|
| src/split_genome.py:165 | the overflow branch adds `countGCAT(line)`, counting the whole line, including the part carried into the next batch | batch length 4, overlap 1, lines `>s`, `ACGTGG`: the batch `ACGT` is counted as 4 G/C and 2 A/T and goes to bin 67 | count only `line[:read_bases]`, giving 2 and 2, and bin 50 | not executed | SplitGenomeLoop.WholeLineMiscounts | SplitGenomeLoop.CountsMatchBatches |
| src/split_genome.py:165 | the same whole-line count gives a batch with no A, C, G or T a non-negative bin, so `writeBatchToBin` writes it | batch length 4, overlap 1, lines `>s`, `NNNNAC`: the batch `NNNN` is counted as 1 G/C and 1 A/T and written to bin 50 | a batch of `N`s is never written | not executed | SplitGenomeLoop.AllNBatchWritten | SplitGenomeLoop.WrittenIffBases |
| src/bin_genome.py:114 | `addToBatch` calls `self.__countGCAT(append)`, which is mangled to `_GenomeBatch__countGCAT` like the call at line 49 | any batch and any argument: AttributeError | call `__countGCAT__`, so the appended bases are counted | not executed | BinGenome.AddToBatchMangled | BinGenome.AddToBatch |
| src/bin_genome.py:117-118 | the remainder is `seq[BATCH_LENGTH - len(self.seq):]`, computed after the append, which is `seq[0:]` | once line 114's call is fixed, an empty batch given 60001 bases returns the 2000-base overlap and all 60001 bases | the part of `seq` not appended: the overlap and 1 base | not executed | BinGenome.AddToBatchLine118 | BinGenome.AddToBatchKeepsAll |
| src/bin_genome.py:49 | `self.__countGCAT(seq)` is mangled to `_GenomeBatch__countGCAT`, which the class does not define (the method is `__countGCAT__`) | `GenomeBatch("chr1", 0)` raises AttributeError | call `__countGCAT__`, giving a batch whose counters are the counts of its bases | not executed | BinGenome.InitMangled | BinGenome.Init |
| src/bin_genome.py:65 | `batchName` reads `seq_name`, `start` and `seq` without `self.` | any batch: NameError | read the batch's own attributes, giving `chr1:1-60000` for chr1 from 0 with 60000 bases | not executed | BinGenome.BatchNameUnbound | BinGenome.BatchNameVersusSplit |
| src/bin_genome.py:82 | `gcBackground` reads `gc` and `gcat` without `self.` | any batch: NameError | read the batch's counters, giving the nearest GC bin | not executed | BinGenome.GcBackgroundUnbound | BinGenome.GcBackground |
