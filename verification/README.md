# GrampsCrossing in Dafny

GrampsCrossing reorders the person lines of a Graphviz DOT file written
by Gramps (a relationship graph) so that `dot` draws the graph with fewer
edge crossings. This project models the three pure parts of the script
and proves what they promise:

- **`parse`** (`segmenter.dfy`, module `Segmenter`). It cuts the lines of the
  file into a header and four buckets: people, links, spouse blocks and
  families. The header ends one line after the first line holding
  `node `. Body lines are classified by priority: ` -> ` first, then
  `  I` / `  "I`, then `  subgraph`, then everything else. A spouse block
  runs through the first line starting with `  }`, or to the end of the
  body. The cut of the body into records is characterised as the only
  classified cut. Distributing the records into buckets keeps every line
  (a permutation) and keeps source order within each bucket.
- **Reassembly** (`reassembler.dfy`, module `Reassembler`). A candidate
  document is `header + people + links + spouses + families`, with each
  spouse block joined into one entry. Changing the people changes nothing
  outside the people window. Joined, the document is the same text as
  the line-by-line document. A file whose body is already in layout
  order comes back unchanged.
- **Reading the crossing count** (`crossings.dfy`, module `Crossings`),
  from the lines `dot -v` writes to its error stream. This is
  `int(l[l.find(':')+1 : l.find('crossings')-1])` on the line the
  `for ... break` loop stops at. Python 2's `find`, slicing and `int()`
  are modelled in `pystr.dfy` (module `PyStr`).
- **The search** (`search.dfy`, module `Search`):
  - Spans go from the largest power of two not above `nsize - 1` down
    to 1, halving each time.
  - Each trial swaps `i` and `i + span` in the best ordering so far.
  - A swap is accepted only on a strict improvement.
  - A span stops early once the count is zero.

  Running `dot` on a candidate is the parameter `eval`, a deterministic
  function from a candidate document to a crossing count. The search is
  written twice:
  - `Optimize` and `SweepSpan` mirror the script's two loops;
  - `Run` is a recursive function with one trial per call.

  `ValidTrace` says which progress logs a run can print, and exactly one
  log, `Run`, is valid. On top of that the model proves:
  - the ordering stays a reordering of the parsed people;
  - the best count always equals `eval` of the current document and
    never rises;
  - the number of trials is the sum of `nsize - span` over the spans,
    unless the count reaches zero. After that, each smaller span runs
    exactly one trial.

`wrappers.dfy` holds `Option` and `Result`.

## Model

| member | source | states |
|---|---|---|
| PyStr.Find | GrampsCrossing.py:104-105 | `s.find(p)` is -1 or a position where `p` occurs, and no occurrence lies before it |
| PyStr.FindLeftmost | GrampsCrossing.py:104-105 | an occurrence with none before it is what `find` returns |
| PyStr.FirstContaining | GrampsCrossing.py:100-102 | the loop `for l in ...: if p in l: break` stops at a line holding `p`, and no earlier line holds it; without a match, no line holds it |
| PyStr.SliceBound | GrampsCrossing.py:109 | a slice bound is clamped to `0..len`: an in-range bound is kept, a bound past the end is `len`, a negative bound counts from the end and is 0 when that lands before the start |
| PyStr.Slice | GrampsCrossing.py:109 | `s[a:b]` is the ordinary subsequence for in-range bounds, and counts a negative upper bound from the end |
| PyStr.ParseInt | GrampsCrossing.py:109 | `int()` fails on text without a digit (the exact acceptance rule is the next row) |
| PyStr.ParseIntCharacterization | GrampsCrossing.py:109 | `int(s)` is `v` if and only if `s` is whitespace, an optional `+` or `-` with whitespace after it, a nonempty run of digits and whitespace, and `v` is the digits' value, negated after a `-`; everything else fails |
| PyStr.ParseNumeral | GrampsCrossing.py:109 | every such numeral text is read as the number it denotes |
| PyStr.NumeralOf | GrampsCrossing.py:109 | every text `int()` accepts splits into such a numeral, with the value `int()` gives |
| PyStr.ParseIntDecimal | GrampsCrossing.py:109 | `int()` reads back `str(n)` padded with whitespace on both sides |
| PyStr.ParseIntNegative | GrampsCrossing.py:109 | a minus sign, with whitespace after it, gives the negated value |
| PyStr.Join | GrampsCrossing.py:70 | definition: `''.join` of a list of lines is the lines laid end to end |
| PyStr.Contains | GrampsCrossing.py:48 | definition: `p in s` holds when `find` locates `p` in `s` |
| PyStr.StartsWith | GrampsCrossing.py:64-68 | definition: `s.startswith(p)` holds when `p` occurs at position 0 |
| PyStr.JoinAppend | GrampsCrossing.py:70 | `''.join` of two lists laid end to end is the two joins laid end to end |
| PyStr.IsSpace | GrampsCrossing.py:109 | definition: the whitespace `int()` skips: space, tab, newline, vertical tab, form feed and carriage return |
| PyStr.TrimLeft | GrampsCrossing.py:109 | definition: the text with the leading whitespace `int()` skips removed |
| PyStr.TrimRight | GrampsCrossing.py:109 | definition: the text with the trailing whitespace `int()` skips removed |
| PyStr.ReadTrimmed | GrampsCrossing.py:109 | definition: `int()` on trimmed text: an optional sign, whitespace, then digits only |
| PyStr.TrimKeepsChars | GrampsCrossing.py:109 | what `int()` reads after trimming whitespace are characters of its argument |
| Segmenter.IsMarkerLine | GrampsCrossing.py:48 | definition: the line holds `node ` |
| Segmenter.IsLinkLine | GrampsCrossing.py:62 | definition: the line holds ` -> ` |
| Segmenter.IsPersonLine | GrampsCrossing.py:64 | definition: the line starts with `  I` or `  "I` |
| Segmenter.OpensSubgraph | GrampsCrossing.py:66 | definition: the line starts with `  subgraph` |
| Segmenter.ClosesSubgraph | GrampsCrossing.py:68 | definition: the line starts with `  }` |
| Segmenter.SplitHeader | GrampsCrossing.py:46-53 | fails only on an empty file, with `EmptyInput` (the loop never binds `i`, so line 52 raises); header + body is the file; a nonempty body means the header ends one line after the first marker line; an empty body means no marker stands before the last two lines |
| Segmenter.BlockEnd | GrampsCrossing.py:67-69 | a spouse block closes at the first line starting with `  }`, or at the last line of the body |
| Segmenter.NextPiece | GrampsCrossing.py:60-74 | one pass files a record classified by the priority links, people, spouse block, families; it consumes at least one line and exactly the record's lines |
| Segmenter.Cut | GrampsCrossing.py:59-74 | the records of the body, laid end to end, are the body |
| Segmenter.CutCharacterization | GrampsCrossing.py:59-74 | a sequence of records is a classified cut of the body if and only if it is the cut the loop makes |
| Segmenter.CutIsUnique | GrampsCrossing.py:59-74 | two classified cuts of the same body are equal |
| Segmenter.FlattenAppend | GrampsCrossing.py:59-74 | the lines of two stretches of records are the lines of each, in order |
| Segmenter.DistributeConcat | GrampsCrossing.py:62-73 | each bucket gets the records of an earlier stretch before those of a later one, so source order is kept |
| Segmenter.File | GrampsCrossing.py:62-73 | definition: one pass of the loop appends a record to the bucket its class names |
| Segmenter.Distribute | GrampsCrossing.py:59-74 | definition: the buckets after filing the records in source order |
| Segmenter.FilePermutes | GrampsCrossing.py:62-73 | filing one record adds exactly its lines to the buckets |
| Segmenter.DistributePermutes | GrampsCrossing.py:59-74 | the buckets hold exactly the lines of the records (a permutation) |
| Segmenter.DistributeClassified | GrampsCrossing.py:62-73 | links hold ` -> ` lines, people hold person lines without ` -> `, spouse blocks open with `  subgraph`, families hold the rest |
| Segmenter.ParseBody | GrampsCrossing.py:59-76 | the buckets are a permutation of the body lines, and each holds only lines its rule sends there |
| Segmenter.Parse | GrampsCrossing.py:40-76 | fails only on an empty file; otherwise the header is a prefix of the file, the buckets come from the rest, header plus buckets are a permutation of the file, and the header is exactly the one the marker search cuts off |
| Reassembler.SpouseEntries | GrampsCrossing.py:70 | the spouse list has one joined entry per block, in block order, and its text is the text of all the blocks' lines |
| Reassembler.Assemble | GrampsCrossing.py:140 | definition: a candidate is `header + people + links + spouses + families` |
| Reassembler.AssembleLayout | GrampsCrossing.py:140 | a candidate starts with the header, then the people in the order given, with one entry per link, spouse block and family |
| Reassembler.AssembleFrame | GrampsCrossing.py:136-140 | two candidates with equally many people agree outside the people window |
| Reassembler.AssembleText | GrampsCrossing.py:93 | the text written to `dot` is the text of the document with spouse blocks unjoined |
| Reassembler.AssemblePermutes | GrampsCrossing.py:140 | a document built from a reordering of the parsed people is a reordering of the file's lines |
| Reassembler.SwapPeoplePermutes | GrampsCrossing.py:136-140 | documents built from two reorderings of the same people are reorderings of each other |
| Reassembler.LaterBucketsEmpty | GrampsCrossing.py:62-73 | records of rank at most `r` leave every later bucket empty |
| Reassembler.FileAppends | GrampsCrossing.py:62-73 | filing a record when no later bucket holds anything only appends its lines to the body |
| Reassembler.DistributeInOrder | GrampsCrossing.py:59-74 | records already in layout order come out of the buckets in the order they went in |
| Reassembler.ParseAssembleRoundTrip | GrampsCrossing.py:52-76 | a file whose body is in layout order is parsed and reassembled into the same lines and the same text |
| Reassembler.PeopleFirst | GrampsCrossing.py:125 | the document with the parsed people is the header followed by the body lines of the buckets |
| Crossings.StopLine | GrampsCrossing.py:100-102 | the loop leaves a line of the stream in `l` exactly when the stream is nonempty |
| Crossings.StopAtReport | GrampsCrossing.py:100-102 | the loop stops at the first line holding `crossings` |
| Crossings.StopAtEnd | GrampsCrossing.py:100-102 | without such a line, `l` is the last line of the stream |
| Crossings.CountField | GrampsCrossing.py:104-109 | definition: the text `l[l.find(':')+1 : l.find('crossings')-1]` |
| Crossings.ExtractCount | GrampsCrossing.py:100-109 | an empty stream gives no count |
| Crossings.ExtractReported | GrampsCrossing.py:100-109 | behind lines without `crossings`, a report line `<name>: <n> crossings...` gives back `n`, whatever follows it |
| Crossings.ExtractWithoutReport | GrampsCrossing.py:100-109 | without a report line, the text after the last line's first colon, up to two characters before its end, is read |
| Crossings.ExtractStaleLine | GrampsCrossing.py:100-109 | so a stream without a report whose last line is `<name>: <n> ` reads as `n` crossings |
| Crossings.ReportedCount | GrampsCrossing.py:100-109 | corrected reading: no count when no line holds `crossings` |
| Crossings.ReportedAgrees | GrampsCrossing.py:100-109 | where a line holds `crossings`, the corrected reading and the script's agree |
| Crossings.ReportedLine | GrampsCrossing.py:100-109 | the corrected reading gives back the count of a report line |
| Crossings.ReportedStale | GrampsCrossing.py:100-109 | the corrected reading gives no count for the stale-line stream |
| Crossings.ReportField | GrampsCrossing.py:104-109 | on a report line, the field `int()` reads is a space and the digits |
| Crossings.ReportColon | GrampsCrossing.py:104 | on a report line whose name has no colon, `find(':')` is the colon after the name |
| Crossings.CrossingsAt | GrampsCrossing.py:105 | on a report line, `find('crossings')` is the word after the count |
| Crossings.ColonAt | GrampsCrossing.py:104 | the first colon of `<name>:<tail>` is the one after the name when the name holds none |
| Search.Pow2Floor | GrampsCrossing.py:121-122 | the first span lies in `1 <= p <= m < 2p` |
| Search.Pow2FloorIsPow2 | GrampsCrossing.py:122 | the first span is a power of two |
| Search.Pow2FloorUnique | GrampsCrossing.py:121-122 | any power of two `p` with `p <= m < 2p` is the first span |
| Search.InitialSpan | GrampsCrossing.py:120-122 | a first span exists exactly when there are at least two people, and it is the largest power of two not above `nsize - 1` |
| Search.TotalTrials | GrampsCrossing.py:133-134 | definition: the sum of `n - s` over the spans `s` from `span` down to 1, halving each time |
| Search.Candidate | GrampsCrossing.py:136-139 | definition: the trial's ordering with positions `i` and `i + span` exchanged |
| Search.TrialAt | GrampsCrossing.py:136-141 | definition: the trial at `(span, i)`: the ordering and best count before it, and `eval` of the candidate's document |
| Search.Accepted | GrampsCrossing.py:150 | definition: a trial is taken only when its count is strictly below the best so far |
| Search.PeopleAfter | GrampsCrossing.py:150-151 | definition: the candidate ordering if the trial is taken, else the ordering before it |
| Search.BestAfter | GrampsCrossing.py:150-152 | definition: the trial's count if it is taken, else the best count before it |
| Search.ValidTrace | GrampsCrossing.py:133-155 | definition: the logs the loops can print: starting at index 0 of the first span on the parsed ordering, each trial scored and following the last, ending where the loops stop |
| Search.Swap | GrampsCrossing.py:136-139 | the candidate ordering has the length of the ordering it came from |
| Search.SwapExchanges | GrampsCrossing.py:136-139 | the swap exchanges positions `i` and `i + span`, keeps every other position, and keeps the multiset of lines |
| Search.Score | GrampsCrossing.py:125 | definition: the count of a people ordering is `eval` of its candidate document |
| Search.NextSlot | GrampsCrossing.py:133-155 | after a trial the loops go to the next index of the span or to index 0 of the halved span, and stop only when the span is at most 1; a count of zero always leaves the span |
| Search.TrialKeeps | GrampsCrossing.py:136-152 | one trial keeps the ordering a reordering, keeps the best count equal to `eval` of the current document, and never raises it |
| Search.ChainConcat | GrampsCrossing.py:133-155 | two chains of trials, the second starting where the first leads, make one chain |
| Search.SweepStep | GrampsCrossing.py:134-154 | the trial at index `i` extends the pass to index `i + 1`, or ends it when the count reaches zero |
| Search.SweepSpan | GrampsCrossing.py:134-154 | one pass of the inner loop is a chain of trials from index 0 of the span that leads to the halved span |
| Search.SearchStep | GrampsCrossing.py:133-155 | a pass carries the outer loop from a span to the halved span |
| Search.SearchDone | GrampsCrossing.py:133-155 | once the span reaches zero, the trials so far form a whole run |
| Search.SearchOutcome | GrampsCrossing.py:125-156 | a whole run is `Run`; it leaves a reordering of the parsed people whose count is `eval` of its document and at most the original count; the trial count is bounded, and exact when the count stays positive |
| Search.Optimize | GrampsCrossing.py:120-156 | the search prints the log of `Run`, counts its trials in `iterations`, and returns a reordering of the people with count `eval` of its document, never above the original count |
| Search.TraceConsistent | GrampsCrossing.py:125-152 | along a run, every trial starts from a reordering of the parsed people, and the best count is `eval` of the current document |
| Search.TraceMonotone | GrampsCrossing.py:150-152 | along a run the best count never rises |
| Search.ZeroShortCircuit | GrampsCrossing.py:153-155 | once the count is zero, each smaller span runs exactly one trial at index 0 and changes nothing |
| Search.ChainIsRunFrom | GrampsCrossing.py:133-155 | a chain of trials that runs until the loops stop is the run from its first slot |
| Search.RunFromChain | GrampsCrossing.py:133-155 | the run from any slot is a chain that ends where the loops stop |
| Search.RunIsValid | GrampsCrossing.py:133-155 | `Run` is a log the script can print |
| Search.ValidIsRun | GrampsCrossing.py:133-155 | every log the script can print is `Run` |
| Search.RunFrom | GrampsCrossing.py:133-155 | definition: the trials the loops run from one slot until they stop, one trial per call |
| Search.Run | GrampsCrossing.py:121-155 | definition: the run from index 0 of the first span on the parsed ordering |
| Search.RunCharacterization | GrampsCrossing.py:133-155 | a log is a whole run of the script if and only if it is `Run` |
| Search.RunFromFinal | GrampsCrossing.py:150-152 | a run from any slot ends with a count at most the one it starts with |
| Search.RunFromAtMost | GrampsCrossing.py:133-155 | from index `i` of a span, at most the remaining indices and `n - s` trials for each smaller span `s` follow |
| Search.RunFromExactly | GrampsCrossing.py:133-155 | if the count never reaches zero, exactly that many trials follow |
| Search.RunFromLength | GrampsCrossing.py:133-155 | the two counts above, from any slot |
| Search.RunLength | GrampsCrossing.py:133-155 | a whole run makes at most the sum of `nsize - span` over the spans, and exactly that many if the count stays positive |
| Search.RunLengthFrom | GrampsCrossing.py:121-155 | the same count, starting from the first span |
| Search.RunOutcome | GrampsCrossing.py:125-156 | the ordering a whole run leaves is a reordering of the parsed people; its count is `eval` of its document and at most the original count |

## Left out

- Reading the input file (lines 41-43) and writing `gcf1.dot` and the PDF (lines 80-86, 111-114). `Parse` starts from the list of lines.
- Starting `dot`, writing to its standard input, `terminate` and the `IOError` path (lines 88-98, 108). They are external process I/O. `crossings` on a candidate is the parameter `eval`. `ExtractCount` starts from the lines of the error stream.
- Search.Optimize: `eval` is a total function to natural numbers, so a `crossings` call that raises or returns a negative number is not modelled.
- Search.InitialSpan: `int(math.log(nsize - 1) / math.log(2))` is floating point. It is modelled as the exact largest power of two not above `nsize - 1`, so any rounding error of `log` at exact powers of two is not modelled.
- The SIGINT handler (lines 34-38). It writes `dot_markup`, the last candidate tried, not the best ordering. Nothing here claims an interrupted run keeps the best.
- Timing statistics and the progress and summary printouts (lines 117, 126, 130-132, 135, 142-147, 149, 113-114). The log of trials records the values the progress line shows.
- Lines are sequences of characters, not Python 2 byte strings. Every pattern the script looks for is ASCII, so this changes no result.
- Fewer than two people: `math.log` fails. `InitialSpan` gives `None` there, and `Optimize` and `Run` require at least two people.
- Two behaviours of the code that a reader might not expect. The model follows the code in both:
  - A file without a `node ` line is all header with an empty body, not an error.
  - A stream without a `crossings` line is not an error in itself: the line left in `l` is the last one, and `int()` is applied to it.

## Findings

| source | as written | input that shows it | evidently intended | confidence | as-written member | corrected member |
|---|---|---|---|---|---|---|
| GrampsCrossing.py:100-109 | when `dot` prints no line holding `crossings`, the count is read from the last line of its error stream | an error stream whose last line is `x: 12 ` followed by a newline, and which has no `crossings` line, reads as 12 crossings | no count when `dot` reports none | low, not executed | Crossings.ExtractStaleLine | Crossings.ReportedCount |
