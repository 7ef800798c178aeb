# Subsegment alignment of a source sentence and its machine translation

`explain.py` explains an Apertium translation by aligning pieces of a source
sentence with pieces of its translation. It works in five steps:

1. It analyses the source text into lexical units. Each unit is the text
   before it, its surface wordform and its readings.
2. It enumerates every contiguous run ("subsegment") of up to
   `maxSourceLength` units, shortest first and then by start index.
3. It translates the whole source text, analyses the translation with the
   reverse language pair and enumerates the translation's subsegments of up
   to `maxTranslationLength` units in the same order. These are the
   candidates.
4. For each source subsegment, in order, it does the following:
   - it rebuilds the literal substring. This is the first wordform, then the
     preceding text and wordform of each later unit;
   - it computes the substring's inclusive character offsets `i..j` by
     adding up unit widths;
   - it translates the substring on its own and analyses the result;
   - it takes the first candidate whose list of reading strings equals the
     isolated analysis's list;
   - on a match it records a correspondence `(s, t, i, j, k, l)`, where
     `k..l` are the candidate's offsets in the full translation. A
     subsegment with no match is skipped.
5. On request it also lists a table with one row per character position.
   Each row holds the source character and the translated character at that
   position, or a blank past the end of the shorter text.

The model has one module per concern:

- `Units`: the unit and subsegment data, plus the text, width and literal
  substring of a run of units.
- `Enumeration`: the nested enumeration loops (`Enumerate`, `AppendRuns`).
  They are proved to build the list `Subsegments`. Lemmas give that list's
  contents, order and size.
- `Offsets`: the offset sums.
- `Matching`: the reading-string filter and the first-match rule.
- `DiagnosticTable`: the contents of the table rows.
- `Alignment`: the main loop (`Explain`, `AlignSubsegment`, `Reconstruct`).
  It is proved to compute the function `Correspondences`. Lemmas state what every
  correspondence in it means, that nothing is dropped, the order of the
  correspondences, and that a whole sentence aligns to its whole
  translation.

The translator, the two analysers and the stream parser are modelled as the
fields of an `Oracle`. These are total, deterministic functions from text to
text or to units.

## Model

| member | source | states |
|---|---|---|
| Units.SpanIsTextLength | explain.py:69-70 | Summing `len(pre) + len(wordform)` over units gives exactly the length of the text reconstructed from them, `Text(us)`. It is the analysed text's length only when the analyser accounts for every character. |
| Units.LiteralSnoc | explain.py:66-67 | One step of the reconstruction loop: appending a later unit extends the literal substring by that unit's preceding text and wordform. |
| Units.LiteralInText | explain.py:64-67 | A non-empty run's text is its first unit's preceding text followed by its literal substring. The literal therefore leaves out exactly the first unit's preceding text. |
| Units.LiteralLength | explain.py:67 | A literal substring is as long as the run's total width minus its first unit's preceding text. |
| Units.ReadingsOfRun | explain.py:76 | The reading strings a valid run (such as an enumerated candidate) is compared by are one per unit, and are exactly the full analysis's reading strings from its first to its last index. |
| Enumeration.AppendRuns | explain.py:47-49 | The inner loop appends, in start-index order, every run of the given length that fits, each with first index p and last index p + length - 1. Nothing else is appended. |
| Enumeration.Enumerate | explain.py:46-49 | The nested loops build exactly `Subsegments(units, maxLength)`: the runs of length 1, then of length 2, and so on up to the maximum. |
| Enumeration.Subsegments | explain.py:46 | Every enumerated run has between 1 and maxLength units. |
| Enumeration.SubsegmentsValid | explain.py:47-49 | Every enumerated run is a valid run of the units. It is non-empty, its last index is start + length - 1 and in range, and its stored units are exactly the slice between its indices. |
| Enumeration.SubsegmentsComplete | explain.py:46-49 | Every valid run of at most maxLength units is enumerated. |
| Enumeration.SubsegmentsMembership | explain.py:46-49 | A run is enumerated if and only if it is a valid run of at most maxLength units. |
| Enumeration.SubsegmentsOrdered | explain.py:46-47 | Of any two positions in the enumeration, the earlier run is strictly shorter, or equally long with a smaller start index. So no run is listed twice. |
| Enumeration.SubsegmentsCountByLength | explain.py:46-47 | For n units, a length L with 1 <= L <= min(maxLength, n) occurs exactly n - L + 1 times. Every other length, including L > n, occurs zero times. |
| Enumeration.SubsegmentsCount | explain.py:46-47 | With k = min(maxLength, n), the enumeration has k(2n - k + 1)/2 runs in total, which is the sum of n - L + 1 over L = 1..k. |
| Offsets.OffsetSpanLength | explain.py:67-70 | For every valid run, j - i + 1 equals the length of its reconstructed literal substring. |
| Offsets.OffsetsLocateLiteral | explain.py:67-70 | When the units reconstruct the text exactly, 0 <= i <= j + 1 <= len(text), and `text[i:j+1]` is the run's literal substring. |
| Offsets.PrefixSpanMonotone | explain.py:69-70 | The width of `units[:n]`, with Python's clamping of an over-long slice, never decreases as n grows. |
| Offsets.StartOffsetMonotone | explain.py:69 | For valid runs, a larger-or-equal start index never gives a smaller start offset. This holds in particular for runs of one length, which are listed by start index. |
| Offsets.EndOffsetMonotone | explain.py:70 | A larger-or-equal last index never gives a smaller end offset. |
| Matching.Filter | explain.py:76 | The survivors are exactly the candidates whose reading strings equal the target: each survivor is such a candidate, and every such candidate survives. There are never more survivors than candidates. |
| Matching.FilterEmptyIff | explain.py:76-77 | The filter comes back empty if and only if no candidate's reading strings equal the target. |
| Matching.FirstMatchIsEarliest | explain.py:76-79 | If the candidate at index p matches and none before it does, the first survivor `subsegmentMatches[0]` is that candidate. |
| Matching.FirstMatchExists | explain.py:76-79 | When anything survives, the first survivor is the candidate at some index p that matches while no earlier candidate does. |
| Matching.EmptyAnalysisNeverMatches | explain.py:76-77 | No candidate is empty, so an isolated analysis with no units matches none of them. |
| DiagnosticTable.Table | explain.py:96 | The table has exactly max(len(source), len(translation)) rows. |
| DiagnosticTable.TableColumns | explain.py:96 | Row i is numbered i. Read down the rows, the source column is the source text and the translation column is the translated text, each padded with blanks to the table's length, so no position is read out of range. |
| Alignment.Reconstruct | explain.py:65-67 | The reconstruction loop yields the run's literal substring. |
| Alignment.AlignSubsegment | explain.py:64-88 | One iteration of the main loop yields a correspondence when some candidate matches the isolated translation, and nothing otherwise. The correspondence holds the substring, its isolated translation, the source offsets, and the first match's target offsets. |
| Alignment.Explain | explain.py:37-96 | The main block's list of correspondences is exactly `Correspondences`: one per matching source subsegment, in enumeration order. Its table rows are `Table` of the source text and its translation when the table is asked for, and none otherwise. |
| Alignment.PresentSnoc | explain.py:77-88 | Handling one more subsegment appends its correspondence at the end when there is one, and leaves the list unchanged otherwise. |
| Alignment.PresentSource | explain.py:64-88 | The x-th recorded correspondence comes from the outcome of some one subsegment. |
| Alignment.PresentComplete | explain.py:64-88 | Every subsegment that produces a correspondence has that correspondence in the list. |
| Alignment.PresentOrder | explain.py:64-88 | Of two recorded correspondences, the earlier comes from an earlier subsegment. |
| Alignment.AttemptSomeIff | explain.py:76-77 | A source subsegment yields a correspondence if and only if some candidate's reading strings equal those of its isolated translation. |
| Alignment.AttemptSound | explain.py:64-88 | A correspondence carries the literal substring and its isolated translation. Its source offsets are the subsegment's and span exactly the substring. Its target offsets are those of the first matching candidate. |
| Alignment.EmptyIsolatedAnalysisSkipped | explain.py:72-77 | A subsegment whose isolated translation analyses to no units is skipped. |
| Alignment.AttemptLocatesTarget | explain.py:76-79 | The target side of one correspondence is a candidate `ts` whose reading strings match. No candidate before `ts` in enumeration order matches. The correspondence's k and l are the offsets of `ts`, spanning its literal substring. |
| Alignment.AlignmentSound | explain.py:64-88 | Every correspondence in the alignment comes from an enumerated source subsegment and its first matching candidate in the translation. When the analyses reconstruct their texts, `source[i:j+1]` is s and `translation[k:l+1]` is the candidate's literal substring. |
| Alignment.EarliestInOrder | explain.py:76-79 | The first match by list index is also first by enumeration order: no shorter candidate, and no equally long one that starts earlier, matches. |
| Alignment.AlignmentOrdered | explain.py:64-88 | Correspondences appear in the enumeration order of their source subsegments: shorter first, then by start index. |
| Alignment.AlignmentComplete | explain.py:76-88 | Matching source subsegments are never dropped: each one's correspondence is in the alignment. |
| Alignment.WholeTranslationMatchesFirst | explain.py:76-79 | Searched for the reading strings of the whole translation, the first candidate found is the whole translation. |
| Alignment.WholeOffsets | explain.py:69-70 | The whole analysis starts after the first unit's preceding text and ends at the last character of the units. |
| Alignment.WholeSentenceAttempt | explain.py:64-88 | The whole source sentence, translated in isolation, aligns to the whole translation, with offsets spanning both analyses. |
| Alignment.FullSentenceAligns | explain.py:37-88 | When the maxima cover whole sentences, the alignment contains the whole sentence paired with its whole translation. |

## Left out

- `translateText` and `analyzeText` (explain.py:6-22) run `apertium` and `lt-proc` as subprocesses. They become the fields of `Oracle`, and their `.strip()` is folded into them. The model takes them as deterministic and never failing, so it does not cover tool failures, timeouts or concurrency.
- The source analysis uses the language pair as given (line 38). The translation and the isolated translations use the reversed pair (lines 52 and 73). These become two analysers, `analyzeSource` and `analyzeTarget`.
- `streamparser.parse` (lines 39, 53, 74) and `str(lexicalUnit)` (line 76) belong to a foreign library. A unit's readings are taken as one abstract reading string.
- Command-line parsing (lines 25-33) is not modelled. Its values become parameters.
- Printing is not modelled: the `pprint` of the correspondences (line 92), the blank lines (line 95), the `ljust(2)` padding of the table's index column and the joining of rows into lines (line 96). Only the row contents are.
- The list `translatedTextSubsegements` (line 63) is never used, so it is not modelled.
- Offsets.StartOffset: requires a non-empty subsegment. The Python `IndexError` on an empty one is therefore not modelled. The enumeration never produces one.
- Enumeration.SubsegmentsCount: the closed form is stated for `maxLength >= 0`. For a negative maximum the enumeration is empty, and `SubsegmentsCountByLength` covers that case.
- Alignment.FullSentenceAligns: it holds only when the whole sentence's literal substring is the source text. That means no leading text before the first unit and no trailing text after the last. It also needs at least one unit on each side.
- The offset lemmas speak about positions in the text only when the units reconstruct their text exactly (`Text(units) == text`). The analyser does not promise this, so the model takes it as a hypothesis.
