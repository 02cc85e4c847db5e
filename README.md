# Competitive-programming problem features, modelled in Dafny

The repository collects Codeforces problem statements and turns each one into a
fixed record of numeric features for a complexity classifier. This project
models its core and proves properties about it:

- **Statement cleaning** (`src/WebScraper.py`, `clean_rendered_mathjax_html`
  and `latex_to_text`) is modelled in `normalizer.dfy`, module `Normalizer`.
  It covers the empty-input guard of the LaTeX converter, the `<sub>`/`<sup>`
  rewrite over a flat array of nodes, and the string passes. Those passes are:
  `$$$…$$$` segments, the four text macros, symbol substitution, the
  repeated-word pass and whitespace collapsing.
- **Number parsing** (`parse_number`) is in `number_parsing.dfy`. The parser
  prepares the text, then tries the float branch, the `m*10^e` form, the
  `±10^k` form and finally a plain literal.
- **Constraint ranges** (`extract_variable_ranges`) are in
  `range_extraction.dfy`. The regular expression `low ≤ vars ≤ high` is written
  as a deterministic scanner. `finditer` walks a table holding the scan from
  every start; the pattern has no look-behind, so what matches from a start
  does not depend on where the previous match ended. The extraction loop is a
  method proved against a fold over the match list.
- **Limits** (`extract_time_limit` and `extract_memory_limit`) are in
  `limits.dfy`. **Range buckets** (`compute_bin` over `BINS`) are in
  `binning.dfy`.
- **Variable discovery** (`extract_variables`) is in `variable_discovery.dfy`.
- **Operator counting** (`count_operations` over `OPERATIONS`) is in
  `operation_counting.dfy`.
- **The feature record** (`extract_features`) is in `features.dfy`.
- **The dataset merger** (`src/DataMerger.py`, `aggregate_datasets` with its
  inner `process_line`) is in `data_merger.dfy`. It is modelled as a class
  `ProblemTable` that keeps the insertion-ordered problem dictionary.
- **Python string behaviour** is in `strings.dfy`: `str.split`, `str.join`,
  `str.replace`, `split()`/`' '.join`, `strip`, `\d+` runs and the `\s` class.

`\bmod\b` does not match inside `modulo`, and `OperationCounting.ModuloNotCounted`
proves it is not counted.

The code also has behaviours that are easy to miss, and the model keeps them:

- `extract_variables` consumes the delimiter after each letter, so of `n m k`
  only `n` and `k` are found.
- A constraint written without commas, such as `1 ≤ n m ≤ 5`, yields the item
  `n m`. That item is never a variable name, so no range is recorded for it.
- `\leq` becomes `≤q`, because `\le` is replaced first.

## Model

| member | source | states |
|---|---|---|
| NumberParsing.PrepareIsCharMap | FeatureExtractor.py:17-18 | the four chained `replace` calls act as one per-character map: blanks and commas dropped, `·` and `⋅` turned into `*` |
| NumberParsing.SeparatorsIgnored | FeatureExtractor.py:17 | inserting a blank or a comma anywhere in a numeral never changes what it parses to |
| NumberParsing.ThousandsSeparator | FeatureExtractor.py:17-34 | `1,000` parses to 1000 |
| NumberParsing.PlainParse | FeatureExtractor.py:17-20 | text made only of digits, signs, `^` and `*` passes the preparation unchanged and never takes the `e` branch |
| NumberParsing.MatchScaled | FeatureExtractor.py:23 | a match of the scaled pattern yields a mantissa of the form `[-+]?[0-9]*\.?[0-9]+` and a non-empty digit exponent |
| NumberParsing.ScaledMatch | FeatureExtractor.py:23-25 | on `m*10^e` the scaled pattern yields exactly the groups `m` and `e` |
| NumberParsing.ScaledNeedsStar | FeatureExtractor.py:23 | without a `*` or a blank in the text the scaled pattern never matches |
| NumberParsing.ScaledInteger | FeatureExtractor.py:23-26 | `m*10^e` parses to m·10^e whenever that product is exactly representable as a double |
| NumberParsing.PowerMatch | FeatureExtractor.py:28-32 | the power pattern reads `10^k` and `+10^k` as 10^k and `-10^k` as -10^k |
| NumberParsing.PowerOfTen | FeatureExtractor.py:28-32 | `parse_number` returns exactly ±10^k for `±10^k`, with no float rounding whatever k is |
| NumberParsing.TenToTheNine | FeatureExtractor.py:28-32 | `10^9` parses to 1000000000 |
| NumberParsing.MinusTenToTheThree | FeatureExtractor.py:28-32 | `-10^3` parses to -1000 |
| NumberParsing.StarlessParse | FeatureExtractor.py:20-34 | plain text without `*` is read by the power pattern when it matches, and as a literal otherwise |
| NumberParsing.LiteralDigits | FeatureExtractor.py:34 | an optionally negative digit string denotes its decimal value with its sign |
| NumberParsing.IntegerLiteral | FeatureExtractor.py:34 | an optionally negative integer literal of magnitude at most 2^53 parses to its value |
| RangeExtraction.NumeralEnd | FeatureExtractor.py:41 | a bound group is non-empty and holds only the sign, blanks and the numeral characters `[\d.,eE^*·⋅]` |
| RangeExtraction.VarsEnd | FeatureExtractor.py:41 | the greedy variable list ends on a letter and holds only letters, blanks and commas |
| RangeExtraction.MatchAt | FeatureExtractor.py:41 | a match found at a position ends after it, and its three groups are well formed |
| RangeExtraction.ConstraintFound | FeatureExtractor.py:41 | a `low rel vars rel high` written at a position, with maximal bound groups and a letter-to-letter variable list, is the match found there, with exactly those three groups, ending after `high` |
| RangeExtraction.VarsEndReaches | FeatureExtractor.py:41 | the repetition `(?:\s*,?\s*[a-z])*` runs to the end of a variable list and stops at the relation after it |
| RangeExtraction.NextVarFinds | FeatureExtractor.py:41 | between two letters of a list, one iteration `\s*,?\s*[a-z]` reaches the second letter |
| RangeExtraction.Scans | FeatureExtractor.py:41-45 | the table has one scan per start, and every match in it ends after its start, within the text, with well-formed groups |
| RangeExtraction.MatchesFrom | FeatureExtractor.py:45 | every match `finditer` yields has well-formed low, variable and high groups |
| RangeExtraction.FirstMatchListed | FeatureExtractor.py:45 | `finditer` lists first the match at the first start where one exists, then goes on from where that match ended |
| RangeExtraction.NoMatchNothingListed | FeatureExtractor.py:45 | where no start matches, `finditer` yields nothing |
| RangeExtraction.SharedBoundsMatched | FeatureExtractor.py:41-45 | `1 ≤ n, m ≤ 5` gives exactly one match, with groups `1`, `n, m` and `5` |
| Features.SharedBoundsRecorded | FeatureExtractor.py:41-59 | with the names `n` and `m`, `1 ≤ n, m ≤ 5` records the range (1, 5, 5) under both |
| RangeExtraction.Bounds | FeatureExtractor.py:48-53 | a match yields a range exactly when both bounds parse, and then size = high - low + 1 |
| RangeExtraction.StripAll | FeatureExtractor.py:55 | every item of the split variable list is stripped, and no item is lost |
| RangeExtraction.SplitWithoutComma | FeatureExtractor.py:55 | a variable list without a comma is one stripped item |
| RangeExtraction.SplitAtComma | FeatureExtractor.py:55 | `a, b` splits into the items `a` and `b` |
| RangeExtraction.NoCommaListsNoLetter | FeatureExtractor.py:55-58 | a comma-free list of more than one character is a single item that is not a one-letter name |
| RangeExtraction.NoCommaRecordsNoLetter | FeatureExtractor.py:55-59 | such a match leaves the ranges unchanged |
| RangeExtraction.StoreRange | FeatureExtractor.py:57-59 | the inner loop stores the range under each listed item that is a known variable, and nowhere else |
| RangeExtraction.RecordMatch | FeatureExtractor.py:46-59 | one loop iteration updates the ranges as the match's constraint prescribes, and skips a match whose bounds fail to parse |
| RangeExtraction.RecordVarsEffect | FeatureExtractor.py:57-59 | after storing, a name has an entry iff it had one or it is listed and known; listed names get the new range, others keep theirs |
| RangeExtraction.RecordEffect | FeatureExtractor.py:48-59 | the same effect for a whole match, including the case where its bounds do not parse |
| RangeExtraction.ExtractVariableRanges | FeatureExtractor.py:36-61 | the returned ranges are the matches folded in order; every key is a known variable and every size equals high - low + 1 |
| RangeExtraction.RecordMatches | FeatureExtractor.py:45-59 | the loop over a match list returns the in-order fold of its constraints, with known keys and consistent sizes |
| RangeExtraction.RecordAllSound | FeatureExtractor.py:51-59 | every recorded key is a known variable and every recorded size is consistent |
| RangeExtraction.RecordedIffListed | FeatureExtractor.py:45-59 | a variable has a range iff some match with parsable bounds lists it |
| RangeExtraction.LastMatchWins | FeatureExtractor.py:45-59 | a variable's range is that of the last match with parsable bounds that lists it |
| RangeExtraction.UnparsableMatchIgnored | FeatureExtractor.py:48-53 | deleting a match whose bounds do not parse changes nothing |
| Limits.LimitAt | FeatureExtractor.py:64 | a match at a position starts with the phrase and captures a non-empty digit string |
| Limits.SearchFrom | FeatureExtractor.py:64 | `re.search` finds the leftmost position where the pattern matches, or reports that there is none |
| Limits.ExtractLimit | FeatureExtractor.py:63-69 | the limit is absent iff the pattern matches nowhere; a present limit is the value of the digits captured at the leftmost match, and the phrase occurs in the text |
| Limits.FirstLimit | FeatureExtractor.py:64-65 | after any prefix where the pattern does not match, the phrase, blanks and digits not followed by a digit give exactly that number |
| Limits.LimitAtPrefix | FeatureExtractor.py:64-65 | the pattern matches right after the prefix and captures exactly the digits |
| Binning.ComputeBin | FeatureExtractor.py:71-77 | the loop returns the bin of the value, and for a positive value that bin belongs to an entry whose interval `(lower, upper]` holds it |
| Binning.Partition | FeatureExtractor.py:6-12 | every positive size lies in exactly one interval of `BINS`, and no size at or below 0 lies in any |
| Binning.TableMatchesBinOf | FeatureExtractor.py:73-75 | an entry that accepts a value names that value's bin |
| Binning.NoEntryAccepts | FeatureExtractor.py:77 | the fall-through is reached only for sizes at or below 0, and it gives `bin_large` |
| Binning.NamesDistinct | FeatureExtractor.py:6-12 | the five bin names are pairwise different |
| VariableDiscovery.StripLabel | FeatureExtractor.py:83 | a leading `X.` label is removed at most once |
| VariableDiscovery.CloseEnd | FeatureExtractor.py:85 | the closing group consumes one delimiter, or matches the end of the text |
| VariableDiscovery.LetterAt | FeatureExtractor.py:85 | a match captures an ASCII letter and moves the scan forward |
| VariableDiscovery.FindAllFrom | FeatureExtractor.py:85 | `findall` captures only letters |
| VariableDiscovery.ExtractVariables | FeatureExtractor.py:79-86 | empty text has no variables, and every variable is an ASCII letter |
| VariableDiscovery.FoundLettersIsolated | FeatureExtractor.py:85 | every letter found stands in the text between delimiters or the text's ends |
| VariableDiscovery.IsolatedLetterFound | FeatureExtractor.py:85 | a lone letter is found whenever the character two places before it is not itself a lone letter, the only case in which the preceding match can consume its delimiter |
| VariableDiscovery.SpaceSeparatedLetters | FeatureExtractor.py:85 | of three blank-separated letters, the middle one is missed |
| VariableDiscovery.LabelRemovedOnce | FeatureExtractor.py:83-86 | in `a. b. x` only the first label is removed, so `b` and `x` are found |
| OperationCounting.CountFrom | FeatureExtractor.py:93-95 | matches do not overlap: their count times the token length fits in the text |
| OperationCounting.CountMatches | FeatureExtractor.py:92-95 | the scanning loop counts the non-overlapping left-to-right matches of one token |
| OperationCounting.CountOperations | FeatureExtractor.py:88-97 | the total is the sum of the per-token match counts over the vocabulary |
| OperationCounting.CountPositiveIffMatch | FeatureExtractor.py:92-95 | a token's count is positive iff it matches somewhere |
| OperationCounting.SymbolCountIsOccurrences | FeatureExtractor.py:95 | a one-character symbol is counted once per occurrence |
| OperationCounting.ModuloNotCounted | FeatureExtractor.py:93 | `mod` is not counted inside `modulo`, and is counted once in `a mod b` |
| OperationCounting.DoubleSlash | FeatureExtractor.py:95 | `//` counts twice as `/` and once as `//` |
| Features.VariableNames | FeatureExtractor.py:111-114 | every name handed to range extraction is a one-letter string whose letter was discovered as a variable |
| Features.ExtractFeatures | FeatureExtractor.py:101-126 | each field of the record equals its extractor's result, the five bucket counts count the ranges per bucket, and the counts sum to the number of ranges |
| Features.CountBins | FeatureExtractor.py:116-121 | every bucket starts at 0, each range increments its own bucket, and the totals add up to the number of ranges |
| Features.CountOne | FeatureExtractor.py:118-121 | one iteration counts one more range and keeps the partial counts exact |
| Features.StepKeepsCount | FeatureExtractor.py:118-121 | the bucket of the next range exists, and incrementing it keeps the counts exact |
| Features.CountStep | FeatureExtractor.py:119-121 | incrementing the bucket a range's size falls in keeps the counts exact |
| Features.InBinAdd | FeatureExtractor.py:119-121 | adding one range raises exactly its own bucket by one |
| Features.BinTotalIncrement | FeatureExtractor.py:121 | raising one bucket raises the total by one |
| Features.BucketsPartitionRanges | FeatureExtractor.py:116-121 | the five buckets together count every range exactly once |
| Features.UrlOfContestAndIndex | FeatureExtractor.py:104 | the id `C_I` gives the URL of problem `I` of contest `C` |
| Features.SplitOnFirst | FeatureExtractor.py:104 | such an id splits at `_` into its contest and its index |
| Features.CollapseKeepsWordCount | FeatureExtractor.py:107 | collapsing whitespace, as the cleaner does last, does not change the word count |
| Strings.JoinSplit | FeatureExtractor.py:55 | joining the pieces of `split(',')` with `,` gives back the list text |
| Strings.SplitPiecesAvoidSeparator | FeatureExtractor.py:55 | no piece of `split(',')` contains a comma |
| Strings.SplitCharPieces | FeatureExtractor.py:104 | `split('_')` gives a second piece iff the id contains `_` |
| Strings.Strip | FeatureExtractor.py:55 | a stripped item neither starts nor ends with whitespace |
| Strings.StripUnpadded | FeatureExtractor.py:55 | stripping an unpadded item changes nothing |
| Strings.LStrip | FeatureExtractor.py:83 | `lstrip` removes a prefix and leaves no leading whitespace |
| Strings.Runs | FeatureExtractor.py:107-108 | every word of `split()` and every `\d+` match is a non-empty run of its character class |
| Strings.RunsCoverFilter | FeatureExtractor.py:107-108 | the runs together hold every character of the class, in order, and nothing else |
| Strings.ReplaceCharIsMap | FeatureExtractor.py:17-18 | replacing a single character is a per-character map |
| Strings.ReplaceAbsent | src/WebScraper.py:34-37 | `replace` leaves text without the pattern unchanged |
| Strings.ReplaceRemoves | src/WebScraper.py:34-37 | after `replace`, the pattern no longer occurs, provided the replacement shares no character with it |
| Strings.ReplaceKeepsAbsent | src/WebScraper.py:34-37 | `replace` does not create a pattern whose characters the replacement avoids |
| Strings.CollapseIdempotent | src/WebScraper.py:43 | collapsed text has single blanks and no blank at either end, and collapsing it again changes nothing |
| Strings.RunsOfJoinedWords | src/WebScraper.py:43 | splitting words joined by single blanks gives the words back |
| Normalizer.LatexToText | src/WebScraper.py:9-12 | empty LaTeX gives empty text, and other input goes to the converter |
| Normalizer.CloseFrom | src/WebScraper.py:31 | the lazy `(.*?)` ends at the first `$$$` with no newline before it, or the segment does not match |
| Normalizer.MathFreeUnchanged | src/WebScraper.py:31 | text without `$$$` is left unchanged |
| Normalizer.DollarFreePrefix | src/WebScraper.py:31 | a prefix without `$` is copied verbatim |
| Normalizer.MathCopiesHead | src/WebScraper.py:31 | a first character other than `$` is copied verbatim |
| Normalizer.CloseAfterPlain | src/WebScraper.py:31 | a segment body free of `$` and newlines is closed by the `$$$` right after it |
| Normalizer.MathSegment | src/WebScraper.py:31 | `a$$$x$$$b` becomes `a`, then the converted `x`, then the rewritten `b` |
| Normalizer.OpenFromFinds | src/WebScraper.py:32 | the alternation finds an opening `\macro{` of the list exactly when one is there |
| Normalizer.OpenUnique | src/WebScraper.py:32 | an opening of one macro is recognised as that macro |
| Normalizer.MacrosDistinguishable | src/WebScraper.py:32 | the four macro openings differ in their second or sixth character |
| Normalizer.BraceFrom | src/WebScraper.py:32 | the lazy argument ends on a `}` |
| Normalizer.BraceFromFirst | src/WebScraper.py:32 | it is the first `}` after the opening, with no newline before it |
| Normalizer.MacroMatch | src/WebScraper.py:32 | a macro match spans the opening, the argument and a closing `}` |
| Normalizer.MacroArgument | src/WebScraper.py:32 | `\macro{arg}rest` becomes `arg` followed by the rewritten rest |
| Normalizer.MacroAt | src/WebScraper.py:32 | a matched macro at the start is replaced by its argument |
| Normalizer.UnbalancedBraces | src/WebScraper.py:32 | a nested `{…}` argument is cut at its first `}`, leaving the outer `}` in the text |
| Normalizer.BackslashFreeUnchanged | src/WebScraper.py:32 | text without a backslash is left unchanged |
| Normalizer.SymbolsSeparated | src/WebScraper.py:34-37 | no replacement symbol shares a character with any LaTeX pattern |
| Normalizer.ReplaceEachRemoves | src/WebScraper.py:34-37 | after the chain, no pattern of a separated list occurs |
| Normalizer.ReplaceEachKeepsAbsent | src/WebScraper.py:34-37 | the chain never creates an occurrence of a string that shares no character with any replacement |
| Normalizer.SymbolsReplaced | src/WebScraper.py:34-37 | after the eight replacements none of `\le`, `\ge`, `\cdot`, `\times`, `\to`, `\rightarrow`, `\ldots`, `\dots` occurs |
| Normalizer.ReplaceEachBackslashFree | src/WebScraper.py:34-37 | text without a backslash passes the chain unchanged |
| Normalizer.LeqKeepsItsQ | src/WebScraper.py:34 | `\leq` becomes `≤q` |
| Normalizer.RepeatAt | src/WebScraper.py:42 | a hit is a non-blank word at a word boundary, then whitespace, then the same word ending at a word boundary |
| Normalizer.RepeatFound | src/WebScraper.py:42 | such a repetition at a position is matched there |
| Normalizer.DedupWords | src/WebScraper.py:42 | the repeated-word pass never lengthens the text |
| Normalizer.DedupNoSpace | src/WebScraper.py:42 | text without whitespace is left unchanged |
| Normalizer.PairMatches | src/WebScraper.py:42 | `w w` is matched as one repetition |
| Normalizer.RepeatedOnce | src/WebScraper.py:42 | `w w` becomes `w` |
| Normalizer.ThreeTimesKeepsTwo | src/WebScraper.py:42 | `w w w` becomes `w w`, because the pass is applied once and matches do not overlap |
| Normalizer.CleanText | src/WebScraper.py:29-45 | the cleaned text has single blanks between words and none at either end, and collapsing it again changes nothing |
| Normalizer.RewriteSubSup | src/WebScraper.py:17-20 | every node is replaced in place: a `sub` by `_` plus its text, then a `sup` by `^` plus its text, and any other node is left as it was |
| Normalizer.RewriteEffect | src/WebScraper.py:17-20 | no `sub` or `sup` element is left, and the text is the marker followed by the original text |
| DataMerger.ProblemTable.constructor | src/DataMerger.py:5 | the problem dictionary starts empty |
| DataMerger.ProblemTable.ProcessLine | src/DataMerger.py:7-23 | one record is processed: the first sighting of an id creates its entry with that record's tags, the example total rises by one, and a non-empty complexity is counted |
| DataMerger.AggregateDatasets | src/DataMerger.py:4-29 | a fresh table holds the non-blank lines of the Java file and then the Python file, processed in order |
| DataMerger.Written | src/DataMerger.py:31-34 | one output record per dictionary entry, in dictionary order, carrying that entry's total |
| DataMerger.ProcessWellFormed | src/DataMerger.py:13-23 | processing a record keeps the table consistent: the order lists each key once, every entry is keyed by its own id, and no complexity is counted more often than the examples |
| DataMerger.AggregateWellFormed | src/DataMerger.py:25-29 | the merged table is consistent |
| DataMerger.Counts | src/DataMerger.py:13-29 | an id has an entry iff some line mentions it; its total is the number of such lines and its complexity counts are the multiset of their non-empty labels |
| DataMerger.LabelsWithinTotal | src/DataMerger.py:21-23 | no problem has more complexity labels than examples |
| DataMerger.NoMentionNoEntry | src/DataMerger.py:13-19 | an id that no line mentions has no entry |
| DataMerger.EntryHasFirst | src/DataMerger.py:13-19 | every entry comes from a first mention of its id |
| DataMerger.FirstTagsWin | src/DataMerger.py:13-19 | an entry's tags are those of the first line that mentions its id |
| DataMerger.JavaFirst | src/DataMerger.py:25 | for an id present in the Java file, the tags come from the Java file |
| DataMerger.BlankLineIgnored | src/DataMerger.py:28-29 | removing a blank line anywhere changes nothing |
| DataMerger.FirstUnique | src/DataMerger.py:13-19 | an id has one first mention |
| DataMerger.FirstSeenOrder | src/DataMerger.py:13-34 | problems are written in the order their ids were first mentioned |
| DataMerger.OneRecordPerId | src/DataMerger.py:13-34 | the output has one record per mentioned id and none for any other id |

## Left out

- Reading and writing files and JSON are not modelled. The merger receives
  each file as a sequence of lines already decoded into records. A missing
  `problem` or `tags` key, or a malformed line, raises in the source; here it
  cannot occur.
- DataMerger: a `complexity` value that is not a string, such as a number or
  a list, is not modelled. Complexities are optional strings, and the
  truthiness test of line 22 becomes "present and non-empty".
- DataMerger.Written states the totals and the id order of the output. It
  does not state the JSON text.
- Fetching pages (`fetch_and_clean_one`), Playwright, pandas and
  `BuildDataset.py` are not part of this model.
- BeautifulSoup parsing and `get_text` (lines 15, 39-40), and the pylatexenc
  converter (line 12), are received as function parameters, because they are
  third-party code.
- The `<script type="math/tex">` rewrite (lines 22-27) and `str(soup)` are
  not modelled. They depend on the HTML tree, which is abstract here.
- Normalizer.RewriteSubSup works on a flat array of nodes with abstract text.
  Nested `sub`/`sup` elements, and the text of an element that holds other
  tags, are not modelled.
- NumberParsing.ParseNumber: `int(float(…))` (lines 21, 26 and 34) comes from
  the `FloatOps` parameter. Exact values are proved only where a double is
  exact: integer literals up to 2^53, and `m*10^e` products up to 2^53 with
  e ≤ 22. Decimal mantissas, `e` notation and the error that `float` raises
  are whatever `FloatOps` says.
- NumberParsing.ParseNumber: a failure is `None`. This is the `except
  Exception: continue` of lines 52-53, so only the absence of a result is
  modelled, not the exception type.
- RangeExtraction.ExtractVariableRanges: the parser is received as a function
  value. The feature record passes `parse_number` itself, as
  `NumberParser(ops)`.
- RangeExtraction.ExtractVariableRanges: `variable_names` is a set. The source
  builds it from a list, and only membership is used.
- VariableDiscovery.ExtractVariables returns a set. The source returns
  `list(set(...))`, whose order is unspecified; only its length is used.
- Character classes are ASCII: `\d`, `\b`/`\w`, and `[a-z]` under `re.I`.
  Python also accepts non-ASCII digits, letters and case pairs such as `K`
  (Kelvin). `\s` and `str.split()` use Python's full whitespace set.
- Features.ProblemUrl requires an `_` in the id. Without one, line 104 raises
  `IndexError`.
- `time.sleep`, logging and the `__main__` blocks are not modelled.
