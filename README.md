# razers3 test harness, modelled in Dafny

razers3's test driver, `extras/apps/razers3/tests/run_tests.py`, does three things worth reasoning about:

- **Pair-id column removal.** It normalises the `.razers` output before comparing it with the golden files. `RemovePairIdColumn.apply` splits the text into lines, keeping their terminators. It splits each line on tabs, drops the field at index `col_no` (8 by default) when the line has more than `min_cols` (8) fields, and puts everything back together.
- **Transform choice by format.** It picks the comparison transforms for each output format. Every format gets the path-stripping transforms. `razers` adds the pair-id removal, and `sam` adds a regular expression that makes the `VN` version field canonical.
- **The case list and the tally.** It builds `conf_list`, the fixed list of 92 test configurations: single-end then paired-end, for read lengths 36 and 100, with 23 option settings each. It runs every configuration, counts the failures, prints the totals, and returns `failures != 0` as its exit status.

The project has five modules, one file each:

- `Text` (`text.dfy`) holds the Python string and list primitives the normaliser relies on:
  - `str.split('\t')` and `'\t'.join`;
  - `splitlines(True)` and `''.join`;
  - list slicing with Python's index clamping and negative indices.

  Round-trip lemmas connect each split with its join.
- `PairIdColumn` (`pair_id_column.dfy`) holds the normaliser.
  - `RemovePairIdColumn` is a value with the source's default settings.
  - `Normalize` is the specification: the line-by-line result, concatenated.
  - `Apply` is the loop of `apply`, proved equal to `Normalize`.
  - Lemmas state what the normalisation keeps, removes and shortens.
- `Transforms` (`transforms.dfy`) holds the transforms the harness builds and the per-format transform list. The transform classes of the test library are opaque constructors.
- `TestSuite` (`suite.dfy`) holds the enumeration.
  - `MakeConf` builds the configuration one iteration appends.
  - `Suite` is the whole list as a specification.
  - The `Append…Cases` methods and `BuildConfList` are the nested `for` loops that build `conf_list` by appending, proved equal to `Suite`.
  - Lemmas give the size of the list, where each case sits in it, and the shape of every case.
- `Report` (`report.dfy`) holds the execution loop, the failure count and the exit status. Running one configuration (`app_tests.runTest`) is a function parameter that maps a configuration to its pass/fail result.

The path helper's `inFile(name)` and `outFile(name)` become the symbolic paths `InFile(name)` and `OutFile(name)`. The program path found by `autolocateBinary` is a string parameter.

## Model

| member | source | states |
|---|---|---|
| Text.Split | extras/apps/razers3/tests/run_tests.py:36 | `line.split('\t')` always yields at least one field, and no field contains the separator |
| Text.SplitLines | extras/apps/razers3/tests/run_tests.py:33 | `splitlines(True)` yields no lines exactly for the empty text |
| Text.Slice | extras/apps/razers3/tests/run_tests.py:38 | `cols[lo:hi]` is the ordinary subsequence when the bounds are in range, and never longer than the list |
| Text.SliceFrom | extras/apps/razers3/tests/run_tests.py:38 | `cols[lo:]` is the ordinary suffix when `lo` is in range, and empty when `lo` is past the end |
| Text.SliceBounds | extras/apps/razers3/tests/run_tests.py:38 | Python's meaning of bounds outside the list: a bound in `-len..-1` means that bound plus `len`; a start below `-len` means the start; an end below `-len` gives the empty slice; an end past `len` means `len`; bounds that cross after normalisation give the empty slice; `cols[lo:]` is `cols[lo:len]` |
| Text.Join | extras/apps/razers3/tests/run_tests.py:39 | `'\t'.join(cols)`: the fields in order, with one tab between each two neighbours (its length is given by JoinLength, its inverse by SplitJoin and JoinSplit) |
| Text.Concat | extras/apps/razers3/tests/run_tests.py:40 | `''.join(lines2)`: the pieces back to back, so its length is the sum of their lengths |
| Text.JoinSplit | extras/apps/razers3/tests/run_tests.py:36-39 | joining the fields of a split with the same separator gives back the line, so a line whose fields are all kept is emitted unchanged |
| Text.JoinLength | extras/apps/razers3/tests/run_tests.py:39 | the length of a join is the sum of the field lengths plus one separator between each pair |
| Text.SplitJoin | extras/apps/razers3/tests/run_tests.py:36-39 | splitting a join of separator-free fields gives back exactly those fields |
| Text.SplitPrefix | extras/apps/razers3/tests/run_tests.py:36 | a separator-free prefix only lengthens the first field of a split; the remaining fields are unchanged |
| Text.JoinSnoc | extras/apps/razers3/tests/run_tests.py:39 | joining one more field appends a separator and that field |
| Text.JoinAvoids | extras/apps/razers3/tests/run_tests.py:39 | a character that occurs in no field, and is not the separator, does not occur in the join |
| Text.SplitAvoids | extras/apps/razers3/tests/run_tests.py:36 | a character absent from the line is absent from every field |
| Text.TotalLengthAppend | extras/apps/razers3/tests/run_tests.py:40 | total length is additive over concatenated lists of pieces |
| Text.ConcatAppend | extras/apps/razers3/tests/run_tests.py:40 | `''.join` of two concatenated lists is the concatenation of their joins |
| Text.SplitLinesSound | extras/apps/razers3/tests/run_tests.py:33-40 | `''.join(text.splitlines(True)) == text`; every piece is a line, and every piece but the last ends with a newline |
| Text.SplitLinesConcat | extras/apps/razers3/tests/run_tests.py:33-40 | joining the lines gives back the text |
| Text.SplitLinesAreLines | extras/apps/razers3/tests/run_tests.py:33 | every piece is non-empty and has a newline, if any, only at its end |
| Text.SplitLinesBoundaries | extras/apps/razers3/tests/run_tests.py:33 | every piece but the last ends with a newline |
| Text.SplitLinesAppend | extras/apps/razers3/tests/run_tests.py:33 | the lines of a text that ends at a line boundary, followed by more text, are the lines of each part in turn |
| Text.SplitLinesSingle | extras/apps/razers3/tests/run_tests.py:33 | a non-empty text without a newline is a single line |
| PairIdColumn.DropField | extras/apps/razers3/tests/run_tests.py:38 | `cols[0:col_no] + cols[col_no+1:]` removes exactly the field at `col_no` when it exists, and leaves the list alone when `col_no` is past its end |
| PairIdColumn.TransformLine | extras/apps/razers3/tests/run_tests.py:36-39 | what one line becomes: its tab fields, with the field at `col_no` dropped when there are more than `min_cols` of them, joined again with tabs (what that means is stated by ShortLineUnchanged, ColumnBeyondLineKept, WideLineLosesField and LineLength) |
| PairIdColumn.TransformLines | extras/apps/razers3/tests/run_tests.py:35-39 | one output piece per input line |
| PairIdColumn.TransformLinesAppend | extras/apps/razers3/tests/run_tests.py:35-39 | transforming two runs of lines transforms each run on its own |
| PairIdColumn.LinesSnoc | extras/apps/razers3/tests/run_tests.py:35-39 | transforming one more line appends that line's piece |
| PairIdColumn.TransformLinesAt | extras/apps/razers3/tests/run_tests.py:35-39 | the i-th output piece depends only on the i-th line |
| PairIdColumn.Normalize | extras/apps/razers3/tests/run_tests.py:33-40 | the text `apply` returns: the lines of the input, each transformed on its own, concatenated in order (specification of Apply; its properties are the lemmas below) |
| PairIdColumn.Apply | extras/apps/razers3/tests/run_tests.py:32-40 | the loop of `apply` computes the line-by-line normalisation, whatever the `is_left` flag |
| PairIdColumn.ShortLineUnchanged | extras/apps/razers3/tests/run_tests.py:36-39 | a line with at most `min_cols` fields is emitted unchanged |
| PairIdColumn.ColumnBeyondLineKept | extras/apps/razers3/tests/run_tests.py:38-39 | a line with no field at index `col_no` is emitted unchanged, however many fields it has |
| PairIdColumn.NarrowTextUnchanged | extras/apps/razers3/tests/run_tests.py:33-40 | when no line has more than `min_cols` fields, `apply` returns its input exactly |
| PairIdColumn.WideLineLosesField | extras/apps/razers3/tests/run_tests.py:36-39 | a line with more than `min_cols` fields and a field at `col_no` comes out with exactly that field removed; the others keep their order, and there is one field fewer |
| PairIdColumn.LastFieldTakesNewline | extras/apps/razers3/tests/run_tests.py:33-39 | when the removed field is the last one, the line's newline goes with it: the output is the line minus its final tab and field, and holds no newline |
| PairIdColumn.LinesIndependent | extras/apps/razers3/tests/run_tests.py:33-40 | the normalisation of two texts split at a line boundary is the concatenation of their normalisations |
| PairIdColumn.LineLength | extras/apps/razers3/tests/run_tests.py:36-39 | a piece is never longer than its line, and it is strictly shorter exactly when the line loses a field |
| PairIdColumn.LinesLength | extras/apps/razers3/tests/run_tests.py:35-40 | the joined output is never longer than the joined lines, and it is strictly shorter exactly when some line loses a field |
| PairIdColumn.NeverLonger | extras/apps/razers3/tests/run_tests.py:32-40 | `apply` never lengthens its input |
| PairIdColumn.ShorterIffWideLine | extras/apps/razers3/tests/run_tests.py:37-38 | with `col_no <= min_cols`, the output is strictly shorter exactly when some line has more than `min_cols` fields |
| PairIdColumn.SecondPassRemovesAnother | extras/apps/razers3/tests/run_tests.py:37-38 | a line with at least `min_cols + 2` fields loses a second field on a second pass |
| PairIdColumn.NormalizeNotIdempotent | extras/apps/razers3/tests/run_tests.py:32-40 | `apply` is not idempotent: for such a line, applying it twice differs from applying it once |
| Transforms.TransformsFor | extras/apps/razers3/tests/run_tests.py:148-153 | the list for a format starts with a copy of the path transforms and adds at most one. It removes pair ids exactly for `razers`, canonicalises the version exactly for `sam`, and is the path transforms alone for every other format |
| Transforms.FormatTable | extras/apps/razers3/tests/run_tests.py:254-259 | over the six formats: `razers` gives path + pair-id removal, `sam` gives path + VN regexp, the other four give path only |
| TestSuite.Decimal | extras/apps/razers3/tests/run_tests.py:93-100 | `'%d'` formatting gives a non-empty run of digits |
| TestSuite.DecimalValue | extras/apps/razers3/tests/run_tests.py:93-100 | `'%d' % n` and `str(n)` are the decimal representation of `n`: the digits denote `n`, and there is no leading zero unless the text is `0` |
| TestSuite.OutputTransforms | extras/apps/razers3/tests/run_tests.py:91-290 | the transform list of the output-file comparison. It removes pair ids exactly for paired-end non-format cases and the `razers` format, and canonicalises the version exactly for `sam`. A format case gets the path transforms plus at most one more (exactly the path transforms for formats other than `razers` and `sam`); a single-end non-format case gets no transforms, and a paired-end one at most one |
| TestSuite.StdoutTransforms | extras/apps/razers3/tests/run_tests.py:91-290 | the transform list of the stdout comparison: none outside the format cases, otherwise starting with the path transforms. A single-end format case gets exactly the path transforms (`transforms`); a paired-end format case gets the same list as its output file (`this_transforms`). It removes pair ids only for paired-end `razers` and canonicalises the version only for paired-end `sam` |
| TestSuite.MakeConf | extras/apps/razers3/tests/run_tests.py:91-290 | the `TestConf` one iteration appends: the located program; stdout redirected to `<stem>.stdout`; the options, the genome, the reads and `-o <stem>.<suffix>`; then the output and stdout comparisons. The stem is `se-adeno-reads<rl>_1` or `pe-adeno-reads<rl>_2` followed by the option tag (properties in ConfShape and PairedIndelsRepeatsDefault) |
| TestSuite.ConfShape | extras/apps/razers3/tests/run_tests.py:91-101 | every case compares two files, each golden fixture against the same-named scratch file. The case ends with `-o` and its output file, and stdout is redirected to the second compared file. The pair-id column is removed from the output file exactly for paired-end non-format cases and the `razers` format, and from stdout only for paired-end `razers`. The version is made canonical exactly for `sam` |
| TestSuite.CasesOf | extras/apps/razers3/tests/run_tests.py:89-181 | one case per option setting |
| TestSuite.CasesOfSnoc | extras/apps/razers3/tests/run_tests.py:89-181 | appending one setting appends its case |
| TestSuite.CasesOfStep | extras/apps/razers3/tests/run_tests.py:89-181 | taking one more setting of a list appends that setting's case |
| TestSuite.CasesOfAt | extras/apps/razers3/tests/run_tests.py:89-181 | the k-th case is the case of the k-th setting |
| TestSuite.CasesOfAppend | extras/apps/razers3/tests/run_tests.py:89-181 | the cases of two runs of settings are the cases of each run in turn |
| TestSuite.ReadLengthCasesGroups | extras/apps/razers3/tests/run_tests.py:89-181 | the cases of one read length come group by group: default, indels, strands, identity rates, formats, sort orders |
| TestSuite.AppendStrandCases | extras/apps/razers3/tests/run_tests.py:118-130 | the strand loop appends one case per flag `-r`, `-f`, in that order |
| TestSuite.AppendIdentityCases | extras/apps/razers3/tests/run_tests.py:133-145 | the identity loop appends one case per rate 90..100, in order |
| TestSuite.AppendFormatCases | extras/apps/razers3/tests/run_tests.py:148-166 | the format loop appends one case per format, numbered by position |
| TestSuite.AppendSortCases | extras/apps/razers3/tests/run_tests.py:169-181 | the sort-order loop appends one case per order 0, 1 |
| TestSuite.AppendReadLengthCases | extras/apps/razers3/tests/run_tests.py:89-181 | one read length's body appends exactly that read length's 23 cases, in the source order |
| TestSuite.AppendPairingCases | extras/apps/razers3/tests/run_tests.py:188-290 | a pairing mode's outer loop appends the cases of read length 36, then of 100 |
| TestSuite.BuildConfList | extras/apps/razers3/tests/run_tests.py:67-290 | the appends build exactly the specified list of single-end then paired-end cases, which has 92 entries |
| TestSuite.VariantCount | extras/apps/razers3/tests/run_tests.py:89-181 | each read length has 1 + 1 + 2 + 11 + 6 + 2 = 23 settings |
| TestSuite.PairingCasesLength | extras/apps/razers3/tests/run_tests.py:188-290 | a pairing mode contributes 23 cases per read length |
| TestSuite.Suite | extras/apps/razers3/tests/run_tests.py:67-290 | `conf_list` as built: the single-end cases, then the paired-end cases, each read length by read length (size and positions in SuiteSize and SuiteAt) |
| TestSuite.SuiteSize | extras/apps/razers3/tests/run_tests.py:89-290 | `conf_list` has 2 × 2 × 23 = 92 cases |
| TestSuite.PairingCasesAt | extras/apps/razers3/tests/run_tests.py:188-290 | within a pairing mode, case 23·r + k belongs to the r-th read length and its k-th setting |
| TestSuite.SuiteAt | extras/apps/razers3/tests/run_tests.py:89-290 | the position of every case in `conf_list`: single-end first, then paired-end, read length by read length |
| TestSuite.PairedIndelsRepeatsDefault | extras/apps/razers3/tests/run_tests.py:190-217 | the paired-end "Allow indels" case is identical to the paired-end default case, while the single-end one differs from its default |
| TestSuite.PairedRepeatAt | extras/apps/razers3/tests/run_tests.py:188-217 | for each read length, the first two paired-end cases coincide |
| TestSuite.SuiteRepeatsPairedDefault | extras/apps/razers3/tests/run_tests.py:188-217 | `conf_list` holds the same configuration at positions 46 and 47, and again at 69 and 70 |
| Report.Outcomes | extras/apps/razers3/tests/run_tests.py:294-295 | one result per case, the i-th being the outcome of the i-th case |
| Report.Failures | extras/apps/razers3/tests/run_tests.py:293-301 | the failure count never exceeds the number of cases |
| Report.FailuresCountsFalse | extras/apps/razers3/tests/run_tests.py:293-301 | `failures` is the number of `False` results |
| Report.SuccessesCountTrue | extras/apps/razers3/tests/run_tests.py:310 | total minus failures is the number of `True` results |
| Report.NoFailuresIffAllPass | extras/apps/razers3/tests/run_tests.py:293-313 | no failure is counted exactly when every run passed |
| Report.FailuresAppend | extras/apps/razers3/tests/run_tests.py:293-301 | the failure count is additive over consecutive runs of results |
| Report.FailingOneMore | extras/apps/razers3/tests/run_tests.py:298-301 | turning one passing result into a failing one adds exactly one failure |
| Report.CountFailures | extras/apps/razers3/tests/run_tests.py:293-302 | the execution loop counts the failed runs |
| Report.RunTests | extras/apps/razers3/tests/run_tests.py:67-313 | 92 tests in total; `failed` counts the `False` results and `successful` the `True` ones, and the two add up to the total; the return value is true exactly when some case failed |

## Left out

- The test library (`seqan.app_tests`) is not part of this model. `TestConf`, `ReplaceTransform` and `RegexpReplaceTransform` are records of how they are constructed, and nothing is claimed about path stripping or regular-expression semantics.
- `runTest` is not modelled: it runs the program, redirects stdout, reads and diffs files. Its result is a function parameter of `Report.RunTests`.
- Report.RunTests takes `runTest` as a pure function of the configuration, so two equal configurations get equal outcomes. The duplicated paired-end cases at positions 46/47 and 69/70 are therefore reported alike. In the harness they are two separate runs of the program, which could differ (a flaky run, a file left over from the first run). No stated property relies on this.
- `autolocateBinary` and `TestPathHelper` are symbolic. The program path is a parameter, and paths are `InFile(name)`/`OutFile(name)`. The tests-directory and scratch-directory prefixes are the constants `TestsSourceDir` and `TempDir`.
- `ph.outFile('-')`, which only ensures the scratch directory exists, is left out.
- `ph.deleteTempDir()` is left out, because it only touches the file system.
- Every `print` is left out. That covers the banner, the per-case `razers3 <args>` line with `OK`/`FAILED`, and the summary block; the numbers of the summary are the results of `Report.RunTests`.
- `sys.exit(app_tests.main(main))` is left out: the model stops at the returned flag.
- `Text.SplitLines` breaks only at `'\n'`. Which other boundaries Python's `splitlines` uses depends on the type of text the test library hands to `apply`, and that library is not part of this model. A Python 2 byte string also breaks at `\r` and `\r\n`. A unicode string further breaks at `\v`, `\f`, `\x1c`–`\x1e`, `\x85` and the Unicode line and paragraph separators.
- The length lemmas (`PairIdColumn.LineLength`, `PairIdColumn.LinesLength`, `PairIdColumn.NeverLonger`, `PairIdColumn.ShorterIffWideLine`) require `col_no >= 0`. With a negative `col_no`, Python's slicing can duplicate fields instead of dropping one, and the output can be longer. The harness only uses the default 8.
- PairIdColumn.WideLineLosesField requires at least two fields. A line that is a single field can lose it only when `min_cols` is 0 or less, and then it becomes the empty string, which `split` still reports as one field.
- PairIdColumn.ShorterIffWideLine, PairIdColumn.SecondPassRemovesAnother and PairIdColumn.NormalizeNotIdempotent require `col_no <= min_cols`. That is the only setting in which "more than `min_cols` fields" guarantees a field at `col_no`.
- PairIdColumn.SecondPassRemovesAnother and PairIdColumn.NormalizeNotIdempotent also require `min_cols >= 1`. With `min_cols` 0 or less a line can be reduced to a single field. Removing that field leaves the empty string, which still splits into one field, so the count stops going down. For example, with `col_no == 0` the line `"\t"` becomes `""` on the first pass and stays `""` on the second.
- PairIdColumn.NormalizeNotIdempotent is stated for one line without a newline. A line ending in `'\n'` whose last field is removed loses its newline and so merges with the next line on a second pass.
- The demo BAM-to-SAM copier in the same repository is left out: it is only file I/O through a library that is not part of this model.
