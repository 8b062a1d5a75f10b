# Gene region coverage, modelled in Dafny

`task1.py` reports how much of each exon and each intron of a set of genes is covered by the
intervals of a BED file. It reads a gene list such as `TP53,CDH1,GAPDH`. It keeps the
canonical exons of those genes from a GFF annotation, converting coordinates from 1-based
inclusive to 0-based half-open. It derives introns as the positive gaps between
start-sorted exons of each gene. Then it writes one row per exon and then one row per
intron, holding the gene, the region type, start, end and the covered percentage.

The project models that core:

- `gene_list.dfy`: `parse_gene_list`.
- `gff.dfy`: the per-line logic of `parse_gff` and the loop over the lines.
- `introns.dfy`: `calculate_introns`.
- `coverage.dfy`: `calculate_coverage`.
- `pipeline.dfy`: the composition in `main`.
- `text.dfy`: the Python string operations the code relies on: `str.isspace`, `strip`,
  `split(sep)`, `split()`, `replace`, the substring `in` test, `int()` on a string and
  string `<`.
- `sorting.dfy`: a sort by an integer key, proved sorted and a permutation.
- `scenarios.dfy`: worked cases.

Each Python exception the core can raise is an explicit error value: `IndexError` on a
short line, `TypeError` on a missing `tag`, `ValueError` from `int()`, and `KeyError` from
`groupby` on an empty table. The loops that build tables (`parse_gff`, `calculate_introns`,
`calculate_coverage`) are methods with loop invariants. Each is proved equal to a
specification function, and the properties are lemmas about those functions. `main` has no
loop. It is modelled as `RunPipeline`, a straight-line method whose ensures is `RunsTo`.

### Behaviour of the code that the model keeps

- **Missing `tag` raises.** A listed exon with no `tag` attribute makes the code raise
  (`'canonical' in None`), so the model returns `Err(MissingTag)`. It does not treat the
  exon as non-canonical.
- **No gene identifier means the line is skipped.** An exon with neither `gene_name` nor
  `Name` is silently skipped, because `None in gene_list` is false. No error is raised.
- **No matching exon is an error.** When no exon matches, `pd.DataFrame([])` has no
  `gene` column and `groupby('gene')` raises `KeyError`. The run therefore fails
  (`IntronsFailed(NoGeneColumn)`). It does not yield an empty table.
- **Sort key is `start` alone.** Exons are sorted by `start` only, with pandas' unstable
  default sort. The model does not fix a tie order: `CalculateIntrons` returns, as a ghost
  value, the order it used for each gene. Every property is proved for any start-sorted
  order.
- **`canonical` is a substring test.** The code tests whether the tag *contains*
  `canonical`; the model does the same.

## Model

| member | source | states |
|---|---|---|
| GeneList.ParseGeneList | task1.py:6-8 | every symbol returned is non-empty and holds no comma and no whitespace |
| GeneList.ParseGeneListOrder | task1.py:6-8 | the symbols, concatenated in order, are exactly the non-separator characters of the argument: nothing is lost, added or reordered |
| GeneList.ParseGeneListInterleave | task1.py:6-8 | round trip for any separators: symbols separated by non-empty runs of commas, tabs and whitespace in any mix, with any such run before the first and after the last, parse back to the same list |
| GeneList.SpacedInterleave | task1.py:8 | the two `replace` calls leave the symbols alone and act on each separator run separately |
| GeneList.SpacedSeparators | task1.py:8 | a run of separators becomes a run of whitespace of the same length |
| GeneList.ParseGeneListJoin | task1.py:6-8 | round trip: symbols joined by commas parse back to the same list |
| GeneList.SpacedSymbols | task1.py:8 | after commas and tabs become spaces, the non-whitespace characters are exactly the non-separator characters |
| Text.Strip | task1.py:16 | `strip()` is no longer than its input, neither begins nor ends with whitespace, and leaves a string without whitespace unchanged |
| Text.Words | task1.py:8 | every word of `split()` is non-empty and holds no whitespace, and the words, concatenated, are the input's non-whitespace characters in order |
| Text.WordsInterleave | task1.py:8 | round trip for `split()`: words separated by whitespace runs of any length, with any whitespace before and after, split back to the same words |
| Text.WordsFromSpaces | task1.py:8 | a non-empty whitespace run ends the current word and is otherwise skipped |
| Text.Split | task1.py:16 | `split(c)` gives at least one piece, no piece holds `c`, joining the pieces with `c` gives the input back, and there is more than one piece exactly when `c` occurs |
| Text.SplitJoin | task1.py:16 | round trip: pieces without `c`, joined by `c`, split back to the same pieces |
| Text.WordsJoin | task1.py:8 | `split()` of non-empty whitespace-free words joined by spaces gives back the words |
| Text.WordsConcat | task1.py:8 | `split()` keeps every non-whitespace character, in order |
| Text.StripSlice | task1.py:16 | `strip()` is a slice of its input that removes only whitespace and neither starts nor ends with whitespace |
| Text.ContainsAt | task1.py:21 | the substring test holds exactly when the pattern occurs at some index |
| Text.ParseInt | task1.py:24-25 | `int()` succeeds only when the stripped text is a numeral (an optional sign and one or more digits), so anything else raises `ValueError`; it raises on an empty or all-whitespace string, reads a plain run of digits as its decimal value, and gives a negative number only after a leading `-` |
| Text.ParseIntNumeral | task1.py:24-25 | a numeral padded with whitespace on either side, with an optional `+` or `-`, is read as its decimal value, negated after `-` |
| Text.ParseIntSigned | task1.py:24-25 | a string that strips to an optional sign and digits is read as the digits' value, negated after `-` |
| Text.StripPadded | task1.py:16 | `strip()` removes exactly the whitespace padding around a string that neither starts nor ends with whitespace |
| Text.IntRoundTrip | task1.py:24-25 | `int()` of the decimal text of any integer gives that integer back |
| Text.LessTotal | task1.py:35 | the string order `groupby` sorts its keys by is total |
| Text.LessTransitive | task1.py:35 | the string order is transitive |
| Gff.KeyValue | task1.py:19 | the key is the text before the first `=`, the value the text up to the next `=` or the end, and neither holds `=` |
| Gff.AttributesOf | task1.py:19 | no key and no value of the attribute dictionary holds `=` |
| Gff.AttributesKeys | task1.py:19 | a key is in the attribute map exactly when some item holding `=` defines it |
| Gff.AttributesLastWins | task1.py:19 | a key maps to the value of the last item that defines it |
| Gff.GeneId | task1.py:20 | an identifier is a non-empty `gene_name` or the `Name` value; there is none only when `Name` is missing |
| Gff.GeneIdFallback | task1.py:20 | a non-empty `gene_name` wins, otherwise `Name` is taken; there is no identifier only when both are missing |
| Gff.InterpretLine | task1.py:14-28 | a record yielded by a line has type `exon` and a gene from the list |
| Gff.InterpretFields | task1.py:16-28 | a line whose third field is not `exon` yields nothing; a record yielded has type `exon`, a listed gene and the first field as chromosome; a `TypeError` is raised only when the attributes hold no `tag`; an `IndexError` is raised exactly when the line has fewer than 3 fields, or is an `exon` line with fewer than 9 |
| Gff.ExonRecord | task1.py:22-28 | the record exists exactly when both coordinate fields are numerals, otherwise `ValueError`; its start is the 1-based start minus one and its end the inclusive end, with chromosome, type and gene copied |
| Gff.InterpretSkips | task1.py:14-21 | comments, non-exon lines, exons without an identifier and exons of unlisted genes are skipped; a listed exon with no `tag` raises; a tag without `canonical` is skipped |
| Gff.InterpretEmits | task1.py:14-28 | a line yields record `r` exactly when its exon fields name a listed gene, its tag contains `canonical` and its coordinates parse to `r.start + 1` and `r.end`; `r` copies the chromosome and the type |
| Gff.FieldsEmit | task1.py:17-28 | the same, on the tab fields of the stripped line |
| Gff.Outcomes | task1.py:13-28 | one outcome per input line, in order |
| Gff.OutcomesAppend | task1.py:13-28 | the outcomes of two inputs in sequence are the outcomes of each, concatenated |
| Gff.CollectStep | task1.py:13-28 | one more line either keeps an earlier error, raises its own error at its index, leaves the records alone or appends its record |
| Gff.ExonRecordEmits | task1.py:22-28 | an exon record exists exactly when both coordinates are numerals; it holds the chromosome, the start minus one, the end and the gene |
| Gff.Collect | task1.py:13-28 | the loop keeps at most one record per line, each record is one a line yielded, and an error names a line whose outcome is that error |
| Gff.ParseLines | task1.py:13-28 | at most one record per line, every record has type `exon` and a listed gene, and a failure names a line that raises that error |
| Gff.ParseGff | task1.py:10-29 | the loop over the lines returns the records the lines emit, in order, or the first line's exception |
| Gff.ParseLinesFirstError | task1.py:13-28 | parsing succeeds exactly when no line raises; a failure names the first line that raises and what it raised |
| Gff.ParseLinesOk | task1.py:13-28 | parsing succeeds exactly when every line's outcome is not an exception |
| Gff.ParseLinesErr | task1.py:13-28 | a failure names a line that raises that error, and every earlier line does not raise |
| Gff.ParseLinesRecords | task1.py:13-28 | every record comes from some line, and every line that emits a record has it in the result |
| Gff.ParseLinesAppend | task1.py:13-28 | parsing two inputs that both succeed and concatenating the results equals parsing their concatenation |
| Gff.ParseLinesNothing | task1.py:13-29 | the result is empty exactly when every line is a comment or is skipped |
| Gff.ParsedExons | task1.py:21-28 | every parsed record has type `exon` and a gene from the list |
| Gff.CollectErrorStays | task1.py:13-28 | once a prefix of the lines raises, the whole loop raises the same error |
| Gff.CollectNothing | task1.py:13-28 | nothing is collected exactly when every outcome is a skip |
| Sorting.SortBy | task1.py:38 | the result is sorted by the key and is a permutation of the input |
| Sorting.Insert | task1.py:38 | inserting into a sorted sequence keeps it sorted and adds exactly that element |
| Sorting.InsertBelow | task1.py:38 | a head that sorted before the rest and is no larger than the inserted element still heads a sorted result |
| Introns.GroupOf | task1.py:35-37 | a gene's group holds exactly the rows of that gene |
| Introns.GroupOfConcat | task1.py:35-37 | grouping distributes over concatenation |
| Introns.GeneKeys | task1.py:35-37 | the groups are visited in strictly ascending gene order, one per distinct gene of the table |
| Introns.InsertKeySorted | task1.py:35-37 | adding a gene to the strictly ascending keys keeps them strictly ascending and adds exactly that gene |
| Introns.GeneIntrons | task1.py:40-50 | the inner loop appends exactly the introns of the adjacent pairs with a positive gap |
| Introns.CalculateIntrons | task1.py:31-52 | fails exactly on an empty exon table; otherwise returns the introns of each gene in key order, computed on a start-sorted permutation of that gene's exons; every intron returned has type `intron`, positive length, and lies between two exons of its own gene |
| Introns.GroupIntrons | task1.py:37-50 | the loop over the groups sorts each gene's group by start and appends its introns, in key order; each intron is non-empty and spans the gap between two exons of one gene |
| Introns.IntronsStep | task1.py:37-50 | handling one more gene extends the valid orders by its sorted group and the introns by that group's gaps |
| Introns.Gaps | task1.py:40-50 | every intron built from one gene's group has type `intron`, that gene, and positive length |
| Introns.GapsCount | task1.py:40-43 | a group of n >= 1 exons gives at most n - 1 introns, exactly n - 1 when every adjacent gap is positive, and none for n <= 1 |
| Introns.GapsShape | task1.py:40-50 | every intron is built from an adjacent pair with a positive gap, and every such pair gives its intron |
| Introns.GapsEndBound | task1.py:38-47 | on a start-sorted group, no intron ends after the last exon's start |
| Introns.GapsDisjoint | task1.py:38-50 | on a start-sorted group of well-formed exons, the introns are ordered and do not overlap |
| Introns.IntronsOf | task1.py:37-50 | every intron of the whole table has type `intron`, a gene among the group keys, and positive length |
| Introns.IntronsOfMember | task1.py:37-50 | every intron in the table comes from the group of one gene |
| Introns.IntronsProvenance | task1.py:37-50 | every intron has type `intron`, positive length, a gene among the keys, and lies between two exons of its own gene on the earlier exon's chromosome |
| Introns.IntronsGeneOrder | task1.py:37 | intron rows are grouped by gene in ascending gene order |
| Introns.IntronsOfGroup | task1.py:37-50 | the introns of one gene in the table are exactly that gene's gaps |
| Introns.IntronsPerGene | task1.py:37-43 | a gene has at most one intron fewer than it has exons |
| Introns.IntronsDisjointPerGene | task1.py:37-50 | the introns of one gene do not overlap each other |
| Coverage.CountBounds | task1.py:64-67 | no more bases are covered than the region holds; all of them exactly when every base is covered, none exactly when no base is |
| Coverage.CountSplit | task1.py:64 | the covered count of a range is the sum of the counts of its two parts |
| Coverage.CountSame | task1.py:64 | the count depends only on which bases are covered, not on how many intervals cover them |
| Coverage.Clip | task1.py:64 | clipped intervals lie inside the region, on its chromosome |
| Coverage.ClipCovers | task1.py:64 | inside the region, clipping changes no base's coverage |
| Coverage.ClipEmpty | task1.py:64 | a region whose end is before its start keeps no clipped interval |
| Coverage.CoversConcat | task1.py:64 | a base is covered by two interval lists together exactly when one of them covers it |
| Coverage.PermutationCovers | task1.py:64 | reordering the intervals changes no base's coverage |
| Coverage.SortedInside | task1.py:64 | sorting keeps every clipped interval inside the region |
| Coverage.SweepCounts | task1.py:64 | the frontier sweep over start-sorted intervals counts each covered base once |
| Coverage.CoveredBases | task1.py:64 | clip, sort and sweep give exactly the number of covered bases (union, not sum, of overlaps) |
| Coverage.RegionRow | task1.py:59-74 | the row built for one region, from the swept count, the `* 100` and the clamp at 100, is the row of the base-by-base specification |
| Coverage.UnionProof | task1.py:64 | the sweep over any start-sorted permutation of the clipped intervals gives the base count |
| Coverage.Fraction | task1.py:64-67 | the stand-in for `bedtools coverage`'s last column: 0 for a region of length zero, otherwise the fraction times the length is the number of covered bases |
| Coverage.CoveragePercent | task1.py:64-73 | the percentage lies in [0, 100], and is 0 for a region of length zero |
| Coverage.FractionInUnit | task1.py:64-67 | the covered fraction lies in [0, 1] however the intervals overlap |
| Coverage.PercentShare | task1.py:64-73 | for a non-empty region the percentage is exactly covered / length * 100, so the clamp never cuts it |
| Coverage.PercentExtremes | task1.py:64-73 | the percentage is 100 exactly when every base is covered and 0 exactly when none is |
| Coverage.PercentOfCount | task1.py:64-73 | the covered count is at most the length, and the percentage is count / length * 100 |
| Coverage.ScaledShare | task1.py:67-73 | a percentage count / length * 100 times the length is 100 * count; it is 100 exactly at a full count and 0 exactly at a zero count |
| Coverage.RowFor | task1.py:68-74 | the row copies gene, type, start and end from its region, and its percentage lies in [0, 100] and is 0 for a region of length zero |
| Coverage.CoverageRows | task1.py:59-74 | one row per region |
| Coverage.CoverageRowsAt | task1.py:59-74 | the row at each position is the row of the region at that position, so the region order is kept |
| Coverage.CoverageRowsFields | task1.py:68-73 | each row copies gene, type, start and end from its region and holds that region's percentage, which lies in [0, 100] and is 0 for a region of length zero |
| Coverage.CalculateCoverage | task1.py:54-76 | the loop over the regions builds exactly those rows |
| Pipeline.Report | task1.py:93-97 | the merged table has one row per exon and per intron |
| Pipeline.ReportOrder | task1.py:93-97 | exon rows come first in exon order, then intron rows in intron order |
| Pipeline.ReportLayout | task1.py:84-97 | for parsed exons and derived introns, a row is an exon row exactly when it is among the first exon-count rows, every row names a listed gene, intron rows have positive length and every percentage is in [0, 100] |
| Pipeline.RunPipeline | task1.py:84-97 | `main` stops with the first malformed line's error, fails on an empty exon table, and otherwise returns the merged table of the parsed exons and their introns: the parsed exons' rows first, in order, and every row names a listed gene with a percentage in [0, 100] |
| Pipeline.RunOutcome | task1.py:84-97 | a run fails exactly when some line raises or no line yields an exon |
| Scenarios.IntronScenario | task1.py:31-52 | exons [100,200) and [300,400) of one gene give exactly the intron [200,300), whatever order the sort returns |
| Scenarios.TwoExonOrder | task1.py:38 | those two exons have only one start-sorted order |
| Scenarios.CoverageScenario | task1.py:54-76 | against the interval [150,350) both exons are 50 % covered and the intron 100 % |
| Scenarios.HalfCovered | task1.py:64 | a range covered on exactly one side of a midpoint counts that side's bases |
| Scenarios.GeneListScenario | task1.py:6-8 | `TP53,CDH1,GAPDH` gives the three symbols in order |

## Left out

- Command-line parsing, opening and reading the two files, writing the CSV and the final
  message are left out. The annotation arrives as a sequence of lines, the BED file as a
  sequence of `(chrom, start, end)` intervals, and the result is returned as rows.
- pandas mechanics are not modelled: DataFrame construction, `iterrows`, `concat` and the
  index. Tables are sequences of records.
- The bedtools subprocess (`BedTool(...).coverage(...)`) is replaced by a direct count of
  the covered bases. The count is clip, sort by start, and sweep, proved equal to a
  base-by-base count. bedtools' own handling of malformed BED input is not modelled.
- Floating point is left out. The fraction and the percentage are exact `real`s, so
  rounding of `float` division and multiplication is not captured.
- Coordinates are unbounded integers, so int64 overflow in pandas is not captured.
- Coverage.CoveragePercent: a region whose end is not after its start (only possible
  from a malformed annotation line) is given percentage 0. What bedtools reports for such a
  region is not modelled.
- Text.ParseInt: accepts surrounding whitespace, an optional sign and ASCII digits.
  Python's `int()` also accepts `_` between digits and non-ASCII decimal digits; these
  are not modelled and are treated as a `ValueError`.
- Introns.CalculateIntrons: the order pandas' unstable sort gives to exons with equal
  starts is not modelled. The result is promised for some start-sorted order per gene,
  which is all the code guarantees.
- An empty lookup in `gene_list` is not special-cased. `""` as a gene identifier can
  never match, because every parsed symbol is non-empty.
