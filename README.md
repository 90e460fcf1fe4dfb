# GenomeCheck assembly statistics and BUSCO summary, in Dafny

This project models the deterministic core of GenomeCheck's
`genome_analyzer.py`, which has three parts.

- **Assembly statistics** (`compute_stats`). The input is an assembly's records. The output is:
  - the total length and the number of contigs;
  - N50: the length of the contig at which the longest-first cumulative sum first reaches half of the total;
  - L90: how many contigs, longest first, it takes to reach 90% of the total;
  - GC%: the share of G and C residues, counted case-insensitively.
- **BUSCO short-summary parsing** (`parse_busco_results` once the file has been read). Each line is stripped and classified by keyword. The keywords are tried in a fixed order of precedence. The line's leading integer is stored under the key it selects. When Total is positive, five percentages are derived. A recognised line whose first token is not an integer makes the whole result `None`.
- **Directory rows** (`process_directory` without BUSCO). Only entries named `*.fasta`, `*.fa` or `*.fna` are kept. Each becomes a row labelled with its name minus the last extension.

The state-changing parts keep their imperative form:
- the record loop;
- the N50 and L90 scans;
- the dictionary-filling line loop;
- the percentage block;
- the directory loop.

Each of these is a `method`, and the loops carry their invariants. Each method is proved equal to a specification function: `StatsOf` for the whole of `compute_stats`, `LengthsOf`, `TotalGC` and `Sum` for the record loop, `FirstCover` for the N50 and L90 scans, `SummaryOf` for the line loop, `AddPercents` for the percentage block and `RowsOf` for the directory loop. The properties the program promises are then proved as lemmas about those functions.

Modules:
- `Wrappers`: `Option`.
- `Lengths`: sums, the descending order, insertion sort and the heaviest-prefix argument.
- `PyStrings`: the Python `str` operations the source uses: `strip`, `split()[0]`, `int`, `in`, `endswith` and `rsplit`.
- `AssemblyStats`: `compute_stats`.
- `BuscoSummary`: `parse_busco_results`.
- `FastaFiles`: `process_directory`.

Inputs that the program reads from the outside world are parameters here:
- An assembly is the sequence of its records' residue strings, in file order.
- The summary file is its list of lines.
- A directory listing is a sequence of (file name, records) pairs, in listing order.

The two floating-point threshold tests of `compute_stats` are stated exactly over integers:
- `cumulative >= total_bases / 2` becomes `2 * cumulative >= total`.
- `cumulative >= total_bases * 0.9` becomes `10 * cumulative >= 9 * total`.

## Model

| member | source | states |
|---|---|---|
| AssemblyStats.ComputeStats | genome_analyzer.py:9-63 | the statistics returned for any records are exactly `StatsOf(records)`, so every lemma below about `StatsOf` holds of the method's result |
| AssemblyStats.ScanRecords | genome_analyzer.py:18-29 | the record loop collects every record's length in input order, the case-insensitive G/C count of all records, the sum of the lengths and the number of records |
| AssemblyStats.ScanN50 | genome_analyzer.py:37-45 | on descending lengths, the N50 loop stops at the first length where the cumulative sum reaches half the total and returns that length |
| AssemblyStats.ScanL90 | genome_analyzer.py:47-55 | on descending lengths, the L90 loop returns the least count of leading lengths whose sum reaches 90% of the total |
| AssemblyStats.FirstCover | genome_analyzer.py:41-45 | the first-reach index lies in 1..n, its prefix reaches the fraction, and no shorter prefix does |
| AssemblyStats.EmptyAssembly | genome_analyzer.py:31-32 | no records: total, contigs, N50, L90 and GC% are all zero |
| AssemblyStats.ContigsAndTotal | genome_analyzer.py:25-29 | Num contigs is the number of records; Total length is the number of residues of all records together |
| AssemblyStats.GCOfIsCaseInsensitive | genome_analyzer.py:24-27 | upper-casing and then counting "G" and "C" counts g, G, c and C alike, and never more than the record's length |
| AssemblyStats.GCPercentInRange | genome_analyzer.py:35 | GC% is the share of g/c residues among all residues, so it lies in [0, 100], and it is 0 when there are no residues even if there are records |
| AssemblyStats.N50IsAContigLength | genome_analyzer.py:34-45 | for non-empty input, N50 is the length of one of the records |
| AssemblyStats.N50HalvesTheAssembly | genome_analyzer.py:34-45 | contigs at least as long as N50 hold at least half of the assembly; when the total is positive, contigs strictly longer than N50 hold less than half |
| AssemblyStats.L90Reaches | genome_analyzer.py:48-55 | for non-empty input 1 <= L90 <= Num contigs, the L90 longest contigs reach 90% of the total, and L90 is 1 when every record is empty |
| AssemblyStats.L90IsMinimal | genome_analyzer.py:48-55 | any choice of fewer than L90 of the contigs, not only the longest ones, sums to less than 90% of a positive total |
| AssemblyStats.ContinuityDependsOnLengthsOnly | genome_analyzer.py:34 | assemblies with the same multiset of contig lengths have the same total, contig count, N50 and L90, whatever the record order |
| AssemblyStats.UniformAssembly | genome_analyzer.py:38-55 | n contigs all of length m > 0 give N50 = m and L90 = the least k with 10k >= 9n (five contigs of 100 give L90 = 5) |
| Lengths.SortDescendingSorted | genome_analyzer.py:34 | sorting with `reverse=True` yields a descending permutation of the lengths |
| Lengths.SortIsUnique | genome_analyzer.py:34 | any descending permutation of the lengths equals the sorted list, so the result does not depend on the sort algorithm |
| Lengths.SortKeepsSum | genome_analyzer.py:34 | sorting does not change the total length |
| Lengths.TopEntriesAreHeaviest | genome_analyzer.py:48-55 | in a descending list, any sub-multiset of c entries sums to no more than the first c entries |
| PyStrings.FirstTokenShape | genome_analyzer.py:142 | `split()[0]` fails exactly on a blank line; otherwise it is the non-empty run of non-whitespace after the leading whitespace, ending at whitespace or at the end of the line |
| PyStrings.ParseIntRoundTrip | genome_analyzer.py:142 | `int()` reads back every integer as Python prints it |
| PyStrings.StripShape | genome_analyzer.py:140 | `strip()` keeps a contiguous piece of the line, drops only whitespace at either end, and what it keeps neither starts nor ends with whitespace |
| PyStrings.ContainsIff | genome_analyzer.py:141-149 | the substring test `p in s` holds exactly when some window of `s` equals `p` |
| PyStrings.LastIndexOf | genome_analyzer.py:221 | the index found holds the character and no later position does; no index means the character does not occur |
| BuscoSummary.ParseBuscoSummary | genome_analyzer.py:138-160 | the line loop followed by the percentage block returns exactly `SummaryOf(lines)` |
| BuscoSummary.AddPercentages | genome_analyzer.py:152-158 | the percentage block returns exactly `AddPercents(counts)` |
| BuscoSummary.KeyOf | genome_analyzer.py:141-150 | a recognised line sets one of the five count keys: Complete_Single, Complete_Duplicated, Fragmented, Missing or Total |
| BuscoSummary.RecognisedLineHasToken | genome_analyzer.py:141-150 | a line that passes a keyword test is never blank, so `split()[0]` always finds a token and only `int()` can reject it |
| BuscoSummary.SummaryFailsIff | genome_analyzer.py:139-164 | the parse returns `None` exactly when some recognised line's first token is not an integer, and never a partial dictionary; the float overflow of the percentage block is not modelled |
| BuscoSummary.ParseFailsIff | genome_analyzer.py:139-150 | the same for the line loop started from any dictionary |
| BuscoSummary.ParsedKeys | genome_analyzer.py:139-150 | after the loop a key is present exactly when it was present before or some line selects it |
| BuscoSummary.UntouchedKeyKept | genome_analyzer.py:139-150 | unrecognised lines, and lines that select other keys, leave a key's presence and value unchanged |
| BuscoSummary.LastLineWins | genome_analyzer.py:139-150 | a key's value is the leading integer of the last line that selects it, because later lines overwrite earlier ones |
| BuscoSummary.AddPercentsKeepsCounts | genome_analyzer.py:153-158 | the percentage block leaves the five counts untouched |
| BuscoSummary.AddPercentsKeys | genome_analyzer.py:153-158 | when Total is missing or not positive nothing is added; otherwise exactly the five percentage keys are added, each its count divided by Total times 100, a missing count giving 0, and Complete_Percent from single-copy plus duplicated |
| BuscoSummary.CompleteIsSinglePlusDuplicated | genome_analyzer.py:158 | before rounding, Complete_Percent is the single-copy percentage plus the duplicated percentage (after `round(..., 2)` they can differ by 0.01) |
| BuscoSummary.SharesSumTo100 | genome_analyzer.py:154-157 | when single, duplicated, fragmented and missing add up to Total, their four unrounded percentages sum to 100 (after `round(..., 2)` the sum can be off by a few hundredths) |
| BuscoSummary.SummaryKeys | genome_analyzer.py:138-158 | a successful parse holds only the five count keys and the five percentage keys |
| FastaFiles.ProcessDirectory | genome_analyzer.py:213-222 | the directory loop returns exactly `RowsOf(listing)`: one row per FASTA entry, in listing order |
| FastaFiles.StemDropsExtension | genome_analyzer.py:221 | for a name ending in .fasta, .fa or .fna, `rsplit('.', 1)[0]` is the name without that extension |
| FastaFiles.FastaNameSplits | genome_analyzer.py:215-221 | every name the filter accepts is its stem followed by exactly one accepted extension |
| FastaFiles.RowsComeFromFastaEntries | genome_analyzer.py:214-222 | every row is the statistics row of a listed entry whose name passes the extension filter, and there are no more rows than entries |
| FastaFiles.FastaEntriesHaveRows | genome_analyzer.py:214-222 | every listed entry whose name passes the filter has its row |
| FastaFiles.RowsOfAppend | genome_analyzer.py:214-222 | the rows of two listings scanned one after the other are the rows of each, in order |

## Left out

- `run_busco` (genome_analyzer.py:66-112) is not part of this model. It creates directories and runs an external program with a timeout.
- `compute_stats_with_busco` (genome_analyzer.py:167-199) is not part of this model. `process_directory`'s default `include_busco=True` path is left out with it. It depends on the external BUSCO run. `ProcessDirectory` models the `include_busco=False` path.
- Finding and reading the summary file (genome_analyzer.py:127-135) is left out. `ParseBuscoSummary` receives the file's lines.
- Parsing FASTA with `SeqIO.parse` is left out. An assembly is given as its records' residue strings.
- `os.listdir`, `os.path.join` and file reading in `process_directory` are left out. The listing is given with each file's records, in listing order.
- The pandas `DataFrame` is left out. The result is a sequence of `Row` values.
- `print` calls are left out.
- The `except Exception` of `parse_busco_results` is modelled only for the exceptions the parsing code itself can raise. In the line loop that is only `ValueError` from `int()`, which gives `None`. `split()[0]` cannot raise `IndexError` there, because it runs only on a line that contains a keyword and so is never blank.
- BuscoSummary.SummaryFailsIff: the `OverflowError` that true division raises in the percentage block, when a count exceeds about 1.8·10^308 times Total, is not modelled, because the percentages are exact reals. The source returns `None` there; the model returns the dictionary.
- BuscoSummary.CompleteIsSinglePlusDuplicated: holds of the unrounded percentages only. The source rounds each one separately, so with one single-copy, one duplicated and Total 3 it reports 66.67 against 33.33 + 33.33.
- BuscoSummary.SharesSumTo100: holds of the unrounded percentages only. With one single-copy, one duplicated, one fragmented, none missing and Total 3, the source's rounded shares sum to 99.99.
- AssemblyStats.ComputeStats: GC% is the exact real quotient, without `round(..., 2)` and without floating-point division.
- BuscoSummary.AddPercentages: the percentages are exact real quotients, without `round(..., 2)`. `BuscoSummary.AddPercents` follows the same rule.
- AssemblyStats.ScanL90: the test `cumulative >= total_bases * 0.9` is modelled as `10 * cumulative >= 9 * total`. The two agree for every total below about 10^14 bases, because the float product is then never off by as much as the 0.1 that separates a non-integer target from the nearest integer, and it is exact when the target is an integer.
- AssemblyStats.ScanN50: `total_bases / 2` is exact in floating point for totals below 2^53, so `2 * cumulative >= total` is the same test.
- PyStrings.ParseInt: `int()` also accepts non-ASCII decimal digits and has a limit on the number of digits. Neither is modelled. The model accepts an optional sign and ASCII digits with single underscores between digits.
- AssemblyStats.Upper: Biopython upper-cases sequence data as bytes. The model upper-cases ASCII letters only, which is what that does.
- streamlit_app.py and utils/file_handlers.py are not part of this model. They are a user interface and file-system plumbing. The statistics function nested in streamlit_app.py repeats `compute_stats`.
- The keyword tests are case-sensitive, as written. A summary line that spells a category differently, such as "single-copy", is not recognised by the "Single" test. The model keeps that behaviour.
