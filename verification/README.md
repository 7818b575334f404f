# Coverage gate for the production contracts

This project models the coverage gate in `script/check-coverage.py` and proves properties of it. The gate runs
`forge coverage --report summary` and reads the text table the tool prints. It then requires every tracked
production contract that appears in the report (`src/CollectibleCast.sol`, `src/Metadata.sol`,
`src/Minter.sol`, `src/TransferValidator.sol`, `src/Auction.sol`) to reach exactly 100% on lines,
statements, branches and functions. A tracked contract missing from the report is skipped, not failed: a report
that names none of them passes. The result is a process exit code.

The model has six modules:

- `PyText` (`pytext.dfy`) gives the Python string operations the parser uses:
  - `str.split` with a one-character separator, with `Join` as its inverse;
  - `str.strip()`, removing exactly the characters for which `str.isspace()` holds;
  - the substring test `sub in s`.
- `PyOrder` (`pyorder.dfy`) gives Python's `<` on strings (code-point lexicographic order) and `sorted()` over
  the report's keys. It proves that a set has exactly one strictly sorted listing.
- `Percent` (`percent.dfy`) is the cell scanner.
  - It is an explicit leftmost-match scanner for the one pattern `(\d+\.\d+)%`.
  - The matched number is read as an exact `real`.
  - A cell with no match gives 0.
- `Report` (`report.dfy`) handles the table.
  - `ParseRow` classifies one row.
  - `ReportOf` is the specification of the parse loop: a fold over the lines in which a later row overwrites an
    earlier one with the same key.
  - `ParseReport` is the loop itself, a method that updates a `map` step by step.
- `Gate` (`gate.dfy`) holds the fixed tracked list and the verdict `Passes`.
  - `Evaluate` is the evaluation loop: it appends to `contracts_checked` and clears `all_pass`.
  - `SourceListing` builds the sorted listing of source contracts, with untracked files flagged.
  - `CheckCoverage` is the whole run. It returns the exit code as a value.
- `Wrappers` (`wrappers.dfy`) holds `Option`.

The coverage tool is an input to `CheckCoverage`: either the text it printed (`Completed`) or a failure carrying
its error text (`Failed`).

The model follows the code in the places listed below, where a plain description of the table could suggest
something else:

- A data row is split on every `|`. Piece 0 is the empty text before the leading `|` and piece 1 is the file, so
  "at least six pieces" means the file plus four metric cells. There is no separate row-label column.
- A line is only a candidate when it contains the three characters ` | ` (space, bar, space). Containing an
  interior `|` is not enough.
- Percentages are not bounded. `150.00%` reads as 150 and fails, because it is not exactly 100. The pattern also
  takes any number of digits on either side of the point, not only two decimals.
- The table's header row `| File | % Lines | ... |` passes the row test. It is recorded under the key `File`
  with four zeros. This key is neither tracked nor a source file, so it never affects the verdict or the listing.

## Model

| member | source | states |
|---|---|---|
| `PyText.Split` | script/check-coverage.py:45 | every piece is free of the separator, and there is at least one piece |
| `PyText.JoinSplit` | script/check-coverage.py:45 | joining the pieces of `s.split(sep)` with `sep` gives back `s` |
| `PyText.SplitJoin` | script/check-coverage.py:45 | splitting pieces joined by a separator they do not contain gives back the pieces |
| `PyText.SplitCount` | script/check-coverage.py:46 | `s.split(sep)` has one piece more than `s` has occurrences of `sep`, so "at least 6 pieces" means at least five `\|` |
| `PyText.Strip` | script/check-coverage.py:47 | the result is a substring of the input; it is empty iff the input is all whitespace; otherwise its first and last characters are not whitespace |
| `PyText.StripPadded` | script/check-coverage.py:47 | stripping a whitespace-padded text whose ends are not blank gives exactly that text |
| `PyText.Contains` | script/check-coverage.py:44 | the substring test `' \| ' in line`: some position of the line starts an occurrence; used by `Report.AcceptedRowShape` and `Report.RowRoundTrip` |
| `PyOrder.Below` | script/check-coverage.py:86 | Python's `<` on `str`, code point by code point with a proper prefix below; a strict total order by `PyOrder.BelowTotal` and its irreflexivity, asymmetry and transitivity lemmas |
| `PyOrder.SortedKeys` | script/check-coverage.py:86 | `sorted(keys)` is strictly ascending in Python's string order and holds exactly the keys |
| `PyOrder.SortedUnique` | script/check-coverage.py:86 | two strictly sorted sequences with the same elements are equal, so the sorted listing is determined by the key set |
| `PyOrder.BelowTotal` | script/check-coverage.py:86 | any two different strings are ordered one way or the other |
| `Percent.MatchAt` | script/check-coverage.py:50 | a result is a match of `(\d+\.\d+)%` at that position; no result means no match starts there |
| `Percent.MatchAtUnique` | script/check-coverage.py:50 | at a given start the pattern matches in at most one way, and `MatchAt` finds that match |
| `Percent.Search` | script/check-coverage.py:50-53 | the scanner returns the leftmost match: it is a match, and no match starts earlier; no result means there is no match anywhere |
| `Percent.Decimal` | script/check-coverage.py:56-59 | `float(m.group(1))` on a matched `W.F`, read exactly; pinned down by `Percent.DecimalExact`, `Percent.DecimalBounds` and `Percent.DecimalIsHundred` |
| `Percent.DecimalBounds` | script/check-coverage.py:56-59 | the whole digits give the integer part of `W.F`; the fraction digits add less than 1 |
| `Percent.MetricOf` | script/check-coverage.py:50-59 | a cell's metric: the leftmost match read exactly, or 0 when the search finds nothing; pinned down by `Percent.CellMatch`, `Percent.CellValue`, `Percent.NoPointIsZero` and `Percent.MetricNonNegative` |
| `Percent.MetricNonNegative` | script/check-coverage.py:50-59 | no cell yields a negative metric |
| `Percent.CellMatch` | script/check-coverage.py:50 | in a cell `<text without digits>W.F%<anything>` the search finds exactly the match spanning `W.F%` |
| `Percent.CellValue` | script/check-coverage.py:50-59 | a cell `<text without digits>W.F%<anything>` yields exactly the number W.F |
| `Percent.NoPointIsZero` | script/check-coverage.py:56-59 | a cell without a decimal point, such as `100%`, yields 0 |
| `Percent.DecimalExact` | script/check-coverage.py:56 | the value of `W.F` is the digits of W and F read as one integer and divided by 10^\|F\| |
| `Percent.DecimalIsHundred` | script/check-coverage.py:76 | a matched number equals 100 iff its integer digits denote 100 and every fraction digit is 0 (99.99 and 100.01 fail) |
| `Report.ParseRow` | script/check-coverage.py:44-59 | the classification of one line; pinned down by `Report.AcceptedRowShape` (what an accepted line must be), `Report.RowRoundTrip` (every printed row is read back) and `Report.MalformedCellsRecordZero` |
| `Report.Record` | script/check-coverage.py:55-60 | one line's effect on the map, the dict assignment `coverage_data[contract] = ...`; see `Report.ReportLastWins` |
| `Report.ReportOf` | script/check-coverage.py:40-60 | the map after all lines; its keys are fixed by `Report.ReportKeys` and its records by `Report.ReportLastWins`, `Report.ReportFromLastRow` and `Report.RejectedLineIgnored` |
| `Report.ParseReport` | script/check-coverage.py:40-60 | the loop over the output's lines builds exactly `ReportOf` of those lines |
| `Report.AcceptedRowShape` | script/check-coverage.py:44-48 | an accepted line starts with `\|`, contains ` \| ` and has at least five `\|`; its key is non-empty, does not start with `-`, holds no `\|` and has no surrounding whitespace |
| `Report.RowRoundTrip` | script/check-coverage.py:44-59 | a row printed as `\| key<pad>\|c1\|c2\|c3\|c4\|` is read back under exactly that key, for any column padding `pad` of one or more spaces (the `.strip()` at line 47 removes it). The key must have no `\|`, must not start with `-` and must have no surrounding whitespace; the cells must be free of `\|` and the first must start with a space. Each metric is what its own cell yields |
| `Report.MalformedCellsRecordZero` | script/check-coverage.py:55-60 | a row whose metric cells hold no decimal point is still recorded, with 0 for all four metrics, whatever its column padding |
| `Report.ReportKeys` | script/check-coverage.py:43-55 | the report's keys are exactly the keys of the accepted rows |
| `Report.ReportLastWins` | script/check-coverage.py:47-55 | a key's record is the one from its last accepted row |
| `Report.ReportFromLastRow` | script/check-coverage.py:55 | every key in the report has a last accepted row, and that row gives the recorded metrics |
| `Report.RejectedLineIgnored` | script/check-coverage.py:43-48 | removing a line that is not a data row, at any position, leaves the report unchanged |
| `Gate.ProductionContractsDistinct` | script/check-coverage.py:14-20 | the tracked list names no file twice |
| `Gate.FullyCovered` | script/check-coverage.py:76 | all four metrics are exactly 100; the same test as `all(v == 100.0 ...)` at line 92, and as the per-metric test by `Gate.Metrics` |
| `Gate.Passes` | script/check-coverage.py:66-80 | the value of `all_pass` after the loop, as proved by `Gate.Evaluate`; read off the text by `Gate.VerdictFromLastRows` |
| `Gate.Metrics` | script/check-coverage.py:75-80 | a record has four metrics, and all four are 100 exactly when the record is fully covered |
| `Gate.Evaluate` | script/check-coverage.py:66-80 | `contracts_checked` is the tracked files present in the map, in tracked order; `all_pass` holds iff every tracked file present has all four metrics exactly 100 |
| `Gate.PresentTrackedMembers` | script/check-coverage.py:69-71 | a file is in `contracts_checked` iff it is tracked and present in the report |
| `Gate.PresentTrackedDistinct` | script/check-coverage.py:67-71 | a tracked list without repeats gives a `contracts_checked` without repeats |
| `Gate.PassesOverChecked` | script/check-coverage.py:69-80 | the verdict is the all-100 test over `contracts_checked` |
| `Gate.NothingTrackedPasses` | script/check-coverage.py:66-80 | when no tracked file is in the report, nothing is checked and the verdict is pass |
| `Gate.UntrackedKeyIrrelevant` | script/check-coverage.py:69-80 | adding or removing a key the tracked list does not name never changes the verdict |
| `Gate.VerdictFromLastRows` | script/check-coverage.py:43-80 | the verdict is pass iff, for every tracked file, its last accepted row in the text is fully covered |
| `Gate.PassesGivesLastRowsFull` | script/check-coverage.py:55-80 | under a pass verdict, the last accepted row of every tracked file is fully covered |
| `Gate.Listing` | script/check-coverage.py:86-94 | the listing loop over given keys; pinned down by `Gate.ListingMembers`, `Gate.ListingSorted` and `Gate.ListingUntracked` |
| `Gate.SourceListing` | script/check-coverage.py:86-94 | the listing over `sorted(coverage_data.keys())`; see `Gate.SourceListingSorted` and `Gate.NotTrackedListing` |
| `Gate.ListingMembers` | script/check-coverage.py:86-94 | the listing holds each source key (under `src/`, not `src/Counter.sol`): untracked keys are flagged, and tracked keys carry their all-100 status |
| `Gate.ListingSorted` | script/check-coverage.py:86-94 | over strictly sorted keys, the listing names only those keys, in strictly ascending order, each at most once |
| `Gate.SourceListingSorted` | script/check-coverage.py:86-94 | the printed listing is in ascending order, names each file at most once, and names only files of the report |
| `Gate.ListingUntracked` | script/check-coverage.py:86-89 | over sorted keys, the flagged keys come out strictly sorted and are exactly the untracked source keys |
| `Gate.NotTrackedListing` | script/check-coverage.py:86-89 | the "not tracked" keys are exactly the report's untracked source files, in sorted order |
| `Gate.CheckCoverage` | script/check-coverage.py:34-105 | a failed tool run exits 1 and builds no map; otherwise the exit code is 0 iff the verdict is pass, the map, checked list and listing are the specified ones, and `contracts_checked` has no repeats |
| `Gate.FullCell` | script/check-coverage.py:50-59 | a cell ` 100.00%` followed by any counts reads exactly 100 |
| `Gate.ShortBranchesCell` | script/check-coverage.py:50-59 | the cell ` 92.50% (37/40) ` reads exactly 92.5 |
| `Gate.AuctionShortRowParses` | script/check-coverage.py:44-60 | the row for `src/Auction.sol`, padded to the width of `src/TransferValidator.sol`, with branches at 92.50%, is accepted under that key with metrics exactly 100, 100, 92.5, 100, so it is not fully covered and only branches falls short |
| `Gate.LastRowShortfallFails` | script/check-coverage.py:55-80 | a tracked file whose last row is not fully covered makes the verdict fail, whatever the other rows say |
| `Gate.AuctionShortBranchesFails` | script/check-coverage.py:14-80 | a report holding that `src/Auction.sol` row, with no later row for the same file, fails |

## Left out

- The `forge coverage` subprocess (script/check-coverage.py:26-37) is not modelled. Its result is the `ToolRun` input to `CheckCoverage`. Printing the captured error text is not modelled. Neither is a missing `forge` executable, which the script does not catch: it ends with an uncaught exception, not with `sys.exit(1)`.
- All terminal output is left out: progress lines, colour codes, emoji, the `:.2f` value formatting and the final messages. This includes the per-metric ✅/❌ lines for each checked file. Which metric of a file failed can still be read from its record in the map.
- `float(...)` is replaced by exact decimals. A fraction long enough to round to 100.0 in a double, such as `99.99999999999999999`, passes in the script but fails in the model. Numbers too large for a double are also left out.
- Python's `\d` on `str` also matches non-ASCII decimal digits, and `float` accepts them. The scanner accepts only `0`-`9`.
- Python strings are sequences of code points, which may include lone surrogates. Dafny's `char` is a Unicode scalar value.
- `sys.exit` is not modelled as a process effect. The exit code is returned as a value.
