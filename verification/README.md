# compcomp: a verified model of the pure core

compcomp.py is a benchmarking script. It runs a table of compression tools
over a set of files and reports, per compression method, how much space the
results take. This project models the part of the script that computes
rather than performs I/O:

- `roundup`, which rounds a byte count up to whole 4 KiB blocks (module `Blocks`);
- Python's `in`, `str.count` and `str.replace`, which the templating relies on (module `Text`);
- the `comps` table as data, one function per row or row comprehension (module `Table`);
- the front half of `run_one`: the `FILE_OR_DIR`, `FILE` and `BASE` placeholders are filled in, the two suffix assertions are checked, and the name of the output file to measure is chosen (module `Templating`);
- the integer fields of `Stats` and the integer part of the main loop that folds each measurement into the record of its method (module `Aggregation`).

`Wrappers` holds the `Result` type. The suffix assertions of `run_one` become its `Failure` case.

Python's `str.replace` is modelled as `Text.ReplaceAll`. It replaces non-overlapping matches from the left and does not rescan replaced text. An empty pattern inserts the replacement around every character, as Python does. The chain in `run_one` is kept in its order: `FILE_OR_DIR`, then `FILE` on the result, then `BASE`, which is applied only when an argument mentions it.

Many properties of the filled-in command need a file name that contains neither `FILE` nor `BASE` (`Templating.Clean`). The second replacement rescans the file name that the first one inserted, so without this condition they are false. `Templating.RescanCreatesBase` and `Templating.BaseSurvivesCleanStem` give concrete names that show this.

## Model

| member | source | states |
|---|---|---|
| Blocks.RoundUp | compcomp.py:149-150 | the result is a multiple of the block size and lies in `[x, x + b)` |
| Blocks.RoundUpCharacterization | compcomp.py:149-150 | `r` is `roundup(x, b)` if and only if `r` is the multiple of `b` in `[x, x + b)` |
| Blocks.RoundUpIsLeast | compcomp.py:149-150 | no multiple of `b` that is at least `x` lies below `roundup(x, b)` |
| Blocks.RoundUpZero | compcomp.py:149-150 | an empty file rounds to zero bytes |
| Blocks.RoundUpOfMultiple | compcomp.py:149-150 | a size that is already whole blocks is unchanged |
| Blocks.RoundUpIdempotent | compcomp.py:149-150 | rounding twice equals rounding once |
| Blocks.RoundUpMonotone | compcomp.py:149-150 | a larger size never rounds to less |
| Blocks.RoundUpSubadditive | compcomp.py:149-150 | rounding a sum gives at most the sum of the rounded parts |
| Text.ReplaceLength | compcomp.py:79 | `replace` changes the length by `\|rep\| - \|pat\|` for each counted match |
| Text.ContainsIff | compcomp.py:83 | the scanning `in` test holds exactly when the pattern occurs at some index |
| Text.CountPositiveIff | compcomp.py:83 | a pattern is contained exactly when it is counted at least once |
| Text.ReplaceAbsent | compcomp.py:79 | replacing a pattern that does not occur leaves the string unchanged |
| Text.ReplaceByItself | compcomp.py:79 | replacing a pattern by itself leaves the string unchanged |
| Text.ReplaceUnchangedIff | compcomp.py:79 | `replace` leaves a string unchanged if and only if the pattern is absent or the replacement equals it |
| Text.ReplaceWhole | compcomp.py:79 | a string that is exactly the pattern becomes the replacement |
| Text.ReplaceAfterHeadFree | compcomp.py:79 | text free of the pattern's first character is kept, and the match after it is replaced |
| Text.NoMatchAcrossSeparator | compcomp.py:83-85 | two match-free strings stay match-free when joined before a character the pattern lacks |
| Table.DecimalRoundTrip | compcomp.py:20 | reading back the decimal rendering of a level gives the level, so one comprehension's keys are distinct |
| Table.Row | compcomp.py:18-56 | literal command words followed by the input file, an output file or a `BASE` archive make a well-formed row that names its own output |
| Table.Copy | compcomp.py:19 | the `cp` row is well formed, has suffix `.copy`, and its output argument `FILE.copy` is the file it is measured by |
| Table.Gzip | compcomp.py:20 | each gzip row is well formed, has suffix `.gz`, and every `FILE.ext` or `BASE.ext` argument it has names the output that suffix promises |
| Table.Zopfli | compcomp.py:21 | each zopfli row is well formed, has suffix `.gz`, and every `FILE.ext` or `BASE.ext` argument it has names the output that suffix promises |
| Table.Bzip2 | compcomp.py:22 | each bzip2 row is well formed, has suffix `.bz2`, and every `FILE.ext` or `BASE.ext` argument it has names the output that suffix promises |
| Table.Xz | compcomp.py:23 | each xz row is well formed, has suffix `.xz`, and every `FILE.ext` or `BASE.ext` argument it has names the output that suffix promises |
| Table.Lzma | compcomp.py:24 | each lzma row is well formed, has suffix `.lzma`, and every `FILE.ext` or `BASE.ext` argument it has names the output that suffix promises |
| Table.Zstd | compcomp.py:25 | each zstd row is well formed, has suffix `.zst`, and every `FILE.ext` or `BASE.ext` argument it has names the output that suffix promises |
| Table.Lz4 | compcomp.py:27 | each lz4 row is well formed, has suffix `.lz4`, and its explicit output `FILE.lz4` matches that suffix |
| Table.Lzop | compcomp.py:28 | each lzop row is well formed, has suffix `.lzo`, and every `FILE.ext` or `BASE.ext` argument it has names the output that suffix promises |
| Table.Brotli | compcomp.py:29 | each brotli level row is well formed, has suffix `.br`, and every `FILE.ext` or `BASE.ext` argument it has names the output that suffix promises |
| Table.BrotliBest | compcomp.py:30 | the `br-best` row is well formed, has suffix `.br`, and every `FILE.ext` or `BASE.ext` argument it has names the output that suffix promises |
| Table.UltraSwitches | compcomp.py:31 | no 7z switch contains a placeholder letter |
| Table.SevenZip | compcomp.py:31 | the 7z row is well formed, has suffix `.7z`, and its archive `BASE.7z` matches that suffix |
| Table.Zip | compcomp.py:32 | the zip row is well formed, has suffix `.zip`, and its archive `BASE.zip` matches that suffix |
| Table.Rar | compcomp.py:33 | the rar row is well formed whatever template archive argument it is given |
| Table.Arj | compcomp.py:36-37 | each arj row is well formed, has suffix `.arj`, and its archive `BASE.arj` matches that suffix |
| Table.Lrzip | compcomp.py:40-42 | each lrzip row is well formed, has suffix `.lrz`, and every `FILE.ext` or `BASE.ext` argument it has names the output that suffix promises |
| Table.Snappy | compcomp.py:44 | each snappy row is well formed, has suffix `.sz`, and every `FILE.ext` or `BASE.ext` argument it has names the output that suffix promises |
| Table.Dact | compcomp.py:47 | the dact row is well formed, has suffix `.dct`, and every `FILE.ext` or `BASE.ext` argument it has names the output that suffix promises |
| Table.TableWellFormed | compcomp.py:18-56 | the table has 48 rows, and each has a non-empty suffix starting with `.`, a non-empty command and template-shaped arguments, for any well-formed rar row |
| Table.CompsWellFormed | compcomp.py:18-56 | the table as written and the corrected table both satisfy the suffix assertions of `run_one` and have a command word `comp[2][0]` |
| Table.CompsNameTheirOutputs | compcomp.py:18-56 | in the corrected table, every argument naming a file after a placeholder names the output the row's suffix promises |
| Table.RarNamesItsOutput | compcomp.py:33 | the rar row with archive `BASE.ext` names its own output if and only if `ext` is `.rar` |
| Table.RarRowAsWritten | compcomp.py:33 | the rar row as written is in the table and does not name its own output |
| Templating.Instantiate | compcomp.py:76-85 | instantiation fails exactly when a suffix assertion fails; otherwise it keeps the argument count and the output is the file name or the archive stem, plus the suffix |
| Templating.InstantiateArgument | compcomp.py:79-85 | each argument is the full three-step replacement chain of its template argument, whether or not `BASE` was mentioned |
| Templating.OutputName | compcomp.py:82-84 | the output is the archive stem plus suffix if and only if an argument mentions `BASE` after the file substitution, and the file name plus suffix otherwise |
| Templating.OutputBaseClean | compcomp.py:84 | the archive stem contains no placeholder when the file name contains none |
| Templating.TemplateArgFilled | compcomp.py:79-85 | how each kind of template argument comes out: literal text unchanged, bare placeholders become the file name, `FILE.ext` and `BASE.ext` get the file name or stem, and nothing is left |
| Templating.InstantiateLeavesNoPlaceholder | compcomp.py:79-85 | for a well-formed row and a clean file name, instantiation succeeds, uses the stem exactly when the row has a `BASE.ext` argument, and leaves no `FILE` or `BASE` in any argument |
| Templating.PlaceholderBecomesFileName | compcomp.py:79 | a template argument that is exactly `FILE` or `FILE_OR_DIR` becomes exactly the file name |
| Templating.OutputIsAnArgument | compcomp.py:82-85 | when a row names its own output, the measured output is one of the filled-in arguments |
| Templating.CompsInstantiate | compcomp.py:76-85 | over the corrected table and a clean file name, every row instantiates, no placeholder survives, and each file-naming argument is the measured output |
| Templating.ArgClosedForm | compcomp.py:79-85 | the three replacements on a template argument equal the reference definition `Filled` |
| Templating.InstantiateClosedForm | compcomp.py:79-85 | every instantiated argument is `Filled` of its template, and the output is the stem or the file name, by whether the row has a `BASE.ext` argument |
| Templating.ArchiveRow | compcomp.py:82-85 | a row of literal words, an archive `BASE.ext` and `FILE` runs on `stem.ext` but is measured by the stem plus its own suffix |
| Templating.RarWithArchive | compcomp.py:33 | the rar command with archive `BASE.ext` contains the measured `stem.rar` if and only if `ext` is `.rar` |
| Templating.RarOutputNotWritten | compcomp.py:33 | as written, the measured rar output is not among the arguments of the rar command |
| Templating.FileNameRescanned | compcomp.py:79 | one instance of the mangling: the file name `xFILE` comes out of a `FILE_OR_DIR` argument as `xxFILE` |
| Templating.FileOrDirMangledIff | compcomp.py:79 | a `FILE_OR_DIR` argument comes out different from the file name if and only if the name contains `FILE` and is not `FILE` itself |
| Templating.RescanCreatesBase | compcomp.py:79-85 | a file name without `BASE` can gain a `BASE` through the rescanning `FILE` replacement |
| Templating.RescanLeavesBase | compcomp.py:79-85 | for the file name `SEBABAFILE`, any row with a `FILE_OR_DIR` argument instantiates and that argument still contains `BASE` after all three replacements |
| Templating.BaseSurvivesCleanStem | compcomp.py:79-85 | neither `SEBABAFILE` nor its 7z archive stem contains `BASE`, yet the filled-in 7z command still contains `BASE` in its last argument |
| Text.ReplaceFirstMatch | compcomp.py:79-85 | when the first match of the pattern in `p + pat + s` is the one after `p`, the replacement keeps `p`, replaces that match and continues in `s` |
| Text.MissingCharNoMatch | compcomp.py:79-85 | a string that lacks some character of the pattern does not contain the pattern |
| Aggregation.Fold | compcomp.py:246-259 | the folded record counts the samples, sums their raw and rounded sizes, and satisfies `Valid` |
| Aggregation.AddPreservesValid | compcomp.py:246-259 | one more sample keeps each 4k total a multiple of 4096, between the raw total and 4095 bytes per file above it |
| Aggregation.ValidBoundsRoundedTotals | compcomp.py:257-259 | each 4k total is at least the raw total rounded up to a whole block |
| Aggregation.FoldConcat | compcomp.py:246-259 | folding two runs of samples in sequence is combining their records |
| Aggregation.FoldOneMore | compcomp.py:246-259 | one more sample adds exactly its own contribution to each counter |
| Aggregation.FoldPermutation | compcomp.py:242-259 | the record does not depend on the order of the samples |
| Aggregation.Accumulate | compcomp.py:246-259 | one loop pass adds the sample to its method's record, creates a missing record, and leaves every other method's record unchanged |
| Aggregation.Aggregate | compcomp.py:242-259 | after the loop, there is a record for exactly the methods that were measured, and each record is the fold of that method's samples |

## Left out

- Running the tools, removing stale outputs, temporary directories, copying and `stat`: these are process and filesystem side effects (compcomp.py:86-141).
- `find_exeuctable` and `file_scanner`: they depend on `PATH` and the real filesystem (compcomp.py:59-73, 165-170).
- The `--methods` regular-expression filter and the executable filter on the table: they rely on Python's `re` library and the filesystem (compcomp.py:196-206).
- `total_time`, the min/max ratio fields, throughput, and the progress bar: these are floating-point or measurement-dependent values (compcomp.py:159-163, 249-256, 260-267).
- Argument parsing, `--list`, and the report printing: these are presentation only (compcomp.py:173-193, 208, 272-302).
- `test_file` and `process_iterable`: each measurement reaches `Aggregation.Aggregate` as a `Record` of method key and sample. The nesting over paths and files is flattened into one sequence of records (compcomp.py:143-147, 242-244).
- Blocks.RoundUp: requires `b > 0`. The script only calls `roundup` with its default of 4096. Python would raise an error for `b == 0`.
- Templating.InstantiateLeavesNoPlaceholder: proved only for file names without `FILE` or `BASE`. The script's promise that no `BASE` is left does not hold in general. `Templating.BaseSurvivesCleanStem` gives the input: `SEBABAFILE` on the 7z row leaves `BASE` in the command, although neither the name nor the stem contains it.
- Templating.OutputIsAnArgument: assumes the same clean file name, for the same reason.
- Templating.CompsInstantiate: assumes the same clean file name, and covers the table with the corrected rar row.
- Templating.PlaceholderBecomesFileName: assumes the same clean file name. `Templating.FileOrDirMangledIff` states exactly when the rescan changes a `FILE_OR_DIR` argument.
- Templating.InstantiateClosedForm: assumes the same clean file name.
- Table.Rar: states well-formedness only. As written, the rar row does not name its own output (see Findings).
- Integer width: Python integers are unbounded, and so are Dafny's. No wrap-around exists to model.

## Findings

| source | as written | input that shows it | evidently intended | confidence | as-written member | corrected member |
|---|---|---|---|---|---|---|
| compcomp.py:33 | the rar row has suffix `.rar` but passes the archive `BASE.zip`, so `rar` writes `<name>_output_rar.zip` while `run_one` measures `<name>_output_rar.rar`, a file the command never names | any clean file name, e.g. `data` | archive argument `BASE.rar` | medium: assumes `rar` keeps an explicit `.zip` extension; not executed | Templating.RarOutputNotWritten | Templating.CompsInstantiate |

`Table.CompsAsWritten` is the table as written. `Table.RarRowAsWritten` shows that its rar row does not name its output. `Table.Comps` is the corrected table, used by the rest of the model. `Table.CompsNameTheirOutputs` proves that every corrected row names its output.
