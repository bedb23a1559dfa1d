# create_measurements (Rust) — a Dafny model of its core

The program generates the benchmark input of the "one billion row challenge".
It checks that it was given one positive row count. It loads the station
names from a reference file: every line containing `#` is a comment, and each
other line contributes the text before its first `;`. The names are sorted and
deduplicated. The program then estimates the output size from the longest and
shortest name. Finally it writes `station;temperature` records in batches of
10 000, redrawing a 50-character progress bar about once per 1% of the batches.

The model has one module per piece of that logic:

- `Decimal` (decimal.dfy): `str::parse::<i32>` as Rust's integer parser does it.
  The input is an optional sign and ASCII digits, accumulated left to right with
  an overflow check. The module also holds the `{}` rendering of natural numbers
  and round-trip lemmas between the two.
- `Args` (args.dfy): `check_args` as a boolean: `true` means the program continues,
  `false` means it prints the usage text and exits with status 1.
- `Stations` (stations.dfy): the loader over the lines of the reference file. It
  covers the first-field extraction, byte-lexicographic order (Rust's `String`
  order), `Vec::sort` as an insertion sort, `Vec::dedup`, and the loader method
  proved to return the strictly increasing list of exactly the extracted names.
- `Elapsed` (elapsed.dfy): `format_elapsed_time` as a div/mod decomposition into
  three canonical shapes plus their text.
- `Estimate` (estimate.dfy): the running longest/shortest loop of `estimate_file_size`
  and the integer worst-case size.
- `Generator` (generator.dfy): `build_test_data` covering the working sample,
  batches, records, the redraw throttle, and the progress bar and percentage.
  Random draws are inputs constrained to their ranges.

The usage text of `check_args` says underscore notation such as `1_000_000_000`
is accepted. The parse it guards (`parse::<i32>`) rejects every `_`, and the
model follows the code (`Args.UnderscoreRejected`).

Rust's `sort` is a stable merge sort; the model sorts by insertion.
`Stations.SortedPermutationUnique` shows that any algorithm yielding a sorted
permutation gives the same list, because equal names are identical values.

## Model

| member | source | states |
|---|---|---|
| `Decimal.ParseI32` | src/main/rust/src/main.rs:9 | the parse succeeds iff the text is an optional sign then one or more ASCII digits whose value fits i32, and then yields that value; the empty text is the `Empty` error |
| `Decimal.AccumulatePositive` | src/main/rust/src/main.rs:9 | the checked digit loop for a non-negative number succeeds iff every character is a digit and the unbounded value is at most i32::MAX, and then returns that value |
| `Decimal.AccumulateNegative` | src/main/rust/src/main.rs:9 | the same for a number after '-': success iff all digits and the negated value is at least i32::MIN |
| `Decimal.AccumulateFromZero` | src/main/rust/src/main.rs:9 | starting from 0, the loop yields the signed value exactly when it fits i32 |
| `Decimal.Accumulate` | src/main/rust/src/main.rs:9 | the checked digit loop succeeds only on an all-digit text, and then with a value inside i32; it never reports `Empty`; it reports `InvalidDigit` only when some character is not a digit |
| `Decimal.FoldGrows` | src/main/rust/src/main.rs:9 | reading more digits never decreases a non-negative running value, so an overflow mid-way implies an overflowing result |
| `Decimal.NonDigitRejected` | src/main/rust/src/main.rs:9-12 | any character other than a digit, apart from a leading sign, makes the parse fail |
| `Decimal.Show` | src/main/rust/src/main.rs:49-53 | the `{}` rendering of a natural number is a non-empty run of ASCII digits with no leading zero: "0" for zero, a first digit other than '0' otherwise |
| `Decimal.FoldSnoc` | src/main/rust/src/main.rs:9 | appending a digit multiplies the value read so far by ten and adds the digit |
| `Decimal.FoldShow` | src/main/rust/src/main.rs:49-53 | reading back the digits of `Show(n)` gives `n` |
| `Decimal.ParseShow` | src/main/rust/src/main.rs:9 | round trip: every non-negative i32 rendered in decimal parses back to itself |
| `Decimal.ParseShowNegative` | src/main/rust/src/main.rs:9 | round trip: "-" followed by the rendering of n, 0 < n <= 2^31, parses to -n |
| `Args.CheckArgs` | src/main/rust/src/main.rs:8-14 | accepts iff there are exactly two arguments and the second is a well-formed decimal whose value lies in 1..i32::MAX; every other case is the single usage-and-exit path |
| `Args.ParsedOrZero` | src/main/rust/src/main.rs:9 | `parse::<i32>().unwrap_or(0)` is the signed decimal value when the text is well-formed and fits i32, and 0 otherwise |
| `Args.RowCount` | src/main/rust/src/main.rs:127-129 | after an accepted check the `unwrap` of the parse cannot fail and the row count lies in 1..i32::MAX |
| `Args.UnderscoreRejected` | src/main/rust/src/main.rs:9-12 | an argument containing '_' is rejected, despite the usage text |
| `Args.WhitespaceRejected` | src/main/rust/src/main.rs:9 | an argument containing a space, tab, CR or LF is rejected (no trimming) |
| `Args.AcceptsExactlyPositiveI32` | src/main/rust/src/main.rs:9 | the decimal text of every positive i32 is accepted; that of zero and of every negative i32 is rejected |
| `Args.AcceptsThousand` | src/main/rust/src/main.rs:8-14 | `1000` is accepted |
| `Args.RejectsNonPositiveOrText` | src/main/rust/src/main.rs:8-14 | `abc`, `-1` and `0` are rejected |
| `Args.RejectsWrongCount` | src/main/rust/src/main.rs:9 | a missing argument and an extra argument are rejected |
| `Stations.IsComment` | src/main/rust/src/main.rs:21 | a line is a comment exactly when '#' occurs anywhere in it, not only at its start |
| `Stations.FirstField` | src/main/rust/src/main.rs:22 | the first field is a prefix of the line without ';', ending at the line's end or at its first ';' |
| `Stations.Extracted` | src/main/rust/src/main.rs:20-24 | the push loop pushes at most one name per line, and no pushed name contains ';' |
| `Stations.ExtractedMembers` | src/main/rust/src/main.rs:20-24 | a name is pushed iff some line without '#' has it as its first field |
| `Stations.FirstFieldOfNonComment` | src/main/rust/src/main.rs:21-22 | the first field of a non-comment line contains no '#' |
| `Stations.Below` | src/main/rust/src/main.rs:26 | `String` order: a proper prefix sorts before the longer name, and no name is below itself |
| `Stations.BelowFirstDifference` | src/main/rust/src/main.rs:26 | `a` sorts before `b` exactly when `a` is a proper prefix of `b`, or when `a` has the smaller byte at the first position where the two differ |
| `Stations.BelowIrreflexive` | src/main/rust/src/main.rs:26 | no name is below itself in byte order |
| `Stations.BelowTransitive` | src/main/rust/src/main.rs:26 | byte order is transitive |
| `Stations.BelowTotal` | src/main/rust/src/main.rs:26 | of two distinct names one is below the other |
| `Stations.BelowAsymmetric` | src/main/rust/src/main.rs:26 | two names are never below each other |
| `Stations.Insert` | src/main/rust/src/main.rs:26 | inserting a name adds exactly that name to the multiset and keeps a sorted list sorted |
| `Stations.SortNames` | src/main/rust/src/main.rs:26 | the sort returns a sorted permutation of the pushed names |
| `Stations.SortedPermutationUnique` | src/main/rust/src/main.rs:26 | two sorted permutations of the same names are equal, so the result does not depend on the sorting algorithm |
| `Stations.Dedup` | src/main/rust/src/main.rs:27 | dedup returns the input in its own order with every name equal to its predecessor dropped; it keeps the same set of names, leaves no two equal neighbours, never grows the list, and turns a sorted list into a strictly increasing one |
| `Stations.RunsShape` | src/main/rust/src/main.rs:27 | removing repeated neighbours keeps every name, ends with the last name read and never lengthens the list |
| `Stations.RunsNoRepeat` | src/main/rust/src/main.rs:27 | after removing repeated neighbours no two neighbours are equal |
| `Stations.RunsStrict` | src/main/rust/src/main.rs:27 | removing repeated neighbours from a sorted list gives a strictly increasing list |
| `Stations.BuildStationNameList` | src/main/rust/src/main.rs:17-29 | the loaded list is strictly increasing and holds exactly the first fields of the lines without '#'; no loaded name contains ';' or '#' |
| `Stations.NameListUnique` | src/main/rust/src/main.rs:17-29 | two lists meeting the loader's promise for the same lines are equal: loading is deterministic |
| `Stations.NameListOrderFree` | src/main/rust/src/main.rs:17-29 | two files holding the same lines, in any order and with any repetition, load the same list |
| `Elapsed.Decompose` | src/main/rust/src/main.rs:43-54 | hours*3600 + minutes*60 + seconds equals the input with minutes, seconds < 60; the hours form is chosen iff the input is at least an hour, the minutes form iff it is between a minute and an hour, seconds only otherwise |
| `Elapsed.DecomposeUnique` | src/main/rust/src/main.rs:43-54 | every canonical shape is the decomposition of its own total, so the decomposition is the only canonical one |
| `Elapsed.Render` | src/main/rust/src/main.rs:48-53 | every shape's text ends in " seconds", and the first number of an hours or minutes text never starts with '0' |
| `Elapsed.FormatElapsedTime` | src/main/rust/src/main.rs:43-54 | the text is that of the one canonical shape (minutes and seconds below 60, no leading zero unit) whose total is the input |
| `Elapsed.RenderInjective` | src/main/rust/src/main.rs:48-53 | two shapes with the same text are the same shape with the same hours, minutes and seconds, so the text carries every number of its shape |
| `Elapsed.FormatElapsedTimeInjective` | src/main/rust/src/main.rs:43-54 | two different durations never give the same message |
| `Elapsed.ExampleSeconds` | src/main/rust/src/main.rs:52-53 | 45 formats as "45 seconds" |
| `Elapsed.ExampleMinutes` | src/main/rust/src/main.rs:50-51 | 125 formats as "2 minutes 5 seconds" |
| `Elapsed.ExampleHours` | src/main/rust/src/main.rs:48-49 | 3725 formats as "1 hours 2 minutes 5 seconds" |
| `Estimate.Longest` | src/main/rust/src/main.rs:64-66 | the longest length bounds every name's length and is the length of some name |
| `Estimate.Shortest` | src/main/rust/src/main.rs:67-69 | the shortest length is at most every name's length and is the length of some name |
| `Estimate.PerRecordSize` | src/main/rust/src/main.rs:58-71 | the loop leaves 0 for an empty list, else longest + 2 * shortest + 7 over the whole list |
| `Estimate.EstimateFileSize` | src/main/rust/src/main.rs:57-73 | the worst-case size is rows * (longest + 2 * shortest + 7), and 0 for an empty list or a non-positive row count |
| `Generator.Truncation` | src/main/rust/src/main.rs:89-98 | the records written are (rows / 10000) * 10000, a multiple of 10 000, at most rows and more than rows - 10000; below 10 000 rows the batch loop never runs |
| `Generator.I32Div` | src/main/rust/src/main.rs:96 | Rust's i32 `/` by a positive divisor truncates toward zero: the floor for a non-negative dividend, the ceiling for a negative one |
| `Generator.NumBatches` | src/main/rust/src/main.rs:96 | the batch count of a non-negative row count is the number of whole batches of 10 000 in it; a negative row count gives no batch |
| `Generator.RecordsWritten` | src/main/rust/src/main.rs:96-106 | the records written are a multiple of 10 000, at most the row count and within one batch of it |
| `Generator.ProgressStep` | src/main/rust/src/main.rs:90 | the step is at least 1, so `s % progress_step` is defined; below 100 batches it is exactly 1, so every batch redraws; with 100 or more batches it is the whole number of batches per 1% |
| `Generator.Repeat` | src/main/rust/src/main.rs:112 | `c.repeat(n)` is n copies of c |
| `Generator.ScaledBound` | src/main/rust/src/main.rs:110-112 | (s+1)*k/n lies in 0..k when s+1 <= n, and equals k when s+1 == n |
| `Generator.RedrawAt` | src/main/rust/src/main.rs:110-112 | every redraw has a 50-character bar whose cell i is '=' exactly when (s+1)/batches >= (i+1)/50 and ' ' otherwise; the percentage is the whole part of 100*(s+1)/batches, so it lies in 0..100; after the last batch the bar is all '=' and the percentage is 100 |
| `Generator.ProgressLine` | src/main/rust/src/main.rs:112 | the printed line is a carriage return and '[', the bar, "] ", the decimal percentage and '%' |
| `Generator.ProgressLineReadBack` | src/main/rust/src/main.rs:110-112 | the bar sits at columns 2..52 of every printed line, and the digits before '%' parse back to the percentage |
| `Generator.RedrawsAfter` | src/main/rust/src/main.rs:109 | a batch redraws exactly when it is the last batch or a whole multiple of the step; in particular the first batch, the last batch, and every batch when the step is 1 |
| `Generator.Schedule` | src/main/rust/src/main.rs:109 | the first n batches redraw at most n times, and at least once, starting with batch 0 |
| `Generator.ScheduleMembers` | src/main/rust/src/main.rs:96-115 | the redraws are exactly one per batch s with s % step == 0 or s the last batch, in increasing batch order |
| `Generator.ScheduleEnds` | src/main/rust/src/main.rs:109-112 | with at least one batch, batch 0 redraws first and the last redraw is a full bar at 100% |
| `Generator.ProgressFitsI32` | src/main/rust/src/main.rs:110-112 | (s+1)*100 and (s+1)*50 never overflow i32 inside the batch loop |
| `Generator.Line` | src/main/rust/src/main.rs:102 | a record line is the station, ';', the temperature text and a newline |
| `Generator.LineStationField` | src/main/rust/src/main.rs:102 | splitting an output line at its first ';' gives back its station when the station holds no ';' |
| `Generator.OutputLineStations` | src/main/rust/src/main.rs:99-102 | every output line's first field is a loaded name |
| `Generator.DrawSample` | src/main/rust/src/main.rs:84-88 | the working sample has 10 000 slots, slot j holding the list entry picked by draw j |
| `Generator.FillBatch` | src/main/rust/src/main.rs:97-104 | a batch has 10 000 records, record t pairing the sample entry picked by its draw with its temperature |
| `Generator.AppendBatch` | src/main/rust/src/main.rs:105-106 | appending a batch keeps every record of the file tied to its own draws |
| `Generator.BuildTestData` | src/main/rust/src/main.rs:79-115 | the file holds (rows / 10000) * 10000 records; record k pairs the sample entry picked by draw k with temperature k, so every station written is a loaded name; the redraws are the schedule above |

## Left out

- Reading `data/weather_stations.csv`, creating and writing `data/measurements.txt`, and the `metadata().len()` of the result are file I/O. The loader takes the file's lines as input, and the generator returns the records instead of writing them.
- Splitting the file contents into lines (`str::lines`, which also drops a trailing '\r') is library code and is not modelled. The loader starts from the lines.
- `rand::thread_rng` and `gen_range` are external randomness. The generator takes the drawn indices as inputs, each required to lie in its range; the sampling draws can only lie in range when the station list is non-empty, as `gen_range` demands.
- Temperatures and their `{:.1}` float formatting are floating-point work. Each temperature is an opaque byte text supplied with the draws, so the [-99.9, 99.9] range is not modelled.
- `convert_bytes` and the `f64` casts in `estimate_file_size` are floating-point division and rounding. The estimate is the exact integer product, which the float product equals while it stays below 2^53.
- Estimate.PerRecordSize: does not model `usize` wrap-around of `max + 2 * min + 7`, which needs names of more than 6 * 10^18 bytes; names are required to respect Rust's `isize::MAX` bound on any string's length.
- `Instant` timing, the elapsed seconds and all `println!`/`print!` and stdout flushes are clock access and terminal output. `format_elapsed_time` is modelled on its argument, and the printed progress line is `Generator.ProgressLine` of each redraw.
- `process::exit(1)` is process control. `check_args` returns `false` instead.
- `main` is the composition of the modelled pieces and I/O and is not modelled as a whole. The parse `unwrap` it performs after `check_args` is covered by `Args.RowCount`.
