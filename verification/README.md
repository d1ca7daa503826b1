# gifstitch in Dafny

gifstitch joins several animated GIF files into one. The command line gives
a comma-separated list of files and, optionally, a comma-separated list of
loop counts. Each file's frames, with their per-frame delays, are appended to
one growing GIF as many times as the file's loop count says, in file order.
When no loop counts are given, every file is appended once.

This project models the two pure layers of the tool:

- `Cli` (`main.go`): `parseFiles` and `parseLoops`, the tokenisers of the
  `--files` and `--loops` values. They rest on two models of the Go standard
  library. `Strings` models `strings.Split` and `strings.Join` for a
  one-character separator. `Decimal` models `strconv.Atoi` for a 64-bit `int`,
  together with the canonical rendering it inverts.
- `Stitch` (`stitch/stitch.go`): the `File` record, `parseArgs` (pairing names
  with loop counts, defaulting to 1), the append loop of `(*GIF).Add`, and
  `Create`, which folds `Add` over the resolved list and stops at the first
  error.

Opening and decoding a file is the parameter `load: string -> Load<T>`. It
answers `OpenFailed`, `DecodeFailed` or `Loaded(gif)` for a file name, so both
error branches of `Add` are kept. This makes a file's result a pure function
of its name. Go opens and decodes a file again each time it is listed
(stitch/stitch.go:50-56), so the model, and `StitchedRepeatsFile` in
particular, assumes no file changes while the tool runs.
A decoded frame is the type parameter `T`.
A delay is an `int`. Go's `(value, error)` returns become `Result<T>` for the
parsers. `Add` and `Create` are methods with two out-parameters, the GIF and an
`Option<Error>`, because Go returns both: the receiver's state after `Add`, and
`GIF{}` alongside `Create`'s error. Error messages become the tags of
`Failures.Error`, and each tag keeps the file name, piece or lengths that the
message prints.

Every operation has a partner. `Split` is paired with `Join`, both ways round.
`Atoi` is paired with `Show`, and with a description of every string it accepts. `ParseArgs` is paired with `Names`/`Counts`, its
unzip. The `Add` loop is paired with `Repeat`. The `Create` loop is paired with
the reference fold `Stitched` and with `FirstFailure`.

## Model

| member | source | states |
|---|---|---|
| Strings.Split | main.go:46 | splitting on a comma gives one more piece than there are commas, and no piece contains a comma |
| Strings.JoinSplit | main.go:46-47 | joining the pieces of a split with the separator gives back the original string |
| Strings.SplitJoin | main.go:46-47 | splitting a join of a non-empty list of comma-free pieces gives back exactly those pieces; these are the only lists Split produces, so on them Split and Join are inverse |
| Decimal.Atoi | main.go:58-61 | a successful read yields a value inside Go's 64-bit int range and needs a non-empty string that ends in a digit |
| Decimal.AtoiOfShow | main.go:58-61 | reading a canonical rendering gives the number back when it fits Go's int, and fails otherwise |
| Decimal.AtoiShow | main.go:56-62 | every value of Go's int is read back from its canonical decimal rendering |
| Decimal.AtoiShowOutOfRange | main.go:58-61 | a canonically written number outside Go's int range is refused, which is the range-error half of the round trip |
| Decimal.AtoiSignedZeros | main.go:58-61 | an optional sign, any number of leading zeros and the digits of m read as m, or -m after a minus sign, exactly when that fits Go's int, and are refused otherwise |
| Decimal.AtoiSound | main.go:58-61 | whatever Atoi accepts is a sign agreeing with the value, then zeros, then exactly the canonical digits of the value's magnitude; with AtoiSignedZeros this pins down every accepted string and its value |
| Decimal.AtoiAcceptsNonCanonical | main.go:58 | leading zeros, an explicit plus sign and "-0" are accepted |
| Decimal.AtoiRejectsMalformed | main.go:58-61 | the empty string, a bare sign, a leading space and an underscore are refused |
| Cli.ParseFiles | main.go:41-48 | fails with NoInputFiles exactly when the string is empty; otherwise gives comma-free pieces, one more than the commas, that join back to the input |
| Cli.ParsePieces | main.go:55-65 | succeeds exactly when every piece reads as an int, giving one value per piece in order; otherwise reports the first piece that does not read |
| Cli.ParseLoops | main.go:50-66 | the empty string gives the empty list; otherwise succeeds exactly when every comma-separated piece reads, one value per piece in order, and an error names the first piece that does not read |
| Cli.ParseLoopsRoundTrip | main.go:56-62 | in-range ints rendered canonically and joined with commas are read back as the same list, the empty list included |
| Cli.ParseFilesKeepsEmptyPieces | main.go:46-47 | "a,,b" gives the three names "a", "" and "b" |
| Cli.ParseLoopsRejectsTrailingComma | main.go:56-61 | "1," fails on its empty last piece |
| Cli.ParseLoopsRejectsWord | main.go:57-61 | "2,x,3" fails, naming the piece "x" |
| Stitch.Repeat | stitch/stitch.go:61-64 | n appends of a sequence have n times its length, and none at all when n is zero or negative |
| Stitch.RepeatAt | stitch/stitch.go:61-64 | copy j of the repetition holds the sequence again, element by element |
| Stitch.RepeatAdd | stitch/stitch.go:61-64 | a appends followed by b appends equal a + b appends |
| Stitch.Defaults | stitch/stitch.go:98-102 | the default loop counts are one 1 per file |
| Stitch.Pair | stitch/stitch.go:104-111 | entry i of the file list pairs name i with count i |
| Stitch.ParseArgs | stitch/stitch.go:93-114 | fails with both lengths exactly when loops is non-empty and its length differs from the files'; otherwise one entry per file in order, with count 1 when loops is empty and loops[i] otherwise, not clamped |
| Stitch.ParseArgsUnzips | stitch/stitch.go:104-111 | the names of the resolved list are the files, and its counts are the loops or the defaults |
| Stitch.ParseArgsZips | stitch/stitch.go:93-114 | resolving the names and counts of any file list rebuilds that list |
| Stitch.Add | stitch/stitch.go:49-67 | an open or decode failure returns CannotOpen or CannotDecode with the file name and leaves the GIF unchanged; otherwise frames and delays gain the decoded ones repeated the loop count; a count of zero or less changes nothing; frame/delay balance is kept |
| Stitch.FirstFailure | stitch/stitch.go:33-37 | there is no failure exactly when every file loads; otherwise the error belongs to the first file that does not load |
| Stitch.FirstFailureAt | stitch/stitch.go:33-36 | when files before i load and file i does not, file i's error is the one reported |
| Stitch.AddAll | stitch/stitch.go:32-39 | the loop returns the error of the first file that fails to load, with an empty GIF, or, when every file loads, the in-order concatenation of each file's frames and delays repeated its loop count |
| Stitch.Create | stitch/stitch.go:26-40 | a resolution failure is returned with an empty GIF; then the first failing file's error with an empty GIF; otherwise no error and the stitch of the resolved list |
| Stitch.StitchedBalanced | stitch/stitch.go:61-64 | if every decoded file has as many delays as frames, so does the stitched GIF |
| Stitch.StitchedAppend | stitch/stitch.go:33-37 | stitching two lists in a row is stitching each and concatenating frames and delays |
| Stitch.StitchedSingle | stitch/stitch.go:61-64 | a one-file stitch is that file's frames and delays repeated its loop count |
| Stitch.StitchedDropsEmpty | stitch/stitch.go:61 | files that contribute nothing can be removed from anywhere in the list without changing the result |
| Stitch.StitchedSkipsNonPositive | stitch/stitch.go:61 | a file with loop count zero or less leaves the stitched frames and delays as if it were absent |
| Stitch.StitchedRepeatsFile | stitch/stitch.go:61-64 | for a file that loads and counts a, b >= 0, listing it with counts a and b in a row equals listing it once with count a + b |
| Stitch.ScenarioDefaultLoops | stitch/stitch.go:98-111 | two files with no loop counts resolve to count 1 each, and the output is the first file's frames, then the second's |
| Stitch.ScenarioThreeLoops | stitch/stitch.go:61-64 | one file with loop count 3 gives its frames and its delays three times in a row |
| Stitch.ScenarioCountMismatch | stitch/stitch.go:94-96 | two files with one loop count is a count mismatch reporting 2 and 1 |
| Stitch.ScenarioMissingFile | stitch/stitch.go:50-53 | a file that cannot be opened fails the stitch with its name, even when its loop count is zero |

## Left out

- Opening, closing and decoding files (`os.Open`, `defer in.Close()`, `gif.DecodeAll`, stitch/stitch.go:50-59) are file I/O and a foreign codec. They are the `load` parameter. That the file handle is always closed is not modelled.
- `Save` and `Encode` (stitch/stitch.go:70-89) create a file and call the foreign `gif.EncodeAll`. They are not modelled. `Save` ignores its file-name argument and always writes `merged.gif`, so the `-o` flag has no effect.
- `main` (main.go:13-39) is flag parsing, `log.Fatalln` and process exit. It is not modelled. The only ordering it adds is that `parseFiles` (main.go:21) runs before `parseLoops` (main.go:26), which runs before anything is decoded, so an empty `--files` together with a bad `--loops` reports NoInputFiles.
- Error message texts, and the wrapped cause from `strconv.Atoi`, are not modelled. Each error is a tag carrying the offending name, piece or lengths.
- Decimal.Atoi: models a 64-bit `int` only. On a 32-bit platform Go's range is narrower.
- Stitch.File: `loops` is an unbounded `int`. Counts come from `Atoi`, so they fit 64 bits, and the Go loop counter cannot overflow below them. Running out of memory with huge counts is not modelled.
- Strings.Split: works on characters, while Go splits UTF-8 bytes. The two agree for the ASCII separator `,`.
- Stitch.StitchedBalanced: the equal number of frames and delays is assumed of each decoded file rather than promised. The model does not look inside `gif.DecodeAll`.
- The doc comments at stitch/stitch.go:11-13 and stitch/stitch.go:91-92 say every file is added at least once. `parseArgs` passes zero and negative counts through unchanged, and the loop at stitch/stitch.go:61 then appends nothing for them. The model follows the code (Stitch.ParseArgs, Stitch.StitchedSkipsNonPositive).
- The check for an empty file list is in `parseFiles` (main.go:42-44). `parseArgs` itself accepts an empty list, and `Create` then returns an empty GIF without error. The model follows the code (Cli.ParseFiles, Stitch.Create).
- Stitch.StitchedRepeatsFile: stated for counts of zero or more only. With a negative count the sum law does not hold (counts 2 then -1 give two copies, count 1 gives one), because a negative count appends nothing rather than removing frames.
- Strings.SplitJoin: stated for non-empty lists only. `Join` of the empty list is "", which splits into one empty piece.
- `Add` copies only `Image` and `Delay` from the decoded GIF (stitch/stitch.go:62-63). Its `LoopCount`, `Disposal`, `Config` and `BackgroundIndex` are dropped, so the output keeps their zero values. `Gif` holds only frames and delays, so this is not visible in the model.
- When `loops` is empty but has spare capacity, `parseArgs` appends the default counts into the caller's backing array (stitch/stitch.go:98-101). `main` cannot see this, since `parseLoops("")` returns a list of capacity 0. The model treats `parseArgs` as pure and does not model aliasing.
