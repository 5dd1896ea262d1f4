# rsimg: option parsing and resize dispatch, modelled in Dafny

rsimg is a command-line tool that resizes, in place, every file under a
directory whose extension is exactly `png`, `jpg` or `jpeg` (lower case). It
takes a source directory, a task name and an option
text such as `size=200x100,filter=nearest`. This project models the part of
`src/main.rs` that makes decisions:

- the option parser in `main`, which turns the option text into a key/value
  map and panics on a malformed piece (`Options`);
- the configuration in `resize`, which finds the resampling filter named by
  `filter` and classifies the mandatory `size` as an absolute `WxH` pair or a
  percentage (`ResizeOptions`);
- the loop of `process_directory`, which calls the resize executor on each
  file of the directory walk whose extension is `png`, `jpg` or `jpeg`
  (`Dispatch`);
- the guards of `main`: the source-directory check and the `resize` task gate
  (`Program`).

Every `panic!` and every failing `unwrap` in `main`, `resize` and
`process_directory` is a `Panic` value (`Failures`); those in the image
executors are not modelled (see "Left out"). The Rust library behaviour
the code relies on is in `Strings`: `str::split` with a one-character
pattern, `join`, `ends_with`, `u32::from_str` and the set of texts
`f32::from_str` accepts. Note that `u32::from_str` accepts a leading `+`
and leading zeros.

The file system, the command line and the image library are parameters.
Whether the source is a directory is a `bool`. The directory walk is a
sequence of `WalkItem`s: an entry with its path, its "is a file" flag and
its extension, or a walk error. The executor is modelled by the trace of
`Call`s it receives.

Files: `wrappers.dfy`, `failures.dfy`, `strings.dfy`, `options.dfy`,
`resize_options.dfy`, `dispatch.dfy`, `program.dfy`.

Three behaviours of the code are worth stating outright:

- A `size` value whose `x`-split does not give two pieces and that has no
  `%` suffix falls through to `size[0]` and `size[1]`. With one piece the run panics, either on the parse or on the
  missing second piece. With three or more pieces the first two are used, so
  `1x2x3` means 1 by 2.
- Width and height may be zero. Only a parse to `u32` is required, not a
  positive value.
- A malformed option text panics even when the task is not `resize`, because
  the options are parsed before the task is compared.

## Model

| member | source | states |
|---|---|---|
| `Strings.Split` | src/main.rs:174-178 | splitting on one character gives at least one piece and no piece contains the separator |
| `Strings.SplitJoin` | src/main.rs:178-180 | joining the `=`-pieces of an option with `=` gives back the option as written, which is what the panic message shows |
| `Strings.JoinSplit` | src/main.rs:178 | splitting a join of separator-free pieces gives back the pieces (the inverse of `SplitJoin`) |
| `Strings.SplitCount` | src/main.rs:115-117 | the number of pieces is one more than the number of separators |
| `Strings.SplitLastEmpty` | src/main.rs:174-188 | the last piece is empty exactly when the text is empty or ends with the separator |
| `Strings.ParseU32` | src/main.rs:142-143 | a parsed value is below 2^32; the empty text is rejected; an accepted text holds only digits and at most a leading `+` |
| `Strings.ParseU32Accepts` | src/main.rs:142-143 | every non-empty digit string of value below 2^32, with or without a leading `+`, parses to the value it denotes (the converse of `ParseU32`'s contract) |
| `Strings.ParseU32LeadingZeros` | src/main.rs:142-143 | `007` parses to 7 |
| `Strings.ParseDecimal` | src/main.rs:142-143 | every u32 written in decimal parses back to itself, with or without a leading `+` |
| `Strings.ParseU32Rejects` | src/main.rs:142-143 | digit strings of value 2^32 or more, with or without a leading `+`, texts starting with `-`, and a lone `+` are parse errors |
| `Strings.Decimal` | src/main.rs:142-143 | the decimal rendering of a number is a non-empty digit string |
| `Strings.DecimalValue` | src/main.rs:142-143 | the decimal rendering of a number denotes that number |
| `Strings.FloatHasNoX` | src/main.rs:117-124 | no text accepted by the `f32` parse contains an `x` |
| `Strings.FloatAcceptsDigits` | src/main.rs:124 | the `f32` parse accepts every non-empty digit string |
| `Strings.FloatAcceptsDecimal` | src/main.rs:124 | the `f32` parse accepts digits, a `.` and digits whenever at least one digit is present |
| `Strings.FloatChars` | src/main.rs:124 | every character of a text the `f32` parse accepts is a digit, a `.`, a sign, or one of the letters of `e`, `inf`, `infinity` and `nan` in either case |
| `Strings.FloatRejectsEmpty` | src/main.rs:124 | the `f32` parse rejects the empty text, a lone `.` and a lone sign |
| `Options.BuildOptionMap` | src/main.rs:174-191 | the loop returns the option map, or the panic, that `ParseOptions` gives for the text |
| `Options.CollectStopsAtError` | src/main.rs:179-189 | once a piece panics, the pieces after it change nothing |
| `Options.CollectOk` | src/main.rs:177-189 | the loop gets through exactly when every piece splits on `=` into two non-empty parts |
| `Options.CollectKeys` | src/main.rs:190 | the map holds exactly the keys written in the pieces |
| `Options.CollectLastWins` | src/main.rs:190 | for each key, the value is the one from the last piece holding that key |
| `Options.CollectFirstError` | src/main.rs:179-189 | the panic names the first malformed piece, exactly as written |
| `Options.IsPairShape` | src/main.rs:178-189 | a piece is accepted exactly when it is non-empty, holds one `=`, and that `=` is neither first nor last |
| `Options.ParseOptionsOk` | src/main.rs:174-189 | an option text is accepted exactly when every `,`-piece is a `key=value` pair |
| `Options.ParseOptionsRejectsEmptyPieces` | src/main.rs:174-189 | the empty text and any text that starts or ends with a comma are rejected |
| `Options.SinglePieceRejected` | src/main.rs:178-189 | a comma-free text that is not a pair is rejected with a panic naming it |
| `Options.ParseOptionsRejectsMalformed` | src/main.rs:178-189 | `size`, `a=b=c` and `=x` are each rejected with a panic naming the piece |
| `Options.ParseOneOption` | src/main.rs:174-191 | `k=v` gives the map of that one pair |
| `Options.ParseTwoOptions` | src/main.rs:174-191 | `k1=v1,k2=v2` gives the map of both pairs, the second overriding the first on an equal key |
| `Options.ParseOptionsExample` | src/main.rs:174-191 | `size=200x100,filter=nearest` gives the map of those two keys |
| `ResizeOptions.FilterByName` | src/main.rs:96-104 | `nearest`, `linear`, `gaussian` and `lanczos3` select Nearest, Triangle, Gaussian and Lanczos3, and every other name, `default` and `cubic` included, selects CatmullRom |
| `ResizeOptions.FilterOf` | src/main.rs:86-105 | without a `filter` key the filter is CatmullRom; with one, it is the filter `FilterByName` gives for its value, so any filter other than CatmullRom comes from a recognised value |
| `ResizeOptions.FilterExamples` | src/main.rs:86-105 | no key, `default`, `cubic` and the unknown `Nearest` give CatmullRom; `nearest` and `linear` give Nearest and Triangle |
| `ResizeOptions.AbsoluteSize` | src/main.rs:141-149 | an absolute size exists exactly when there are at least two pieces and the first two parse as u32, and it is made of their values; otherwise the panic is, in this order, an unparsable width, a missing height, or an unparsable height |
| `ResizeOptions.SizeOf` | src/main.rs:107-149 | the missing-size panic happens exactly when `size` is absent; a percentage result is the value minus its `%` suffix and holds no `x`; an absolute result comes from a value holding an `x` |
| `ResizeOptions.Configure` | src/main.rs:85-149 | the configuration exists exactly when the size does, and then holds that size and the filter of the map; a failing size fails the configuration with the size's own panic |
| `ResizeOptions.ConfigureAbsolute` | src/main.rs:85-149 | a `size` of two u32 values written as `WxH` configures exactly that absolute size, with the filter of the map |
| `ResizeOptions.ConfigureExample` | src/main.rs:85-149 | the options `size=200x100` and `filter=nearest` configure a resize to 200 by 100 with the Nearest filter |
| `ResizeOptions.ConfigureMissingSize` | src/main.rs:107-110 | without a `size` key the configuration fails with the missing-size panic, whatever the other options |
| `ResizeOptions.SizeTwoPieces` | src/main.rs:115-117 | a value `WxH` with one `x` gives the absolute size of the two parsed sides, or the panic of the first side that fails; a `%` plays no part |
| `ResizeOptions.SizeRoundTrip` | src/main.rs:141-149 | every pair of u32 values written as `WxH` gives back that absolute size |
| `ResizeOptions.SizePercentage` | src/main.rs:117-126 | a value `T%` without an `x` takes the percentage branch on `T`, which succeeds exactly when `T` is an `f32` literal |
| `ResizeOptions.SizeManyPieces` | src/main.rs:117-143 | with three or more `x`-pieces and no `%` suffix, the first two pieces are width and height and the rest is ignored: the result is the width panic, the height panic or the absolute size of the two |
| `ResizeOptions.SizeManyPiecesPercentage` | src/main.rs:117-124 | with two or more `x`s and a `%` suffix, the percentage branch is taken and fails with the percentage panic on the value without its `%` |
| `ResizeOptions.SizeOnePiece` | src/main.rs:117-143 | with no `x` and no `%` suffix the result is a panic: on the width if it does not parse, otherwise on the missing height |
| `ResizeOptions.SizeDefaultExample` | src/main.rs:13 | the default option value `128x128` is the absolute size 128 by 128 |
| `ResizeOptions.SizePercentageExample` | src/main.rs:119-126 | `50%` is the percentage 50 |
| `ResizeOptions.SizePairWithPercentExample` | src/main.rs:115-117 | `5x0%` is an `x`-pair whose height `0%` fails to parse |
| `ResizeOptions.SizeThreePiecesExample` | src/main.rs:142-143 | `1x2x3` is the absolute size 1 by 2 |
| `ResizeOptions.SizeOnePieceExample` | src/main.rs:142-143 | `128` parses as a width and then panics on the missing height |
| `Dispatch.Dispatched` | src/main.rs:27-40 | every call carries the given size and filter, and there are no more calls than walk items |
| `Dispatch.ProcessDirectory` | src/main.rs:24-41 | the loop makes exactly the calls of `Dispatched`, and stops at a walk error exactly as `Dispatched` does |
| `Dispatch.DispatchedStops` | src/main.rs:28 | once the walk has failed, later items are never visited |
| `Dispatch.DispatchedCompletes` | src/main.rs:27-28 | the walk runs to its end exactly when it yields no error |
| `Dispatch.DispatchedAbortsAt` | src/main.rs:27-28 | at the first walk error the run stops with the calls made before it |
| `Dispatch.ImageIndices` | src/main.rs:30-34 | lists, in increasing order, exactly the positions of files whose extension is valid UTF-8 and is `png`, `jpg` or `jpeg` |
| `Dispatch.DispatchedSelects` | src/main.rs:27-40 | on a walk without errors the executor is called once per image file, in walk order, with that file's path and the common size and filter, and for nothing else |
| `Dispatch.DispatchedExample` | src/main.rs:30-35 | a walk of `a.png`, `b.txt` and `c.jpg` calls the executor on `a.png` and `c.jpg` only |
| `Program.ResizeOutcome` | src/main.rs:85-154 | a configuration panic makes no call; a run without a panic had a valid configuration and an error-free walk (the walk-error case is `RunAbortsOnWalkError`) |
| `Program.ResizeImages` | src/main.rs:85-154 | `resize` gives the outcome `ResizeOutcome` describes |
| `Program.Run` | src/main.rs:156-197 | `main` gives the outcome `RunOutcome` describes |
| `Program.RunNotDirectory` | src/main.rs:167-170 | a source that is not a directory panics before any option is read and makes no call |
| `Program.RunMalformedOptions` | src/main.rs:172-196 | a malformed option text panics and makes no call, whatever the task |
| `Program.RunOtherTask` | src/main.rs:193-196 | a task other than `resize` makes no call, and panics exactly when the option text is malformed |
| `Program.RunResizesImages` | src/main.rs:193-196 | a resize run with valid options over an error-free walk ends without a panic and calls the executor once per image file, in walk order, with the configured size and filter |
| `Program.RunAbortsOnWalkError` | src/main.rs:27-40 | a resize run with valid options whose walk first fails at position `k` calls the executor on each image file before `k`, in walk order, with the configured size and filter, and then panics on the walk error |
| `Program.RunExample` | src/main.rs:156-197 | `size=10x10` over `a.png`, `b.txt` and `c.jpg` resizes `a.png` and `c.jpg` to 10 by 10 with CatmullRom |

## Left out

- Command-line parsing by `clap` (src/main.rs:7-15, 158) is not modelled. The source path, the task and the option text are parameters, and the defaults are only used in examples.
- The directory walk by `WalkDir` is not modelled, and neither are `is_dir`, `is_file`, `Path::extension` and `to_str` (src/main.rs:27-33, 168). They are file-system and library calls. Their answers are inputs: a flag for "is a directory", and the walk items with their file flag and extension.
- Image decoding, resampling and saving in `resize_by_scale` and `resize_by_size` (src/main.rs:43-66) are not modelled. The executor is the trace of calls it receives. The model does not capture that a failed `image::open` or `save` panics and ends the run after the current file.
- ResizeOptions.SizeOf: a percentage is kept as the text before the `%`. The `f32` value, the division by 100 and the truncating float-to-u32 conversion of the new dimensions (src/main.rs:50-51, 124-126) are not modelled, because IEEE arithmetic is out of scope. Which texts the `f32` parse accepts is modelled.
- Dispatch.Call: the executor receives the size as `Absolute(w, h)` or `Scale(text)`, not the `SizeArgs` struct with its unused fields set to zero (src/main.rs:128-132, 145-149). The closure each branch passes is the variant itself.
- The order of a directory walk is whatever order the walk sequence has. The model makes no claim about the order `WalkDir` uses.
