# wallpaper.c in Dafny

A model of the deterministic core of `wallpaper.c`, a daily wallpaper
rotator. Each run scans one directory for image files and reads its small
state file. It then either lists the wallpapers, shows its status, picks a
random one, or advances to the next one. The random pick and `--next`
always change the wallpaper; the default run changes it only once a day
unless `--force` is given. Whenever the wallpaper changes, the new state is
written back to the file.

The modules follow the program's own parts:

| file | module | what it holds |
|---|---|---|
| `common.dfy` | `Common` | `Option`, the C `int`/`time_t` ranges, C's truncating `/` and `%` |
| `config.dfy` | `Config` | the compile-time constants of the three platforms |
| `text.dfy` | `Text` | `strrchr`, `strcasecmp`, `isspace` and the "text after the last separator" idiom |
| `scanner.dfy` | `Scanner` | `isImageFile` and `collectWallpapers` |
| `state.dfy` | `StateStore` | the `WallpaperState` record and class, the state file's text format, `loadState`/`saveState` |
| `rotation.dfy` | `Rotation` | the 24-hour gate, `rotateWallpaper`, `setRandomWallpaper` |
| `escape.dfy` | `MacEscape` | the space-escaping loop of the macOS setter |
| `cli.dfy` | `Cli` | `main`: flag scan, directory checks, mode priority, `--list`, `--status`, dispatch |

How the code is modelled:

- The parts that compute values are functions. The extension test, the gate,
  the index step, the text format and the flag scan are each specified by a
  function.
- The parts that change things in place are methods, each proved against
  those functions:
  - `SearchTable` (the table search of `IsImageFile`) and `ParseArgs` are search loops;
  - `ListWallpapers` builds the `--list` lines one per wallpaper;
  - `CollectWallpapers` fills the caller's array;
  - `EscapeSpaces` writes its buffer step by step;
  - `WallpaperState.Load`/`Save`, `Rotate` and `SetRandom` update a
    `WallpaperState` object;
  - `Run` wires them together as `main` does.
- Some inputs and outputs of the program are passed in and out as values:
  - the directory listing (`None` when it cannot be opened);
  - the existence test on each path;
  - the state file's content (`None` when it is missing);
  - whether the state file can be written;
  - the clock;
  - the value `rand()` returns.
  
  The content of the state file after the run is an output.
- Handing the chosen path to the desktop is a call with no modelled effect,
  as in the program: the state is saved whether or not it succeeded.

The model states what the code does, with one exception: the sequential
step at wallpaper.c:256 uses the corrected, always-in-range form (see
"## Findings"). It agrees with the code on every index from -1 up to the
largest `int` but one, which covers every index the program itself stores.
Two details of the code are easy to misread:

- The comment at wallpaper.c:236 speaks of "more than 24 hours". The test
  at wallpaper.c:237 is `elapsed >= 86400`, so exactly one day is enough.
  The elapsed time is signed, so a clock set back before the last change
  (negative elapsed time) keeps the gate shut. `Rotation.GateShutIff`
  states the code's condition.
- A save followed by a load does not give back every record whose path has
  no newline. The `"%d\n"` directive of `fscanf` skips all white space,
  including blank lines. Reading back therefore also needs:
  - a non-empty path;
  - a path that does not start with white space;
  - numbers within the ranges of their C fields;
  - a path shorter than the 512-character buffer.

  `StateStore.SaveLoadRoundTrip` holds under these conditions.
  `StateStore.ZeroStateNotStorable` shows the empty-path case failing. Every
  path the scanner produces starts with the wallpaper directory, so it is
  non-empty and does not start with white space.

## Model

| member | source | states |
|---|---|---|
| Common.CDiv | wallpaper.c:248 | C's `/` truncates toward zero: the quotient's magnitude is the quotient of the magnitudes and its sign is the product of the operands' signs |
| Common.DivOfNat | wallpaper.c:386-387 | on a non-negative dividend the quotient is non-negative, brackets the dividend between consecutive multiples of the divisor, and is 0 exactly when the dividend is smaller than the divisor |
| Common.CDivBounds | wallpaper.c:386-387 | the truncated quotient is the largest multiple of the divisor not exceeding the dividend in magnitude |
| Common.CRem | wallpaper.c:256 | C's `%`: dividend = quotient × divisor + remainder, the remainder is smaller than the divisor in magnitude and is zero or has the dividend's sign |
| Common.CArithAgreesOnNonNegative | wallpaper.c:273 | on a non-negative dividend and positive divisor, C's `/` and `%` agree with Euclidean division |
| Config.WallpaperPath | wallpaper.c:8-23 | the wallpaper directory of each platform is non-empty and ends with that platform's path separator |
| Text.LastIndexOf | wallpaper.c:55 | `strrchr`: no result exactly when the character is absent; otherwise the position holds it and no later position does |
| Text.LowerPointwise | wallpaper.c:59 | `strcasecmp` compares character by character after C-locale `tolower`: each position of the lower-cased text holds the lower-cased character |
| Text.EqualsIgnoreCase | wallpaper.c:59 | `strcasecmp(a, b) == 0`: the two strings are equal once both are lower-cased in the C locale, so they have the same length |
| Text.EqualsIgnoreCasePointwise | wallpaper.c:59 | equality ignoring case holds exactly when the strings have the same length and agree position by position after `tolower` |
| Text.AfterLast | wallpaper.c:369-370 | the displayed file name holds no separator, is a suffix of the path, is preceded by the last separator, and is the whole path when there is none |
| Scanner.Extension | wallpaper.c:55-56 | no extension exactly when the name has no dot; otherwise the suffix from the last dot, which holds no further dot |
| Scanner.TableIsLowerCase | wallpaper.c:38-40 | every entry of the extension table is its own lower-cased form |
| Scanner.LowerIdentity | wallpaper.c:38-40 | text with no upper-case letter is unchanged by lower-casing |
| Scanner.MatchesEntryIff | wallpaper.c:58-62 | the table is lower case, so a case-blind match with an entry is equality of the lower-cased extension with it |
| Scanner.IsImageFile | wallpaper.c:54-64 | the table search returns true exactly for names whose lower-cased last-dot suffix is one of the eight extensions |
| Scanner.SearchTable | wallpaper.c:58-63 | the loop over the table returns true exactly when the extension matches some entry ignoring case |
| Scanner.IsImageName | wallpaper.c:54-64 | an accepted name has an extension of 4 or 5 characters and so is at least 4 characters long |
| Scanner.IsHidden | wallpaper.c:140 | an entry whose name starts with '.' is skipped before the extension test; such a name always contains a dot |
| Scanner.Keeps | wallpaper.c:140-147 | an entry contributes its path when it is not hidden, passes `isImageFile`, and `WALLPAPER_PATH` + name exists; a kept name is at least 4 characters long and does not start with '.' |
| Scanner.ImageNameByLastDot | wallpaper.c:54-64 | a name is an image name iff the text from its last dot matches some table entry ignoring case |
| Scanner.NoDotNoImage | wallpaper.c:56 | a name without a dot is never an image name |
| Scanner.DoubleExtensionRejected | wallpaper.c:55-62 | `a.jpg.txt` is rejected: only the last dot counts |
| Scanner.PngExtension | wallpaper.c:55 | the extension of `a.PNG` is `.PNG`, from its last dot |
| Scanner.UpperCaseAccepted | wallpaper.c:59 | `a.PNG` is accepted: case is ignored |
| Scanner.NoDotRejected | wallpaper.c:55-56 | `jpg` is rejected |
| Scanner.Collected | wallpaper.c:139 | a scan returns at most 1000 paths |
| Scanner.CollectWallpapers | wallpaper.c:125-155 | the filled prefix of the array is exactly the scan's path list, in listing order, capped at 1000, and empty when the directory cannot be opened |
| Scanner.ScanEntry | wallpaper.c:140-149 | one pass of the loop body keeps one more slot, holding the directory plus the name, exactly when the name is visible, an image and present; the slots before it are untouched |
| Scanner.CollectedAtExit | wallpaper.c:139 | whether the loop stops at the end of the listing or at the cap, what it holds is the capped scan |
| Scanner.Candidates | wallpaper.c:139-150 | the scan yields no more paths than there are directory entries |
| Scanner.CandidatesStep | wallpaper.c:140-149 | for any entry filter, one more directory entry appends its full path exactly when the filter accepts it; the scan uses it with the filter visible, image and present |
| Scanner.CandidatesPrefix | wallpaper.c:139 | stopping the scan early yields a prefix of the full scan |
| Scanner.CandidatesAppend | wallpaper.c:139-150 | scanning two listings in turn gives the two scans concatenated: listing order is kept |
| Scanner.CandidatesSound | wallpaper.c:140-148 | every scanned path is the directory followed by a listed name the filter accepts (for the scan: visible, an image and present) |
| Scanner.CandidatesComplete | wallpaper.c:140-148 | every listed name the filter accepts (for the scan: visible, an image and present) has its full path in the scan |
| Scanner.CollectedExact | wallpaper.c:132-150 | below the cap, a path is in the scan iff it is the directory plus a listed visible, present image name |
| Scanner.CollectedPathsShape | wallpaper.c:140-143 | every scanned path starts with the wallpaper directory and continues with a non-hidden image name |
| Scanner.StateFileNeverScanned | wallpaper.c:140 | the state file sits in the wallpaper directory, but its name starts with a dot, so the scan never offers it as a wallpaper |
| StateStore.Decimal | wallpaper.c:113-115 | `%d` of a non-negative number prints at least one digit and only digits |
| StateStore.SignedDecimal | wallpaper.c:113-115 | `%d`/`%ld` output is non-empty and starts with `-` or a digit |
| StateStore.DigitRun | wallpaper.c:94-96 | the run of digits `%d` consumes is all digits and is followed by a non-digit or the end |
| StateStore.SkipSpace | wallpaper.c:94-96 | the `\n` directive skips a prefix made only of white space and stops at a non-space or the end |
| StateStore.ReadLine | wallpaper.c:97-100 | `fgets` with the newline cut: at most 511 characters, a prefix of the text, no newline |
| StateStore.DigitRunOfDigits | wallpaper.c:94-96 | the conversion consumes exactly the printed digits |
| StateStore.DecimalValue | wallpaper.c:94-96 | the digits `%d` prints denote the printed number |
| StateStore.ScanDigits | wallpaper.c:94-96 | reading back a printed non-negative number yields it and stops right after it |
| StateStore.ScanNonNegative | wallpaper.c:94-96 | reading back a printed non-negative number followed by a non-digit or the end yields it and leaves what follows |
| StateStore.ScanNegative | wallpaper.c:94-96 | reading back a printed negative number, its `-` first, followed by a non-digit or the end yields it and leaves what follows |
| StateStore.ScanSignedDecimal | wallpaper.c:94-96 | reading back a printed signed number yields it and leaves the rest untouched |
| StateStore.ReadLineOfLine | wallpaper.c:97-100 | reading back a printed line that has no newline and fits the buffer gives the line |
| StateStore.ScanFieldOfLine | wallpaper.c:94-96 | one numeric line reads back as its number, and reading stops at the next line's first character |
| StateStore.ParseLines | wallpaper.c:94-100 | three numeric lines followed by text parse into a record whose path is the first line of that text |
| StateStore.ScanInteger | wallpaper.c:94-96 | a successful `%d`/`%ld` conversion consumes at least one character |
| StateStore.ScanField | wallpaper.c:94-96 | one `fscanf("%d\n")` field: an integer conversion followed by skipping the white space the `\n` directive matches; a successful field consumes at least one character and leaves the input at its end or at a non-space character |
| StateStore.Serialize | wallpaper.c:113-116 | the saved text starts with the time's sign or first digit, holds at least the three numbers, four newlines and the path, and ends with the path line |
| StateStore.Parse | wallpaper.c:94-100 | whatever loads has numbers within their C fields and a path that fits its buffer and holds no newline |
| StateStore.LoadFile | wallpaper.c:83-100 | a missing file loads the zero state; whatever loads fits its C fields, and the path fits its buffer and holds no newline |
| StateStore.SaveLoadRoundTrip | wallpaper.c:83-119 | loading what `saveState` wrote gives back all four fields of any storable record |
| StateStore.NewlineCutsPath | wallpaper.c:97-100 | a newline in the path truncates it there on the next load |
| StateStore.ReadLineAtNewline | wallpaper.c:97-100 | the line read ends at the first newline |
| StateStore.ZeroStateNotStorable | wallpaper.c:94-97 | the all-zero record does not read back: after its empty path the `\n` directive reaches the end of the file |
| StateStore.WallpaperState.Load | wallpaper.c:83-104 | a missing file gives the zero state; a well-formed file gives the parsed fields |
| StateStore.WallpaperState.Save | wallpaper.c:106-119 | a writable file then holds the four lines of the current state; otherwise the file is unchanged |
| Rotation.ShouldChange | wallpaper.c:232-238 | a first run (no recorded change) always rotates; within the day after a change it never does |
| Rotation.GateShutIff | wallpaper.c:232-238 | the gate stays shut iff a change was recorded and less than a day has passed since it (a clock behind the last change included) |
| Rotation.HoursRemaining | wallpaper.c:246-249 | for a clock within the day after the change, the reported wait is the rest of the day in whole hours, between 0 and 24; for a clock behind the last change (the gate is then shut too) it is at least 24 |
| Rotation.NegativeIndexEscapes | wallpaper.c:256 | as written, a stored index of -3 with 3 wallpapers steps to -2, outside the list |
| Rotation.NextIndexAsWritten | wallpaper.c:256 | `(wallpaper_index + 1) % count` with C's truncating `%`: the result lies strictly between `-count` and `count` and, when non-zero, has the sign of `wallpaper_index + 1` |
| Rotation.IndexOverflowLoads | wallpaper.c:94-95 | a state file written for any storable record with index `INT_MAX` loads back with that index, and `index + 1` then leaves the range of `int` |
| Rotation.NextIndex | wallpaper.c:256 | the corrected step always lands in `[0, count)` |
| Rotation.NextIndexAgrees | wallpaper.c:256 | on every index from -1 up, the step as written equals the corrected step |
| Rotation.NextIndexSteps | wallpaper.c:256 | the step moves to the following entry, or back to the first after the last |
| Rotation.Decide | wallpaper.c:240-258 | no wallpapers exactly when the list is empty; a wait exactly when there are wallpapers, the run is not forced and the gate is shut; an advance always lands inside the list and records its entry, the live count and the time |
| Rotation.AfterRotation | wallpaper.c:240-258 | a rotation either leaves the state as it was or records an index inside the list, that entry's path, the live count and the time |
| Rotation.RotationEffect | wallpaper.c:240-258 | no wallpapers, or an unforced run with the gate shut, leaves the state as it was; otherwise it records the live count, the next index, the time and that entry's path; for a stored index from -1 up to the largest `int` but one, the next index is the one C's `(index + 1) % count` gives |
| Rotation.FirstRotationFromZero | wallpaper.c:254-258 | from the zero state the first rotation lands on index 1, or on 0 when there is one wallpaper |
| Rotation.LiveCountIsModulus | wallpaper.c:255-256 | the stored total never affects the new index: the live count is the modulus |
| Rotation.SecondRotationWaits | wallpaper.c:246-257 | within a day of a rotation, an unforced rotation waits and leaves the state unchanged |
| Rotation.ForcedStep | wallpaper.c:251-256 | a forced rotation on a non-empty list always takes the step, whatever the gate says |
| Rotation.ForcedRotations | wallpaper.c:256 | `k` forced rotations move the index `k` places on, modulo the live count |
| Rotation.FullLap | wallpaper.c:256 | as many forced rotations as there are wallpapers bring the index back |
| Rotation.RandomPick | wallpaper.c:270-278 | nothing is picked exactly when the list is empty; a pick lies inside the list and records its entry, the live count and the time |
| Rotation.RandomPickEffect | wallpaper.c:270-278 | a random pick lands inside the list at `draw mod count` and records the count, the time and that entry's path, regardless of the old state |
| Rotation.EveryEntryPickable | wallpaper.c:273 | every entry is picked by some draw |
| Rotation.Rotate | wallpaper.c:240-267 | the procedure's decision and new state are those of the rotation policy; the state file holds the new state exactly when it changed and is writable |
| Rotation.SetRandom | wallpaper.c:269-284 | with no wallpapers nothing changes; otherwise the state is the random pick and is saved |
| MacEscape.Escaped | wallpaper.c:178-183 | the escaped path is at least as long as the path and at most twice as long |
| MacEscape.EscapedAppend | wallpaper.c:178-183 | escaping one more character appends its escaped form |
| MacEscape.SpacesAppend | wallpaper.c:178-181 | one more character adds one to the space count exactly when it is a space |
| MacEscape.EscapedLength | wallpaper.c:178-183 | the escaped path is longer than the path by its number of spaces |
| MacEscape.UnescapeEscaped | wallpaper.c:178-183 | removing the backslash in front of each space gives the path back, even when the path holds backslashes |
| MacEscape.EscapedStart | wallpaper.c:179-182 | an escaped text never starts with a space |
| MacEscape.SpacesAreEscaped | wallpaper.c:179-181 | every space of the escaped path has a backslash right before it |
| MacEscape.PutEscaped | wallpaper.c:179-182 | one pass of the loop body writes the escaped character after what was written and moves the position past it |
| MacEscape.EscapeSpaces | wallpaper.c:175-184 | the buffer loop yields the whole escaped path for every path that fits the path buffer |
| Cli.ParseFrom | wallpaper.c:320-339 | the scan proceeds exactly when every argument is a mode flag; an unknown option is one of the arguments and neither a mode nor a help flag |
| Cli.SetFlag | wallpaper.c:321-330 | one argument of the loop: `--force`, `--random`, `--next`, `--list` and `--status` each set their flag; any other argument leaves the flags as they are; a flag once set is never cleared |
| Cli.ParseArgs | wallpaper.c:320-339 | the argument loop returns what the left-to-right flag scan decides |
| Cli.SetFlagIsJoin | wallpaper.c:320-330 | setting the flag one mode argument names is joining that argument |
| Cli.AllModeFlags | wallpaper.c:320-330 | when every argument is a mode flag, the flags set are exactly those that occur |
| Cli.FirstOtherDecides | wallpaper.c:331-338 | the first argument that is not a mode flag decides: help for `--help`/`-h`, an unknown option otherwise, whatever follows |
| Cli.FlagOrderIrrelevant | wallpaper.c:320-330 | the order and repetition of mode flags do not matter |
| Cli.ModeOf | wallpaper.c:365-411 | the mode is list iff `--list`, status iff `--status` without `--list`, random, then next, then the daily rotation carrying `--force` |
| Cli.ListWallpapers | wallpaper.c:368-373 | the listing loop produces the numbered lines of the list view |
| Cli.ListView | wallpaper.c:368-373 | the list view: one line per wallpaper, numbered from 1, marked current exactly at the stored index, and naming a separator-free tail of the wallpaper's path |
| Cli.NumberedStep | wallpaper.c:368-373 | listing one more wallpaper adds its line at the end |
| Cli.CurrentMark | wallpaper.c:368-373 | one line per wallpaper numbered from 1 and naming the file after its last separator; at most one line is marked, and one is marked iff the stored index is inside the list |
| Cli.StatusOf | wallpaper.c:378-397 | the status shows the live count and the 1-based position; the hour estimates appear exactly when a change was recorded, with the wait never negative and the file name free of separators |
| Cli.WholeHoursElapsed | wallpaper.c:386 | for a non-negative elapsed time the hours-ago quotient brackets it between whole hours |
| Cli.HoursAddUp | wallpaper.c:386-387 | within the day the two truncated quotients add up to 24, or 23 when the elapsed time is not whole hours |
| Cli.NoWholeHourLeft | wallpaper.c:387-390 | in the last hour of the day and after, the hours-until quotient is not positive |
| Cli.StatusEstimates | wallpaper.c:384-394 | the hours-ago figure counts the whole hours elapsed; within the day the two estimates add up to 24, or 23 when the elapsed time is not whole hours; the wait shows 0 in the last hour and after |
| Cli.StatusAgreesWithWait | wallpaper.c:386-390 | while the gate is shut, the status predicts the same wait that an unforced rotation reports |
| Cli.RunSpec | wallpaper.c:310-415 | the exit status is 0 or 1; the outcome is left undefined only when the flags proceed and the state file is malformed |
| Cli.Dispatch | wallpaper.c:365-411 | each mode yields its own kind of report: list, status, random pick, or a rotation for `--next` and the daily run |
| Cli.Run | wallpaper.c:310-415 | `main` as a whole produces the outcome `RunSpec` describes (flag scan, directory checks, scan, load, mode dispatch) whenever the state file is well formed |
| Cli.RunMode | wallpaper.c:365-411 | the mode dispatch after the scan and the load yields the outcome of the selected mode on the loaded state |
| Cli.ExitStatus | wallpaper.c:331-358 | the exit status is 1 exactly for an unknown option, a missing directory or an empty scan; the directory is created only when it was missing |
| Cli.DispatchSucceeds | wallpaper.c:365-414 | with at least one wallpaper every mode exits with 0, creates no directory and reports neither help nor an error |
| Cli.StateFileWrites | wallpaper.c:365-411 | the state file is rewritten only by a random pick or a changing rotation, and then holds the new state; list, status, waits and errors leave it untouched |
| Cli.SavedStateReadsBack | wallpaper.c:402-411 | the state a run saves reads back unchanged on the next run, given storable scanned paths |
| Cli.DispatchReadsBack | wallpaper.c:402-411 | each mode that saves writes a state that reads back unchanged |
| Cli.RotationSaves | wallpaper.c:254-264 | a rotation that changes the wallpaper writes a state that reads back unchanged |
| Cli.ModePriority | wallpaper.c:365-411 | with only mode flags, `--list` beats everything, `--status` beats all but `--list`, and `--next` rotates even while the gate is shut |
| Cli.HelpOrUnknownFirst | wallpaper.c:320-339 | help or an unknown option ends the run before the directory is looked at, and the one that comes first wins |

## Left out

- Setting the wallpaper on each platform (wallpaper.c:161-226) is a call
  into the desktop whose outcome is only reported. It is modelled by the
  no-effect method `Rotation.SetWallpaper`, and the command strings are
  not built.
- `opendir`/`readdir`, `stat`, `mkdir`, `fopen`/`fscanf`/`fprintf` are not
  modelled as I/O. The listing, the existence test, the state file's
  content and its writability are inputs, and the new content and
  "directory created" are outputs.
- The clock and the random source (`time`, `srand`, `rand`) are
  parameters: `now` and `draw`.
  - `Cli.Run` uses one `now` for every `time(NULL)` call of a run. The
    program calls the clock separately in the gate, the wait estimate and
    the update.
  - The small bias of `rand() % count` is not a property of the model.
- `StateStore.WallpaperState.Load`: on a malformed or truncated state file
  the program leaves fields unassigned (undefined behaviour in C). The
  model then promises nothing about the state, and `Cli.Run` promises
  nothing about the outcome.
- Printed output is not modelled: banners, usage text, progress messages
  and the exact `printf` formats. `main`'s result is a `Report` value.
- `Scanner.CollectWallpapers` does not model the truncation of
  `snprintf(..., MAX_PATH_LEN, ...)`. A directory entry name is at most 255
  bytes on the supported systems, so directory plus name stays below 512.
- `Rotation.Rotate` and `Rotation.SetRandom`: the `strncpy` of the path
  into the 512-byte field is a plain copy, because scanned paths fit the
  field.
- Rotation.Rotate: for a stored index below -1 the program computes a
  negative index at wallpaper.c:256 and reads outside the array at
  wallpaper.c:258. For a stored index of `INT_MAX`, `index + 1` overflows.
  Both are undefined in C. The model uses the corrected step and promises
  an in-range state in both cases (see "## Findings").
- Rotation.RotationEffect: states C's own step only for stored indexes from
  -1 up to the largest `int` but one. For the two cases above it states the
  corrected step, which the program does not reach.
- Cli.Run: for a state file holding one of those two indexes, `RunSpec`
  promises a rotation outcome where the program's behaviour is undefined.
- Rotation.HoursRemaining: the narrowing of the `time_t` quotient to `int`
  at wallpaper.c:248 is not modelled. It matters only for a clock about
  245,000 years behind the recorded change.
- The signed `time_t` subtraction `now - last_change_time` at
  wallpaper.c:234, wallpaper.c:248 and wallpaper.c:386-387 is computed on
  unbounded integers. For a stored time near the 64-bit limits, which
  `StateStore.Parse` accepts, the C subtraction overflows, and C leaves the
  result undefined. The model gives the mathematical difference there.
- StateStore.Parse: the time field is read as a 64-bit `long`, which holds
  on the LP64 platforms (Linux, macOS). On Windows, `long` is 32 bits, so
  `fscanf("%ld")` into the 64-bit `time_t` at wallpaper.c:94 fills only
  part of it, and the rest of the uninitialised `state` in `main` stays
  undefined. The model does not capture that platform.
- `Cli.StatusEstimates`: the narrowing of the `time_t` quotients to `int`
  is not modelled. The estimates are stated for a clock at or after the
  recorded change.
- `Cli.StatusOf`: the position `wallpaper_index + 1` printed at
  wallpaper.c:382 overflows `int` when the stored index is `INT_MAX`, which
  C leaves undefined; the model gives the mathematical value.
- Strings are sequences of characters without the NUL terminator. The
  program works on bytes, so a path with an embedded NUL is outside the
  model.
- Concurrent runs racing on the state file are not modelled.

## Findings

| source | as written | input that shows it | evidently intended | confidence | as-written member | corrected member |
|---|---|---|---|---|---|---|
| wallpaper.c:256 | `(state->wallpaper_index + 1) % count` with C's truncating `%` | a state file holding index `-3` and 3 wallpapers: the new index is `-2`, and `wallpapers[-2]` is read at wallpaper.c:258 | the next index wraps into `[0, count)` whatever the stored index | not executed | Rotation.NegativeIndexEscapes | Rotation.NextIndex |
| wallpaper.c:256 | `state->wallpaper_index + 1` on an `int` | a state file holding index `2147483647`, which `loadState` accepts: `index + 1` overflows `int` | the next index wraps into `[0, count)` whatever the stored index | not executed | Rotation.IndexOverflowLoads | Rotation.NextIndex |
