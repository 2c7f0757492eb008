/** The command line front end, `main`: the flag scan, the checks on the
    wallpaper directory, the choice of mode, the list and status views and
    the hand-off to the rotation procedures. Banners, usage text and the
    wording of messages are not modelled; what `main` reports is a `Report`
    value and its exit status a number. */
module Cli {
  import opened Common
  import opened Text
  import opened Config
  import opened Scanner
  import opened StateStore
  import opened Rotation

  // ---------------------------------------------------------------------
  // The flag scan

  /** The five mode variables `main` starts at 0 and sets to 1. */
  datatype Flags = Flags(force: bool, random: bool, next: bool, list: bool, status: bool)

  const NoFlags: Flags := Flags(false, false, false, false, false)

  /** What the scan of `argv[1..]` decides. */
  datatype Args =
    | Proceed(flags: Flags)       // every argument was a mode flag
    | ShowHelp                    // `--help` or `-h` came first: usage, exit 0
    | UnknownOption(arg: string)  // an unknown argument came first: usage, exit 1

  predicate IsModeFlag(a: string) {
    a == "--force" || a == "--random" || a == "--next" || a == "--list" || a == "--status"
  }

  predicate IsHelpFlag(a: string) {
    a == "--help" || a == "-h"
  }

  function SetFlag(f: Flags, a: string): (r: Flags)
    ensures !IsModeFlag(a) ==> r == f
    ensures IsModeFlag(a) ==> r != NoFlags
    ensures (f.force ==> r.force) && (f.random ==> r.random) && (f.next ==> r.next)
      && (f.list ==> r.list) && (f.status ==> r.status)
  {
    if a == "--force" then f.(force := true)
    else if a == "--random" then f.(random := true)
    else if a == "--next" then f.(next := true)
    else if a == "--list" then f.(list := true)
    else if a == "--status" then f.(status := true)
    else f
  }

  /** The scan of the remaining arguments `args`, with the flags set so far. */
  function ParseFrom(args: seq<string>, f: Flags): (r: Args)
    ensures r.Proceed? <==> forall i :: 0 <= i < |args| ==> IsModeFlag(args[i])
    ensures r.UnknownOption? ==> r.arg in args && !IsModeFlag(r.arg) && !IsHelpFlag(r.arg)
  {
    if |args| == 0 then Proceed(f)
    else if IsModeFlag(args[0]) then ParseFrom(args[1..], SetFlag(f, args[0]))
    else if IsHelpFlag(args[0]) then ShowHelp
    else UnknownOption(args[0])
  }

  function ParseArgsSpec(args: seq<string>): Args {
    ParseFrom(args, NoFlags)
  }

  /** The flags `f` together with every mode flag that occurs in `args`. */
  function Join(f: Flags, args: seq<string>): Flags {
    Flags(f.force || "--force" in args, f.random || "--random" in args, f.next || "--next" in args,
          f.list || "--list" in args, f.status || "--status" in args)
  }

  /** The loop over `argv` with its five variables; it returns at the first
      argument that is not a mode flag. */
  method ParseArgs(args: seq<string>) returns (r: Args)
    ensures r == ParseArgsSpec(args)
  {
    var force, random, next, list, status := false, false, false, false, false;
    var i := 0;
    while i < |args|
      invariant 0 <= i <= |args|
      invariant ParseFrom(args[i..], Flags(force, random, next, list, status)) == ParseArgsSpec(args)
    {
      var a := args[i];
      assert args[i..][1..] == args[i + 1..];
      if a == "--force" {
        force := true;
      } else if a == "--random" {
        random := true;
      } else if a == "--next" {
        next := true;
      } else if a == "--list" {
        list := true;
      } else if a == "--status" {
        status := true;
      } else if a == "--help" || a == "-h" {
        return ShowHelp;
      } else {
        return UnknownOption(a);
      }
      i := i + 1;
    }
    assert args[i..] == [];
    r := Proceed(Flags(force, random, next, list, status));
  }

  /** When every argument is a mode flag, the flags are exactly those that
      occur, in whatever order and however often. */
  lemma {:induction false} AllModeFlags(args: seq<string>, f: Flags)
    requires forall i :: 0 <= i < |args| ==> IsModeFlag(args[i])
    ensures ParseFrom(args, f) == Proceed(Join(f, args))
  {
    if |args| > 0 {
      AllModeFlags(args[1..], SetFlag(f, args[0]));
      SetFlagIsJoin(f, args[0]);
      InFirstOrRest(args, "--force");
      InFirstOrRest(args, "--random");
      InFirstOrRest(args, "--next");
      InFirstOrRest(args, "--list");
      InFirstOrRest(args, "--status");
    }
  }

  /** Setting one flag is joining the one-argument list. */
  lemma SetFlagIsJoin(f: Flags, a: string)
    requires IsModeFlag(a)
    ensures SetFlag(f, a) == Join(f, [a])
  {
  }

  lemma InFirstOrRest(args: seq<string>, x: string)
    requires |args| > 0
    ensures x in args <==> x == args[0] || x in args[1..]
  {
    assert args == [args[0]] + args[1..];
  }

  /** The first argument that is not a mode flag decides: help when it is
      `--help` or `-h`, otherwise an unknown option, whatever follows it. */
  lemma {:induction false} FirstOtherDecides(args: seq<string>, f: Flags, j: nat)
    requires j < |args| && !IsModeFlag(args[j])
    requires forall i :: 0 <= i < j ==> IsModeFlag(args[i])
    ensures ParseFrom(args, f) == if IsHelpFlag(args[j]) then ShowHelp else UnknownOption(args[j])
  {
    if j > 0 {
      FirstOtherDecides(args[1..], SetFlag(f, args[0]), j - 1);
    }
  }

  /** Two argument lists made of the same mode flags select the same flags. */
  lemma FlagOrderIrrelevant(args: seq<string>, args': seq<string>)
    requires forall i :: 0 <= i < |args| ==> IsModeFlag(args[i])
    requires forall i :: 0 <= i < |args'| ==> IsModeFlag(args'[i])
    requires forall x :: x in args <==> x in args'
    ensures ParseArgsSpec(args) == ParseArgsSpec(args')
  {
    AllModeFlags(args, NoFlags);
    AllModeFlags(args', NoFlags);
  }

  // ---------------------------------------------------------------------
  // The mode

  datatype Mode = ListMode | StatusMode | RandomMode | NextMode | DailyMode(force: bool)

  /** The `if` chain after loading: list, then status, then random, then
      next, then the daily rotation, forced or not. */
  function ModeOf(f: Flags): (m: Mode)
    ensures m == ListMode <==> f.list
    ensures m == StatusMode <==> f.status && !f.list
    ensures m == RandomMode <==> f.random && !f.list && !f.status
    ensures m == NextMode <==> f.next && !f.random && !f.list && !f.status
    ensures m.DailyMode? <==> !f.next && !f.random && !f.list && !f.status
    ensures m.DailyMode? ==> m.force == f.force
  {
    if f.list then ListMode
    else if f.status then StatusMode
    else if f.random then RandomMode
    else if f.next then NextMode
    else DailyMode(f.force)
  }

  // ---------------------------------------------------------------------
  // The list view

  /** One line of `--list`: the 1-based number, the file name and the
      `[CURRENT]` mark. */
  datatype ListLine = ListLine(number: int, name: string, current: bool)

  /** The lines `--list` prints for `list` when the stored index is `index`. */
  function ListView(list: seq<string>, index: int, sep: char): (lines: seq<ListLine>)
    ensures |lines| == |list|
    ensures forall i :: 0 <= i < |lines| ==>
      lines[i].number == i + 1 && (lines[i].current <==> i == index)
      && sep !in lines[i].name && |lines[i].name| <= |list[i]|
      && lines[i].name == list[i][|list[i]| - |lines[i].name|..]
  {
    Numbered(list, (path, i) => ListLine(i + 1, AfterLast(path, sep), i == index))
  }

  /** One line per entry of `list`, built from the entry and its position. */
  function Numbered(list: seq<string>, line: (string, int) -> ListLine): seq<ListLine> {
    seq(|list|, i requires 0 <= i < |list| => line(list[i], i))
  }

  /** The listing loop. */
  method ListWallpapers(wallpapers: array<string>, count: int, index: int, sep: char)
    returns (lines: seq<ListLine>)
    requires 0 <= count <= wallpapers.Length
    ensures lines == ListView(wallpapers[..count], index, sep)
  {
    ghost var list := wallpapers[..count];
    ghost var line := (path, k) => ListLine(k + 1, AfterLast(path, sep), k == index);
    lines := [];
    var i := 0;
    while i < count
      invariant 0 <= i <= count
      invariant lines == Numbered(list[..i], line)
    {
      NumberedStep(list, i, line);
      var name := AfterLast(wallpapers[i], sep);
      assert line(list[i], i) == ListLine(i + 1, name, i == index);
      lines := lines + [ListLine(i + 1, name, i == index)];
      i := i + 1;
    }
    assert list[..i] == list;
  }

  /** The listing of one more wallpaper is one more line. */
  lemma NumberedStep(list: seq<string>, i: nat, line: (string, int) -> ListLine)
    requires i < |list|
    ensures Numbered(list[..i + 1], line) == Numbered(list[..i], line) + [line(list[i], i)]
  {
    var a, b := Numbered(list[..i + 1], line), Numbered(list[..i], line);
    forall k | 0 <= k <= i
      ensures a[k] == (b + [line(list[i], i)])[k]
    {
      if k < i {
        assert list[..i + 1][k] == list[..i][k];
      }
    }
  }

  /** The listing has one line per wallpaper, numbered from 1, each naming
      the file without its directory; at most one line is marked, and one is
      marked exactly when the stored index lies inside the list, the line at
      that index. */
  lemma CurrentMark(list: seq<string>, index: int, sep: char)
    ensures var lines := ListView(list, index, sep);
      |lines| == |list|
      && (forall i :: 0 <= i < |lines| ==>
            lines[i].number == i + 1 && sep !in lines[i].name
            && list[i] == list[i][..|list[i]| - |lines[i].name|] + lines[i].name)
      && (forall i, j :: 0 <= i < j < |lines| && lines[i].current ==> !lines[j].current)
      && ((exists i :: 0 <= i < |lines| && lines[i].current) <==> 0 <= index < |list|)
      && (0 <= index < |list| ==> lines[index].current)
  {
    var lines := ListView(list, index, sep);
    if 0 <= index < |list| {
      assert lines[index].current;
    }
    forall i | 0 <= i < |lines|
      ensures list[i] == list[i][..|list[i]| - |lines[i].name|] + lines[i].name
    {
      var name := AfterLast(list[i], sep);
      assert list[i] == list[i][..|list[i]| - |name|] + list[i][|list[i]| - |name|..];
    }
  }

  // ---------------------------------------------------------------------
  // The status view

  datatype LastChange =
    | NeverChanged
    | ChangedAt(hoursAgo: int, hoursUntil: int, current: string)

  /** What `--status` prints: the live count, the 1-based position and, when
      a change was recorded, the two hour estimates and the current file. */
  datatype StatusReport = StatusReport(total: int, position: int, last: LastChange)

  function StatusOf(s: StateRecord, count: int, now: int, sep: char): (st: StatusReport)
    ensures st.total == count && st.position == s.wallpaperIndex + 1
    ensures st.last.ChangedAt? <==> s.lastChangeTime > 0
    ensures st.last.ChangedAt? ==> st.last.hoursUntil >= 0 && sep !in st.last.current
  {
    StatusReport(count, s.wallpaperIndex + 1,
      if s.lastChangeTime > 0 then
        var elapsed := now - s.lastChangeTime;
        var until := CDiv(DaySeconds - elapsed, HourSeconds);
        ChangedAt(CDiv(elapsed, HourSeconds), if until > 0 then until else 0,
                  AfterLast(s.lastWallpaper, sep))
      else NeverChanged)
  }

  /** The hours-ago figure: C's quotient of a non-negative elapsed time by
      an hour counts the whole hours in it. */
  lemma WholeHoursElapsed(e: int)
    requires e >= 0
    ensures CDiv(e, HourSeconds) * HourSeconds <= e < (CDiv(e, HourSeconds) + 1) * HourSeconds
  {
    CArithAgreesOnNonNegative(e, 3600);
    assert CDiv(e, HourSeconds) == e / 3600;
  }

  /** Within the day the hours elapsed and the hours left add up to the
      day, less one when the elapsed time is not a whole number of hours. */
  lemma HoursAddUp(e: int)
    requires 0 <= e <= DaySeconds
    ensures CDiv(e, HourSeconds) + CDiv(DaySeconds - e, HourSeconds)
         == if e % HourSeconds == 0 then 24 else 23
  {
    CArithAgreesOnNonNegative(e, 3600);
    CArithAgreesOnNonNegative(86400 - e, 3600);
    assert CDiv(e, HourSeconds) == e / 3600;
    assert CDiv(DaySeconds - e, HourSeconds) == (86400 - e) / 3600;
  }

  /** In the last hour of the day and after it, C's quotient of what is left
      of the day is never positive. */
  lemma NoWholeHourLeft(e: int)
    requires e > DaySeconds - HourSeconds
    ensures CDiv(DaySeconds - e, HourSeconds) <= 0
  {
    if DaySeconds - e >= 0 {
      CArithAgreesOnNonNegative(86400 - e, 3600);
    }
  }

  /** With the clock at or after the recorded change, the estimates are whole
      hours, truncated: `hoursAgo` whole hours have passed; within the day,
      the two estimates add up to the day, less one hour when the elapsed
      time is not a whole number of hours; after the day the wait shows 0. */
  lemma StatusEstimates(s: StateRecord, count: int, now: int, sep: char)
    requires s.lastChangeTime > 0 && now >= s.lastChangeTime
    ensures var st := StatusOf(s, count, now, sep);
      var elapsed := now - s.lastChangeTime;
      st.last.ChangedAt? && st.last.hoursUntil >= 0
      && st.last.hoursAgo * HourSeconds <= elapsed < (st.last.hoursAgo + 1) * HourSeconds
      && (elapsed <= DaySeconds ==>
            st.last.hoursAgo + st.last.hoursUntil == if elapsed % HourSeconds == 0 then 24 else 23)
      && (elapsed > DaySeconds - HourSeconds ==> st.last.hoursUntil == 0)
      && st.last.current == AfterLast(s.lastWallpaper, sep)
  {
    var elapsed := now - s.lastChangeTime;
    WholeHoursElapsed(elapsed);
    if elapsed <= DaySeconds {
      HoursAddUp(elapsed);
      assert CDiv(DaySeconds - elapsed, HourSeconds) >= 0 by {
        CArithAgreesOnNonNegative(DaySeconds - elapsed, HourSeconds);
      }
    }
    if elapsed > DaySeconds - HourSeconds {
      NoWholeHourLeft(elapsed);
    }
  }

  /** While the gate is shut, `--status` predicts the same wait that an
      unforced rotation reports. */
  lemma StatusAgreesWithWait(list: seq<string>, s: StateRecord, now: int, sep: char)
    requires |list| > 0 && s.lastChangeTime > 0
    requires !ShouldChange(s, now)
    ensures StatusOf(s, |list|, now, sep).last.hoursUntil == Decide(list, s, false, now).hoursRemaining
  {
    CDivBounds(DaySeconds - (now - s.lastChangeTime), HourSeconds);
  }

  // ---------------------------------------------------------------------
  // The whole program

  /** What `main` reports before it returns. */
  datatype Report =
    | Help                                // usage, exit 0
    | Unknown(arg: string)                // unknown option and usage, exit 1
    | NoDirectory                         // directory missing: created, exit 1
    | EmptyDirectory                      // no wallpaper found, exit 1
    | Listing(lines: seq<ListLine>)       // `--list`
    | Status(status: StatusReport)        // `--status`
    | Randomized(picked: Option<StateRecord>)  // `--random`
    | Rotated(decision: Decision)         // `--next` or the daily rotation

  /** The exit status, what was reported, the state file's content
      afterwards and whether the wallpaper directory was created. */
  datatype Outcome = Outcome(exitCode: int, report: Report, stateFile: Option<string>, createdDirectory: bool)

  /** The program's environment: the directory test, the listing (`None` when
      it cannot be opened), the existence test on each full path, the state
      file's content (`None` when missing), whether it can be written, the
      clock and the random draw. */
  datatype Env = Env(
    dirExists: bool, listing: Option<seq<string>>, present: string -> bool,
    stateFile: Option<string>, writable: bool, now: int, draw: nat)

  /** `main` with the arguments after the program name; `None` when the
      state file is malformed and the source leaves the state undefined. */
  function RunSpec(p: Platform, args: seq<string>, env: Env): (r: Option<Outcome>)
    ensures r.None? ==> ParseArgsSpec(args).Proceed? && LoadFile(env.stateFile).None?
    ensures r.Some? ==> r.value.exitCode == 0 || r.value.exitCode == 1
  {
    match ParseArgsSpec(args)
    case ShowHelp => Some(Outcome(0, Help, env.stateFile, false))
    case UnknownOption(a) => Some(Outcome(1, Unknown(a), env.stateFile, false))
    case Proceed(f) =>
      if !env.dirExists then Some(Outcome(1, NoDirectory, env.stateFile, true))
      else
        var list := Collected(p, env.listing, env.present);
        if |list| == 0 then Some(Outcome(1, EmptyDirectory, env.stateFile, false))
        else
          match LoadFile(env.stateFile)
          case None => None
          case Some(s) => Some(Dispatch(p, ModeOf(f), list, s, env))
  }

  /** The mode's effect on a non-empty list and a loaded state `s`. */
  function Dispatch(p: Platform, m: Mode, list: seq<string>, s: StateRecord, env: Env): (o: Outcome)
    requires |list| > 0
    ensures m.ListMode? <==> o.report.Listing?
    ensures m.StatusMode? <==> o.report.Status?
    ensures m.RandomMode? <==> o.report.Randomized?
    ensures m.NextMode? || m.DailyMode? <==> o.report.Rotated?
  {
    match m
    case ListMode => Outcome(0, Listing(ListView(list, s.wallpaperIndex, PathSeparator(p))), env.stateFile, false)
    case StatusMode => Outcome(0, Status(StatusOf(s, |list|, env.now, PathSeparator(p))), env.stateFile, false)
    case RandomMode =>
      var picked := RandomPick(list, env.draw, env.now);
      Outcome(0, Randomized(picked), Saved(picked.Some?, AfterPick(picked, s), env), false)
    case NextMode =>
      var d := Decide(list, s, true, env.now);
      Outcome(0, Rotated(d), Saved(d.Advance?, AfterRotation(list, s, true, env.now), env), false)
    case DailyMode(force) =>
      var d := Decide(list, s, force, env.now);
      Outcome(0, Rotated(d), Saved(d.Advance?, AfterRotation(list, s, force, env.now), env), false)
  }

  function AfterPick(picked: Option<StateRecord>, s: StateRecord): StateRecord {
    if picked.Some? then picked.value else s
  }

  /** The state file after a procedure that saves `r` when `changed`. */
  function Saved(changed: bool, r: StateRecord, env: Env): Option<string> {
    if changed && env.writable then Some(Serialize(r)) else env.stateFile
  }

  /** `main`: parses the flags, checks the directory, collects the wallpapers
      into a fresh array, loads a fresh state and runs the selected mode. */
  method Run(p: Platform, args: seq<string>, env: Env) returns (outcome: Outcome)
    ensures RunSpec(p, args, env).Some? ==> outcome == RunSpec(p, args, env).value
  {
    var parsed := ParseArgs(args);
    if parsed.ShowHelp? {
      return Outcome(0, Help, env.stateFile, false);
    } else if parsed.UnknownOption? {
      return Outcome(1, Unknown(parsed.arg), env.stateFile, false);
    }
    var f := parsed.flags;
    if !env.dirExists {
      return Outcome(1, NoDirectory, env.stateFile, true);
    }
    var wallpapers := new string[MaxWallpapers];
    var count := CollectWallpapers(p, env.listing, env.present, wallpapers);
    if count == 0 {
      return Outcome(1, EmptyDirectory, env.stateFile, false);
    }
    var state := new WallpaperState();
    state.Load(env.stateFile);
    outcome := RunMode(p, f, wallpapers, count, state, env);
  }

  /** The `if` chain over the modes, on the collected wallpapers and the
      loaded state. */
  method RunMode(p: Platform, f: Flags, wallpapers: array<string>, count: int, state: WallpaperState, env: Env)
    returns (outcome: Outcome)
    requires 0 < count <= wallpapers.Length
    modifies state
    ensures outcome == Dispatch(p, ModeOf(f), wallpapers[..count], old(state.Value()), env)
  {
    if f.list {
      var lines := ListWallpapers(wallpapers, count, state.wallpaperIndex, PathSeparator(p));
      outcome := Outcome(0, Listing(lines), env.stateFile, false);
    } else if f.status {
      outcome := Outcome(0, Status(StatusOf(state.Value(), count, env.now, PathSeparator(p))), env.stateFile, false);
    } else if f.random {
      var picked, disk := SetRandom(wallpapers, count, state, env.draw, env.now, env.stateFile, env.writable);
      outcome := Outcome(0, Randomized(picked), disk, false);
    } else if f.next {
      var decision, disk := Rotate(wallpapers, count, state, true, env.now, env.stateFile, env.writable);
      outcome := Outcome(0, Rotated(decision), disk, false);
    } else {
      var decision, disk := Rotate(wallpapers, count, state, f.force, env.now, env.stateFile, env.writable);
      outcome := Outcome(0, Rotated(decision), disk, false);
    }
  }

  // ---------------------------------------------------------------------
  // Properties of the whole program

  /** The exit status is 1 exactly for an unknown option, a missing directory
      and an empty directory, and 0 otherwise; the directory is created only
      when it was missing. */
  lemma ExitStatus(p: Platform, args: seq<string>, env: Env)
    requires RunSpec(p, args, env).Some?
    ensures var o := RunSpec(p, args, env).value;
      (o.exitCode == 1 <==> o.report.Unknown? || o.report.NoDirectory? || o.report.EmptyDirectory?)
      && (o.exitCode == 0 <==> !(o.report.Unknown? || o.report.NoDirectory? || o.report.EmptyDirectory?))
      && (o.createdDirectory <==> o.report.NoDirectory?)
  {
    match ParseArgsSpec(args)
    case ShowHelp =>
    case UnknownOption(_) =>
    case Proceed(f) =>
      var list := Collected(p, env.listing, env.present);
      if env.dirExists && |list| > 0 {
        DispatchSucceeds(p, ModeOf(f), list, LoadFile(env.stateFile).value, env);
      }
  }

  /** Every mode ends the run with exit status 0 without creating the
      directory. */
  lemma DispatchSucceeds(p: Platform, m: Mode, list: seq<string>, s: StateRecord, env: Env)
    requires |list| > 0
    ensures var o := Dispatch(p, m, list, s, env);
      o.exitCode == 0 && !o.createdDirectory
      && !(o.report.Unknown? || o.report.NoDirectory? || o.report.EmptyDirectory? || o.report.Help?)
  {
  }

  /** The state file is rewritten only by a random pick or a rotation that
      changed the wallpaper, and then holds the new state; every other path
      through `main` leaves it as it was. */
  lemma StateFileWrites(p: Platform, args: seq<string>, env: Env)
    requires RunSpec(p, args, env).Some?
    ensures var o := RunSpec(p, args, env).value;
      if env.writable && (o.report.Randomized? && o.report.picked.Some?)
      then o.stateFile == Some(Serialize(o.report.picked.value))
      else if env.writable && (o.report.Rotated? && o.report.decision.Advance?)
      then o.stateFile == Some(Serialize(o.report.decision.next))
      else o.stateFile == env.stateFile
  {
    var o := RunSpec(p, args, env).value;
    if ParseArgsSpec(args).Proceed? && env.dirExists {
      var list := Collected(p, env.listing, env.present);
      if |list| > 0 {
        var s := LoadFile(env.stateFile).value;
        match ModeOf(ParseArgsSpec(args).flags)
        case NextMode => RotationEffect(list, s, true, env.now);
        case DailyMode(force) => RotationEffect(list, s, force, env.now);
        case _ =>
      }
    }
  }

  /** Whatever a run saves reads back as the state it saved, provided the
      scanned paths are storable and the clock fits a `time_t`: the next
      run starts from the state this one ended in. */
  lemma SavedStateReadsBack(p: Platform, args: seq<string>, env: Env)
    requires RunSpec(p, args, env).Some? && env.writable
    requires forall i :: 0 <= i < |Collected(p, env.listing, env.present)| ==>
      StorablePath(Collected(p, env.listing, env.present)[i])
    requires IsInt64(env.now)
    ensures var o := RunSpec(p, args, env).value;
      (o.report.Randomized? && o.report.picked.Some? ==> LoadFile(o.stateFile) == o.report.picked)
      && (o.report.Rotated? && o.report.decision.Advance? ==> LoadFile(o.stateFile) == Some(o.report.decision.next))
  {
    var list := Collected(p, env.listing, env.present);
    if ParseArgsSpec(args).Proceed? && env.dirExists && |list| > 0 {
      DispatchReadsBack(p, ModeOf(ParseArgsSpec(args).flags), list, LoadFile(env.stateFile).value, env);
    }
  }

  lemma DispatchReadsBack(p: Platform, m: Mode, list: seq<string>, s: StateRecord, env: Env)
    requires 0 < |list| <= MaxWallpapers && env.writable && IsInt64(env.now)
    requires forall i :: 0 <= i < |list| ==> StorablePath(list[i])
    ensures var o := Dispatch(p, m, list, s, env);
      (o.report.Randomized? && o.report.picked.Some? ==> LoadFile(o.stateFile) == o.report.picked)
      && (o.report.Rotated? && o.report.decision.Advance? ==> LoadFile(o.stateFile) == Some(o.report.decision.next))
  {
    match m
    case RandomMode =>
      RandomPickEffect(list, env.draw, env.now);
      SaveLoadRoundTrip(RandomPick(list, env.draw, env.now).value);
    case NextMode =>
      RotationSaves(list, s, true, env.now);
    case DailyMode(force) =>
      RotationSaves(list, s, force, env.now);
    case _ =>
  }

  /** A rotation that changes the wallpaper produces a storable state. */
  lemma RotationSaves(list: seq<string>, s: StateRecord, force: bool, now: int)
    requires 0 < |list| <= MaxWallpapers && IsInt64(now)
    requires forall i :: 0 <= i < |list| ==> StorablePath(list[i])
    ensures Decide(list, s, force, now).Advance? ==>
      LoadFile(Some(Serialize(Decide(list, s, force, now).next))) == Some(Decide(list, s, force, now).next)
  {
    if Decide(list, s, force, now).Advance? {
      RotationEffect(list, s, force, now);
      SaveLoadRoundTrip(Decide(list, s, force, now).next);
    }
  }

  /** With only mode flags on the command line, `--list` wins over every
      other flag and `--status` over all but `--list`; `--next` rotates even
      while the gate is shut. */
  lemma ModePriority(p: Platform, args: seq<string>, env: Env)
    requires forall i :: 0 <= i < |args| ==> IsModeFlag(args[i])
    requires RunSpec(p, args, env).Some? && env.dirExists
    requires |Collected(p, env.listing, env.present)| > 0 && LoadFile(env.stateFile).Some?
    ensures var o := RunSpec(p, args, env).value;
      ("--list" in args ==> o.report.Listing?)
      && ("--status" in args && "--list" !in args ==> o.report.Status?)
      && ("--next" in args && "--random" !in args && "--status" !in args && "--list" !in args
          ==> o.report == Rotated(Decide(Collected(p, env.listing, env.present),
                                           LoadFile(env.stateFile).value, true, env.now)))
  {
    AllModeFlags(args, NoFlags);
  }

  /** Help and unknown options end the run before the directory is looked at,
      in the order they appear. */
  lemma HelpOrUnknownFirst(p: Platform, args: seq<string>, env: Env, j: nat)
    requires j < |args| && !IsModeFlag(args[j])
    requires forall i :: 0 <= i < j ==> IsModeFlag(args[i])
    ensures RunSpec(p, args, env) ==
      if IsHelpFlag(args[j]) then Some(Outcome(0, Help, env.stateFile, false))
      else Some(Outcome(1, Unknown(args[j]), env.stateFile, false))
  {
    FirstOtherDecides(args, NoFlags, j);
  }
}
