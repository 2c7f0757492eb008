/** The state store: the four-field rotation record, the one-field-per-line
    text the state file holds, and the object the program loads it into and
    saves it from. Opening, reading and writing the file are left to the
    caller: the file's content is an input (`None` when it cannot be opened)
    and the content after saving is an output. */
module StateStore {
  import opened Common
  import opened Text
  import opened Config

  /** The value held by a `WallpaperState` structure. */
  datatype StateRecord = StateRecord(
    lastWallpaper: string,
    lastChangeTime: int,
    wallpaperIndex: int,
    totalWallpapers: int)

  /** What a first run starts from: never changed, index 0, empty path. */
  const ZeroState: StateRecord := StateRecord("", 0, 0, 0)

  // ---------------------------------------------------------------------
  // Decimal integers, as `printf("%d")` writes and `fscanf("%d")` reads them

  predicate IsDigit(c: char) {
    '0' <= c <= '9'
  }

  predicate AllDigits(s: string) {
    forall i :: 0 <= i < |s| ==> IsDigit(s[i])
  }

  function DigitChar(d: nat): (c: char)
    requires d < 10
    ensures IsDigit(c)
  {
    ('0' as int + d) as char
  }

  /** The digits of `n`, most significant first, with no leading zero. */
  function Decimal(n: nat): (s: string)
    ensures |s| > 0 && AllDigits(s)
  {
    if n < 10 then [DigitChar(n)] else Decimal(n / 10) + [DigitChar(n % 10)]
  }

  /** `printf("%d", x)` / `printf("%ld", x)`. */
  function SignedDecimal(x: int): (s: string)
    ensures |s| > 0 && (s[0] == '-' || IsDigit(s[0]))
  {
    if x < 0 then "-" + Decimal(-x) else Decimal(x)
  }

  /** The number a string of digits denotes. */
  function DigitsValue(ds: string): nat
    requires AllDigits(ds)
  {
    if |ds| == 0 then 0
    else DigitsValue(ds[..|ds| - 1]) * 10 + (ds[|ds| - 1] as int - '0' as int)
  }

  /** Length of the run of digits that starts `s`. */
  function DigitRun(s: string): (n: nat)
    ensures n <= |s| && AllDigits(s[..n]) && (n < |s| ==> !IsDigit(s[n]))
  {
    if |s| == 0 || !IsDigit(s[0]) then 0
    else
      var n := 1 + DigitRun(s[1..]);
      assert s[..n] == [s[0]] + s[1..][..n - 1];
      n
  }

  /** What is left of `s` after its leading white space. */
  function SkipSpace(s: string): (r: string)
    ensures |r| <= |s|
    ensures r == [] || !IsSpace(r[0])
    ensures forall i :: 0 <= i < |s| - |r| ==> IsSpace(s[i])
  {
    if |s| > 0 && IsSpace(s[0]) then SkipSpace(s[1..]) else s
  }

  /** One `%d` or `%ld` conversion of `fscanf`: white space, an optional sign
      and at least one digit; the number and the unread text, or `None` on a
      matching failure. */
  function ScanInteger(s: string): (r: Option<(int, string)>)
    ensures r.Some? ==> |r.value.1| < |s|
  {
    var t := SkipSpace(s);
    var signed := |t| > 0 && (t[0] == '-' || t[0] == '+');
    var u := if signed then t[1..] else t;
    var n := DigitRun(u);
    if n == 0 then None
    else
      var v: int := DigitsValue(u[..n]);
      Some((if signed && t[0] == '-' then -v else v, u[n..]))
  }

  /** `fgets(buf, cap + 1, f)` followed by cutting the buffer at its first
      newline: at most `cap` characters, up to the first newline. */
  function ReadLine(s: string, cap: nat): (line: string)
    ensures |line| <= cap && line <= s && '\n' !in line
  {
    if |s| == 0 || cap == 0 || s[0] == '\n' then []
    else
      var line := [s[0]] + ReadLine(s[1..], cap - 1);
      assert line[1..] == ReadLine(s[1..], cap - 1);
      line
  }

  // ---------------------------------------------------------------------
  // The state file's text

  function Line(s: string): string {
    s + "\n"
  }

  /** `saveState`'s four `fprintf` calls: time, index, total, path. */
  function Serialize(r: StateRecord): (text: string)
    ensures |text| >= |r.lastWallpaper| + 7 && (text[0] == '-' || IsDigit(text[0]))
    ensures text[|text| - |r.lastWallpaper| - 1..] == r.lastWallpaper + "\n"
  {
    Line(SignedDecimal(r.lastChangeTime)) + Line(SignedDecimal(r.wallpaperIndex))
    + Line(SignedDecimal(r.totalWallpapers)) + Line(r.lastWallpaper)
  }

  /** One `%d\n` (or `%ld\n`) directive pair of `fscanf`: the conversion,
      then the newline, which skips ALL white space that follows. */
  function ScanField(s: string): (r: Option<(int, string)>)
    ensures r.Some? ==> |r.value.1| < |s| && (r.value.1 == [] || !IsSpace(r.value.1[0]))
  {
    match ScanInteger(s)
    case None => None
    case Some((v, rest)) => Some((v, SkipSpace(rest)))
  }

  /** `loadState` on an open file: three numeric fields, then `fgets` of the
      path. `None` where the source leaves a field unassigned (a matching
      failure, or `fgets` at the end of the file) or overflows it, which C
      leaves undefined. */
  function Parse(text: string): (r: Option<StateRecord>)
    ensures r.Some? ==>
      IsInt64(r.value.lastChangeTime) && IsInt32(r.value.wallpaperIndex) && IsInt32(r.value.totalWallpapers)
      && |r.value.lastWallpaper| < MaxPathLen && '\n' !in r.value.lastWallpaper
  {
    var a := ScanField(text);
    if a.None? then None
    else
      var b := ScanField(a.value.1);
      if b.None? then None
      else
        var c := ScanField(b.value.1);
        if c.None? then None
        else
          var time, index, total, rest := a.value.0, b.value.0, c.value.0, c.value.1;
          if |rest| == 0 || !IsInt64(time) || !IsInt32(index) || !IsInt32(total) then None
          else Some(StateRecord(ReadLine(rest, MaxPathLen - 1), time, index, total))
  }

  /** `loadState`: a state file that cannot be opened gives the zero state. */
  function LoadFile(file: Option<string>): (r: Option<StateRecord>)
    ensures file.None? ==> r == Some(ZeroState)
    ensures r.Some? ==>
      IsInt64(r.value.lastChangeTime) && IsInt32(r.value.wallpaperIndex) && IsInt32(r.value.totalWallpapers)
      && |r.value.lastWallpaper| < MaxPathLen && '\n' !in r.value.lastWallpaper
  {
    match file
    case None => Some(ZeroState)
    case Some(text) => Parse(text)
  }

  /** A path the file format carries unchanged: one that fits the buffer,
      holds no newline, and does not start with white space (which the
      preceding `\n` directive would swallow). */
  predicate StorablePath(path: string) {
    0 < |path| < MaxPathLen && !IsSpace(path[0]) && '\n' !in path
  }

  /** A record whose numbers fit their C fields and whose path is storable. */
  predicate Storable(r: StateRecord) {
    IsInt64(r.lastChangeTime) && IsInt32(r.wallpaperIndex) && IsInt32(r.totalWallpapers)
    && StorablePath(r.lastWallpaper)
  }

  // ---------------------------------------------------------------------
  // The round trip

  lemma {:induction false} DigitRunOfDigits(ds: string, rest: string)
    requires AllDigits(ds) && (rest == [] || !IsDigit(rest[0]))
    ensures DigitRun(ds + rest) == |ds|
  {
    if |ds| > 0 {
      assert (ds + rest)[1..] == ds[1..] + rest;
      DigitRunOfDigits(ds[1..], rest);
    }
  }

  lemma {:induction false} DecimalValue(n: nat)
    ensures DigitsValue(Decimal(n)) == n
  {
    if n >= 10 {
      var ds := Decimal(n);
      assert ds[..|ds| - 1] == Decimal(n / 10);
      DecimalValue(n / 10);
    }
  }

  /** Reading back what `%d` printed gives the number and stops right after it. */
  lemma ScanDigits(n: nat, rest: string)
    requires rest == [] || !IsDigit(rest[0])
    ensures var ds := Decimal(n);
      DigitRun(ds + rest) == |ds| && (ds + rest)[..|ds|] == ds && (ds + rest)[|ds|..] == rest
      && DigitsValue(ds) == n
  {
    DigitRunOfDigits(Decimal(n), rest);
    DecimalValue(n);
  }

  lemma ScanSignedDecimal(x: int, rest: string)
    requires rest == [] || !IsDigit(rest[0])
    ensures ScanInteger(SignedDecimal(x) + rest) == Some((x, rest))
  {
    if x < 0 {
      ScanNegative(-x, rest);
    } else {
      ScanNonNegative(x, rest);
    }
  }

  lemma ScanNonNegative(n: nat, rest: string)
    requires rest == [] || !IsDigit(rest[0])
    ensures ScanInteger(Decimal(n) + rest) == Some((n, rest))
  {
    var s := Decimal(n) + rest;
    assert s[0] == Decimal(n)[0];
    assert SkipSpace(s) == s;
    ScanDigits(n, rest);
  }

  lemma ScanNegative(n: nat, rest: string)
    requires n > 0 && (rest == [] || !IsDigit(rest[0]))
    ensures ScanInteger("-" + Decimal(n) + rest) == Some((-(n as int), rest))
  {
    var u := Decimal(n) + rest;
    var s := "-" + Decimal(n) + rest;
    assert s == "-" + u && s[1..] == u;
    assert SkipSpace(s) == s;
    ScanDigits(n, rest);
  }

  lemma {:induction false} ReadLineOfLine(path: string, cap: nat)
    requires '\n' !in path && |path| <= cap
    ensures ReadLine(Line(path), cap) == path
  {
    if |path| > 0 {
      assert Line(path)[1..] == Line(path[1..]);
      assert path == [path[0]] + path[1..];
      ReadLineOfLine(path[1..], cap - 1);
    }
  }

  /** A printed number and its newline are read back as that number, and
      the reading stops at the next line's first character. */
  lemma ScanFieldOfLine(x: int, next: string)
    requires next == [] || !IsSpace(next[0])
    ensures ScanField(Line(SignedDecimal(x)) + next) == Some((x, next))
  {
    var rest := "\n" + next;
    assert Line(SignedDecimal(x)) + next == SignedDecimal(x) + rest;
    ScanSignedDecimal(x, rest);
    assert rest[1..] == next;
    assert SkipSpace(rest) == next;
  }

  lemma Associate(a: string, b: string, c: string, d: string)
    ensures a + b + c + d == a + (b + (c + d))
  {
  }

  /** The text after the first three lines is parsed into a record. */
  lemma ParseLines(t: int, i: int, n: int, tail: string)
    requires tail == [] || !IsSpace(tail[0])
    ensures Parse(Line(SignedDecimal(t)) + Line(SignedDecimal(i)) + Line(SignedDecimal(n)) + tail)
      == if |tail| == 0 || !IsInt64(t) || !IsInt32(i) || !IsInt32(n) then None
         else Some(StateRecord(ReadLine(tail, MaxPathLen - 1), t, i, n))
  {
    var a, b, c := Line(SignedDecimal(t)), Line(SignedDecimal(i)), Line(SignedDecimal(n));
    var r3 := c + tail;
    var r2 := b + r3;
    Associate(a, b, c, tail);
    ScanFieldOfLine(t, r2);
    ScanFieldOfLine(i, r3);
    ScanFieldOfLine(n, tail);
  }

  /** `loadState` after `saveState` gives back all four fields of any
      storable record. */
  lemma SaveLoadRoundTrip(r: StateRecord)
    requires Storable(r)
    ensures Parse(Serialize(r)) == Some(r)
    ensures LoadFile(Some(Serialize(r))) == Some(r)
  {
    ParseLines(r.lastChangeTime, r.wallpaperIndex, r.totalWallpapers, Line(r.lastWallpaper));
    ReadLineOfLine(r.lastWallpaper, MaxPathLen - 1);
  }

  /** A newline inside the path cuts it there: the rest of the path is lost
      on the next load (the format does not escape it). */
  lemma NewlineCutsPath(r: StateRecord, head: string, tail: string)
    requires IsInt64(r.lastChangeTime) && IsInt32(r.wallpaperIndex) && IsInt32(r.totalWallpapers)
    requires r.lastWallpaper == head + "\n" + tail && StorablePath(head)
    ensures Parse(Serialize(r)) == Some(r.(lastWallpaper := head))
  {
    var p := r.lastWallpaper;
    assert Line(p) == head + ("\n" + tail + "\n");
    ParseLines(r.lastChangeTime, r.wallpaperIndex, r.totalWallpapers, Line(p));
    ReadLineAtNewline(head, "\n" + tail + "\n", MaxPathLen - 1);
  }

  lemma {:induction false} ReadLineAtNewline(head: string, rest: string, cap: nat)
    requires '\n' !in head && |head| <= cap && |rest| > 0 && rest[0] == '\n'
    ensures ReadLine(head + rest, cap) == head
  {
    if |head| > 0 {
      assert (head + rest)[1..] == head[1..] + rest;
      assert head == [head[0]] + head[1..];
      ReadLineAtNewline(head[1..], rest, cap - 1);
    } else {
      assert head + rest == rest;
    }
  }

  /** The zero state does not survive a save: after its empty path line the
      `\n` directive reaches the end of the file and `fgets` assigns nothing. */
  lemma ZeroStateNotStorable()
    ensures Parse(Serialize(ZeroState)) == None
  {
    var zero := Line(SignedDecimal(0));
    Associate(zero, zero, zero, Line(""));
    assert Line("") == "\n";
    assert zero + "\n" == SignedDecimal(0) + "\n\n";
    ScanFieldOfLine(0, zero + (zero + "\n"));
    ScanFieldOfLine(0, zero + "\n");
    ScanSignedDecimal(0, "\n\n");
    assert SkipSpace("\n\n") == [];
  }

  // ---------------------------------------------------------------------
  // The structure the program fills in and writes out

  /** The `WallpaperState` structure; `loadState` and `saveState` work on it
      field by field, the rotation functions update it through a pointer. */
  class WallpaperState {
    var lastWallpaper: string
    var lastChangeTime: int
    var wallpaperIndex: int
    var totalWallpapers: int

    function Value(): StateRecord
      reads this
    {
      StateRecord(lastWallpaper, lastChangeTime, wallpaperIndex, totalWallpapers)
    }

    /** A fresh structure; its contents matter only after `Load`. */
    constructor ()
      ensures Value() == ZeroState
    {
      lastWallpaper, lastChangeTime, wallpaperIndex, totalWallpapers := "", 0, 0, 0;
    }

    /** `loadState`: the zero state when the file cannot be opened, otherwise
        the parsed fields. On a malformed file the source leaves fields
        undefined, and so does this model. */
    method Load(file: Option<string>)
      modifies this
      ensures LoadFile(file).Some? ==> Value() == LoadFile(file).value
    {
      if file.None? {
        lastWallpaper := "";
        wallpaperIndex := 0;
        totalWallpapers := 0;
        lastChangeTime := 0;
        return;
      }
      var parsed := Parse(file.value);
      assert LoadFile(file) == parsed;
      if parsed.Some? {
        var r := parsed.value;
        lastChangeTime, wallpaperIndex, totalWallpapers, lastWallpaper :=
          r.lastChangeTime, r.wallpaperIndex, r.totalWallpapers, r.lastWallpaper;
      }
    }

    /** `saveState`: the file's content afterwards. When the file cannot be
        opened for writing, the old content stays. */
    method Save(disk: Option<string>, writable: bool) returns (disk': Option<string>)
      ensures writable ==> disk' == Some(Serialize(Value()))
      ensures !writable ==> disk' == disk
    {
      if !writable {
        return disk;
      }
      disk' := Some(Line(SignedDecimal(lastChangeTime)) + Line(SignedDecimal(wallpaperIndex))
                    + Line(SignedDecimal(totalWallpapers)) + Line(lastWallpaper));
    }
  }
}
