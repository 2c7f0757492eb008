/** The macOS branch of `setWallpaper` puts a backslash before every space
    of the image path before splicing it into the `osascript` command. The
    escaping loop writes into a fixed buffer twice the size of a path. */
module MacEscape {
  import opened Config

  /** The escaped form of one character. */
  function EscapeChar(c: char): string {
    if c == ' ' then ['\\', ' '] else [c]
  }

  /** The escaped path: every character in order, each space preceded by a
      backslash. */
  function Escaped(path: string): (e: string)
    ensures |path| <= |e| <= 2 * |path|
  {
    if |path| == 0 then [] else EscapeChar(path[0]) + Escaped(path[1..])
  }

  /** The number of spaces in a string. */
  function Spaces(s: string): nat {
    if |s| == 0 then 0 else (if s[0] == ' ' then 1 else 0) + Spaces(s[1..])
  }

  /** Removes the backslash in front of every space: undoes `Escaped`. */
  function Unescaped(s: string): string
  {
    if |s| == 0 then []
    else if |s| >= 2 && s[0] == '\\' && s[1] == ' ' then [' '] + Unescaped(s[2..])
    else [s[0]] + Unescaped(s[1..])
  }

  /** Escaping what has been escaped so far and then one more character is
      escaping the longer string: the loop builds its result left to right. */
  lemma {:induction false} EscapedAppend(s: string, c: char)
    ensures Escaped(s + [c]) == Escaped(s) + EscapeChar(c)
  {
    if |s| > 0 {
      assert (s + [c])[1..] == s[1..] + [c];
      EscapedAppend(s[1..], c);
    } else {
      assert s + [c] == [c];
    }
  }

  /** The escaped path grows by one character per space. */
  lemma {:induction false} EscapedLength(path: string)
    ensures |Escaped(path)| == |path| + Spaces(path)
  {
    if |path| > 0 {
      EscapedLength(path[1..]);
    }
  }

  /** Dropping the inserted backslashes gives the path back, even when the
      path itself holds backslashes. */
  lemma {:induction false} UnescapeEscaped(path: string)
    ensures Unescaped(Escaped(path)) == path
  {
    if |path| > 0 {
      var e, rest := Escaped(path), Escaped(path[1..]);
      UnescapeEscaped(path[1..]);
      if path[0] == ' ' {
        assert e == ['\\', ' '] + rest;
        assert e[2..] == rest;
      } else {
        assert e == [path[0]] + rest;
        assert e[1..] == rest;
        EscapedStart(path[1..]);
      }
      assert path == [path[0]] + path[1..];
    }
  }

  /** An escaped string never starts with a space: an original backslash is
      never followed by a space in it. */
  lemma EscapedStart(path: string)
    ensures |Escaped(path)| > 0 ==> Escaped(path)[0] != ' '
  {
    if |path| > 0 {
      assert Escaped(path) == EscapeChar(path[0]) + Escaped(path[1..]);
    }
  }

  /** Every space of the escaped path has a backslash just before it. */
  lemma {:induction false} SpacesAreEscaped(path: string, i: nat)
    requires i < |Escaped(path)| && Escaped(path)[i] == ' '
    ensures i > 0 && Escaped(path)[i - 1] == '\\'
  {
    var e, rest := Escaped(path), Escaped(path[1..]);
    var head := EscapeChar(path[0]);
    assert e == head + rest;
    if i >= |head| {
      assert rest[i - |head|] == ' ';
      SpacesAreEscaped(path[1..], i - |head|);
      assert e[i - 1] == rest[i - |head| - 1];
    } else {
      assert path[0] == ' ';
    }
  }

  /** The escaping loop: `escaped_path[j++]` into a buffer of
      `2 * MaxPathLen` characters, stopping one short of its end. A path that
      fits its own buffer (fewer than `MaxPathLen` characters) never reaches
      that bound, so the whole path is escaped. */
  method EscapeSpaces(path: string) returns (escaped: string)
    requires |path| < MaxPathLen
    ensures escaped == Escaped(path)
  {
    var buffer := new char[MaxPathLen * 2];
    var i, j := 0, 0;
    while i < |path| && j < MaxPathLen * 2 - 1
      invariant 0 <= i <= |path|
      invariant j == i + Spaces(path[..i]) && j <= 2 * i
      invariant buffer[..j] == Escaped(path[..i])
    {
      EscapedAppend(path[..i], path[i]);
      SpacesAppend(path[..i], path[i]);
      assert path[..i + 1] == path[..i] + [path[i]];
      j := PutEscaped(buffer, j, path[i]);
      i := i + 1;
    }
    assert path[..i] == path;
    escaped := buffer[..j];
  }

  /** One step of the loop: a backslash first when the character is a
      space, then the character. */
  method PutEscaped(buffer: array<char>, j: int, c: char) returns (j': int)
    requires 0 <= j && j + 2 <= buffer.Length
    modifies buffer
    ensures j' == j + |EscapeChar(c)|
    ensures buffer[..j'] == old(buffer[..j]) + EscapeChar(c)
  {
    j' := j;
    if c == ' ' {
      buffer[j'] := '\\';
      j' := j' + 1;
    }
    buffer[j'] := c;
    j' := j' + 1;
  }

  lemma {:induction false} SpacesAppend(s: string, c: char)
    ensures Spaces(s + [c]) == Spaces(s) + (if c == ' ' then 1 else 0)
  {
    if |s| > 0 {
      assert (s + [c])[1..] == s[1..] + [c];
      SpacesAppend(s[1..], c);
    } else {
      assert s + [c] == [c];
    }
  }
}
