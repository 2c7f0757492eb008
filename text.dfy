/** Character and string helpers standing in for the C library calls the
    rotator uses on its NUL-terminated strings (`strrchr`, `strcasecmp`,
    `isspace`). A Dafny string is the C string without its terminator. */
module Text {
  import opened Common

  /** `strrchr(s, c)`: the position of the last occurrence of `c`. */
  function LastIndexOf(s: string, c: char): (r: Option<nat>)
    ensures r.None? <==> c !in s
    ensures r.Some? ==> r.value < |s| && s[r.value] == c && c !in s[r.value + 1..]
  {
    if |s| == 0 then None
    else if s[|s| - 1] == c then Some(|s| - 1)
    else
      var r := LastIndexOf(s[..|s| - 1], c);
      assert s == s[..|s| - 1] + [s[|s| - 1]];
      r
  }

  /** `tolower` in the C locale: only 'A'..'Z' are changed. */
  function ToLower(c: char): char {
    if 'A' <= c <= 'Z' then (c as int - 'A' as int + 'a' as int) as char else c
  }

  function Lower(s: string): (r: string)
    ensures |r| == |s|
  {
    if |s| == 0 then [] else [ToLower(s[0])] + Lower(s[1..])
  }

  /** Lower-casing works character by character. */
  lemma {:induction false} LowerPointwise(s: string)
    ensures forall i :: 0 <= i < |s| ==> Lower(s)[i] == ToLower(s[i])
  {
    if |s| > 0 {
      LowerPointwise(s[1..]);
    }
  }

  /** `strcasecmp(a, b) == 0`. */
  predicate EqualsIgnoreCase(a: string, b: string)
    ensures EqualsIgnoreCase(a, b) ==> |a| == |b|
  {
    Lower(a) == Lower(b)
  }

  /** Two strings are equal ignoring case exactly when they have the same
      length and agree character by character once each is lower-cased. */
  lemma EqualsIgnoreCasePointwise(a: string, b: string)
    ensures EqualsIgnoreCase(a, b) <==>
      |a| == |b| && forall i :: 0 <= i < |a| ==> ToLower(a[i]) == ToLower(b[i])
  {
    LowerPointwise(a);
    LowerPointwise(b);
    if |a| == |b| && forall i :: 0 <= i < |a| ==> ToLower(a[i]) == ToLower(b[i]) {
      assert forall i :: 0 <= i < |a| ==> Lower(a)[i] == Lower(b)[i];
    }
  }

  /** `isspace` in the C locale: space, tab, newline, vertical tab, form feed
      and carriage return. */
  predicate IsSpace(c: char) {
    c == ' ' || 9 <= c as int <= 13
  }

  /** The text after the last `sep`, or all of `path` when it has none: the
      `strrchr(path, sep)` / `p ? p + 1 : path` idiom. */
  function AfterLast(path: string, sep: char): (name: string)
    ensures sep !in name
    ensures |name| <= |path| && name == path[|path| - |name|..]
    ensures sep in path ==> path[|path| - |name| - 1] == sep
    ensures sep !in path ==> name == path
  {
    match LastIndexOf(path, sep)
    case None => path
    case Some(k) => path[k + 1..]
  }
}
