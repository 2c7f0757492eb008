/** The directory scanner: which directory entries are wallpapers, and the
    ordered, capped list of their full paths that one scan produces. The
    directory listing (`opendir`/`readdir`) and the existence test (`stat`)
    are inputs. */
module Scanner {
  import opened Common
  import opened Text
  import opened Config

  /** The supported extensions, in the order the table lists them. */
  const Extensions: seq<string> :=
    [".jpg", ".jpeg", ".png", ".bmp", ".gif", ".webp", ".tiff", ".tif"]

  /** The text from the last '.' to the end of the name, when there is a dot. */
  function Extension(name: string): (ext: Option<string>)
    ensures ext.None? <==> '.' !in name
    ensures ext.Some? ==> 0 < |ext.value| <= |name| && ext.value[0] == '.' && '.' !in ext.value[1..]
    ensures ext.Some? ==> name == name[..|name| - |ext.value|] + ext.value
  {
    match LastIndexOf(name, '.')
    case None => None
    case Some(k) =>
      assert name == name[..k] + name[k..];
      assert name[k..][1..] == name[k + 1..];
      Some(name[k..])
  }

  /** What `isImageFile` decides: the name has an extension and, once
      lower-cased, it is one of the table's entries (which are lower case). */
  predicate IsImageName(name: string)
    ensures IsImageName(name) ==>
      Extension(name).Some? && 4 <= |Extension(name).value| <= 5 && |name| >= 4
  {
    var ext := Extension(name);
    ext.Some? && Lower(ext.value) in Extensions
  }

  /** Text without upper-case letters is its own lower-cased form. */
  lemma LowerIdentity(s: string)
    requires forall i :: 0 <= i < |s| ==> !('A' <= s[i] <= 'Z')
    ensures Lower(s) == s
  {
    LowerPointwise(s);
  }

  /** Every entry of the table is lower case. */
  lemma TableIsLowerCase(j: nat)
    requires j < |Extensions|
    ensures Lower(Extensions[j]) == Extensions[j]
  {
    var e := Extensions[j];
    if j == 0 { assert e == ".jpg"; }
    else if j == 1 { assert e == ".jpeg"; }
    else if j == 2 { assert e == ".png"; }
    else if j == 3 { assert e == ".bmp"; }
    else if j == 4 { assert e == ".gif"; }
    else if j == 5 { assert e == ".webp"; }
    else if j == 6 { assert e == ".tiff"; }
    else { assert e == ".tif"; }
    LowerIdentity(e);
  }

  /** The table holds only lower-case text, so comparing with an entry while
      ignoring case is comparing the lower-cased text with that entry. */
  lemma MatchesEntryIff(ext: string, j: nat)
    requires j < |Extensions|
    ensures EqualsIgnoreCase(ext, Extensions[j]) <==> Lower(ext) == Extensions[j]
  {
    TableIsLowerCase(j);
  }

  /** `isImageFile`: finds the last dot, then searches the table. */
  method IsImageFile(name: string) returns (isImage: bool)
    ensures isImage == IsImageName(name)
  {
    var ext := LastIndexOf(name, '.');
    if ext.None? {
      return false;
    }
    var suffix := name[ext.value..];
    assert Extension(name) == Some(suffix);
    isImage := SearchTable(suffix);
  }

  /** The loop over the extension table, comparing while ignoring case. */
  method SearchTable(ext: string) returns (found: bool)
    ensures found <==> Lower(ext) in Extensions
  {
    var i := 0;
    while i < |Extensions|
      invariant 0 <= i <= |Extensions|
      invariant Lower(ext) !in Extensions[..i]
    {
      MatchesEntryIff(ext, i);
      if EqualsIgnoreCase(ext, Extensions[i]) {
        return true;
      }
      assert Extensions[..i + 1] == Extensions[..i] + [Extensions[i]];
      i := i + 1;
    }
    assert Extensions[..i] == Extensions;
    return false;
  }

  /** The extension is decided by the LAST dot alone: a name is an image
      name exactly when the text from its last dot, lower-cased, is one of the
      eight lower-case extensions. */
  lemma ImageNameByLastDot(name: string, k: nat)
    requires k < |name| && name[k] == '.' && '.' !in name[k + 1..]
    ensures IsImageName(name) <==> exists j :: 0 <= j < |Extensions| && EqualsIgnoreCase(name[k..], Extensions[j])
  {
    var e := Extension(name).value;
    var k' := |name| - |e|;
    assert name[k'..] == e;
    assert e[1..] == name[k' + 1..];
    LastDotUnique(name, k, k');
    if IsImageName(name) {
      var j :| 0 <= j < |Extensions| && Lower(e) == Extensions[j];
      MatchesEntryIff(e, j);
    }
    if exists j :: 0 <= j < |Extensions| && EqualsIgnoreCase(name[k..], Extensions[j]) {
      var j :| 0 <= j < |Extensions| && EqualsIgnoreCase(name[k..], Extensions[j]);
      MatchesEntryIff(e, j);
    }
  }

  /** A name without a dot is never an image name. */
  lemma NoDotNoImage(name: string)
    requires forall k :: 0 <= k < |name| ==> name[k] != '.'
    ensures !IsImageName(name)
  {
    assert '.' !in name;
  }

  lemma LastDotUnique(name: string, k: nat, k': nat)
    requires k < |name| && k' < |name|
    requires name[k] == '.' && '.' !in name[k + 1..]
    requires name[k'] == '.' && '.' !in name[k' + 1..]
    ensures k == k'
  {
    forall j | k < j < |name| ensures name[j] != '.' {
      assert name[j] == name[k + 1..][j - k - 1];
    }
    forall j | k' < j < |name| ensures name[j] != '.' {
      assert name[j] == name[k' + 1..][j - k' - 1];
    }
  }

  /** Names the scanner skips: those starting with '.'. */
  predicate IsHidden(name: string)
    ensures IsHidden(name) ==> '.' in name
  {
    |name| > 0 && name[0] == '.'
  }

  /** Whether one directory entry contributes its path to the scan. */
  predicate Keeps(p: Platform, name: string, present: string -> bool)
    ensures Keeps(p, name, present) ==> |name| >= 4 && name[0] != '.'
  {
    !IsHidden(name) && IsImageName(name) && present(WallpaperPath(p) + name)
  }

  /** The scan's filter as a function value. */
  function Kept(p: Platform, present: string -> bool): string -> bool {
    name => Keeps(p, name, present)
  }

  /** `dir + name` for every name of `names` that `keep` accepts, in order.
      The scan's properties that do not depend on which names are accepted
      are proved for any filter. */
  function Candidates(dir: string, names: seq<string>, keep: string -> bool): (paths: seq<string>)
    ensures |paths| <= |names|
  {
    if |names| == 0 then []
    else
      var last := names[|names| - 1];
      Candidates(dir, names[..|names| - 1], keep) + (if keep(last) then [dir + last] else [])
  }

  /** The scan result: the candidates, cut at `MaxWallpapers`; nothing when
      the directory cannot be opened (`listing` is `None`). */
  function Collected(p: Platform, listing: Option<seq<string>>, present: string -> bool): (paths: seq<string>)
    ensures |paths| <= MaxWallpapers
  {
    match listing
    case None => []
    case Some(names) =>
      var all := Candidates(WallpaperPath(p), names, Kept(p, present));
      if |all| <= MaxWallpapers then all else all[..MaxWallpapers]
  }

  /** `collectWallpapers`: fills the caller's array in listing order and
      returns how many slots it filled. */
  method CollectWallpapers(p: Platform, listing: Option<seq<string>>, present: string -> bool,
                           wallpapers: array<string>) returns (count: int)
    requires wallpapers.Length >= MaxWallpapers
    modifies wallpapers
    ensures 0 <= count <= MaxWallpapers
    ensures wallpapers[..count] == Collected(p, listing, present)
  {
    count := 0;
    if listing.None? {
      return;
    }
    var names := listing.value;
    var dir, keep := WallpaperPath(p), Kept(p, present);
    var i := 0;
    while i < |names| && count < MaxWallpapers
      invariant 0 <= i <= |names|
      invariant 0 <= count <= MaxWallpapers
      invariant wallpapers[..count] == Candidates(dir, names[..i], keep)
    {
      CandidatesStep(dir, names, i, keep);
      assert keep(names[i]) == Keeps(p, names[i], present);
      count := ScanEntry(p, names[i], present, wallpapers, count);
      i := i + 1;
    }
    CollectedAtExit(p, names, i, wallpapers[..count], present);
  }

  /** Where the scanning loop stops (the listing exhausted, or the array
      full) what it holds is the capped scan of the listing. */
  lemma CollectedAtExit(p: Platform, names: seq<string>, i: nat, got: seq<string>, present: string -> bool)
    requires i <= |names| && |got| <= MaxWallpapers
    requires got == Candidates(WallpaperPath(p), names[..i], Kept(p, present))
    requires i == |names| || |got| == MaxWallpapers
    ensures got == Collected(p, Some(names), present)
  {
    if i == |names| {
      assert names[..i] == names;
    } else {
      CandidatesPrefix(WallpaperPath(p), names, i, Kept(p, present));
    }
  }

  /** The body of the scanning loop for one directory entry. As in the
      source, a visible image name has its full path written to the next
      free slot, and the slot is kept only when that path exists. */
  method ScanEntry(p: Platform, name: string, present: string -> bool, wallpapers: array<string>, count: int)
    returns (count': int)
    requires 0 <= count < wallpapers.Length
    modifies wallpapers
    ensures count' == count + (if Keeps(p, name, present) then 1 else 0)
    ensures wallpapers[..count'] == old(wallpapers[..count])
      + (if Keeps(p, name, present) then [WallpaperPath(p) + name] else [])
  {
    count' := count;
    if !IsHidden(name) {
      var isImage := IsImageFile(name);
      if isImage {
        wallpapers[count] := WallpaperPath(p) + name;
        if present(wallpapers[count]) {
          count' := count + 1;
        }
      }
    }
  }

  /** One more entry appends its path exactly when the filter accepts it. */
  lemma CandidatesStep(dir: string, names: seq<string>, i: nat, keep: string -> bool)
    requires i < |names|
    ensures Candidates(dir, names[..i + 1], keep)
      == Candidates(dir, names[..i], keep) + (if keep(names[i]) then [dir + names[i]] else [])
  {
    assert names[..i + 1][..i] == names[..i];
  }

  /** Scanning more of the listing only appends to the candidates. */
  lemma {:induction false} CandidatesPrefix(dir: string, names: seq<string>, i: nat, keep: string -> bool)
    requires i <= |names|
    ensures Candidates(dir, names[..i], keep) <= Candidates(dir, names, keep)
    decreases |names| - i
  {
    if i < |names| {
      CandidatesPrefix(dir, names, i + 1, keep);
      assert names[..i + 1][..i] == names[..i];
    } else {
      assert names[..i] == names;
    }
  }

  /** Scanning two listings one after the other yields the two scans one
      after the other: the scan keeps the listing's order. */
  lemma {:induction false} CandidatesAppend(dir: string, a: seq<string>, b: seq<string>, keep: string -> bool)
    ensures Candidates(dir, a + b, keep) == Candidates(dir, a, keep) + Candidates(dir, b, keep)
    decreases |b|
  {
    if |b| == 0 {
      assert a + b == a;
    } else {
      var b' := b[..|b| - 1];
      assert (a + b)[..|a + b| - 1] == a + b';
      CandidatesAppend(dir, a, b', keep);
    }
  }

  /** Every path in the scan is the directory followed by a listed name that
      the filter accepts. */
  lemma {:induction false} CandidatesSound(dir: string, names: seq<string>, keep: string -> bool, path: string)
    requires path in Candidates(dir, names, keep)
    ensures exists k :: 0 <= k < |names| && path == dir + names[k] && keep(names[k])
  {
    var n := |names| - 1;
    var rest := names[..n];
    if path in Candidates(dir, rest, keep) {
      CandidatesSound(dir, rest, keep, path);
      var k :| 0 <= k < |rest| && path == dir + rest[k] && keep(rest[k]);
      assert names[k] == rest[k];
    } else {
      assert path == dir + names[n];
    }
  }

  /** Every listed name the filter accepts contributes its path. */
  lemma {:induction false} CandidatesComplete(dir: string, names: seq<string>, keep: string -> bool, k: nat)
    requires k < |names| && keep(names[k])
    ensures dir + names[k] in Candidates(dir, names, keep)
  {
    var n := |names| - 1;
    CandidatesStep(dir, names, n, keep);
    assert names[..n + 1] == names;
    if k < n {
      assert names[..n][k] == names[k];
      CandidatesComplete(dir, names[..n], keep, k);
    }
  }

  /** A scan that stays under the cap keeps exactly the entries that are
      visible, images and present. */
  lemma CollectedExact(p: Platform, names: seq<string>, present: string -> bool, path: string)
    requires |Candidates(WallpaperPath(p), names, Kept(p, present))| <= MaxWallpapers
    ensures path in Collected(p, Some(names), present) <==>
      exists k :: 0 <= k < |names| && path == WallpaperPath(p) + names[k] && Keeps(p, names[k], present)
  {
    var dir, keep := WallpaperPath(p), Kept(p, present);
    if path in Collected(p, Some(names), present) {
      CandidatesSound(dir, names, keep, path);
    }
    if exists k :: 0 <= k < |names| && path == dir + names[k] && Keeps(p, names[k], present) {
      var k :| 0 <= k < |names| && path == dir + names[k] && Keeps(p, names[k], present);
      CandidatesComplete(dir, names, keep, k);
    }
  }

  /** Every scanned path lies in the wallpaper directory and names an image
      file that is not hidden. */
  lemma CollectedPathsShape(p: Platform, listing: Option<seq<string>>, present: string -> bool, i: nat)
    requires i < |Collected(p, listing, present)|
    ensures var path := Collected(p, listing, present)[i];
      |path| > |WallpaperPath(p)| && path[..|WallpaperPath(p)|] == WallpaperPath(p)
      && IsImageName(path[|WallpaperPath(p)|..]) && path[|WallpaperPath(p)|] != '.'
  {
    var names := listing.value;
    var dir, keep := WallpaperPath(p), Kept(p, present);
    var path := Collected(p, listing, present)[i];
    assert path in Candidates(dir, names, keep);
    CandidatesSound(dir, names, keep, path);
    var k :| 0 <= k < |names| && path == dir + names[k] && keep(names[k]);
    assert Keeps(p, names[k], present);
    assert path[|dir|..] == names[k];
    assert names[k] != [] by {
      assert Extension(names[k]).Some?;
    }
  }

  /** The state file lives in the wallpaper directory, but its name starts
      with a dot, so the scan never offers it as a wallpaper. */
  lemma StateFileNeverScanned(p: Platform, listing: Option<seq<string>>, present: string -> bool, i: nat)
    requires i < |Collected(p, listing, present)|
    ensures Collected(p, listing, present)[i] != StateFile(p)
  {
    CollectedPathsShape(p, listing, present, i);
    assert StateFile(p)[|WallpaperPath(p)|] == '.';
  }

  // Examples: a later dot hides the image extension, case is ignored, a
  // name with no dot is never an image.

  lemma DoubleExtensionRejected()
    ensures !IsImageName("a.jpg.txt")
  {
    assert Extension("a.jpg.txt") == Some(".txt");
    assert Lower(".txt") == ".txt";
  }

  lemma UpperCaseAccepted()
    ensures IsImageName("a.PNG")
  {
    PngExtension();
    LowerPointwise(".PNG");
    assert Lower(".PNG") == ".png";
    assert Extensions[2] == ".png";
  }

  lemma PngExtension()
    ensures Extension("a.PNG") == Some(".PNG")
  {
    assert "a.PNG"[1..] == ".PNG";
  }

  lemma NoDotRejected()
    ensures !IsImageName("jpg")
  {
    assert '.' !in "jpg";
  }
}
