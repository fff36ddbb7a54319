/**
 * The Metro asset plugin of the mobile app (apps/mobile/metro.asset-plugin.js):
 * it accepts every asset and rewrites the file name at the end of each of
 * its paths into an Android resource name: lowercase, only `[a-z0-9_.]`,
 * no repeated or outer underscores.
 */
module AssetPlugin {
  import opened JsCore
  import opened Text

  /**
   * An asset as the bundler hands it over: its `files` and whatever other
   * fields it carries, which the plugin copies through untouched.
   */
  datatype Asset<V> = Asset(files: seq<string>, other: map<string, V>)

  /** `filter`: every asset is processed. */
  function FilterAsset<V>(asset: Asset<V>): (accepted: bool)
    ensures accepted
  {
    true
  }

  // ---------------------------------------------------------------------
  // Sanitising one file name

  /** The characters `[a-z0-9_.]` an Android resource name may keep. */
  predicate IsNameChar(c: char) {
    IsAsciiLower(c) || IsDigit(c) || c == '_' || c == '.'
  }

  predicate IsUnderscore(c: char) {
    c == '_'
  }

  /**
   * A sanitised name: only `[a-z0-9_.]`, no two underscores in a row and
   * none at either end.
   */
  predicate IsSanitized(s: string) {
    && (forall i :: 0 <= i < |s| ==> IsNameChar(s[i]))
    && NoAdjacent(s, IsUnderscore)
    && (|s| > 0 ==> s[0] != '_' && s[|s| - 1] != '_')
  }

  /**
   * The sanitising chain on a file name: lowercase, replace every
   * character outside `[a-z0-9_.]` by `_`, collapse runs of `_` into one
   * (`__+` leaves a single `_` alone, so every run ends up as one `_`),
   * and drop the underscores at either end.
   */
  function SanitizeName(name: string): (r: string)
    ensures IsSanitized(r)
  {
    var replaced := ReplaceOutside(Lower(name), IsNameChar, '_');
    var collapsed := CollapseRuns(replaced, IsUnderscore, '_', false);
    CollapsedNameChars(replaced);
    TrimUnderscoresGivesName(collapsed);
    Trim(collapsed, IsUnderscore)
  }

  lemma CollapsedNameChars(replaced: string)
    requires forall i :: 0 <= i < |replaced| ==> IsNameChar(replaced[i])
    ensures var collapsed := CollapseRuns(replaced, IsUnderscore, '_', false);
      forall i :: 0 <= i < |collapsed| ==> IsNameChar(collapsed[i])
  {
    var collapsed := CollapseRuns(replaced, IsUnderscore, '_', false);
    forall i | 0 <= i < |collapsed|
      ensures IsNameChar(collapsed[i])
    {
      if collapsed[i] != '_' {
        assert collapsed[i] in replaced;
      }
    }
  }

  /** Trimming the underscores off a string of name characters without `__` sanitises it. */
  lemma TrimUnderscoresGivesName(collapsed: string)
    requires forall i :: 0 <= i < |collapsed| ==> IsNameChar(collapsed[i])
    requires NoAdjacent(collapsed, IsUnderscore)
    ensures IsSanitized(Trim(collapsed, IsUnderscore))
  {
    TrimKeeps(collapsed, IsUnderscore, IsNameChar, IsUnderscore);
  }

  /** A sanitised name is left as it is. */
  lemma SanitizeNameFixed(s: string)
    requires IsSanitized(s)
    ensures SanitizeName(s) == s
  {
    LowerFixed(s);
    assert ReplaceOutside(s, IsNameChar, '_') == s;
    CollapseRunsFixed(s, IsUnderscore, '_', false);
    TrimFixed(s, IsUnderscore);
  }

  /** The characters every step of the chain keeps in place: `[a-z0-9.]`. */
  predicate IsKeptNameChar(c: char) {
    IsAsciiLower(c) || IsDigit(c) || c == '.'
  }

  /**
   * The letters, digits and dots of the sanitised name are those of the
   * lowercased name, in the same order: only the other characters are
   * turned into underscores, merged or dropped.
   */
  lemma SanitizeNameKeepsLettersAndDigits(name: string)
    ensures Filter(SanitizeName(name), IsKeptNameChar) == Filter(Lower(name), IsKeptNameChar)
  {
    var replaced := ReplaceOutside(Lower(name), IsNameChar, '_');
    var collapsed := CollapseRuns(replaced, IsUnderscore, '_', false);
    FilterReplaceOutside(Lower(name), IsNameChar, '_', IsKeptNameChar);
    FilterCollapse(replaced, IsUnderscore, '_', false, IsKeptNameChar);
    FilterTrim(collapsed, IsUnderscore, IsKeptNameChar);
  }

  /** "My Logo.PNG" becomes the resource name "my_logo.png". */
  lemma SanitizeMyLogo()
    ensures SanitizeName("My Logo.PNG") == "my_logo.png"
  {
    LowerMyLogo();
    ReplaceMyLogo();
    CollapseRunsFixed("my_logo.png", IsUnderscore, '_', false);
    TrimFixed("my_logo.png", IsUnderscore);
  }

  lemma LowerMyLogo()
    ensures Lower("My Logo.PNG") == "my logo.png"
  {
    var r := Lower("My Logo.PNG");
    assert r[0] == 'm' && r[3] == 'l' && r[8] == 'p' && r[9] == 'n' && r[10] == 'g';
  }

  lemma ReplaceMyLogo()
    ensures ReplaceOutside("my logo.png", IsNameChar, '_') == "my_logo.png"
  {
    var r := ReplaceOutside("my logo.png", IsNameChar, '_');
    assert r[2] == '_';
  }

  /** Sanitising twice is sanitising once. */
  lemma SanitizeNameIdempotent(name: string)
    ensures SanitizeName(SanitizeName(name)) == SanitizeName(name)
  {
    SanitizeNameFixed(SanitizeName(name));
  }

  // ---------------------------------------------------------------------
  // Paths

  /** Where the last segment of `file` starts: just after its last `/`, or at 0 when it has none. */
  function SegmentStart(file: string): (k: nat)
    ensures k <= |file|
    ensures k > 0 ==> file[k - 1] == '/'
    ensures forall i :: k <= i < |file| ==> file[i] != '/'
  {
    if file == [] || file[|file| - 1] == '/' then |file| else SegmentStart(file[..|file| - 1])
  }

  /** Only one position of a path has the three properties SegmentStart promises. */
  lemma SegmentStartUnique(file: string, k: nat)
    requires k <= |file|
    requires k > 0 ==> file[k - 1] == '/'
    requires forall i :: k <= i < |file| ==> file[i] != '/'
    ensures SegmentStart(file) == k
  {
    var m := SegmentStart(file);
    assert m > 0 ==> file[m - 1] == '/';
    assert k > 0 ==> file[k - 1] == '/';
  }

  /**
   * `file.split('/').pop()`: the text after the last `/` of the path, or
   * the whole path when it has none.
   */
  function LastSegment(file: string): (name: string)
    ensures '/' !in name && |name| <= |file|
    ensures file[|file| - |name|..] == name
    ensures |name| < |file| ==> file[|file| - |name| - 1] == '/'
  {
    file[SegmentStart(file)..]
  }

  /** LastSegment is the last piece of `split('/')`. */
  lemma {:induction false} LastSegmentIsLastPart(file: string)
    ensures var parts := Split(file, '/');
      LastSegment(file) == parts[|parts| - 1]
  {
    var parts := Split(file, '/');
    var name := LastSegment(file);
    var dir := file[..|file| - |name|];
    if |name| < |file| {
      var d := dir[..|dir| - 1];
      assert file == d + ['/'] + name;
      SplitAppend(d, '/', name);
    } else {
      assert file == name;
    }
    SplitNoSeparator(name, '/');
  }

  /** The last segment of a directory prefix ending in `/`, followed by a name, is that name. */
  lemma LastSegmentOfJoin(dir: string, name: string)
    requires dir == [] || dir[|dir| - 1] == '/'
    requires '/' !in name
    ensures LastSegment(dir + name) == name
  {
    var file := dir + name;
    forall i | |dir| <= i < |file|
      ensures file[i] != '/'
    {
      assert file[i] == name[i - |dir|];
    }
    SegmentStartUnique(file, |dir|);
    assert file[|dir|..] == name;
  }

  /** `pat` occurs in `s` at position `k`. */
  predicate OccursAt(s: string, pat: string, k: int) {
    0 <= k && k + |pat| <= |s| && s[k..k + |pat|] == pat
  }

  /** `s.indexOf(pat, k)`: the first position from `k` on where `pat` occurs. */
  function FindFrom(s: string, pat: string, k: nat): (r: Option<nat>)
    ensures r.Some? ==>
      k <= r.value && OccursAt(s, pat, r.value) &&
      forall j :: k <= j < r.value ==> !OccursAt(s, pat, j)
    ensures r.None? ==> forall j :: k <= j ==> !OccursAt(s, pat, j)
    decreases |s| - k
  {
    if k + |pat| > |s| then None
    else if OccursAt(s, pat, k) then Some(k)
    else FindFrom(s, pat, k + 1)
  }

  /** An occurrence at or after `k` is found. */
  lemma FindFromFinds(s: string, pat: string, k: nat, m: nat)
    requires k <= m && OccursAt(s, pat, m)
    ensures FindFrom(s, pat, k).Some? && FindFrom(s, pat, k).value <= m
  {
  }

  /**
   * `s.replace(pat, rep)` with a string pattern: the first occurrence of
   * `pat`, if any, is replaced by `rep`. (The replacement is taken
   * literally here; the names it is used with contain no `$`.)
   */
  function ReplaceFirst(s: string, pat: string, rep: string): (r: string)
    ensures FindFrom(s, pat, 0).None? ==> r == s
    ensures FindFrom(s, pat, 0).Some? ==>
      var k := FindFrom(s, pat, 0).value;
      |r| == |s| - |pat| + |rep| &&
      r[..k] == s[..k] && r[k..k + |rep|] == rep && r[k + |rep|..] == s[k + |pat|..]
  {
    match FindFrom(s, pat, 0)
    case None => s
    case Some(k) => s[..k] + rep + s[k + |pat|..]
  }

  /** Replacing at the first occurrence `k` splices `rep` in at `k`. */
  lemma ReplaceFirstAt(s: string, pat: string, rep: string, k: nat)
    requires OccursAt(s, pat, k)
    requires forall j :: 0 <= j < k ==> !OccursAt(s, pat, j)
    ensures ReplaceFirst(s, pat, rep) == s[..k] + rep + s[k + |pat|..]
  {
    var found := FindFrom(s, pat, 0);
    assert found.Some?;
    assert found.value == k;
  }

  /**
   * Where `file.replace(fileName, …)` finds the file name: the first
   * position at which the last segment occurs in the path.
   */
  function FirstOccurrence(file: string): (k: nat)
    ensures var name := LastSegment(file);
      OccursAt(file, name, k) && forall j :: 0 <= j < k ==> !OccursAt(file, name, j)
  {
    var name := LastSegment(file);
    FindFromFinds(file, name, 0, |file| - |name|);
    FindFrom(file, name, 0).value
  }

  /**
   * `file.replace(fileName, rep)` where `fileName` is the last segment of
   * `file`: `rep` takes the place of the first occurrence of the last
   * segment, wherever in the path that is.
   */
  function SpliceFirst(file: string, rep: string): (r: string)
    ensures var name, k := LastSegment(file), FirstOccurrence(file);
      r == file[..k] + rep + file[k + |name|..]
  {
    ReplaceFirstAt(file, LastSegment(file), rep, FirstOccurrence(file));
    ReplaceFirst(file, LastSegment(file), rep)
  }

  /**
   * One entry of `sanitizedFiles`: the path with the first occurrence of
   * its last segment replaced by the sanitised segment.
   */
  function SanitizePath(file: string): (r: string)
    ensures var name, k := LastSegment(file), FirstOccurrence(file);
      r == file[..k] + SanitizeName(name) + file[k + |name|..]
  {
    SpliceFirst(file, SanitizeName(LastSegment(file)))
  }

  /**
   * `transform`: every path of `files` sanitised, in the same order, and
   * every other field copied.
   */
  function Transform<V>(asset: Asset<V>): (r: Asset<V>)
    ensures |r.files| == |asset.files|
    ensures forall i :: 0 <= i < |asset.files| ==> r.files[i] == SanitizePath(asset.files[i])
    ensures r.other == asset.other
  {
    asset.(files := seq(|asset.files|, i requires 0 <= i < |asset.files| => SanitizePath(asset.files[i])))
  }

  // ---------------------------------------------------------------------
  // The first-occurrence splice

  /**
   * When the file name also occurs earlier in the path, the earlier
   * occurrence (here the directory) is rewritten and the file name itself
   * is left as it was.
   */
  lemma SanitizePathRewritesDirectory()
    ensures LastSegment("Logo/Logo") == "Logo"
    ensures SanitizePath("Logo/Logo") == "logo/Logo"
    ensures LastSegment("logo/Logo") == "Logo"
  {
    SanitizePathLogo();
    LastSegmentLogo();
  }

  lemma SanitizePathLogo()
    ensures LastSegment("Logo/Logo") == "Logo"
    ensures SanitizePath("Logo/Logo") == "logo/Logo"
  {
    var file := "Logo/Logo";
    SpliceLogo();
    SanitizeLogo();
    assert SanitizePath(file) == SpliceFirst(file, SanitizeName("Logo"));
  }

  lemma LastSegmentLogo()
    ensures LastSegment("logo/Logo") == "Logo"
  {
    LastSegmentOfJoin("logo/", "Logo");
    assert "logo/" + "Logo" == "logo/Logo";
  }

  lemma SpliceLogo()
    ensures LastSegment("Logo/Logo") == "Logo"
    ensures SpliceFirst("Logo/Logo", "logo") == "logo/Logo"
  {
    var file := "Logo/Logo";
    assert "Logo/" + "Logo" == file;
    LastSegmentOfJoin("Logo/", "Logo");
    assert OccursAt(file, "Logo", 0);
    assert FirstOccurrence(file) == 0;
    assert file[..0] + "logo" + file[4..] == "logo/Logo";
  }

  lemma SanitizeLogo()
    ensures SanitizeName("Logo") == "logo"
  {
    var lowered := Lower("Logo");
    assert lowered == "logo";
    assert IsSanitized("logo");
    assert ReplaceOutside(lowered, IsNameChar, '_') == "logo";
    CollapseRunsFixed("logo", IsUnderscore, '_', false);
    TrimFixed("logo", IsUnderscore);
  }

  /** A sanitised name has no `/`. */
  lemma SanitizedHasNoSlash(s: string)
    requires IsSanitized(s)
    ensures '/' !in s
  {
    assert forall i :: 0 <= i < |s| ==> s[i] != '/';
  }

  /**
   * The splice as intended: `rep` replaces the last segment. The
   * directory part before it is kept, and a replacement without `/`
   * becomes the new last segment.
   */
  function SpliceLast(file: string, rep: string): (r: string)
    ensures |r| == SegmentStart(file) + |rep|
    ensures r[..SegmentStart(file)] == file[..SegmentStart(file)]
    ensures r[SegmentStart(file)..] == rep
    ensures '/' !in rep ==> LastSegment(r) == rep
  {
    var dir := file[..SegmentStart(file)];
    assert '/' !in rep ==> LastSegment(dir + rep) == rep by {
      if '/' !in rep {
        LastSegmentOfJoin(dir, rep);
      }
    }
    assert (dir + rep)[..|dir|] == dir;
    assert (dir + rep)[|dir|..] == rep;
    dir + rep
  }

  /**
   * The sanitised path as intended: the directory part kept, and the last
   * segment replaced by its sanitised form.
   */
  function SanitizePathIntended(file: string): (r: string)
    ensures var name := LastSegment(file);
      && r == file[..|file| - |name|] + SanitizeName(name)
      && LastSegment(r) == SanitizeName(name)
  {
    var sanitized := SanitizeName(LastSegment(file));
    SanitizedHasNoSlash(sanitized);
    SpliceLast(file, sanitized)
  }

  /**
   * `transform` with the intended splice: every path keeps its directory
   * part and ends in a sanitised last segment.
   */
  function TransformIntended<V>(asset: Asset<V>): (r: Asset<V>)
    ensures |r.files| == |asset.files| && r.other == asset.other
    ensures forall i :: 0 <= i < |asset.files| ==>
      var file := asset.files[i];
      && r.files[i] == file[..|file| - |LastSegment(file)|] + SanitizeName(LastSegment(file))
      && IsSanitized(LastSegment(r.files[i]))
  {
    asset.(files := seq(|asset.files|, i requires 0 <= i < |asset.files| => SanitizePathIntended(asset.files[i])))
  }

  /** Both splices agree when the last segment does not occur earlier in the path. */
  lemma SpliceAgrees(file: string, rep: string)
    requires forall j :: 0 <= j < |file| - |LastSegment(file)| ==> !OccursAt(file, LastSegment(file), j)
    ensures SpliceFirst(file, rep) == SpliceLast(file, rep)
  {
    var k := |file| - |LastSegment(file)|;
    FirstOccurrenceAtEnd(file);
    assert SpliceFirst(file, rep) == file[..k] + rep + file[|file|..];
    EmptyTail(file[..k] + rep, file);
  }

  lemma EmptyTail(x: string, s: string)
    ensures x + s[|s|..] == x
  {
  }

  /** When the last segment does not occur earlier, its first occurrence is the suffix itself. */
  lemma FirstOccurrenceAtEnd(file: string)
    requires forall j :: 0 <= j < |file| - |LastSegment(file)| ==> !OccursAt(file, LastSegment(file), j)
    ensures FirstOccurrence(file) == |file| - |LastSegment(file)|
  {
  }

  /** The sanitised paths agree when the file name does not occur earlier in its path. */
  lemma SanitizePathAgrees(file: string)
    requires forall j :: 0 <= j < |file| - |LastSegment(file)| ==> !OccursAt(file, LastSegment(file), j)
    ensures SanitizePath(file) == SanitizePathIntended(file)
  {
    SpliceAgrees(file, SanitizeName(LastSegment(file)));
  }

  /** When no file name occurs earlier in its own path, the transform does what was intended. */
  lemma TransformAgrees<V>(asset: Asset<V>)
    requires forall i :: 0 <= i < |asset.files| ==>
      var file := asset.files[i];
      forall j :: 0 <= j < |file| - |LastSegment(file)| ==> !OccursAt(file, LastSegment(file), j)
    ensures Transform(asset) == TransformIntended(asset)
  {
    forall i | 0 <= i < |asset.files|
      ensures Transform(asset).files[i] == TransformIntended(asset).files[i]
    {
      SanitizePathAgrees(asset.files[i]);
    }
  }

  /**
   * The rules listed beside `transform` include "not start with a number",
   * but no step enforces it: a name that starts with a digit keeps it.
   */
  lemma SanitizeNameKeepsLeadingDigit()
    ensures SanitizeName("1.png") == "1.png"
  {
    assert IsSanitized("1.png");
    SanitizeNameFixed("1.png");
  }
}
