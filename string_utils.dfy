/**
 * The shared string utilities: `truncate`, `slugify`, `getInitials` and
 * `pluralize` (packages/shared/utils/stringUtils.js). Each is a pure
 * rewrite of its input.
 */
module StringUtils {
  import opened JsCore
  import opened Text

  // ---------------------------------------------------------------------
  // truncate

  /** The ellipsis marker appended to a truncated string. */
  const Ellipsis: string := "..."

  /**
   * `truncate(str, maxLength = 50)`: an empty string, or one no longer
   * than `maxLength`, comes back unchanged; any other string is cut to
   * its first `maxLength` characters (none when `maxLength` is negative,
   * as `substring` clamps it to 0) followed by the ellipsis.
   */
  function Truncate(s: string, maxLength: int := 50): (r: string)
    ensures s == [] || |s| <= maxLength ==> r == s
    ensures s != [] && |s| > maxLength ==>
      var n := if maxLength < 0 then 0 else maxLength;
      |r| == n + 3 && r[..n] == s[..n] && r[n..] == Ellipsis
  {
    if s == [] || |s| <= maxLength then s
    else s[..if maxLength < 0 then 0 else maxLength] + Ellipsis
  }

  /** Whatever the input, the result is at most three characters longer than the limit. */
  lemma TruncateBound(s: string, maxLength: nat)
    ensures |Truncate(s, maxLength)| <= maxLength + 3
    ensures |Truncate(s, maxLength)| <= |s| || s[..maxLength] <= Truncate(s, maxLength)
  {
  }

  // ---------------------------------------------------------------------
  // slugify

  /** The characters `[^\w\s-]` keeps. */
  predicate IsSlugKept(c: char) {
    IsWordChar(c) || IsSpace(c) || c == '-'
  }

  /** The characters `[\s_-]` turns into hyphens. */
  predicate IsSlugSeparator(c: char) {
    IsSpace(c) || c == '_' || c == '-'
  }

  predicate IsHyphen(c: char) {
    c == '-'
  }

  predicate IsSlugChar(c: char) {
    IsAsciiLower(c) || IsDigit(c) || c == '-'
  }

  /**
   * A slug: lowercase ASCII letters, digits and single hyphens, with no
   * hyphen at either end.
   */
  predicate IsSlug(s: string) {
    && (forall i :: 0 <= i < |s| ==> IsSlugChar(s[i]))
    && NoAdjacent(s, IsHyphen)
    && (|s| > 0 ==> s[0] != '-' && s[|s| - 1] != '-')
  }

  /**
   * `slugify(str)`: lowercase, trim whitespace, drop the characters
   * outside `[\w\s-]`, turn each run of whitespace, `_` and `-` into one
   * hyphen, and drop the hyphens at either end.
   */
  function Slugify(s: string): (r: string)
    ensures IsSlug(r)
  {
    KeptChars(s);
    Hyphenate(Filter(Trim(Lower(s), IsSpace), IsSlugKept))
  }

  /**
   * The last two steps of `slugify`: each run of whitespace, `_` and `-`
   * becomes one hyphen, and the hyphens at either end are dropped.
   */
  function Hyphenate(kept: string): (r: string)
    requires forall i :: 0 <= i < |kept| ==> IsSlugKept(kept[i]) && !IsAsciiUpper(kept[i])
    ensures IsSlug(r)
  {
    var collapsed := CollapseRuns(kept, IsSlugSeparator, '-', false);
    CollapsedChars(kept);
    NoAdjacentWeaken(collapsed, IsSlugSeparator, IsHyphen);
    TrimHyphensGivesSlug(collapsed);
    Trim(collapsed, IsHyphen)
  }

  /** After the first three steps no uppercase letter and nothing outside `[\w\s-]` remains. */
  lemma KeptChars(s: string)
    ensures var kept := Filter(Trim(Lower(s), IsSpace), IsSlugKept);
      forall i :: 0 <= i < |kept| ==> IsSlugKept(kept[i]) && !IsAsciiUpper(kept[i])
  {
    var lowered := Lower(s);
    var trimmed := Trim(lowered, IsSpace);
    var kept := Filter(trimmed, IsSlugKept);
    forall i | 0 <= i < |kept|
      ensures !IsAsciiUpper(kept[i])
    {
      assert kept[i] in trimmed;
      var j :| 0 <= j < |trimmed| && trimmed[j] == kept[i];
      assert trimmed[j] in lowered;
    }
  }

  /** Collapsing the separators leaves only slug characters. */
  lemma CollapsedChars(kept: string)
    requires forall i :: 0 <= i < |kept| ==> IsSlugKept(kept[i]) && !IsAsciiUpper(kept[i])
    ensures var collapsed := CollapseRuns(kept, IsSlugSeparator, '-', false);
      forall i :: 0 <= i < |collapsed| ==> IsSlugChar(collapsed[i])
  {
    var collapsed := CollapseRuns(kept, IsSlugSeparator, '-', false);
    forall i | 0 <= i < |collapsed|
      ensures IsSlugChar(collapsed[i])
    {
      if collapsed[i] != '-' {
        assert collapsed[i] in kept;
      }
    }
  }

  /** Trimming the hyphens off a string of slug characters without `--` gives a slug. */
  lemma TrimHyphensGivesSlug(collapsed: string)
    requires forall i :: 0 <= i < |collapsed| ==> IsSlugChar(collapsed[i])
    requires NoAdjacent(collapsed, IsHyphen)
    ensures IsSlug(Trim(collapsed, IsHyphen))
  {
    TrimKeeps(collapsed, IsHyphen, IsSlugChar, IsHyphen);
  }

  /** A slug is its own slug. */
  lemma SlugifyFixed(s: string)
    requires IsSlug(s)
    ensures Slugify(s) == s
  {
    LowerFixed(s);
    SlugCharsAreNotSpaces();
    TrimFixed(s, IsSpace);
    FilterFixed(s, IsSlugKept);
    HyphenateFixed(s);
  }

  /** Hyphenate leaves a slug as it is. */
  lemma HyphenateFixed(s: string)
    requires IsSlug(s)
    requires forall i :: 0 <= i < |s| ==> IsSlugKept(s[i]) && !IsAsciiUpper(s[i])
    ensures Hyphenate(s) == s
  {
    SlugCharsAreNotSpaces();
    forall i, j | 0 <= i < |s| && 0 <= j < |s| && j == i + 1
      ensures !(IsSlugSeparator(s[i]) && IsSlugSeparator(s[j]))
    {
      assert !(IsHyphen(s[i]) && IsHyphen(s[j]));
    }
    CollapseRunsFixed(s, IsSlugSeparator, '-', false);
    TrimFixed(s, IsHyphen);
  }

  /** Among slug characters, the only separator is the hyphen. */
  lemma SlugCharsAreNotSpaces()
    ensures forall c :: IsSlugChar(c) ==> !IsSpace(c) && IsSlugKept(c) && (IsSlugSeparator(c) <==> c == '-')
  {
  }

  /** The characters that every step of `slugify` keeps in place: lowercase ASCII letters and digits. */
  predicate IsLowerAlnum(c: char) {
    IsAsciiLower(c) || IsDigit(c)
  }

  /**
   * The letters and digits of the slug are those of the lowercased
   * input, in the same order: only whitespace, punctuation, `_` and `-`
   * are dropped or turned into hyphens.
   */
  lemma SlugifyKeepsLettersAndDigits(s: string)
    ensures Filter(Slugify(s), IsLowerAlnum) == Filter(Lower(s), IsLowerAlnum)
  {
    var lowered := Lower(s);
    var trimmed := Trim(lowered, IsSpace);
    var kept := Filter(trimmed, IsSlugKept);
    var collapsed := CollapseRuns(kept, IsSlugSeparator, '-', false);
    FilterTrim(lowered, IsSpace, IsLowerAlnum);
    FilterFilter(trimmed, IsSlugKept, IsLowerAlnum);
    FilterCollapse(kept, IsSlugSeparator, '-', false, IsLowerAlnum);
    FilterTrim(collapsed, IsHyphen, IsLowerAlnum);
  }

  /** A title with a space and punctuation: "Hello World!" gives "hello-world". */
  lemma SlugifyHelloWorld()
    ensures Slugify("Hello World!") == "hello-world"
  {
    LowerHelloWorld();
    TrimFixed("hello world!", IsSpace);
    FilterHelloWorld();
    CollapseHelloWorld();
    TrimFixed("hello-world", IsHyphen);
  }

  lemma LowerHelloWorld()
    ensures Lower("Hello World!") == "hello world!"
  {
    var r := Lower("Hello World!");
    assert r[0] == 'h' && r[6] == 'w';
  }

  lemma FilterHelloWorld()
    ensures Filter("hello world!", IsSlugKept) == "hello world"
  {
    assert "hello world!" == "hello world" + ['!'];
    FilterDropLast("hello world", '!', IsSlugKept);
  }

  lemma CollapseHelloWorld()
    ensures CollapseRuns("hello world", IsSlugSeparator, '-', false) == "hello-world"
  {
    assert "hello world" == "hello" + [' '] + "world";
    CollapseTwoWords("hello", ' ', "world", IsSlugSeparator, '-');
    assert "hello" + ['-'] + "world" == "hello-world";
  }

  /** Slugifying twice is slugifying once. */
  lemma SlugifyIdempotent(s: string)
    ensures Slugify(Slugify(s)) == Slugify(s)
  {
    SlugifyFixed(Slugify(s));
  }

  // ---------------------------------------------------------------------
  // getInitials

  /**
   * `word[0]` for each word, joined: a word's first character, and
   * nothing for an empty word (`undefined` joins as "").
   */
  function Heads(words: seq<string>): (r: string)
    ensures |r| <= |words|
    ensures forall j :: 0 <= j < |words| && words[j] != [] ==> words[j][0] in r
    ensures (forall j :: 0 <= j < |words| ==> words[j] != []) ==> |r| == |words|
  {
    if words == [] then []
    else (if words[0] == [] then [] else [words[0][0]]) + Heads(words[1..])
  }

  /**
   * The characters of `s` that begin a space-separated word: the
   * non-space characters at the start or right after a space.
   * `atStart` says that the character before `s` was a space (or that
   * there was none).
   */
  function WordStarts(s: string, atStart: bool): (r: string)
    ensures |r| <= |s|
    ensures forall i :: 0 <= i < |r| ==> r[i] != ' ' && r[i] in s
  {
    if s == [] then []
    else if s[0] == ' ' then WordStarts(s[1..], true)
    else (if atStart then [s[0]] else []) + WordStarts(s[1..], false)
  }

  /**
   * `getInitials(name)`: "" for an empty name; otherwise the first
   * character of each word of `name.split(" ")`, joined, uppercased and
   * cut to two characters.
   */
  function GetInitials(name: string): (r: string)
    ensures name == [] ==> r == []
    ensures |r| <= 2
    ensures forall i :: 0 <= i < |r| ==> !IsAsciiLower(r[i])
  {
    if name == [] then []
    else
      var joined := Upper(Heads(Split(name, ' ')));
      if |joined| <= 2 then joined else joined[..2]
  }

  /**
   * Splitting on spaces and taking each word's first character picks
   * exactly the word starts: empty words from repeated, leading or
   * trailing spaces contribute nothing. The second conclusion is about
   * the words after the first.
   */
  lemma {:induction false} HeadsOfSplit(s: string)
    ensures Heads(Split(s, ' ')) == WordStarts(s, true)
    ensures Heads(Split(s, ' ')[1..]) == WordStarts(s, false)
  {
    if s != [] {
      var rest := Split(s[1..], ' ');
      HeadsOfSplit(s[1..]);
      if s[0] == ' ' {
        assert Split(s, ' ') == [[]] + rest;
        assert ([[]] + rest)[1..] == rest;
      } else {
        var parts := Split(s, ' ');
        assert parts == [[s[0]] + rest[0]] + rest[1..];
        assert parts[1..] == rest[1..];
      }
    }
  }

  /** The initials are the first two word starts of the name, uppercased. */
  lemma GetInitialsWordStarts(name: string)
    ensures var w := Upper(WordStarts(name, true));
      GetInitials(name) == if |w| <= 2 then w else w[..2]
  {
    HeadsOfSplit(name);
  }

  /** The example of the doc comment: "John Doe" gives "JD". */
  lemma GetInitialsJohnDoe()
    ensures GetInitials("John Doe") == "JD"
  {
    GetInitialsWordStarts("John Doe");
    WordStartsJohnDoe();
    UpperFixed("JD");
  }

  lemma WordStartsJohnDoe()
    ensures WordStarts("John Doe", true) == "JD"
  {
    assert "John Doe" == "John" + (" " + "Doe");
    WordStartsWord("John", " " + "Doe", true);
    WordStartsSpace("Doe", false);
    assert "Doe" == "Doe" + "";
    WordStartsWord("Doe", "", true);
  }

  /** A word contributes its first character when it starts a word, and nothing else. */
  lemma {:induction false} WordStartsWord(w: string, rest: string, atStart: bool)
    requires |w| > 0 && ' ' !in w
    ensures WordStarts(w + rest, atStart) == (if atStart then [w[0]] else []) + WordStarts(rest, false)
  {
    assert (w + rest)[1..] == w[1..] + rest;
    if |w| > 1 {
      WordStartsWord(w[1..], rest, false);
    }
  }

  /** After a space the next character starts a word. */
  lemma WordStartsSpace(rest: string, atStart: bool)
    ensures WordStarts(" " + rest, atStart) == WordStarts(rest, true)
  {
    assert (" " + rest)[1..] == rest;
  }

  // ---------------------------------------------------------------------
  // pluralize

  /**
   * `pluralize(count, singular, plural)`: "1 " + singular for a count of
   * exactly 1; otherwise the count, a space and the plural, where a
   * missing or empty plural (a falsy one) stands for singular + "s".
   */
  function Pluralize(count: int, singular: string, plural: Option<string>): (r: string)
    ensures count == 1 ==> r == "1 " + singular
    ensures var prefix := IntToString(count) + " ";
      |prefix| <= |r| && r[..|prefix|] == prefix
    ensures count != 1 ==>
      var word := if plural.Some? && plural.value != [] then plural.value else singular + "s";
      r[|IntToString(count)| + 1..] == word
  {
    if count == 1 then IntToString(count) + " " + singular
    else IntToString(count) + " " + (if plural.Some? && plural.value != [] then plural.value else singular + "s")
  }

  /** Three sample calls: a count of one, a count with a plural, and a zero count without one. */
  lemma PluralizeExamples()
    ensures Pluralize(1, "item", Some("items")) == "1 item"
    ensures Pluralize(5, "item", Some("items")) == "5 items"
    ensures Pluralize(0, "item", None) == "0 items"
  {
  }
}
