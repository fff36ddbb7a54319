/**
 * Character classes of JavaScript regular expressions and the string
 * rewrites the utilities chain together: case mapping, character
 * filtering and replacement, collapsing runs, trimming a character class
 * at either end, and `String.prototype.split` on one separator.
 */
module Text {
  import opened JsCore

  // ---------------------------------------------------------------------
  // Character classes

  predicate IsAsciiUpper(c: char) { 'A' <= c <= 'Z' }

  predicate IsAsciiLower(c: char) { 'a' <= c <= 'z' }

  /** `\w` of a non-Unicode regular expression: `[A-Za-z0-9_]`. */
  predicate IsWordChar(c: char)
    ensures IsWordChar(c) ==> c < '\U{0080}' && c != '-'
  {
    IsAsciiUpper(c) || IsAsciiLower(c) || IsDigit(c) || c == '_'
  }

  /**
   * `\s`, which is also what `String.prototype.trim` removes: the
   * ECMAScript WhiteSpace and LineTerminator code points.
   */
  predicate IsSpace(c: char)
    ensures IsSpace(c) ==> !IsWordChar(c) && c != '-'
  {
    c in SpaceChars || '\U{2000}' <= c <= '\U{200A}'
  }

  /** The `\s` code points outside the range U+2000..U+200A. */
  const SpaceChars: set<char> := {
    '\t', '\n', '\U{000B}', '\U{000C}', '\r', ' ', '\U{00A0}', '\U{1680}',
    '\U{2028}', '\U{2029}', '\U{202F}', '\U{205F}', '\U{3000}', '\U{FEFF}'
  }

  function ToLower(c: char): (r: char)
    ensures !IsAsciiUpper(r)
    ensures IsAsciiUpper(c) ==> IsAsciiLower(r) && r as int == c as int + 32
    ensures !IsAsciiUpper(c) ==> r == c
  {
    if IsAsciiUpper(c) then (c as int + 32) as char else c
  }

  function ToUpper(c: char): (r: char)
    ensures !IsAsciiLower(r)
    ensures IsAsciiLower(c) ==> IsAsciiUpper(r) && r as int == c as int - 32
    ensures !IsAsciiLower(c) ==> r == c
  {
    if IsAsciiLower(c) then (c as int - 32) as char else c
  }

  /** `toLowerCase()`, on the ASCII letters. */
  function Lower(s: string): (r: string)
    ensures |r| == |s|
    ensures forall i :: 0 <= i < |s| ==> r[i] == ToLower(s[i])
  {
    seq(|s|, i requires 0 <= i < |s| => ToLower(s[i]))
  }

  /** `toUpperCase()`, on the ASCII letters. */
  function Upper(s: string): (r: string)
    ensures |r| == |s|
    ensures forall i :: 0 <= i < |s| ==> r[i] == ToUpper(s[i])
  {
    seq(|s|, i requires 0 <= i < |s| => ToUpper(s[i]))
  }

  lemma LowerFixed(s: string)
    requires forall i :: 0 <= i < |s| ==> !IsAsciiUpper(s[i])
    ensures Lower(s) == s
  {
  }

  lemma UpperFixed(s: string)
    requires forall i :: 0 <= i < |s| ==> !IsAsciiLower(s[i])
    ensures Upper(s) == s
  {
  }

  // ---------------------------------------------------------------------
  // Rewrites driven by a character class

  /** `replace(/[^k]/g, "")`: drop every character outside the class `keep`. */
  function Filter(s: string, keep: char -> bool): (r: string)
    ensures |r| <= |s|
    ensures forall i :: 0 <= i < |r| ==> keep(r[i]) && r[i] in s
  {
    if s == [] then []
    else if keep(s[0]) then [s[0]] + Filter(s[1..], keep)
    else Filter(s[1..], keep)
  }

  /** A single character survives exactly when the class keeps it. */
  lemma FilterOne(c: char, keep: char -> bool)
    ensures Filter([c], keep) == if keep(c) then [c] else []
  {
    assert [c][1..] == [];
  }

  /**
   * Filtering distributes over concatenation; with FilterOne this fixes
   * the result: the kept characters, in their order in `s`.
   */
  lemma {:induction false} FilterAppend(a: string, b: string, keep: char -> bool)
    ensures Filter(a + b, keep) == Filter(a, keep) + Filter(b, keep)
  {
    if a != [] {
      assert (a + b)[0] == a[0];
      assert (a + b)[1..] == a[1..] + b;
      FilterAppend(a[1..], b, keep);
    } else {
      assert a + b == b;
    }
  }

  /** Filtering by a smaller class after a larger one is filtering by the smaller class. */
  lemma {:induction false} FilterFilter(s: string, keep: char -> bool, fine: char -> bool)
    requires forall c :: fine(c) ==> keep(c)
    ensures Filter(Filter(s, keep), fine) == Filter(s, fine)
  {
    if s != [] {
      FilterFilter(s[1..], keep, fine);
      if keep(s[0]) {
        assert ([s[0]] + Filter(s[1..], keep))[1..] == Filter(s[1..], keep);
      }
    }
  }

  /** A string of kept characters followed by one dropped character filters to the former. */
  lemma {:induction false} FilterDropLast(w: string, x: char, keep: char -> bool)
    requires forall i :: 0 <= i < |w| ==> keep(w[i])
    requires !keep(x)
    ensures Filter(w + [x], keep) == w
  {
    FilterAppend(w, [x], keep);
    FilterFixed(w, keep);
    FilterOne(x, keep);
  }

  /** A string with no character of the class filters to nothing. */
  lemma {:induction false} FilterNone(s: string, keep: char -> bool)
    requires forall i :: 0 <= i < |s| ==> !keep(s[i])
    ensures Filter(s, keep) == []
  {
    if s != [] {
      FilterNone(s[1..], keep);
    }
  }

  /** The characters outside the class `p`. */
  function Complement(p: char -> bool): char -> bool {
    c => !p(c)
  }

  lemma {:induction false} FilterFixed(s: string, keep: char -> bool)
    requires forall i :: 0 <= i < |s| ==> keep(s[i])
    ensures Filter(s, keep) == s
  {
    if s != [] {
      FilterFixed(s[1..], keep);
    }
  }

  /** `replace(/[^k]/g, c)`: replace every character outside the class `keep` by `c`. */
  function ReplaceOutside(s: string, keep: char -> bool, c: char): (r: string)
    ensures |r| == |s|
    ensures forall i :: 0 <= i < |s| ==> r[i] == if keep(s[i]) then s[i] else c
  {
    seq(|s|, i requires 0 <= i < |s| => if keep(s[i]) then s[i] else c)
  }

  /** Replacing the characters outside `keep` by `c` leaves the characters of any class inside `keep` and without `c` as they were. */
  lemma {:induction false} FilterReplaceOutside(s: string, keep: char -> bool, c: char, fine: char -> bool)
    requires forall x :: fine(x) ==> keep(x)
    requires !fine(c)
    ensures Filter(ReplaceOutside(s, keep, c), fine) == Filter(s, fine)
  {
    if s != [] {
      var r := ReplaceOutside(s, keep, c);
      assert r[1..] == ReplaceOutside(s[1..], keep, c);
      FilterReplaceOutside(s[1..], keep, c, fine);
    }
  }

  /** No two neighbouring characters of `s` are both in the class `p`. */
  predicate NoAdjacent(s: string, p: char -> bool) {
    forall i, j :: 0 <= i < |s| && 0 <= j < |s| && j == i + 1 ==> !(p(s[i]) && p(s[j]))
  }

  /** Forbidding neighbours from a class forbids them from any smaller class. */
  lemma NoAdjacentWeaken(s: string, p: char -> bool, q: char -> bool)
    requires NoAdjacent(s, p)
    requires forall c :: q(c) ==> p(c)
    ensures NoAdjacent(s, q)
  {
  }

  /**
   * `replace(/[p]+/g, c)`: every maximal run of characters of the class
   * `p` becomes the single character `c`. `inRun` says that the
   * characters already consumed ended inside such a run, whose `c` has
   * been emitted.
   */
  function CollapseRuns(s: string, p: char -> bool, c: char, inRun: bool): (r: string)
    requires p(c)
    ensures forall i :: 0 <= i < |r| ==> r[i] == c || (!p(r[i]) && r[i] in s)
    ensures NoAdjacent(r, p)
    ensures inRun && |r| > 0 ==> !p(r[0])
  {
    if s == [] then []
    else if p(s[0]) then
      if inRun then CollapseRuns(s[1..], p, c, true)
      else [c] + CollapseRuns(s[1..], p, c, true)
    else [s[0]] + CollapseRuns(s[1..], p, c, false)
  }

  /**
   * A string whose only `p` characters are single copies of `c` is left
   * alone by CollapseRuns, provided it does not start with a `p`
   * character right after a run.
   */
  lemma {:induction false} CollapseRunsFixed(s: string, p: char -> bool, c: char, inRun: bool)
    requires p(c)
    requires forall i :: 0 <= i < |s| ==> p(s[i]) ==> s[i] == c
    requires NoAdjacent(s, p)
    requires inRun && |s| > 0 ==> !p(s[0])
    ensures CollapseRuns(s, p, c, inRun) == s
  {
    if s != [] {
      CollapseRunsFixed(s[1..], p, c, p(s[0]));
    }
  }

  /** Collapsing runs of `p` keeps every character outside `p`, in order. */
  lemma {:induction false} CollapseKeepsOthers(s: string, p: char -> bool, c: char, inRun: bool)
    requires p(c)
    ensures Filter(CollapseRuns(s, p, c, inRun), Complement(p)) == Filter(s, Complement(p))
  {
    if s != [] {
      CollapseKeepsOthers(s[1..], p, c, p(s[0]));
      var rest := CollapseRuns(s[1..], p, c, p(s[0]));
      if p(s[0]) && !inRun {
        assert ([c] + rest)[1..] == rest;
      } else if !p(s[0]) {
        assert ([s[0]] + rest)[1..] == rest;
      }
    }
  }

  /**
   * A maximal run of `p` characters becomes one `c` (none if it continues
   * a run already emitted), and what follows the run starts afresh.
   */
  lemma {:induction false} CollapseRun(run: string, rest: string, p: char -> bool, c: char, inRun: bool)
    requires p(c)
    requires |run| > 0 && forall i :: 0 <= i < |run| ==> p(run[i])
    requires rest == [] || !p(rest[0])
    ensures CollapseRuns(run + rest, p, c, inRun) ==
      (if inRun then [] else [c]) + CollapseRuns(rest, p, c, false)
  {
    assert (run + rest)[0] == run[0];
    assert (run + rest)[1..] == run[1..] + rest;
    if |run| == 1 {
      assert run[1..] + rest == rest;
      CollapseAfterRun(rest, p, c);
    } else {
      CollapseRun(run[1..], rest, p, c, true);
    }
  }

  /** Characters outside the class are copied, and close any open run. */
  lemma {:induction false} CollapsePlain(w: string, rest: string, p: char -> bool, c: char, inRun: bool)
    requires p(c)
    requires |w| > 0 && forall i :: 0 <= i < |w| ==> !p(w[i])
    ensures CollapseRuns(w + rest, p, c, inRun) == w + CollapseRuns(rest, p, c, false)
  {
    var s := w + rest;
    assert s[0] == w[0] && s[1..] == w[1..] + rest;
    var tail := CollapseRuns(rest, p, c, false);
    if |w| > 1 {
      CollapsePlain(w[1..], rest, p, c, false);
    }
    assert CollapseRuns(w[1..] + rest, p, c, false) == w[1..] + tail;
    ConsAppend(w, tail);
  }

  lemma {:induction false} ConsAppend(w: string, t: string)
    requires |w| > 0
    ensures [w[0]] + (w[1..] + t) == w + t
  {
    assert [w[0]] + w[1..] == w;
  }

  /** Two runs of characters outside the class, with one class character between them. */
  lemma {:induction false} CollapseTwoWords(a: string, x: char, b: string, p: char -> bool, c: char)
    requires p(c) && p(x)
    requires |a| > 0 && forall i :: 0 <= i < |a| ==> !p(a[i])
    requires |b| > 0 && forall i :: 0 <= i < |b| ==> !p(b[i])
    ensures CollapseRuns(a + [x] + b, p, c, false) == a + [c] + b
  {
    var xb := [x] + b;
    assert a + [x] + b == a + xb;
    CollapsePlain(a, xb, p, c, false);
    CollapseRunThenPlain(x, b, p, c);
    assert a + ([c] + b) == a + [c] + b;
  }

  /** One class character followed by characters outside the class. */
  lemma {:induction false} CollapseRunThenPlain(x: char, b: string, p: char -> bool, c: char)
    requires p(c) && p(x)
    requires forall i :: 0 <= i < |b| ==> !p(b[i])
    ensures CollapseRuns([x] + b, p, c, false) == [c] + b
  {
    CollapseRun([x], b, p, c, false);
    CollapseRunsFixed(b, p, c, false);
  }

  /** Whether a run was open only matters when the next character continues it. */
  lemma CollapseAfterRun(rest: string, p: char -> bool, c: char)
    requires p(c)
    requires rest == [] || !p(rest[0])
    ensures CollapseRuns(rest, p, c, true) == CollapseRuns(rest, p, c, false)
  {
  }

  /** The length of the leading run of `p` characters of `s`. */
  function LeadingRun(s: string, p: char -> bool): (k: nat)
    ensures k <= |s|
    ensures forall i :: 0 <= i < k ==> p(s[i])
    ensures k < |s| ==> !p(s[k])
  {
    if s != [] && p(s[0]) then 1 + LeadingRun(s[1..], p) else 0
  }

  /** Where the trailing run of `p` characters of `s` starts. */
  function TrailingRunStart(s: string, p: char -> bool): (k: nat)
    ensures k <= |s|
    ensures forall i :: k <= i < |s| ==> p(s[i])
    ensures k > 0 ==> !p(s[k - 1])
  {
    if s != [] && p(s[|s| - 1]) then TrailingRunStart(s[..|s| - 1], p) else |s|
  }

  /**
   * `replace(/^[p]+|[p]+$/g, "")` and `trim()`: drop the leading and the
   * trailing run of `p` characters, keeping the slice between them.
   */
  function Trim(s: string, p: char -> bool): (r: string)
    ensures |r| > 0 ==> !p(r[0]) && !p(r[|r| - 1])
    ensures var k := LeadingRun(s, p); k + |r| <= |s| && r == s[k..k + |r|]
    ensures forall i :: LeadingRun(s, p) + |r| <= i < |s| ==> p(s[i])
    ensures forall i :: 0 <= i < |r| ==> r[i] in s
  {
    var rest := s[LeadingRun(s, p)..];
    rest[..TrailingRunStart(rest, p)]
  }

  /** Trimming the class `p` leaves the characters of any class disjoint from `p` as they were. */
  lemma {:induction false} FilterTrim(s: string, p: char -> bool, fine: char -> bool)
    requires forall c :: fine(c) ==> !p(c)
    ensures Filter(Trim(s, p), fine) == Filter(s, fine)
  {
    var r := Trim(s, p);
    var k := LeadingRun(s, p);
    var front, back := s[..k], s[k + |r|..];
    assert s == front + r + back;
    assert forall i :: 0 <= i < |front| ==> p(front[i]);
    assert forall i :: 0 <= i < |back| ==> p(back[i]);
    FilterAround(front, r, back, fine);
  }

  /** Text without a character of the class around a middle part filters like the middle part. */
  lemma {:induction false} FilterAround(front: string, middle: string, back: string, fine: char -> bool)
    requires forall i :: 0 <= i < |front| ==> !fine(front[i])
    requires forall i :: 0 <= i < |back| ==> !fine(back[i])
    ensures Filter(front + middle + back, fine) == Filter(middle, fine)
  {
    FilterAppend(front + middle, back, fine);
    FilterAppend(front, middle, fine);
    FilterNone(front, fine);
    FilterNone(back, fine);
  }

  /** Collapsing runs of the class `p` leaves the characters of any class disjoint from `p` as they were. */
  lemma {:induction false} FilterCollapse(s: string, p: char -> bool, c: char, inRun: bool, fine: char -> bool)
    requires p(c)
    requires forall x :: fine(x) ==> !p(x)
    ensures Filter(CollapseRuns(s, p, c, inRun), fine) == Filter(s, fine)
  {
    CollapseKeepsOthers(s, p, c, inRun);
    FilterFilter(CollapseRuns(s, p, c, inRun), Complement(p), fine);
    FilterFilter(s, Complement(p), fine);
  }

  /** Trimming keeps every property of single characters and of neighbours that `s` has. */
  lemma TrimKeeps(s: string, p: char -> bool, ok: char -> bool, q: char -> bool)
    requires forall i :: 0 <= i < |s| ==> ok(s[i])
    requires NoAdjacent(s, q)
    ensures var r := Trim(s, p);
      (forall i :: 0 <= i < |r| ==> ok(r[i])) && NoAdjacent(r, q)
  {
    var r := Trim(s, p);
    var k := LeadingRun(s, p);
    SliceKeeps(s, k, k + |r|, ok, q);
  }

  /** A slice keeps every property of single characters and of neighbours that `s` has. */
  lemma SliceKeeps(s: string, k: nat, m: nat, ok: char -> bool, q: char -> bool)
    requires k <= m <= |s|
    requires forall i :: 0 <= i < |s| ==> ok(s[i])
    requires NoAdjacent(s, q)
    ensures var r := s[k..m];
      (forall i :: 0 <= i < |r| ==> ok(r[i])) && NoAdjacent(r, q)
  {
    var r := s[k..m];
    forall i, j | 0 <= i < |r| && 0 <= j < |r| && j == i + 1
      ensures !(q(r[i]) && q(r[j]))
    {
      assert r[i] == s[k + i] && r[j] == s[k + j];
    }
  }

  lemma TrimFixed(s: string, p: char -> bool)
    requires |s| > 0 ==> !p(s[0]) && !p(s[|s| - 1])
    ensures Trim(s, p) == s
  {
  }

  // ---------------------------------------------------------------------
  // split and join on one separator character

  /**
   * `s.split(sep)` for a one-character separator: the pieces between
   * separators, including empty ones; `"".split(sep)` is `[""]`.
   */
  function Split(s: string, sep: char): (parts: seq<string>)
    ensures |parts| >= 1
    ensures forall j, i :: 0 <= j < |parts| && 0 <= i < |parts[j]| ==> parts[j][i] != sep
  {
    if s == [] then [[]]
    else
      var rest := Split(s[1..], sep);
      if s[0] == sep then [[]] + rest
      else [[s[0]] + rest[0]] + rest[1..]
  }

  /**
   * `parts.join(sep)`. Splitting the result again gives back the parts
   * when none of them contains the separator.
   */
  function Join(parts: seq<string>, sep: char): (r: string)
    requires |parts| >= 1
    ensures (forall j :: 0 <= j < |parts| ==> sep !in parts[j]) ==> Split(r, sep) == parts
  {
    if |parts| == 1 then
      assert sep !in parts[0] ==> Split(parts[0], sep) == parts by {
        if sep !in parts[0] {
          SplitNoSeparator(parts[0], sep);
        }
      }
      parts[0]
    else
      var rest := Join(parts[1..], sep);
      assert (forall j :: 0 <= j < |parts| ==> sep !in parts[j]) ==>
        Split(parts[0] + [sep] + rest, sep) == parts by {
        if forall j :: 0 <= j < |parts| ==> sep !in parts[j] {
          assert forall j :: 0 <= j < |parts[1..]| ==> sep !in parts[1..][j] by {
            forall j | 0 <= j < |parts[1..]| ensures sep !in parts[1..][j] {
              assert parts[1..][j] == parts[j + 1];
            }
          }
          SplitAppend(parts[0], sep, rest);
          SplitNoSeparator(parts[0], sep);
          assert [parts[0]] + parts[1..] == parts;
        }
      }
      parts[0] + [sep] + rest
  }

  /** Splitting and joining again gives back the string. */
  lemma {:induction false} SplitJoin(s: string, sep: char)
    ensures Join(Split(s, sep), sep) == s
  {
    if s != [] {
      var rest := Split(s[1..], sep);
      SplitJoin(s[1..], sep);
      if s[0] == sep {
        assert Split(s, sep) == [[]] + rest;
        assert ([[]] + rest)[1..] == rest;
      } else {
        var parts := Split(s, sep);
        if |rest| == 1 {
          assert parts == [[s[0]] + rest[0]];
        } else {
          assert parts[1..] == rest[1..];
          assert Join(rest, sep) == rest[0] + [sep] + Join(rest[1..], sep);
        }
      }
    }
  }

  /** A string without the separator is a single piece. */
  lemma {:induction false} SplitNoSeparator(s: string, sep: char)
    requires sep !in s
    ensures Split(s, sep) == [s]
  {
    if s != [] {
      assert sep !in s[1..];
      SplitNoSeparator(s[1..], sep);
      assert [s[0]] + s[1..] == s;
    }
  }

  /** The pieces of `a + [sep] + b` are those of `a` followed by those of `b`. */
  lemma {:induction false} SplitAppend(a: string, sep: char, b: string)
    ensures Split(a + [sep] + b, sep) == Split(a, sep) + Split(b, sep)
  {
    if a == [] {
      assert [sep] + b == a + [sep] + b;
      assert ([sep] + b)[1..] == b;
    } else {
      assert (a + [sep] + b)[1..] == a[1..] + [sep] + b;
      SplitAppend(a[1..], sep, b);
    }
  }
}
