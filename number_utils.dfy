/**
 * The integer-meaningful parts of the shared number utilities
 * (packages/shared/utils/numberUtils.js): `formatNumber` on integers,
 * `calculatePercentage` before its rounding, `clamp`, and the zero case
 * and unit choice of `formatBytes`.
 */
module NumberUtils {
  import opened JsCore
  import opened Text

  // ---------------------------------------------------------------------
  // formatNumber

  /** The length of the run of digits of `s` that starts at position `p`. */
  function DigitRun(s: string, p: nat): (k: nat)
    requires p <= |s|
    ensures p + k <= |s|
    decreases |s| - p
  {
    if p < |s| && IsDigit(s[p]) then 1 + DigitRun(s, p + 1) else 0
  }

  /**
   * Where `/\B(?=(\d{3})+(?!\d))/` matches in `s`: at a position between
   * two word characters or two non-word characters (`\B`) that is
   * followed by a run of digits whose length is a positive multiple of
   * three. Position 0 and position |s| never qualify: a digit after the
   * start of the string is a word boundary, and nothing follows the end.
   */
  predicate CommaAt(s: string, p: nat)
    requires p <= |s|
    ensures CommaAt(s, p) ==> 0 < p && p + 3 <= |s| && IsDigit(s[p]) && IsWordChar(s[p - 1])
  {
    && 0 < p < |s|
    && IsWordChar(s[p - 1]) == IsWordChar(s[p])
    && DigitRun(s, p) > 0
    && DigitRun(s, p) % 3 == 0
  }

  /** `s[..q]` with a comma inserted at every position where the pattern matches in `s`. */
  function InsertCommasUpTo(s: string, q: nat): (r: string)
    requires q <= |s|
    ensures |r| >= q
    ensures q > 0 ==> r[0] == s[0]
  {
    if q == 0 then []
    else InsertCommasUpTo(s, q - 1) + (if CommaAt(s, q - 1) then "," else "") + [s[q - 1]]
  }

  /**
   * `s.replace(/\B(?=(\d{3})+(?!\d))/g, ",")`: the string never gets
   * shorter and nothing is inserted in front.
   */
  function InsertCommas(s: string): (r: string)
    ensures |r| >= |s|
    ensures |s| > 0 ==> r[0] == s[0]
  {
    InsertCommasUpTo(s, |s|)
  }

  /**
   * `formatNumber(num)` for an integer `num`: it starts with a minus sign
   * exactly for a negative number.
   */
  function FormatNumber(n: int): (r: string)
    ensures |r| >= |IntToString(n)|
    ensures |r| > 0 && (r[0] == '-' <==> n < 0)
  {
    var s := IntToString(n);
    assert n >= 0 ==> IsDigit(s[0]);
    InsertCommas(s)
  }

  /**
   * Digit grouping from the right: a comma before each complete group of
   * three digits that is not at the front.
   */
  function Group(d: string): (r: string)
    requires |d| >= 1 && AllDigits(d)
    ensures |r| >= 1 && r[0] == d[0]
  {
    if |d| <= 3 then d else Group(d[..|d| - 3]) + "," + d[|d| - 3..]
  }

  lemma {:induction false} DigitRunOfDigits(s: string, p: nat)
    requires p <= |s|
    requires forall i :: p <= i < |s| ==> IsDigit(s[i])
    ensures DigitRun(s, p) == |s| - p
    decreases |s| - p
  {
    if p < |s| {
      DigitRunOfDigits(s, p + 1);
    }
  }

  /** In an optionally signed run of digits the pattern matches where a multiple of three digits follows. */
  lemma CommaAtSigned(sign: string, d: string, p: nat)
    requires sign == "" || sign == "-"
    requires |d| >= 1 && AllDigits(d)
    requires p < |sign + d|
    ensures CommaAt(sign + d, p) <==> |sign| < p && (|sign + d| - p) % 3 == 0
  {
    var s := sign + d;
    if |sign| <= p {
      DigitRunOfDigits(s, p);
    }
    if p == 1 && sign == "-" {
      assert !IsWordChar(s[0]) && IsWordChar(s[1]);
    }
  }

  lemma {:induction false} InsertCommasCongruent(s: string, t: string, q: nat)
    requires q <= |s| && q <= |t|
    requires forall p :: 0 <= p < q ==> s[p] == t[p] && CommaAt(s, p) == CommaAt(t, p)
    ensures InsertCommasUpTo(s, q) == InsertCommasUpTo(t, q)
  {
    if q > 0 {
      InsertCommasCongruent(s, t, q - 1);
    }
  }

  lemma {:induction false} InsertCommasNone(s: string, q: nat)
    requires q <= |s|
    requires forall p :: 0 <= p < q ==> !CommaAt(s, p)
    ensures InsertCommasUpTo(s, q) == s[..q]
  {
    if q > 0 {
      InsertCommasNone(s, q - 1);
      assert s[..q] == s[..q - 1] + [s[q - 1]];
    }
  }

  /** Unfolds the last three positions when the pattern matches only before the third-last one. */
  lemma InsertCommasLastGroup(s: string)
    requires |s| >= 3
    requires !CommaAt(s, |s| - 1) && !CommaAt(s, |s| - 2) && CommaAt(s, |s| - 3)
    ensures InsertCommas(s) == InsertCommasUpTo(s, |s| - 3) + "," + s[|s| - 3..]
  {
    var n := |s|;
    var u := InsertCommasUpTo(s, n - 3);
    var v := InsertCommasUpTo(s, n - 2);
    var w := InsertCommasUpTo(s, n - 1);
    assert v == u + "," + [s[n - 3]];
    assert w == v + "" + [s[n - 2]];
    assert InsertCommas(s) == w + "" + [s[n - 1]];
    RegroupLastThree(u, s[n - 3], s[n - 2], s[n - 1]);
    LastThree(s);
  }

  lemma RegroupLastThree(u: string, a: char, b: char, c: char)
    ensures u + "," + [a] + "" + [b] + "" + [c] == u + "," + [a, b, c]
  {
  }

  lemma LastThree(s: string)
    requires |s| >= 3
    ensures s[|s| - 3..] == [s[|s| - 3], s[|s| - 2], s[|s| - 1]]
  {
  }

  /** On an optionally signed run of digits the regular expression groups the digits from the right. */
  lemma {:induction false} InsertCommasGroups(sign: string, d: string)
    requires sign == "" || sign == "-"
    requires |d| >= 1 && AllDigits(d)
    ensures InsertCommas(sign + d) == sign + Group(d)
    decreases |d|
  {
    if |d| <= 3 {
      InsertCommasShort(sign, d);
    } else {
      var d' := d[..|d| - 3];
      InsertCommasGroups(sign, d');
      InsertCommasStep(sign, d);
      Regroup(sign, Group(d'), d[|d| - 3..]);
    }
  }

  lemma Regroup(sign: string, g: string, tail: string)
    ensures sign + g + "," + tail == sign + (g + "," + tail)
  {
  }

  /** Up to three digits get no comma. */
  lemma InsertCommasShort(sign: string, d: string)
    requires sign == "" || sign == "-"
    requires 1 <= |d| <= 3 && AllDigits(d)
    ensures InsertCommas(sign + d) == sign + d
  {
    var s := sign + d;
    forall p | 0 <= p < |s|
      ensures !CommaAt(s, p)
    {
      CommaAtSigned(sign, d, p);
    }
    InsertCommasNone(s, |s|);
    assert s[..|s|] == s;
  }

  /** Three more digits on the right add one comma and one group. */
  lemma InsertCommasStep(sign: string, d: string)
    requires sign == "" || sign == "-"
    requires |d| > 3 && AllDigits(d)
    ensures InsertCommas(sign + d) == InsertCommas(sign + d[..|d| - 3]) + "," + d[|d| - 3..]
  {
    InsertCommasPrefix(sign, d);
    InsertCommasLastDigits(sign, d);
  }

  /** Before the last three digits the commas are those of the shorter number. */
  lemma InsertCommasPrefix(sign: string, d: string)
    requires sign == "" || sign == "-"
    requires |d| > 3 && AllDigits(d)
    ensures InsertCommasUpTo(sign + d, |sign + d| - 3) == InsertCommas(sign + d[..|d| - 3])
  {
    var s := sign + d;
    var n := |s|;
    var d' := d[..|d| - 3];
    var s' := sign + d';
    forall p | 0 <= p < n - 3
      ensures s[p] == s'[p] && CommaAt(s, p) == CommaAt(s', p)
    {
      CommaAtShorter(sign, d, p);
    }
    InsertCommasCongruent(s, s', n - 3);
  }

  /** Dropping the last three digits changes no character and no match before them. */
  lemma CommaAtShorter(sign: string, d: string, p: nat)
    requires sign == "" || sign == "-"
    requires |d| > 3 && AllDigits(d)
    requires p < |sign + d| - 3
    ensures var s, s' := sign + d, sign + d[..|d| - 3];
      s[p] == s'[p] && CommaAt(s, p) == CommaAt(s', p)
  {
    var d' := d[..|d| - 3];
    CommaAtSigned(sign, d, p);
    CommaAtSigned(sign, d', p);
    ModThreeShift(|sign + d'| - p);
  }

  lemma ModThreeShift(m: int)
    ensures (m + 3) % 3 == m % 3
  {
  }

  /** The last three digits get a comma before them and none inside. */
  lemma InsertCommasLastDigits(sign: string, d: string)
    requires sign == "" || sign == "-"
    requires |d| > 3 && AllDigits(d)
    ensures InsertCommas(sign + d) == InsertCommasUpTo(sign + d, |sign + d| - 3) + "," + d[|d| - 3..]
  {
    var s := sign + d;
    var n := |s|;
    CommaAtSigned(sign, d, n - 1);
    CommaAtSigned(sign, d, n - 2);
    CommaAtSigned(sign, d, n - 3);
    InsertCommasLastGroup(s);
    assert s[n - 3..] == d[|d| - 3..];
  }

  /** The formatted text is the sign followed by the grouped digits of the magnitude. */
  lemma FormatNumberShape(n: int)
    ensures FormatNumber(n) == (if n < 0 then "-" else "") + Group(NatToString(if n < 0 then -n else n))
  {
    var sign := if n < 0 then "-" else "";
    var d := NatToString(if n < 0 then -n else n);
    assert IntToString(n) == sign + d;
    InsertCommasGroups(sign, d);
  }

  /**
   * The pieces of grouped digits between commas: the first holds one to
   * three digits, every later one exactly three.
   */
  lemma {:induction false} GroupPieces(d: string)
    requires |d| >= 1 && AllDigits(d)
    ensures var pieces := Split(Group(d), ',');
      && 1 <= |pieces[0]| <= 3
      && (forall j :: 1 <= j < |pieces| ==> |pieces[j]| == 3)
      && (forall j :: 0 <= j < |pieces| ==> AllDigits(pieces[j]))
    decreases |d|
  {
    if |d| <= 3 {
      SplitNoSeparator(d, ',');
    } else {
      var d' := d[..|d| - 3];
      var tail := d[|d| - 3..];
      GroupPieces(d');
      SplitAppend(Group(d'), ',', tail);
      SplitNoSeparator(tail, ',');
      assert Group(d) == Group(d') + [','] + tail;
    }
  }

  /**
   * `formatNumber` on an integer: a leading minus sign exactly for
   * negative numbers, then comma-separated groups of digits, the first of
   * one to three digits (so no comma follows the sign) and every later
   * one of exactly three.
   */
  lemma FormatNumberGroups(n: int)
    ensures var r := FormatNumber(n);
      && |r| >= 1
      && (r[0] == '-' <==> n < 0)
      && var pieces := Split(if n < 0 then r[1..] else r, ',');
         && 1 <= |pieces[0]| <= 3
         && (forall j :: 1 <= j < |pieces| ==> |pieces[j]| == 3)
         && (forall j :: 0 <= j < |pieces| ==> AllDigits(pieces[j]))
  {
    var d := NatToString(if n < 0 then -n else n);
    var r := FormatNumber(n);
    FormatNumberShape(n);
    GroupPieces(d);
    assert IsDigit(Group(d)[0]);
    if n < 0 {
      assert r == "-" + Group(d);
      assert r[1..] == Group(d);
    } else {
      assert r == Group(d);
    }
  }

  predicate IsNotComma(c: char) {
    c != ','
  }

  lemma {:induction false} StripInsertedCommas(s: string, q: nat)
    requires q <= |s|
    requires ',' !in s
    ensures Filter(InsertCommasUpTo(s, q), IsNotComma) == s[..q]
  {
    if q > 0 {
      StripInsertedCommas(s, q - 1);
      var comma: string := if CommaAt(s, q - 1) then "," else "";
      FilterAppend(InsertCommasUpTo(s, q - 1) + comma, [s[q - 1]], IsNotComma);
      FilterAppend(InsertCommasUpTo(s, q - 1), comma, IsNotComma);
      assert s[..q] == s[..q - 1] + [s[q - 1]];
    }
  }

  /** Removing every comma from `formatNumber(n)` gives back `n.toString()`. */
  lemma FormatNumberStripCommas(n: int)
    ensures Filter(FormatNumber(n), IsNotComma) == IntToString(n)
  {
    var s := IntToString(n);
    assert ',' !in s;
    StripInsertedCommas(s, |s|);
  }

  /** A seven-digit number: 1234567 is shown as "1,234,567". */
  lemma FormatNumberExample()
    ensures FormatNumber(1234567) == "1,234,567"
  {
    FormatNumberShape(1234567);
    NatToString1234567();
    var d := "1234567";
    assert d[..4] == "1234" && d[4..] == "567";
    assert "1234"[..1] == "1" && "1234"[1..] == "234";
    assert Group("1234") == "1,234";
    assert Group(d) == "1,234" + "," + "567";
  }

  lemma NatToString1234567()
    ensures NatToString(1234567) == "1234567"
  {
    NatToString1234();
    NatToStringPush(1234, 5, "1234");
    NatToStringPush(12345, 6, "12345");
    NatToStringPush(123456, 7, "123456");
  }

  lemma NatToString1234()
    ensures NatToString(1234) == "1234"
  {
    assert NatToString(1) == "1";
    NatToStringPush(1, 2, "1");
    NatToStringPush(12, 3, "12");
    NatToStringPush(123, 4, "123");
  }

  /** Appending a decimal digit to a number appends its character to the digits. */
  lemma NatToStringPush(n: nat, k: nat, digits: string)
    requires n >= 1 && k < 10 && NatToString(n) == digits
    ensures NatToString(10 * n + k) == digits + [DigitChar(k)]
  {
    assert (10 * n + k) / 10 == n && (10 * n + k) % 10 == k;
  }

  // ---------------------------------------------------------------------
  // calculatePercentage

  /**
   * `calculatePercentage(value, total)`: 0 when `total` is 0, and
   * otherwise `value / total * 100` (before the rounding to `decimals`
   * places).
   */
  function CalculatePercentage(value: real, total: real): (r: real)
    ensures total == 0.0 ==> r == 0.0
    ensures total != 0.0 ==> r * total == value * 100.0
  {
    if total == 0.0 then 0.0 else (value / total) * 100.0
  }

  /** A part of a positive whole is between 0 and 100 percent of it. */
  lemma PercentageBounds(value: real, total: real)
    requires 0.0 <= value <= total && total > 0.0
    ensures 0.0 <= CalculatePercentage(value, total) <= 100.0
  {
    var r := CalculatePercentage(value, total);
    assert r * total <= 100.0 * total;
  }

  // ---------------------------------------------------------------------
  // clamp

  /** `clamp(num, min, max)`: `Math.min(Math.max(num, min), max)`. */
  function Clamp(x: int, lo: int, hi: int): (r: int)
    ensures lo <= hi ==> lo <= r <= hi
    ensures lo <= x <= hi ==> r == x
    ensures x < lo && lo <= hi ==> r == lo
    ensures hi < x ==> r == hi
    ensures hi < lo ==> r == hi
  {
    var low := if x < lo then lo else x;
    if low < hi then low else hi
  }

  /** Clamping a clamped value changes nothing, whatever the bounds. */
  lemma ClampIdempotent(x: int, lo: int, hi: int)
    ensures Clamp(Clamp(x, lo, hi), lo, hi) == Clamp(x, lo, hi)
  {
  }

  // ---------------------------------------------------------------------
  // formatBytes

  /** The unit labels of `formatBytes`, indexed by powers of 1024. */
  const Sizes: seq<string> := ["Bytes", "KB", "MB", "GB", "TB"]

  function Pow1024(i: nat): (r: nat)
    ensures r >= 1
  {
    if i == 0 then 1 else 1024 * Pow1024(i - 1)
  }

  /** The exact integer logarithm of `b` to base 1024, rounded down. */
  function Log1024(b: nat): (i: nat)
    requires b >= 1
    ensures Pow1024(i) <= b < Pow1024(i + 1)
  {
    if b < 1024 then 0
    else
      var j := Log1024(b / 1024);
      assert Pow1024(j + 1) == 1024 * Pow1024(j);
      assert Pow1024(j + 2) == 1024 * Pow1024(j + 1);
      1 + j
  }

  /** `sizes[i]`, which is `undefined` exactly past the last unit. */
  function UnitLabel(i: nat): (r: string)
    ensures r == "undefined" <==> i >= |Sizes|
  {
    if i < |Sizes| then Sizes[i] else "undefined"
  }

  /**
   * What `formatBytes` shows: a whole text, or an amount (to be rounded to
   * two decimals) followed by a space and a unit label.
   */
  datatype SizeText = Literal(text: string) | Scaled(amount: real, unit: string)

  /**
   * `formatBytes(bytes)` on an integer: "0 Bytes" for zero; for a
   * positive count, the count divided by the largest power of 1024 not
   * above it, in the unit of that power; for a negative count the source
   * computes the logarithm of a negative number and shows "NaN undefined".
   */
  function FormatBytes(bytes: int): (r: SizeText)
    ensures bytes == 0 ==> r == Literal("0 Bytes")
    ensures bytes < 0 ==> r == Literal("NaN undefined")
    ensures bytes > 0 ==> r.Scaled? && 1.0 <= r.amount < 1024.0
    ensures bytes >= Pow1024(5) ==> r.Scaled? && r.unit == "undefined"
  {
    if bytes == 0 then Literal("0 Bytes")
    else if bytes < 0 then Literal("NaN undefined")
    else
      var i := Log1024(bytes);
      var p := Pow1024(i) as real;
      assert Pow1024(i + 1) == 1024 * Pow1024(i);
      QuotientBounds(bytes as real, p);
      assert bytes >= Pow1024(5) ==> i >= 5 by {
        if bytes >= Pow1024(5) && i < 5 {
          PowMonotone(i + 1, 5);
        }
      }
      Scaled(bytes as real / p, UnitLabel(i))
  }

  /** Dividing by a power not above `b`, and more than `b`/1024, lands in [1, 1024). */
  lemma QuotientBounds(b: real, p: real)
    requires 0.0 < p <= b < 1024.0 * p
    ensures 1.0 <= b / p < 1024.0
  {
    QuotientAtLeastOne(b, p);
    QuotientBelow(b, p, 1024.0);
  }

  lemma QuotientAtLeastOne(b: real, p: real)
    requires 0.0 < p <= b
    ensures b / p >= 1.0
  {
  }

  lemma QuotientBelow(b: real, p: real, k: real)
    requires 0.0 < p && b < k * p
    ensures b / p < k
  {
  }

  /**
   * For 1 <= b < 1024^5 the unit is the `sizes[i]` with
   * 1024^i <= b < 1024^(i+1), and the amount times 1024^i is b.
   */
  lemma FormatBytesUnit(b: int)
    requires 1 <= b < Pow1024(5)
    ensures exists i :: (0 <= i < 5 && Pow1024(i) <= b < Pow1024(i + 1)
                         && FormatBytes(b).unit == Sizes[i]
                         && FormatBytes(b).amount * (Pow1024(i) as real) == b as real)
  {
    var i := Log1024(b);
    if i >= 5 {
      PowMonotone(5, i);
    }
    assert FormatBytes(b).amount * (Pow1024(i) as real) == b as real;
  }

  lemma {:induction false} PowMonotone(i: nat, j: nat)
    requires i <= j
    ensures Pow1024(i) <= Pow1024(j)
    decreases j - i
  {
    if i < j {
      PowMonotone(i, j - 1);
    }
  }

  /** `formatBytes(1048576)` is one megabyte. */
  lemma FormatBytesOneMegabyte()
    ensures FormatBytes(1048576) == Scaled(1.0, "MB")
  {
    assert Pow1024(2) == 1048576;
    assert Log1024(1048576) == 2 by {
      assert Log1024(1) == 0;
      assert Log1024(1024) == 1;
    }
  }
}
