/**
 * The shared array and object utilities (packages/shared/utils/dataUtils.js):
 * `groupBy`, `unique`, `chunk`, `omit` and `pick`. Plain objects are maps
 * from their own string keys to values; arrays are sequences.
 */
module DataUtils {
  import opened JsCore

  // ---------------------------------------------------------------------
  // chunk

  /** The concatenation of a sequence of chunks. */
  function Flatten<T>(chunks: seq<seq<T>>): seq<T> {
    if chunks == [] then [] else Flatten(chunks[..|chunks| - 1]) + chunks[|chunks| - 1]
  }

  /**
   * `k` is the number of `size`-element chunks needed for `n` elements,
   * ceil(n / size), when (k - 1) * size < n <= k * size.
   */
  lemma CeilingDivision(n: nat, size: int, k: nat)
    requires size > 0
    requires (k - 1) * size < n <= k * size
    ensures k == (n + size - 1) / size
  {
    var m := n + size - 1;
    assert k * size <= m < (k + 1) * size;
    DivisionBetween(m, size, k);
  }

  lemma DivisionBetween(m: int, size: int, k: int)
    requires size > 0
    requires k * size <= m < (k + 1) * size
    ensures m / size == k
  {
    var q := m / size;
    assert m == q * size + m % size;
    if q < k {
      MultiplyMonotone(q + 1, k, size);
    } else if q > k {
      MultiplyMonotone(k + 1, q, size);
    }
  }

  lemma MultiplyMonotone(x: int, y: int, size: int)
    requires x <= y && size > 0
    ensures x * size <= y * size
  {
  }

  function Min(x: int, y: int): int {
    if x < y then x else y
  }

  /**
   * `chunks` is what `chunk` has built when its index reached `i`: the
   * slices of `size` elements covering the first `i` elements (all of
   * them once `i` passed the end), each full but possibly the last.
   */
  ghost predicate ChunkedUpTo<T>(a: seq<T>, size: int, i: int, chunks: seq<seq<T>>) {
    && 0 <= i == |chunks| * size
    && Flatten(chunks) == a[..Min(i, |a|)]
    && (forall j :: 0 <= j < |chunks| ==> 0 < |chunks[j]| <= size)
    && (forall j :: 0 <= j < |chunks| - 1 ==> |chunks[j]| == size)
    && (i <= |a| ==> forall j :: 0 <= j < |chunks| ==> |chunks[j]| == size)
    && (|chunks| > 0 ==> (|chunks| - 1) * size < |a|)
  }

  /** Slicing off the next `size` elements (fewer at the end) keeps the chunking. */
  lemma ChunkStep<T>(a: seq<T>, size: int, i: int, chunks: seq<seq<T>>)
    requires size > 0 && 0 <= i < |a| && ChunkedUpTo(a, size, i, chunks)
    ensures ChunkedUpTo(a, size, i + size, chunks + [a[i..Min(i + size, |a|)]])
  {
    var end := Min(i + size, |a|);
    assert (chunks + [a[i..end]])[..|chunks|] == chunks;
    assert a[..end] == a[..i] + a[i..end];
    assert (|chunks| + 1) * size == i + size;
  }

  /**
   * `chunk(array, size)`: consecutive slices of `size` elements, the last
   * one possibly shorter. With a non-positive `size` the source's loop
   * never ends on a non-empty array, so only the empty array may be
   * chunked by such a size.
   */
  method Chunk<T>(a: seq<T>, size: int) returns (chunks: seq<seq<T>>)
    requires size > 0 || |a| == 0
    ensures Flatten(chunks) == a
    ensures forall j :: 0 <= j < |chunks| ==> 0 < |chunks[j]| <= size
    ensures forall j :: 0 <= j < |chunks| - 1 ==> |chunks[j]| == size
    ensures |chunks| == if |a| == 0 then 0 else (|a| + size - 1) / size
  {
    chunks := [];
    var i := 0;
    while i < |a|
      invariant 0 <= i
      invariant ChunkedUpTo(a, size, i, chunks)
    {
      ChunkStep(a, size, i, chunks);
      chunks := chunks + [a[i..Min(i + size, |a|)]];
      i := i + size;
    }
    assert a[..Min(i, |a|)] == a;
    if |a| > 0 {
      CeilingDivision(|a|, size, |chunks|);
    }
  }

  // ---------------------------------------------------------------------
  // unique

  predicate NoDuplicates<T(==)>(s: seq<T>) {
    forall i, j :: 0 <= i < j < |s| ==> s[i] != s[j]
  }

  /** The position of the first occurrence of `x` in `s`. */
  function IndexOf<T(==)>(s: seq<T>, x: T): (k: nat)
    requires x in s
    ensures k < |s| && s[k] == x && x !in s[..k]
  {
    if s[0] == x then 0
    else
      var k := 1 + IndexOf(s[1..], x);
      assert s[..k] == [s[0]] + s[1..][..k - 1];
      k
  }

  /**
   * Adding the elements of `a` in order to a `Set` that already holds
   * `seen`, listing each one the first time it is added.
   */
  function UniqueFrom<T(==,!new)>(a: seq<T>, seen: set<T>): (r: seq<T>)
    ensures NoDuplicates(r)
    ensures forall x :: x in r <==> x in a && x !in seen
  {
    if a == [] then []
    else if a[0] in seen then UniqueFrom(a[1..], seen)
    else [a[0]] + UniqueFrom(a[1..], seen + {a[0]})
  }

  /** `unique(array)`: `[...new Set(array)]`. */
  function Unique<T(==,!new)>(a: seq<T>): (r: seq<T>)
    ensures NoDuplicates(r)
    ensures forall x :: x in r <==> x in a
  {
    UniqueFrom(a, {})
  }

  /**
   * The elements of `r` occur in `a` and come in the order of their first
   * occurrences there.
   */
  ghost predicate InFirstOccurrenceOrder<T>(r: seq<T>, a: seq<T>) {
    && (forall i :: 0 <= i < |r| ==> r[i] in a)
    && (forall i, j :: 0 <= i < j < |r| ==> IndexOf(a, r[i]) < IndexOf(a, r[j]))
  }

  lemma IndexOfTail<T>(a: seq<T>, y: T)
    requires a != [] && y in a[1..] && y != a[0]
    ensures IndexOf(a, y) == 1 + IndexOf(a[1..], y)
  {
  }

  /** An order by first occurrence in `a[1..]` of elements other than `a[0]` is one in `a`. */
  lemma OrderSkip<T>(a: seq<T>, r: seq<T>)
    requires a != [] && a[0] !in r && InFirstOccurrenceOrder(r, a[1..])
    ensures InFirstOccurrenceOrder(r, a)
  {
    forall i | 0 <= i < |r|
      ensures IndexOf(a, r[i]) == 1 + IndexOf(a[1..], r[i])
    {
      IndexOfTail(a, r[i]);
    }
  }

  /** ... and so is that order with `a[0]` put in front. */
  lemma OrderCons<T>(a: seq<T>, r: seq<T>)
    requires a != [] && a[0] !in r && InFirstOccurrenceOrder(r, a[1..])
    ensures InFirstOccurrenceOrder([a[0]] + r, a)
  {
    OrderSkip(a, r);
    var r' := [a[0]] + r;
    forall i, j | 0 <= i < j < |r'|
      ensures IndexOf(a, r'[i]) < IndexOf(a, r'[j])
    {
      assert r'[j] == r[j - 1];
      if i > 0 {
        assert r'[i] == r[i - 1];
      }
    }
  }

  lemma {:induction false} UniqueFromOrder<T(!new)>(a: seq<T>, seen: set<T>)
    ensures InFirstOccurrenceOrder(UniqueFrom(a, seen), a)
  {
    if a != [] {
      var seen' := if a[0] in seen then seen else seen + {a[0]};
      UniqueFromOrder(a[1..], seen');
      if a[0] in seen {
        OrderSkip(a, UniqueFrom(a[1..], seen'));
      } else {
        OrderCons(a, UniqueFrom(a[1..], seen'));
      }
    }
  }

  /** The distinct elements come out in the order of their first occurrences. */
  lemma UniqueOrder<T(!new)>(a: seq<T>)
    ensures InFirstOccurrenceOrder(Unique(a), a)
  {
    UniqueFromOrder(a, {});
  }

  /** Repeated elements are kept at their first occurrence: [1, 2, 2, 3, 1] gives [1, 2, 3]. */
  lemma UniqueExample()
    ensures Unique([1, 2, 2, 3, 1]) == [1, 2, 3]
  {
    UniqueExampleTail();
    assert [1, 2, 2, 3, 1][1..] == [2, 2, 3, 1];
    var empty: set<int> := {};
    assert empty + {1} == {1};
  }

  lemma UniqueExampleTail()
    ensures UniqueFrom([2, 2, 3, 1], {1}) == [2, 3]
  {
    UniqueExampleLast();
    assert [2, 2, 3, 1][1..] == [2, 3, 1];
    assert [2, 3, 1][1..] == [3, 1];
    assert {1} + {2} == {1, 2};
  }

  lemma UniqueExampleLast()
    ensures UniqueFrom([3, 1], {1, 2}) == [3]
  {
    assert [3, 1][1..] == [1];
    assert [1][1..] == [];
    assert {1, 2} + {3} == {1, 2, 3};
  }

  lemma {:induction false} UniqueFromAppend<T(!new)>(a: seq<T>, x: T, seen: set<T>)
    ensures UniqueFrom(a + [x], seen) ==
      UniqueFrom(a, seen) + (if x in seen || x in a then [] else [x])
  {
    if a == [] {
      assert [x][1..] == [];
    } else {
      assert (a + [x])[0] == a[0];
      assert (a + [x])[1..] == a[1..] + [x];
      var seen' := if a[0] in seen then seen else seen + {a[0]};
      UniqueFromAppend(a[1..], x, seen');
    }
  }

  // ---------------------------------------------------------------------
  // groupBy

  /** An array element of `groupBy`: an object with string-valued fields. */
  type Item = map<string, string>

  /**
   * `item[key]` as an object key. A field of the element's own gives its
   * value; otherwise a key naming a member of `Object.prototype` reads
   * that member, and any other missing field reads as `undefined`. A
   * label naming such a member can only come from an own field.
   */
  function Label(item: Item, key: string): (r: string)
    ensures key in item ==> r == item[key]
    ensures r in InheritedKeys ==> key in item
  {
    if key in item then item[key]
    else if key in InheritedKeys then InheritedText(key)
    else "undefined"
  }

  function Labels(items: seq<Item>, key: string): (r: seq<string>)
    ensures |r| == |items| && forall i :: 0 <= i < |items| ==> r[i] == Label(items[i], key)
  {
    if items == [] then []
    else Labels(items[..|items| - 1], key) + [Label(items[|items| - 1], key)]
  }

  /** The elements whose label is `g`, in source order. */
  function Members(items: seq<Item>, key: string, g: string): (r: seq<Item>)
    ensures |r| <= |items|
    ensures forall x :: x in r ==> x in items && Label(x, key) == g
  {
    if items == [] then []
    else
      var last := items[|items| - 1];
      Members(items[..|items| - 1], key, g) + (if Label(last, key) == g then [last] else [])
  }

  lemma MembersStep(items: seq<Item>, key: string, i: nat, g: string)
    requires i < |items|
    ensures Members(items[..i + 1], key, g) ==
      Members(items[..i], key, g) + (if Label(items[i], key) == g then [items[i]] else [])
  {
    assert items[..i + 1][..i] == items[..i];
  }

  /** The labels of the elements, as a set. */
  ghost function LabelSet(items: seq<Item>, key: string): set<string> {
    if items == [] then {}
    else LabelSet(items[..|items| - 1], key) + {Label(items[|items| - 1], key)}
  }

  lemma LabelSetStep(items: seq<Item>, key: string, i: nat)
    requires i < |items|
    ensures LabelSet(items[..i + 1], key) == LabelSet(items[..i], key) + {Label(items[i], key)}
  {
    assert items[..i + 1][..i] == items[..i];
  }

  /** The label set holds exactly the labels of the elements. */
  lemma {:induction false} LabelSetLabels(items: seq<Item>, key: string)
    ensures forall g :: g in LabelSet(items, key) <==> g in Labels(items, key)
  {
    if items != [] {
      var n := |items|;
      LabelSetLabels(items[..n - 1], key);
      assert Labels(items, key) == Labels(items[..n - 1], key) + [Label(items[n - 1], key)];
    }
  }

  /**
   * `groups` is what `groupBy` has built from the first `i` elements: one
   * group per label seen so far, holding the elements with that label.
   */
  ghost predicate GroupedUpTo(items: seq<Item>, key: string, i: nat, groups: map<string, seq<Item>>)
    requires i <= |items|
  {
    && groups.Keys == LabelSet(items[..i], key)
    && (forall g :: g in groups ==> groups[g] == Members(items[..i], key, g))
    && (forall g :: g !in groups ==> Members(items[..i], key, g) == [])
  }

  /** Appending element `i` to the group of its label extends the grouping by one element. */
  lemma GroupedStep(items: seq<Item>, key: string, i: nat, groups: map<string, seq<Item>>)
    requires i < |items| && GroupedUpTo(items, key, i, groups)
    ensures var g := Label(items[i], key);
      var members := if g in groups then groups[g] else [];
      GroupedUpTo(items, key, i + 1, groups[g := members + [items[i]]])
  {
    var g := Label(items[i], key);
    var members := if g in groups then groups[g] else [];
    var groups' := groups[g := members + [items[i]]];
    LabelSetStep(items, key, i);
    assert groups'.Keys == LabelSet(items[..i + 1], key);
    forall h | h in groups'
      ensures groups'[h] == Members(items[..i + 1], key, h)
    {
      MembersStep(items, key, i, h);
    }
    forall h | h !in groups'
      ensures Members(items[..i + 1], key, h) == []
    {
      MembersStep(items, key, i, h);
    }
  }

  /**
   * `groupBy(array, key)`: a map from each label to the elements carrying
   * it, in source order. A label that names a member every object
   * inherits (`toString`, `constructor`, `__proto__`, ...) makes
   * `result[group]` truthy before any group was made, and the call to
   * its `push` throws a `TypeError`.
   */
  method GroupBy(items: seq<Item>, key: string) returns (r: Result<map<string, seq<Item>>>)
    ensures r.Ok? <==> LabelSet(items, key) !! InheritedKeys
    ensures r.Ok? ==> r.value.Keys == LabelSet(items, key)
    ensures r.Ok? ==> forall g :: g in r.value ==> r.value[g] == Members(items, key, g)
  {
    var groups: map<string, seq<Item>> := map[];
    var i := 0;
    while i < |items|
      invariant 0 <= i <= |items|
      invariant LabelSet(items[..i], key) !! InheritedKeys
      invariant GroupedUpTo(items, key, i, groups)
    {
      var group := Label(items[i], key);
      if group in InheritedKeys {
        LabelSetLabels(items, key);
        assert Labels(items, key)[i] == group;
        return TypeError("result[group].push is not a function");
      }
      var members := if group in groups then groups[group] else [];
      GroupedStep(items, key, i, groups);
      groups := groups[group := members + [items[i]]];
      i := i + 1;
    }
    assert items[..i] == items;
    return Ok(groups);
  }

  /** Every element sits in the group of its own label. */
  lemma {:induction false} MembersContains(items: seq<Item>, key: string, i: nat)
    requires i < |items|
    ensures items[i] in Members(items, key, Label(items[i], key))
  {
    var n := |items|;
    var g := Label(items[i], key);
    var last := items[n - 1];
    var front := Members(items[..n - 1], key, g);
    assert Members(items, key, g) == front + (if Label(last, key) == g then [last] else []);
    if i < n - 1 {
      assert items[..n - 1][i] == items[i];
      MembersContains(items[..n - 1], key, i);
      assert items[i] in front;
    }
  }

  /** The total size of the groups named in `labels`. */
  function SizeSum(labels: seq<string>, items: seq<Item>, key: string): nat {
    if labels == [] then 0
    else SizeSum(labels[..|labels| - 1], items, key) + |Members(items, key, labels[|labels| - 1])|
  }

  lemma {:induction false} MembersOfAbsentLabel(items: seq<Item>, key: string, g: string)
    requires g !in Labels(items, key)
    ensures Members(items, key, g) == []
  {
    if items != [] {
      var n := |items|;
      assert Labels(items[..n - 1], key) == Labels(items, key)[..n - 1];
      MembersOfAbsentLabel(items[..n - 1], key, g);
    }
  }

  lemma MembersAppend(items: seq<Item>, x: Item, key: string, g: string)
    ensures Members(items + [x], key, g) ==
      Members(items, key, g) + (if Label(x, key) == g then [x] else [])
  {
    assert (items + [x])[..|items|] == items;
  }

  lemma {:induction false} SizeSumStep(labels: seq<string>, items: seq<Item>, x: Item, key: string)
    requires NoDuplicates(labels)
    ensures SizeSum(labels, items + [x], key) ==
      SizeSum(labels, items, key) + (if Label(x, key) in labels then 1 else 0)
  {
    if labels != [] {
      var n := |labels|;
      var init := labels[..n - 1];
      assert labels == init + [labels[n - 1]];
      SizeSumStep(init, items, x, key);
      MembersAppend(items, x, key, labels[n - 1]);
      if Label(x, key) == labels[n - 1] {
        assert Label(x, key) !in init;
      }
    }
  }

  /**
   * The groups, one per distinct label, together hold every element once:
   * their sizes add up to the length of the array.
   */
  lemma {:induction false} GroupSizesSum(items: seq<Item>, key: string)
    ensures SizeSum(Unique(Labels(items, key)), items, key) == |items|
  {
    if items != [] {
      var n := |items|;
      var init := items[..n - 1];
      assert items == init + [items[n - 1]];
      GroupSizesSum(init, key);
      GroupSizesStep(init, items[n - 1], key);
    }
  }

  /** One more element adds one to the total of the group sizes. */
  lemma GroupSizesStep(init: seq<Item>, x: Item, key: string)
    ensures SizeSum(Unique(Labels(init + [x], key)), init + [x], key) ==
      SizeSum(Unique(Labels(init, key)), init, key) + 1
  {
    var items := init + [x];
    var l := Label(x, key);
    var labels := Labels(init, key);
    assert items[..|init|] == init;
    assert Labels(items, key) == labels + [l];
    UniqueFromAppend(labels, l, {});
    var u := Unique(labels);
    SizeSumStep(u, init, x, key);
    if l in labels {
      assert Unique(Labels(items, key)) == u;
    } else {
      assert Unique(Labels(items, key)) == u + [l];
      assert (u + [l])[..|u|] == u;
      MembersOfAbsentLabel(init, key, l);
      MembersAppend(init, x, key, l);
    }
  }

  // ---------------------------------------------------------------------
  // omit and pick

  /** `omit(obj, keys)`: a copy of `obj` from which each of `keys` is deleted. */
  method Omit<V>(obj: map<string, V>, keys: seq<string>) returns (r: map<string, V>)
    ensures r.Keys == obj.Keys - set k | k in keys
    ensures forall k :: k in r ==> r[k] == obj[k]
  {
    r := obj;
    for i := 0 to |keys|
      invariant r.Keys == obj.Keys - set j | 0 <= j < i :: keys[j]
      invariant forall k :: k in r ==> k in obj && r[k] == obj[k]
    {
      r := r - {keys[i]};
    }
  }

  /** `pick(obj, keys)`: the fields of `obj` named in `keys` that `obj` has. */
  method Pick<V>(obj: map<string, V>, keys: seq<string>) returns (r: map<string, V>)
    ensures r.Keys == obj.Keys * set k | k in keys
    ensures forall k :: k in r ==> r[k] == obj[k]
  {
    r := map[];
    for i := 0 to |keys|
      invariant r.Keys == obj.Keys * set j | 0 <= j < i :: keys[j]
      invariant forall k :: k in r ==> k in obj && r[k] == obj[k]
    {
      if keys[i] in obj {
        r := r[keys[i] := obj[keys[i]]];
      }
    }
  }
}
