/**
 * `GetChildKeys`: one level of the key hierarchy, computed from a snapshot of
 * the stored keys, the keys earlier configuration layers contributed, and a
 * parent path. Keys are paths whose segments are separated by ':'.
 */
module Hierarchy {
  import opened Options
  import opened Sorting

  const Delimiter: char := ':'

  /** `string.IsNullOrEmpty`: the root of the hierarchy. */
  predicate IsNullOrEmpty(path: Option<string>): (r: bool)
    ensures path.None? ==> r
    ensures !r ==> path.Some? && |path.value| > 0
  {
    path.None? || path.value == ""
  }

  /**
   * `s.StartsWith(prefix, StringComparison.OrdinalIgnoreCase)`: character by
   * character comparison after the per-character case fold `fold`. An exact
   * prefix always matches, whatever the fold.
   */
  predicate StartsWithIgnoreCase(s: string, prefix: string, fold: char -> char): (r: bool)
    ensures r ==> |prefix| <= |s|
    ensures prefix <= s ==> r
  {
    |prefix| <= |s| && forall i :: 0 <= i < |prefix| ==> fold(s[i]) == fold(prefix[i])
  }

  /** No other character folds to the same character as the delimiter. */
  ghost predicate DelimiterFoldsAlone(fold: char -> char) {
    forall c :: fold(c) == fold(Delimiter) ==> c == Delimiter
  }

  /** The key lies under `parentPath`: it starts with `parentPath + ":"`, ignoring case. */
  predicate IsChildOf(key: string, parentPath: string, fold: char -> char): (r: bool)
    ensures r ==> |parentPath| < |key|
    ensures parentPath + [Delimiter] <= key ==> r
  {
    StartsWithIgnoreCase(key, parentPath + [Delimiter], fold)
  }

  /** `s.Split(':')[0]`: the text before the first delimiter, or all of `s`. */
  function FirstSegment(s: string): (r: string)
    ensures r <= s
    ensures Delimiter !in r
    ensures |r| < |s| ==> s[|r|] == Delimiter
  {
    if s == [] || s[0] == Delimiter then []
    else
      assert s == [s[0]] + s[1..];
      [s[0]] + FirstSegment(s[1..])
  }

  /** The first segment ends at the first delimiter, or at the end of the text if it has none. */
  lemma FirstSegmentEndsAtFirstDelimiter(s: string, n: nat)
    requires n <= |s| && Delimiter !in s[..n]
    requires n == |s| || s[n] == Delimiter
    ensures FirstSegment(s) == s[..n]
  {
  }

  /**
   * `key.Substring(parentPath.Length + 1).Split(':')[0]`: the text that follows
   * the prefix `parentPath + ":"` of `key`, up to the next delimiter or the end.
   */
  function ChildSegment(key: string, parentPath: string): (r: string)
    requires |parentPath| < |key|
    ensures Delimiter !in r
    ensures |parentPath| + 1 + |r| <= |key| && key[|parentPath| + 1..|parentPath| + 1 + |r|] == r
    ensures |parentPath| + 1 + |r| < |key| ==> key[|parentPath| + 1 + |r|] == Delimiter
  {
    FirstSegment(key[|parentPath| + 1..])
  }

  /**
   * `Where(k => StartsWith(parentPath + ":")).Select(Substring).Select(Split[0])`
   * over an enumeration of the keys.
   */
  function ChildSegments(keys: seq<string>, parentPath: string, fold: char -> char): (r: seq<string>)
    ensures |r| <= |keys|
    ensures forall i :: 0 <= i < |r| ==> Delimiter !in r[i]
  {
    if keys == [] then []
    else
      (if IsChildOf(keys[0], parentPath, fold) then [ChildSegment(keys[0], parentPath)] else [])
      + ChildSegments(keys[1..], parentPath, fold)
  }

  /** The set of immediate child segments under `parentPath` among `keys`. */
  ghost function ChildSegmentsOf(keys: set<string>, parentPath: string, fold: char -> char): set<string> {
    set k | k in keys && IsChildOf(k, parentPath, fold) :: ChildSegment(k, parentPath)
  }

  /** The set of the elements of `s`. */
  ghost function Elements<T>(s: seq<T>): set<T> {
    set x | x in s
  }

  ghost predicate NoDuplicates<T>(s: seq<T>) {
    forall i, j :: 0 <= i < j < |s| ==> s[i] != s[j]
  }

  /** The position of the first occurrence of `x` in `s`. */
  function FirstIndex<T(==)>(s: seq<T>, x: T): (i: nat)
    requires x in s
    ensures i < |s| && s[i] == x && x !in s[..i]
  {
    if s[0] == x then 0
    else
      assert s == [s[0]] + s[1..];
      var i := 1 + FirstIndex(s[1..], x);
      assert s[..i] == [s[0]] + s[1..][..i - 1];
      i
  }

  /**
   * LINQ `Distinct()`: every element once, in the order of its first
   * occurrence; together these determine the result.
   */
  function Distinct<T(==,!new)>(s: seq<T>): (r: seq<T>)
    ensures forall x :: x in r <==> x in s
    ensures NoDuplicates(r)
    ensures |r| <= |s|
    ensures forall i, j :: 0 <= i < j < |r| ==> FirstIndex(s, r[i]) < FirstIndex(s, r[j])
  {
    if s == [] then []
    else if s[|s| - 1] in s[..|s| - 1] then Distinct(s[..|s| - 1])
    else
      assert s == s[..|s| - 1] + [s[|s| - 1]];
      FirstIndexInPrefix(s, |s| - 1);
      Distinct(s[..|s| - 1]) + [s[|s| - 1]]
  }

  /** Elements of a prefix of `s` first occur in `s` where they first occur in the prefix. */
  lemma FirstIndexInPrefix<T>(s: seq<T>, n: nat)
    requires n <= |s|
    ensures forall x :: x in s[..n] ==> FirstIndex(s, x) == FirstIndex(s[..n], x)
    ensures forall x :: x in s && x !in s[..n] ==> FirstIndex(s, x) >= n
  {
  }

  /** `GetChildKeys(earlierKeys, parentPath)` over the key enumeration `keys`. */
  function ChildKeys(earlierKeys: seq<string>, keys: seq<string>, parentPath: Option<string>,
                     le: (string, string) -> bool, fold: char -> char): (r: seq<string>)
    ensures IsNullOrEmpty(parentPath) ==> multiset(r) == multiset(earlierKeys) + multiset(keys)
    ensures !IsNullOrEmpty(parentPath) ==> |r| <= |earlierKeys| + |keys|
    ensures !IsNullOrEmpty(parentPath) ==> forall x :: x in r && x !in earlierKeys ==> Delimiter !in x
  {
    if IsNullOrEmpty(parentPath) then SortBy(le, earlierKeys + keys)
    else
      var children := Distinct(ChildSegments(keys, parentPath.value, fold));
      var r := SortBy(le, earlierKeys + children);
      assert forall x :: x in r ==> x in earlierKeys + children by {
        forall x | x in r ensures x in earlierKeys + children {
          assert x in multiset(r);
        }
      }
      r
  }

  // ---------------------------------------------------------------------------
  // Child segments

  /** A segment is produced exactly when some key under `parentPath` has it. */
  lemma {:induction false} ChildSegmentsExact(keys: seq<string>, parentPath: string, fold: char -> char)
    ensures forall c :: c in ChildSegments(keys, parentPath, fold)
                     <==> c in ChildSegmentsOf(Elements(keys), parentPath, fold)
  {
    if keys != [] {
      ChildSegmentsExact(keys[1..], parentPath, fold);
      assert Elements(keys) == {keys[0]} + Elements(keys[1..]);
    }
  }

  /** Child segments never contain the delimiter: only the immediate level is listed. */
  lemma ChildSegmentIsOneLevel(keys: set<string>, parentPath: string, fold: char -> char)
    ensures forall c :: c in ChildSegmentsOf(keys, parentPath, fold) ==> Delimiter !in c
  {
  }

  /** A key equal to the parent path is not below it. */
  lemma ParentIsNotItsOwnChild(parentPath: string, fold: char -> char)
    ensures !IsChildOf(parentPath, parentPath, fold)
  {
  }

  /**
   * Prefix boundary: a key whose character after the parent path is not the
   * delimiter (like "database" under "data") is not below it.
   */
  lemma PrefixBoundary(key: string, parentPath: string, fold: char -> char)
    requires DelimiterFoldsAlone(fold)
    ensures IsChildOf(key, parentPath, fold) <==>
              |parentPath| < |key| && key[|parentPath|] == Delimiter
              && StartsWithIgnoreCase(key, parentPath, fold)
  {
  }

  /**
   * The parent path matches ignoring case: two parent paths that agree after
   * folding select the same keys, and the same child segments from them.
   */
  lemma ParentPathIgnoresCase(key: string, parentPath: string, other: string, fold: char -> char)
    requires |parentPath| == |other|
    requires forall i :: 0 <= i < |parentPath| ==> fold(parentPath[i]) == fold(other[i])
    ensures IsChildOf(key, parentPath, fold) <==> IsChildOf(key, other, fold)
    ensures IsChildOf(key, parentPath, fold) ==> ChildSegment(key, parentPath) == ChildSegment(key, other)
  {
  }

  /** A key that is not below the parent path adds no child segment. */
  lemma NonChildAddsNothing(keys: set<string>, key: string, parentPath: string, fold: char -> char)
    requires !IsChildOf(key, parentPath, fold)
    ensures ChildSegmentsOf(keys + {key}, parentPath, fold) == ChildSegmentsOf(keys, parentPath, fold)
  {
  }

  /** Empty child segments are kept: "db:" and "db::x" under "db" both yield "". */
  lemma EmptySegmentKept(key: string, parentPath: string, fold: char -> char)
    requires IsChildOf(key, parentPath, fold)
    requires |key| == |parentPath| + 1 || key[|parentPath| + 1] == Delimiter
    ensures "" in ChildSegmentsOf({key}, parentPath, fold)
  {
  }

  // ---------------------------------------------------------------------------
  // Distinct

  /** Deduplication leaves a sequence without repeats as it is. */
  lemma {:induction false} DistinctOfDistinct<T(!new)>(s: seq<T>)
    requires NoDuplicates(s)
    ensures Distinct(s) == s
  {
    if s != [] {
      var init := s[..|s| - 1];
      assert s[|s| - 1] !in init by {
        forall i | 0 <= i < |init| ensures init[i] != s[|s| - 1] {
          assert init[i] == s[i];
        }
      }
      DistinctOfDistinct(init);
      assert s == init + [s[|s| - 1]];
    }
  }

  /** A sequence without repeats holds each element of its set once. */
  lemma {:induction false} NoDuplicatesMultiset<T>(s: seq<T>)
    requires NoDuplicates(s)
    ensures multiset(s) == multiset(Elements(s))
  {
    if s != [] {
      var t := s[1..];
      assert NoDuplicates(t) by {
        forall i, j | 0 <= i < j < |t| ensures t[i] != t[j] {
          assert t[i] == s[i + 1] && t[j] == s[j + 1];
        }
      }
      NoDuplicatesMultiset(t);
      assert s[0] !in t by {
        forall i | 0 <= i < |t| ensures t[i] != s[0] {
          assert t[i] == s[i + 1];
        }
      }
      assert s == [s[0]] + t;
      assert Elements(s) == {s[0]} + Elements(t);
      assert s[0] !in Elements(t);
    }
  }

  // ---------------------------------------------------------------------------
  // GetChildKeys

  /**
   * Root: the earlier keys and every stored key, full keys, not split and not
   * deduplicated, as a stable sort.
   */
  lemma RootChildKeys(earlierKeys: seq<string>, keys: seq<string>, parentPath: Option<string>,
                      le: (string, string) -> bool, fold: char -> char)
    requires IsNullOrEmpty(parentPath) && TotalPreorder(le)
    ensures var r := ChildKeys(earlierKeys, keys, parentPath, le, fold);
      && SortedBy(le, r)
      && multiset(r) == multiset(earlierKeys) + multiset(keys)
      && forall y :: TiedWith(le, y, r) == TiedWith(le, y, earlierKeys + keys)
  {
    SortBySorted(le, earlierKeys + keys);
    forall y ensures TiedWith(le, y, SortBy(le, earlierKeys + keys)) == TiedWith(le, y, earlierKeys + keys) {
      SortByStable(le, y, earlierKeys + keys);
    }
  }

  /**
   * Below the root: the earlier keys and each distinct immediate child segment
   * of the stored keys under `parentPath`, once, as a stable sort.
   */
  lemma NestedChildKeys(earlierKeys: seq<string>, keys: seq<string>, parentPath: Option<string>,
                        le: (string, string) -> bool, fold: char -> char)
    requires !IsNullOrEmpty(parentPath) && TotalPreorder(le)
    ensures var r := ChildKeys(earlierKeys, keys, parentPath, le, fold);
      && SortedBy(le, r)
      && multiset(r) == multiset(earlierKeys)
                        + multiset(ChildSegmentsOf(Elements(keys), parentPath.value, fold))
  {
    var children := Distinct(ChildSegments(keys, parentPath.value, fold));
    SortBySorted(le, earlierKeys + children);
    NoDuplicatesMultiset(children);
    ChildSegmentsExact(keys, parentPath.value, fold);
    assert Elements(children) == ChildSegmentsOf(Elements(keys), parentPath.value, fold);
  }
}
