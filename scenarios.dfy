/**
 * One concrete comparer and case fold, and the enumerations they give on
 * small key sets: ordinal order by character (code point) and an ASCII upper-case fold.
 */
module Scenarios {
  import opened Options
  import opened Sorting
  import opened Hierarchy

  /** Ordinal string order: lexicographic by character (code point), a prefix first. */
  predicate OrdinalLe(a: string, b: string) {
    a == [] || (b != [] && (a[0] < b[0] || (a[0] == b[0] && OrdinalLe(a[1..], b[1..]))))
  }

  /** Upper-casing of the ASCII letters; every other character is left alone. */
  function AsciiUpper(c: char): char {
    if 'a' <= c <= 'z' then (c as int - 32) as char else c
  }

  lemma {:induction false} OrdinalTotal(a: string, b: string)
    ensures OrdinalLe(a, b) || OrdinalLe(b, a)
  {
    if a != [] && b != [] && a[0] == b[0] {
      OrdinalTotal(a[1..], b[1..]);
    }
  }

  lemma {:induction false} OrdinalTransitive(a: string, b: string, c: string)
    requires OrdinalLe(a, b) && OrdinalLe(b, c)
    ensures OrdinalLe(a, c)
  {
    if a != [] && a[0] == b[0] && b[0] == c[0] {
      OrdinalTransitive(a[1..], b[1..], c[1..]);
    }
  }

  /** Two strings that agree up to position `n` are ordered by their characters (code points) there. */
  lemma {:induction false} OrdinalFirstDifference(a: string, b: string, n: nat)
    requires n < |a| && n < |b| && a[..n] == b[..n] && a[n] < b[n]
    ensures OrdinalLe(a, b)
  {
    if n > 0 {
      assert a[0] == a[..n][0] && b[0] == b[..n][0];
      assert a[1..][..n - 1] == a[..n][1..] && b[1..][..n - 1] == b[..n][1..];
      OrdinalFirstDifference(a[1..], b[1..], n - 1);
    }
  }

  /** Ordinal order is a total preorder, so the sorting lemmas apply to it. */
  lemma OrdinalIsTotalPreorder()
    ensures TotalPreorder(OrdinalLe)
  {
    forall a, b ensures OrdinalLe(a, b) || OrdinalLe(b, a) {
      OrdinalTotal(a, b);
    }
    forall a, b, c | OrdinalLe(a, b) && OrdinalLe(b, c) ensures OrdinalLe(a, c) {
      OrdinalTransitive(a, b, c);
    }
  }

  /** The ASCII fold sends no character but ':' to ':'. */
  lemma AsciiUpperFoldsDelimiterAlone()
    ensures DelimiterFoldsAlone(AsciiUpper)
  {
  }

  /** The child segment of one key under "db", given where its first segment ends. */
  lemma SegmentUnderDb(key: string, n: nat)
    requires |key| > 3 && key[..3] == "db:"
    requires 3 + n <= |key| && Delimiter !in key[3..3 + n]
    requires 3 + n == |key| || key[3 + n] == Delimiter
    ensures IsChildOf(key, "db", AsciiUpper)
    ensures ChildSegment(key, "db") == key[3..3 + n]
  {
  }

  lemma DatabaseSegments()
    ensures ChildSegments(["db:host", "db:port", "db:creds:user"], "db", AsciiUpper) == ["host", "port", "creds"]
  {
    var all: seq<string> := ["db:host", "db:port", "db:creds:user"];
    SegmentUnderDb(all[0], 4);
    SegmentUnderDb(all[1], 4);
    SegmentUnderDb(all[2], 5);
    assert all[0][3..7] == "host" && all[1][3..7] == "port" && all[2][3..8] == "creds";
    var middle, last := all[1..], all[2..];
    assert last[0] == all[2] && middle[0] == all[1];
    assert middle[1..] == last && last[1..] == [];
    assert ChildSegments(last, "db", AsciiUpper) == ["creds"];
    assert ChildSegments(middle, "db", AsciiUpper) == ["port"] + ChildSegments(last, "db", AsciiUpper);
    assert ChildSegments(all, "db", AsciiUpper) == ["host"] + ChildSegments(middle, "db", AsciiUpper);
  }

  lemma DatabaseOrder()
    ensures SortBy(OrdinalLe, ["host", "port", "creds"]) == ["creds", "host", "port"]
  {
    assert Insert(OrdinalLe, "creds", []) == ["creds"];
    assert Insert(OrdinalLe, "port", ["creds"]) == ["creds", "port"];
    assert Insert(OrdinalLe, "host", ["creds", "port"]) == ["creds", "host", "port"];
    assert SortBy(OrdinalLe, ["creds"]) == ["creds"];
  }

  lemma DatabaseSelection()
    ensures ChildKeys([], ["db:host", "db:port", "db:creds:user"], Some("db"), OrdinalLe, AsciiUpper)
         == SortBy(OrdinalLe, Distinct(["host", "port", "creds"]))
  {
    DatabaseSegments();
    var earlier: seq<string> := [];
    assert earlier + Distinct(["host", "port", "creds"]) == Distinct(["host", "port", "creds"]);
  }

  lemma DatabaseOrdering()
    ensures SortBy(OrdinalLe, Distinct(["host", "port", "creds"])) == ["creds", "host", "port"]
  {
    DistinctOfDistinct(["host", "port", "creds"]);
    DatabaseOrder();
  }

  /** Under "db", the keys "db:host", "db:port" and "db:creds:user" give "creds", "host", "port". */
  lemma DatabaseChildren()
    ensures ChildKeys([], ["db:host", "db:port", "db:creds:user"], Some("db"), OrdinalLe, AsciiUpper)
         == ["creds", "host", "port"]
  {
    DatabaseSelection();
    DatabaseOrdering();
  }

  lemma DataSegments()
    ensures ChildSegments(["database", "data:x"], "data", AsciiUpper) == ["x"]
  {
    var keys: seq<string> := ["database", "data:x"];
    assert !IsChildOf(keys[0], "data", AsciiUpper) by {
      assert AsciiUpper(keys[0][4]) != AsciiUpper(("data" + [Delimiter])[4]);
    }
    assert IsChildOf(keys[1], "data", AsciiUpper) by {
      assert "data" + [Delimiter] == keys[1][..5];
    }
    FirstSegmentEndsAtFirstDelimiter(keys[1][5..], 1);
    assert keys[1][5..] == "x";
    assert ChildSegment(keys[1], "data") == "x";
    var rest := keys[1..];
    assert rest[0] == keys[1] && rest[1..] == [];
    assert ChildSegments(rest, "data", AsciiUpper) == ["x"];
  }

  /** Prefix boundary: under "data", "database" is not a child, "data:x" gives "x". */
  lemma DataChildren()
    ensures ChildKeys([], ["database", "data:x"], Some("data"), OrdinalLe, AsciiUpper) == ["x"]
  {
    DataSegments();
    var earlier: seq<string> := [];
    assert earlier + Distinct(["x"]) == ["x"];
  }

  lemma RootKeysOrder()
    ensures SortBy(OrdinalLe, ["db:host", "db:port"]) == ["db:host", "db:port"]
  {
    OrdinalFirstDifference("db:host", "db:port", 3);
  }

  lemma RootOrder()
    ensures SortBy(OrdinalLe, ["zeta", "db:host", "db:port"]) == ["db:host", "db:port", "zeta"]
  {
    RootKeysOrder();
    var one: seq<string> := ["db:port"];
    var two: seq<string> := ["db:host", "db:port"];
    var all: seq<string> := ["zeta", "db:host", "db:port"];
    assert one[1..] == [] && two[1..] == one && all[1..] == two;
    assert Insert(OrdinalLe, "zeta", one) == ["db:port", "zeta"];
    assert Insert(OrdinalLe, "zeta", two) == ["db:host", "db:port", "zeta"];
  }

  /** At the root, stored keys are listed whole, merged with the earlier layers' keys. */
  lemma RootListing()
    ensures ChildKeys(["zeta"], ["db:host", "db:port"], None, OrdinalLe, AsciiUpper)
         == ["db:host", "db:port", "zeta"]
  {
    RootOrder();
    assert ["zeta"] + ["db:host", "db:port"] == ["zeta", "db:host", "db:port"];
  }
}
