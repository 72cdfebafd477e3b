/**
 * The ordering step of the child-key enumeration: LINQ's `OrderBy(k => k)`,
 * a stable sort under the comparer of the element type. The comparer is not
 * fixed here; it is any total preorder `le` ("orders before or ties with").
 */
module Sorting {

  /** Any two elements compare, and comparison is transitive; ties are allowed. */
  ghost predicate TotalPreorder<T(!new)>(le: (T, T) -> bool) {
    && (forall a, b :: le(a, b) || le(b, a))
    && (forall a, b, c :: le(a, b) && le(b, c) ==> le(a, c))
  }

  ghost predicate SortedBy<T>(le: (T, T) -> bool, s: seq<T>) {
    forall i, j :: 0 <= i < j < |s| ==> le(s[i], s[j])
  }

  /** `a` and `b` tie: the comparer orders neither strictly before the other. */
  predicate Tied<T>(le: (T, T) -> bool, a: T, b: T) {
    le(a, b) && le(b, a)
  }

  /** The elements of `s` that tie with `y`, in their order in `s`. */
  function TiedWith<T>(le: (T, T) -> bool, y: T, s: seq<T>): seq<T> {
    if s == [] then []
    else (if Tied(le, s[0], y) then [s[0]] else []) + TiedWith(le, y, s[1..])
  }

  /** Places `x` in front of the first element of `s` that it orders before or ties with. */
  function Insert<T>(le: (T, T) -> bool, x: T, s: seq<T>): (r: seq<T>)
    ensures multiset(r) == multiset(s) + multiset{x}
  {
    if s == [] || le(x, s[0]) then [x] + s
    else
      assert s == [s[0]] + s[1..];
      [s[0]] + Insert(le, x, s[1..])
  }

  /** `OrderBy(k => k)`: stable insertion sort of `s` under `le`. */
  function SortBy<T>(le: (T, T) -> bool, s: seq<T>): (r: seq<T>)
    ensures multiset(r) == multiset(s)
  {
    if s == [] then []
    else
      assert s == [s[0]] + s[1..];
      Insert(le, s[0], SortBy(le, s[1..]))
  }

  lemma {:induction false} InsertSorted<T(!new)>(le: (T, T) -> bool, x: T, s: seq<T>)
    requires TotalPreorder(le) && SortedBy(le, s)
    ensures SortedBy(le, Insert(le, x, s))
  {
    if s != [] && !le(x, s[0]) {
      var t := Insert(le, x, s[1..]);
      InsertSorted(le, x, s[1..]);
      forall j | 0 <= j < |t| ensures le(s[0], t[j]) {
        assert t[j] in multiset(t);
        if t[j] != x {
          assert t[j] in multiset(s[1..]);
          var i :| 0 <= i < |s[1..]| && s[1..][i] == t[j];
          assert s[i + 1] == t[j];
        }
      }
      var r := [s[0]] + t;
      assert Insert(le, x, s) == r;
      forall i, j | 0 <= i < j < |r| ensures le(r[i], r[j]) {
        if i == 0 {
          assert r[j] == t[j - 1];
        } else {
          assert r[i] == t[i - 1] && r[j] == t[j - 1];
        }
      }
    }
  }

  /** The result of the sort is ordered under `le`. */
  lemma {:induction false} SortBySorted<T(!new)>(le: (T, T) -> bool, s: seq<T>)
    requires TotalPreorder(le)
    ensures SortedBy(le, SortBy(le, s))
  {
    if s != [] {
      SortBySorted(le, s[1..]);
      InsertSorted(le, s[0], SortBy(le, s[1..]));
    }
  }

  lemma {:induction false} TiedWithAppend<T>(le: (T, T) -> bool, y: T, a: seq<T>, b: seq<T>)
    ensures TiedWith(le, y, a + b) == TiedWith(le, y, a) + TiedWith(le, y, b)
  {
    if a == [] {
      assert a + b == b;
    } else {
      assert (a + b)[0] == a[0] && (a + b)[1..] == a[1..] + b;
      TiedWithAppend(le, y, a[1..], b);
    }
  }

  lemma {:induction false} InsertTied<T(!new)>(le: (T, T) -> bool, x: T, y: T, s: seq<T>)
    requires TotalPreorder(le)
    ensures TiedWith(le, y, Insert(le, x, s))
         == (if Tied(le, x, y) then [x] else []) + TiedWith(le, y, s)
  {
    if s == [] || le(x, s[0]) {
      TiedWithAppend(le, y, [x], s);
    } else {
      InsertTied(le, x, y, s[1..]);
      TiedWithAppend(le, y, [s[0]], Insert(le, x, s[1..]));
      if Tied(le, x, y) {
        // s[0] orders strictly before x, so it cannot tie with y, which ties with x
        assert !Tied(le, s[0], y);
      }
    }
  }

  /** The sort is stable: elements that tie keep their relative order. */
  lemma {:induction false} SortByStable<T(!new)>(le: (T, T) -> bool, y: T, s: seq<T>)
    requires TotalPreorder(le)
    ensures TiedWith(le, y, SortBy(le, s)) == TiedWith(le, y, s)
  {
    if s != [] {
      SortByStable(le, y, s[1..]);
      InsertTied(le, s[0], y, SortBy(le, s[1..]));
    }
  }

  lemma {:induction false} TiedWithMember<T(!new)>(le: (T, T) -> bool, y: T, s: seq<T>, x: T)
    ensures x in TiedWith(le, y, s) <==> x in s && Tied(le, x, y)
  {
    if s != [] {
      TiedWithMember(le, y, s[1..], x);
      assert s == [s[0]] + s[1..];
    }
  }

  /**
   * A sequence that is sorted and keeps every group of ties in a given order
   * is determined: `SortBy` is the only stable sort.
   */
  lemma {:induction false} StableSortUnique<T(!new)>(le: (T, T) -> bool, a: seq<T>, b: seq<T>)
    requires TotalPreorder(le)
    requires SortedBy(le, a) && SortedBy(le, b)
    requires forall y :: TiedWith(le, y, a) == TiedWith(le, y, b)
    ensures a == b
  {
    if a == [] || b == [] {
      if a != [] {
        TiedWithMember(le, a[0], a, a[0]);
      } else if b != [] {
        TiedWithMember(le, b[0], b, b[0]);
      }
    } else {
      TiedWithMember(le, b[0], b, b[0]);
      TiedWithMember(le, b[0], a, b[0]);
      TiedWithMember(le, a[0], a, a[0]);
      TiedWithMember(le, a[0], b, a[0]);
      var i :| 0 <= i < |a| && a[i] == b[0];
      var j :| 0 <= j < |b| && b[j] == a[0];
      assert le(a[0], b[0]) && le(b[0], a[0]);
      assert Tied(le, b[0], a[0]);
      assert TiedWith(le, a[0], a)[0] == a[0];
      assert TiedWith(le, a[0], b)[0] == b[0];
      assert a[0] == b[0];
      forall y ensures TiedWith(le, y, a[1..]) == TiedWith(le, y, b[1..]) {
        var head := if Tied(le, a[0], y) then [a[0]] else [];
        assert TiedWith(le, y, a) == head + TiedWith(le, y, a[1..]);
        assert TiedWith(le, y, b) == head + TiedWith(le, y, b[1..]);
        assert TiedWith(le, y, a) == TiedWith(le, y, b);
        assert (head + TiedWith(le, y, a[1..]))[|head|..] == TiedWith(le, y, a[1..]);
        assert (head + TiedWith(le, y, b[1..]))[|head|..] == TiedWith(le, y, b[1..]);
      }
      StableSortUnique(le, a[1..], b[1..]);
      assert a == [a[0]] + a[1..] && b == [b[0]] + b[1..];
    }
  }

  /** `SortBy` is exactly a stable sort: any sorted, stable rearrangement of `s` equals it. */
  lemma SortByIsTheStableSort<T(!new)>(le: (T, T) -> bool, s: seq<T>, r: seq<T>)
    requires TotalPreorder(le)
    requires SortedBy(le, r) && forall y :: TiedWith(le, y, r) == TiedWith(le, y, s)
    ensures r == SortBy(le, s)
  {
    SortBySorted(le, s);
    forall y ensures TiedWith(le, y, r) == TiedWith(le, y, SortBy(le, s)) {
      SortByStable(le, y, s);
    }
    StableSortUnique(le, r, SortBy(le, s));
  }
}
