/**
 Strictly ordered listings of finite sets. An ORDER BY query, a sorted slice of
 map keys and a sorted list of values are all the one listing of a set that
 some strict linear order puts in order.
 */
module Ordering {

  /** `less` is a strict linear order on the elements of S. */
  ghost predicate LinearOn<T(!new)>(less: (T, T) -> bool, S: set<T>) {
    && (forall x :: x in S ==> !less(x, x))
    && (forall x, y :: x in S && y in S && x != y ==> less(x, y) || less(y, x))
    && (forall x, y, z :: x in S && y in S && z in S && less(x, y) && less(y, z) ==> less(x, z))
  }

  ghost predicate Increasing<T(!new)>(less: (T, T) -> bool, s: seq<T>) {
    forall i, j :: 0 <= i < j < |s| ==> less(s[i], s[j])
  }

  /** s lists exactly the elements of S, each once, in the order of `less`. */
  ghost predicate Lists<T(!new)>(less: (T, T) -> bool, S: set<T>, s: seq<T>) {
    && (forall x :: x in s <==> x in S)
    && Increasing(less, s)
  }

  ghost predicate IsLeast<T(!new)>(less: (T, T) -> bool, S: set<T>, m: T) {
    m in S && forall x :: x in S && x != m ==> less(m, x)
  }

  lemma Element<T>(S: set<T>) returns (x: T)
    requires S != {}
    ensures x in S
  {
    x :| x in S;
  }

  lemma LinearOnSubset<T(!new)>(less: (T, T) -> bool, S: set<T>, R: set<T>)
    requires LinearOn(less, S) && R <= S
    ensures LinearOn(less, R)
  {
  }

  lemma {:induction false} LeastExists<T(!new)>(less: (T, T) -> bool, S: set<T>) returns (m: T)
    requires LinearOn(less, S) && S != {}
    ensures IsLeast(less, S, m)
    decreases |S|
  {
    var x :| x in S;
    if S == {x} {
      m := x;
    } else {
      assert S - {x} != {};
      LinearOnSubset(less, S, S - {x});
      m := LeastExists(less, S - {x});
      if less(x, m) { m := x; }
    }
  }

  lemma ListsNothing<T(!new)>(less: (T, T) -> bool, S: set<T>, s: seq<T>)
    requires Lists(less, S, s)
    ensures s == [] <==> S == {}
  {
    if s != [] { assert s[0] in s; }
    if S != {} { var x := Element(S); }
  }

  /** There is only one ordered listing of a set. */
  lemma {:induction false} ListingUnique<T(!new)>(less: (T, T) -> bool, S: set<T>, a: seq<T>, b: seq<T>)
    requires LinearOn(less, S) && Lists(less, S, a) && Lists(less, S, b)
    ensures a == b
    decreases |a|
  {
    if a == [] {
      ListsNothing(less, S, a);
      ListsNothing(less, S, b);
    } else {
      assert a[0] in a && a[0] in b;
      assert b[0] in b && b[0] in a;
      var i :| 0 <= i < |a| && a[i] == b[0];
      var j :| 0 <= j < |b| && b[j] == a[0];
      assert i == 0;
      ListingTail(less, S, a);
      ListingTail(less, S, b);
      LinearOnSubset(less, S, S - {a[0]});
      ListingUnique(less, S - {a[0]}, a[1..], b[1..]);
      assert a == [a[0]] + a[1..] && b == [b[0]] + b[1..];
    }
  }

  lemma ListingTail<T(!new)>(less: (T, T) -> bool, S: set<T>, s: seq<T>)
    requires LinearOn(less, S) && Lists(less, S, s) && s != []
    ensures Lists(less, S - {s[0]}, s[1..])
    ensures IsLeast(less, S, s[0])
  {
    assert s[0] in s;
    forall x ensures x in s[1..] <==> x in S - {s[0]} {
      if x in s[1..] {
        var i :| 0 <= i < |s| - 1 && s[1..][i] == x;
        assert s[i + 1] == x && less(s[0], s[i + 1]);
      }
      if x in S - {s[0]} {
        var i :| 0 <= i < |s| && s[i] == x;
        assert s[1..][i - 1] == x;
      }
    }
    forall x | x in S && x != s[0] ensures less(s[0], x) {
      var i :| 0 <= i < |s| && s[i] == x;
    }
  }

  lemma ListingCons<T(!new)>(less: (T, T) -> bool, S: set<T>, m: T, rest: seq<T>)
    requires LinearOn(less, S) && IsLeast(less, S, m) && Lists(less, S - {m}, rest)
    ensures Lists(less, S, [m] + rest)
  {
    var s := [m] + rest;
    forall i, j | 0 <= i < j < |s| ensures less(s[i], s[j]) {
      assert s[j] == rest[j - 1] && s[j] in rest;
    }
  }

  /** Every finite set on which `less` is linear has an ordered listing. */
  lemma {:induction false} ListingExists<T(!new)>(less: (T, T) -> bool, S: set<T>) returns (s: seq<T>)
    requires LinearOn(less, S)
    ensures Lists(less, S, s)
    decreases |S|
  {
    if S == {} {
      s := [];
    } else {
      var m := LeastExists(less, S);
      LinearOnSubset(less, S, S - {m});
      var rest := ListingExists(less, S - {m});
      ListingCons(less, S, m, rest);
      s := [m] + rest;
    }
  }

  lemma HasListing<T(!new)>(less: (T, T) -> bool, S: set<T>)
    requires LinearOn(less, S)
    ensures exists s :: Lists(less, S, s)
  {
    var s := ListingExists(less, S);
  }

  /** The ordered listing itself. */
  ghost function Listing<T(!new)>(less: (T, T) -> bool, S: set<T>): (s: seq<T>)
    requires LinearOn(less, S)
    ensures Lists(less, S, s)
  {
    HasListing(less, S);
    var s :| Lists(less, S, s);
    s
  }

  lemma ListingIs<T(!new)>(less: (T, T) -> bool, S: set<T>, s: seq<T>)
    requires LinearOn(less, S) && Lists(less, S, s)
    ensures Listing(less, S) == s
  {
    ListingUnique(less, S, Listing(less, S), s);
  }

  /** Sorts the elements of a set; stands for the library sorts and ORDER BY queries of the sources. */
  method SortSet<T(!new, ==)>(less: (T, T) -> bool, S: set<T>) returns (s: seq<T>)
    requires LinearOn(less, S)
    ensures Lists(less, S, s) && s == Listing(less, S)
  {
    s := [];
    var left := S;
    while left != {}
      invariant left <= S
      invariant forall x :: x in s <==> x in S - left
      invariant Increasing(less, s)
      invariant forall x, y :: x in s && y in left ==> less(x, y)
      decreases left
    {
      LinearOnSubset(less, S, left);
      ghost var w := LeastExists(less, left);
      var m :| m in left && forall x :: x in left && x != m ==> less(m, x);
      forall i | 0 <= i < |s| ensures less(s[i], m) { assert s[i] in s; }
      s, left := s + [m], left - {m};
    }
    assert forall x :: x in s <==> x in S;
    ListingIs(less, S, s);
  }

  /** The elements of S below y. */
  ghost function Below<T(!new)>(less: (T, T) -> bool, S: set<T>, y: T): set<T> {
    set x | x in S && less(x, y)
  }

  /** An ordered listing of S has as many elements as S, and its i-th has i elements of S below it. */
  lemma ListingRank<T(!new)>(less: (T, T) -> bool, S: set<T>, s: seq<T>, i: nat)
    requires LinearOn(less, S) && Lists(less, S, s) && i < |s|
    ensures |Below(less, S, s[i])| == i
  {
    assert s[i] in s;
    var below := Below(less, S, s[i]);
    assert below == Range(s[..i]) by {
      forall x | x in below ensures x in s[..i] {
        var j :| 0 <= j < |s| && s[j] == x;
        assert s[..i][j] == x;
      }
      forall x | x in s[..i] ensures x in below {
        var j :| 0 <= j < i && s[j] == x;
        assert s[j] in s;
      }
    }
    DistinctCount(less, S, s[..i]);
  }

  ghost function Range<T(!new)>(s: seq<T>): set<T> { set x | x in s }

  lemma RangeSnoc<T(!new)>(s: seq<T>, x: T)
    ensures Range(s + [x]) == Range(s) + {x}
  {
    forall y ensures y in Range(s + [x]) <==> y in Range(s) + {x} {
      assert y in s + [x] <==> y in s || y == x;
    }
  }

  lemma LastIsNew<T(!new)>(less: (T, T) -> bool, S: set<T>, s: seq<T>)
    requires LinearOn(less, S) && Increasing(less, s) && Range(s) <= S && s != []
    ensures s[|s| - 1] !in Range(s[..|s| - 1])
  {
    assert s[|s| - 1] in Range(s);
  }

  lemma {:induction false} DistinctCount<T(!new)>(less: (T, T) -> bool, S: set<T>, s: seq<T>)
    requires LinearOn(less, S) && Increasing(less, s) && Range(s) <= S
    ensures |Range(s)| == |s|
  {
    if s == [] {
    } else {
      var n := |s| - 1;
      RangeSnoc(s[..n], s[n]);
      assert s == s[..n] + [s[n]];
      LastIsNew(less, S, s);
      DistinctCount(less, S, s[..n]);
    }
  }

  // ----- first occurrences -----

  /** The index of the first x in items, or the length. */
  function FirstIndex<T(==)>(items: seq<T>, x: T): (i: nat)
    ensures i <= |items| && x !in items[..i] && (i < |items| ==> items[i] == x)
  {
    if items == [] || items[0] == x then 0 else 1 + FirstIndex(items[1..], x)
  }

  ghost predicate InFirstOrder<T(!new)>(items: seq<T>, unique: seq<T>) {
    forall i, j :: 0 <= i < j < |unique| ==> FirstIndex(items, unique[i]) < FirstIndex(items, unique[j])
  }

  lemma {:induction false} FirstIndexPrefix<T>(items: seq<T>, x: T)
    requires items != [] && x in items[..|items| - 1]
    ensures FirstIndex(items, x) == FirstIndex(items[..|items| - 1], x) < |items| - 1
  {
    if items[0] != x {
      var rest := items[1..];
      assert items[..|items| - 1][1..] == rest[..|rest| - 1];
      assert items[..|items| - 1] == [items[0]] + rest[..|rest| - 1];
      FirstIndexPrefix(rest, x);
    }
  }

  lemma {:induction false} FirstIndexIs<T>(items: seq<T>, i: nat)
    requires i < |items| && items[i] !in items[..i]
    ensures FirstIndex(items, items[i]) == i
  {
    if i > 0 {
      assert items[0] in items[..i];
      assert items[..i] == [items[0]] + items[1..][..i - 1];
      FirstIndexIs(items[1..], i - 1);
    }
  }

  lemma {:induction false} FirstIndexBelow<T>(items: seq<T>, x: T, i: nat)
    requires i <= |items| && x in items[..i]
    ensures FirstIndex(items, x) < i
  {
    if items[0] != x {
      assert items[..i] == [items[0]] + items[1..][..i - 1];
      FirstIndexBelow(items[1..], x, i - 1);
    }
  }
}
