/** Keeping only the strings of a report that are not inside another one. */
module MatchStrings {
  import opened Ordering

  /** o.find(s) != -1 */
  predicate Contains(o: string, s: string) {
    exists i :: 0 <= i <= |o| - |s| && Occurs(o, s, i)
  }

  predicate Occurs(o: string, s: string, i: nat)
    requires i + |s| <= |o|
  {
    o[i..i + |s|] == s
  }

  /** Containing a string is being that string with text around it. */
  lemma ContainsExactly(o: string, s: string)
    ensures Contains(o, s) <==> exists a, b :: o == a + s + b
  {
    if Contains(o, s) {
      var i :| 0 <= i <= |o| - |s| && Occurs(o, s, i);
      assert o == o[..i] + s + o[i + |s|..];
    }
    forall a, b | o == a + s + b ensures Contains(o, s) {
      assert o[|a|..|a| + |s|] == s;
      assert Occurs(o, s, |a|);
    }
  }

  lemma ContainsItself(s: string)
    ensures Contains(s, s)
  {
    assert Occurs(s, s, 0);
  }

  lemma ContainsTransitive(a: string, b: string, c: string)
    requires Contains(a, b) && Contains(b, c)
    ensures Contains(a, c)
  {
    var i :| 0 <= i <= |a| - |b| && Occurs(a, b, i);
    var j :| 0 <= j <= |b| - |c| && Occurs(b, c, j);
    forall k | 0 <= k < |c| ensures a[i + j + k] == c[k] {
      assert a[i..i + |b|][j + k] == b[j + k] && b[j..j + |c|][k] == c[k];
    }
    assert Occurs(a, c, i + j);
  }

  lemma ContainsLength(o: string, s: string)
    requires Contains(o, s)
    ensures |s| <= |o| && (|s| == |o| ==> s == o)
  {
    var i :| 0 <= i <= |o| - |s| && Occurs(o, s, i);
  }

  // ----- the stable sort by descending length -----

  function InsertByLength(x: string, s: seq<string>): (r: seq<string>)
    ensures |r| == |s| + 1
  {
    if s == [] || |x| >= |s[0]| then [x] + s else [s[0]] + InsertByLength(x, s[1..])
  }

  function SortByLength(s: seq<string>): (r: seq<string>)
    ensures |r| == |s|
  {
    if s == [] then [] else InsertByLength(s[0], SortByLength(s[1..]))
  }

  ghost predicate LongestFirst(s: seq<string>) {
    forall i, j :: 0 <= i < j < |s| ==> |s[i]| >= |s[j]|
  }

  lemma {:induction false} InsertSpec(x: string, s: seq<string>)
    requires LongestFirst(s)
    ensures LongestFirst(InsertByLength(x, s))
    ensures forall y :: y in InsertByLength(x, s) <==> y == x || y in s
  {
    var r := InsertByLength(x, s);
    if s == [] || |x| >= |s[0]| {
    } else {
      InsertSpec(x, s[1..]);
      var rest := InsertByLength(x, s[1..]);
      assert forall y :: y in s <==> y == s[0] || y in s[1..];
      forall i | 0 <= i < |rest| ensures |s[0]| >= |rest[i]| {
        assert rest[i] in rest;
        if rest[i] != x {
          var k :| 0 <= k < |s| - 1 && s[1..][k] == rest[i];
          assert s[k + 1] == rest[i];
        }
      }
    }
  }

  lemma {:induction false} SortSpec(s: seq<string>)
    ensures LongestFirst(SortByLength(s))
    ensures forall y :: y in SortByLength(s) <==> y in s
  {
    if s != [] {
      SortSpec(s[1..]);
      InsertSpec(s[0], SortByLength(s[1..]));
      assert forall y :: y in s <==> y == s[0] || y in s[1..];
    }
  }

  /** The strings of length n, in their order. */
  ghost function OfLength(s: seq<string>, n: nat): seq<string> {
    if s == [] then [] else One(s[0], n) + OfLength(s[1..], n)
  }

  ghost function One(x: string, n: nat): seq<string> { if |x| == n then [x] else [] }

  lemma OfLengthFirst(x: string, s: seq<string>, n: nat)
    ensures OfLength([x] + s, n) == One(x, n) + OfLength(s, n)
  {
    assert ([x] + s)[1..] == s;
  }

  lemma Swap(a: seq<string>, b: seq<string>, c: seq<string>)
    requires a == [] || b == []
    ensures a + (b + c) == b + (a + c)
  {
  }

  lemma {:induction false} InsertStable(x: string, s: seq<string>, n: nat)
    ensures OfLength(InsertByLength(x, s), n) == One(x, n) + OfLength(s, n)
  {
    if s == [] || |x| >= |s[0]| {
      OfLengthFirst(x, s, n);
    } else {
      InsertStable(x, s[1..], n);
      OfLengthFirst(s[0], InsertByLength(x, s[1..]), n);
      Swap(One(x, n), One(s[0], n), OfLength(s[1..], n));
    }
  }

  /** The sort keeps strings of the same length in their order. */
  lemma {:induction false} SortStable(s: seq<string>, n: nat)
    ensures OfLength(SortByLength(s), n) == OfLength(s, n)
  {
    if s != [] {
      SortStable(s[1..], n);
      InsertStable(s[0], SortByLength(s[1..]), n);
    }
  }

  // ----- the filter -----

  /** A nonempty input that is inside no other input. */
  ghost predicate Maximal(raw: seq<string>, x: string) {
    x in raw && x != "" && forall r :: r in raw && Contains(r, x) ==> r == x
  }

  ghost predicate CoveredBy(out: seq<string>, s: string) { exists o :: o in out && Contains(o, s) }

  /** What is kept after the first i strings, longest first, have been looked at. */
  ghost predicate Kept(safe: seq<string>, i: nat, longest: seq<string>)
    requires i <= |safe|
  {
    && Members(safe[..i], longest) && LongestFirst(longest)
    && Covers(safe[..i], longest) && NotInside(safe[..i], longest) && NoneInside(longest)
  }

  ghost predicate Members(some: seq<string>, out: seq<string>) { forall x :: x in out ==> x in some && x != "" }

  /** Every nonempty string of `some` is inside one of `out`. */
  ghost predicate Covers(some: seq<string>, out: seq<string>) {
    forall s :: s in some && s != "" ==> CoveredBy(out, s)
  }

  /** No string of `out` is inside another string of `some`. */
  ghost predicate NotInside(some: seq<string>, out: seq<string>) {
    forall x, s :: x in out && s in some && Contains(s, x) ==> s == x
  }

  ghost predicate NoneInside(s: seq<string>) {
    forall k, l :: 0 <= k < |s| && 0 <= l < |s| && k != l ==> !Contains(s[k], s[l])
  }

  method LongestUnique(raw: seq<string>) returns (longest: seq<string>)
    ensures |raw| <= 1 ==> longest == raw
    ensures |raw| > 1 ==> forall x :: x in longest <==> Maximal(raw, x)
    ensures |raw| > 1 ==> forall s :: s in raw && s != "" ==> CoveredBy(longest, s)
    ensures NoneInside(longest) && LongestFirst(longest)
    ensures |raw| > 1 ==> InFirstOrder(SortByLength(raw), longest)
  {
    if |raw| <= 1 {
      return raw;
    }
    var safe := SortByLength(raw);
    SortSpec(raw);
    longest := [];
    var seen := {};
    for i := 0 to |safe|
      invariant forall x :: x in seen <==> x in longest
      invariant Kept(safe, i, longest) && InFirstOrder(safe, longest)
    {
      var s := safe[i];
      if s == "" || s in seen {
        SkipKeeps(safe, i, longest);
        continue;
      }
      var isLongest := true;
      for k := 0 to |longest|
        invariant isLongest ==> forall l :: 0 <= l < k ==> !Contains(longest[l], s)
        invariant !isLongest ==> CoveredBy(longest, s)
      {
        if Contains(longest[k], s) {
          assert longest[k] in longest;
          isLongest := false;
          break;
        }
      }
      if isLongest {
        AddKeeps(safe, i, longest);
        AddInOrder(safe, i, longest);
        longest := longest + [s];
        seen := seen + {s};
      } else {
        CoveredKeeps(safe, i, longest);
      }
    }
    assert safe[..|safe|] == safe;
    MaximalExactly(raw, safe, longest);
  }

  /** A blank or repeated string changes nothing. */
  lemma SkipKeeps(safe: seq<string>, i: nat, longest: seq<string>)
    requires i < |safe| && LongestFirst(safe) && Kept(safe, i, longest) && (safe[i] == "" || safe[i] in longest)
    ensures Kept(safe, i + 1, longest)
  {
    if safe[i] != "" { ContainsItself(safe[i]); }
    CoveredKeeps(safe, i, longest);
  }

  /** Nor does a string inside one that was kept. */
  lemma CoveredKeeps(safe: seq<string>, i: nat, longest: seq<string>)
    requires i < |safe| && LongestFirst(safe) && Kept(safe, i, longest)
    requires safe[i] != "" ==> CoveredBy(longest, safe[i])
    ensures Kept(safe, i + 1, longest)
  {
    assert safe[..i + 1] == safe[..i] + [safe[i]];
    NewIsShorter(safe, i, longest);
    forall x | x in longest && Contains(safe[i], x) ensures safe[i] == x {
      ContainsLength(safe[i], x);
    }
  }

  /** Any other string is kept. */
  lemma AddKeeps(safe: seq<string>, i: nat, longest: seq<string>)
    requires i < |safe| && LongestFirst(safe) && Kept(safe, i, longest) && safe[i] != "" && safe[i] !in longest
    requires forall k :: 0 <= k < |longest| ==> !Contains(longest[k], safe[i])
    ensures Kept(safe, i + 1, longest + [safe[i]])
  {
    var s, some := safe[i], safe[..i];
    assert safe[..i + 1] == some + [s];
    NewIsShorter(safe, i, longest);
    NewContainsNone(s, longest);
    NewIsInsideNone(some, s, longest);
    AddMembers(some, s, longest);
    AddCovers(some, s, longest);
    AddNotInside(some, s, longest);
    AddNoneInside(longest, s);
  }

  lemma AddInOrder(safe: seq<string>, i: nat, longest: seq<string>)
    requires i < |safe| && Kept(safe, i, longest) && InFirstOrder(safe, longest) && safe[i] != ""
    requires forall k :: 0 <= k < |longest| ==> !Contains(longest[k], safe[i])
    ensures InFirstOrder(safe, longest + [safe[i]])
  {
    NewIsInsideNone(safe[..i], safe[i], longest);
    ContainsItself(safe[i]);
    FirstIndexIs(safe, i);
    forall k | 0 <= k < |longest| ensures FirstIndex(safe, longest[k]) < i {
      assert longest[k] in longest;
      FirstIndexBelow(safe, longest[k], i);
    }
  }

  lemma AddMembers(some: seq<string>, s: string, longest: seq<string>)
    requires Members(some, longest) && LongestFirst(longest) && s != ""
    requires forall x :: x in longest ==> |x| >= |s|
    ensures Members(some + [s], longest + [s]) && LongestFirst(longest + [s])
  {
    assert forall k :: 0 <= k < |longest| ==> longest[k] in longest;
  }

  lemma AddCovers(some: seq<string>, s: string, longest: seq<string>)
    requires Covers(some, longest)
    ensures Covers(some + [s], longest + [s])
  {
    var more := longest + [s];
    ContainsItself(s);
    assert s in more;
    forall z | z in some && z != "" ensures CoveredBy(more, z) {
      var o :| o in longest && Contains(o, z);
      assert o in more;
    }
  }

  lemma AddNotInside(some: seq<string>, s: string, longest: seq<string>)
    requires NotInside(some, longest)
    requires forall x :: x in longest ==> !Contains(s, x)
    requires forall z :: z in some ==> !Contains(z, s)
    ensures NotInside(some + [s], longest + [s])
  {
  }

  lemma AddNoneInside(longest: seq<string>, s: string)
    requires NoneInside(longest)
    requires forall x :: x in longest ==> !Contains(s, x)
    requires forall k :: 0 <= k < |longest| ==> !Contains(longest[k], s)
    ensures NoneInside(longest + [s])
  {
    assert forall k :: 0 <= k < |longest| ==> longest[k] in longest;
  }

  /** Everything kept so far is at least as long as the next string. */
  lemma NewIsShorter(safe: seq<string>, i: nat, longest: seq<string>)
    requires i < |safe| && LongestFirst(safe) && Members(safe[..i], longest)
    ensures forall x :: x in longest ==> |x| >= |safe[i]|
  {
    forall x | x in longest ensures |x| >= |safe[i]| {
      var j :| 0 <= j < i && safe[j] == x;
    }
  }

  lemma NewContainsNone(s: string, longest: seq<string>)
    requires s !in longest && forall x :: x in longest ==> |x| >= |s|
    ensures forall x :: x in longest ==> !Contains(s, x)
  {
    forall x | x in longest ensures !Contains(s, x) {
      if Contains(s, x) { ContainsLength(s, x); }
    }
  }

  /** A string inside nothing kept is inside no earlier string. */
  lemma NewIsInsideNone(some: seq<string>, s: string, longest: seq<string>)
    requires s != "" && Covers(some, longest)
    requires forall k :: 0 <= k < |longest| ==> !Contains(longest[k], s)
    ensures forall z :: z in some ==> !Contains(z, s)
  {
    forall z | z in some ensures !Contains(z, s) {
      if Contains(z, s) {
        ContainsLength(z, s);
        var o :| o in longest && Contains(o, z);
        ContainsTransitive(o, z, s);
        assert false;
      }
    }
  }

  lemma MaximalExactly(raw: seq<string>, safe: seq<string>, longest: seq<string>)
    requires forall y :: y in safe <==> y in raw
    requires Members(safe, longest) && Covers(safe, longest) && NotInside(safe, longest)
    ensures forall x :: x in longest <==> Maximal(raw, x)
    ensures forall s :: s in raw && s != "" ==> CoveredBy(longest, s)
  {
    forall x | Maximal(raw, x) ensures x in longest {
      var o :| o in longest && Contains(o, x);
    }
  }

  /** The strings kept, as a set, depend only on which strings there are, not on their order or number. */
  lemma OrderDoesNotMatter(a: seq<string>, b: seq<string>, x: string)
    requires forall y :: y in a <==> y in b
    ensures Maximal(a, x) <==> Maximal(b, x)
  {
    if Maximal(a, x) { assert forall r :: r in b && Contains(r, x) ==> r in a; }
    if Maximal(b, x) { assert forall r :: r in a && Contains(r, x) ==> r in b; }
  }
}
