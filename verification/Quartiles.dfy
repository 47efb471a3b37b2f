/** Type-2 sample quartiles. Samples and quartiles are reals, so rounding plays no part. */
module Quartiles {

  datatype Quartile = NaN | Value(value: real)

  ghost predicate Sorted(s: seq<real>) {
    forall i, j :: 0 <= i < j < |s| ==> s[i] <= s[j]
  }

  // ----- sorting, as the library does it -----

  function Insert(x: real, s: seq<real>): (r: seq<real>)
    ensures |r| == |s| + 1
  {
    if s == [] || x <= s[0] then [x] + s else [s[0]] + Insert(x, s[1..])
  }

  function SortReals(s: seq<real>): (r: seq<real>)
    ensures |r| == |s|
  {
    if s == [] then [] else Insert(s[0], SortReals(s[1..]))
  }

  lemma {:induction false} InsertElements(x: real, s: seq<real>)
    ensures multiset(Insert(x, s)) == multiset(s) + multiset{x}
  {
    if s != [] && x > s[0] {
      InsertElements(x, s[1..]);
      assert s == [s[0]] + s[1..];
    }
  }

  lemma SortedCons(h: real, s: seq<real>)
    requires Sorted(s) && forall i :: 0 <= i < |s| ==> h <= s[i]
    ensures Sorted([h] + s)
  {
  }

  lemma {:induction false} InsertSorted(x: real, s: seq<real>)
    requires Sorted(s)
    ensures Sorted(Insert(x, s))
  {
    if s == [] || x <= s[0] {
      SortedCons(x, s);
    } else {
      var rest := Insert(x, s[1..]);
      InsertSorted(x, s[1..]);
      InsertElements(x, s[1..]);
      forall i | 0 <= i < |rest| ensures s[0] <= rest[i] {
        assert rest[i] in multiset(rest);
        assert rest[i] == x || rest[i] in s[1..];
      }
      SortedCons(s[0], rest);
    }
  }

  /** Sorting sorts, and keeps the elements. */
  lemma {:induction false} SortSpec(s: seq<real>)
    ensures Sorted(SortReals(s)) && multiset(SortReals(s)) == multiset(s)
  {
    if s != [] {
      SortSpec(s[1..]);
      InsertSorted(s[0], SortReals(s[1..]));
      InsertElements(s[0], SortReals(s[1..]));
      assert s == [s[0]] + s[1..];
    }
  }

  lemma TailElements(s: seq<real>)
    requires s != []
    ensures multiset(s[1..]) == multiset(s) - multiset{s[0]}
  {
    assert s == [s[0]] + s[1..];
  }

  lemma LeastFirst(a: seq<real>, b: seq<real>)
    requires Sorted(a) && Sorted(b) && multiset(a) == multiset(b) && a != [] && b != []
    ensures a[0] <= b[0]
  {
    assert b[0] in multiset(a);
  }

  /** A sorted sequence is determined by its elements. */
  lemma {:induction false} SortedUnique(a: seq<real>, b: seq<real>)
    requires Sorted(a) && Sorted(b) && multiset(a) == multiset(b)
    ensures a == b
  {
    assert |a| == |multiset(a)| == |multiset(b)| == |b|;
    if a != [] {
      LeastFirst(a, b);
      LeastFirst(b, a);
      TailElements(a);
      TailElements(b);
      SortedUnique(a[1..], b[1..]);
      assert a == [a[0]] + a[1..] && b == [b[0]] + b[1..];
    }
  }

  // ----- the quartiles -----

  /** Quartile q of a sorted sample; the source panics for any other q. */
  function QuartileOf(sorted: seq<real>, q: int): Quartile
    requires 0 <= q <= 4
  {
    var n := |sorted|;
    if n == 0 then NaN
    else if q == 0 then Value(sorted[0])
    else if q == 4 then Value(sorted[n - 1])
    else
      var j := n * q / 4;
      if n * q % 4 == 0 && j > 0 then Value((sorted[j - 1] + sorted[j]) / 2.0)
      else Value(sorted[j])
  }

  method Quartiles(sample: seq<real>) returns (result: array<Quartile>)
    ensures fresh(result) && result.Length == 5
    ensures forall q :: 0 <= q <= 4 ==> result[q] == QuartileOf(SortReals(sample), q)
  {
    result := new Quartile[5](_ => NaN);
    if |sample| > 0 {
      var sorted := SortReals(sample);
      for i := 0 to 5
        invariant forall q :: 0 <= q < i ==> result[q] == QuartileOf(sorted, q)
      {
        result[i] := QuartileOf(sorted, i);
      }
    }
  }

  /** The quartile as a value, for a sample that has one. */
  function At(sorted: seq<real>, q: int): real
    requires 0 <= q <= 4 && |sorted| > 0
  {
    QuartileOf(sorted, q).value
  }

  /**
   The quartile at q/4 of the sample: the element there, or halfway between two elements when q/4 falls between
   them; the ends for the first and the last, and no number for an empty sample.
   */
  lemma QuartileIs(s: seq<real>, q: int, k: nat)
    requires 0 <= q <= 4
    ensures |s| == 0 ==> QuartileOf(s, q) == NaN
    ensures |s| > 0 && q == 0 ==> QuartileOf(s, q) == Value(s[0])
    ensures |s| > 0 && q == 4 ==> QuartileOf(s, q) == Value(s[|s| - 1])
    ensures 0 < q < 4 && 4 * k < q * |s| < 4 * (k + 1) ==> k < |s| && QuartileOf(s, q) == Value(s[k])
    ensures 0 < q < 4 && 0 < 4 * k == q * |s| ==> k < |s| && QuartileOf(s, q) == Value((s[k - 1] + s[k]) / 2.0)
  {
    assert |s| * q == q * |s|;
  }

  /** A quartile lies between two adjacent elements, and which two depends only on n and q. */
  lemma Bracket(s: seq<real>, q: int) returns (lo: nat, hi: nat)
    requires Sorted(s) && |s| > 0 && 0 <= q <= 4
    ensures lo <= hi < |s| && hi <= lo + 1
    ensures At(s, q) == (s[lo] + s[hi]) / 2.0 && s[lo] <= At(s, q) <= s[hi]
    ensures 4 * (lo + 1) >= q * |s| && 4 * hi <= q * |s|
    ensures q == 0 ==> hi == 0
    ensures q == 4 ==> lo == |s| - 1
  {
    var n := |s|;
    if q == 0 {
      lo, hi := 0, 0;
    } else if q == 4 {
      lo, hi := n - 1, n - 1;
    } else {
      var j := n * q / 4;
      assert n * q == 4 * j + n * q % 4;
      assert n * q < 4 * n;
      lo, hi := if n * q % 4 == 0 && j > 0 then j - 1 else j, j;
    }
  }

  /** The five values never decrease. */
  lemma NonDecreasing(s: seq<real>, p: int, q: int)
    requires Sorted(s) && |s| > 0 && 0 <= p <= q <= 4
    ensures At(s, p) <= At(s, q)
  {
    if p < q {
      var lo, hi := Bracket(s, p);
      var lo', hi' := Bracket(s, q);
      assert p * |s| + |s| <= q * |s| by { assert (q - p) * |s| >= |s|; }
      assert hi <= hi';
      assert lo <= lo';
    }
  }

  // ----- how much of the sample lies on either side -----

  ghost function AtMost(s: seq<real>, x: real): nat {
    if s == [] then 0 else AtMost(s[..|s| - 1], x) + if s[|s| - 1] <= x then 1 else 0
  }

  ghost function AtLeast(s: seq<real>, x: real): nat {
    if s == [] then 0 else AtLeast(s[..|s| - 1], x) + if s[|s| - 1] >= x then 1 else 0
  }

  lemma {:induction false} PrefixAtMost(s: seq<real>, x: real, k: nat)
    requires k <= |s| && forall i :: 0 <= i < k ==> s[i] <= x
    ensures AtMost(s, x) >= k
  {
    if s != [] {
      PrefixAtMost(s[..|s| - 1], x, if k == |s| then k - 1 else k);
    }
  }

  lemma {:induction false} SuffixAtLeast(s: seq<real>, x: real, k: nat)
    requires k <= |s| && forall i :: k <= i < |s| ==> s[i] >= x
    ensures AtLeast(s, x) >= |s| - k
  {
    if k < |s| {
      SuffixAtLeast(s[..|s| - 1], x, k);
    }
  }

  /** Counting is blind to order. */
  lemma {:induction false} CountsPermute(a: seq<real>, b: seq<real>, x: real)
    requires multiset(a) == multiset(b)
    ensures AtMost(a, x) == AtMost(b, x) && AtLeast(a, x) == AtLeast(b, x)
  {
    assert |a| == |multiset(a)| == |multiset(b)| == |b|;
    if a != [] {
      var y := a[|a| - 1];
      assert a == a[..|a| - 1] + [y];
      assert y in multiset(b);
      var j :| 0 <= j < |b| && b[j] == y;
      var b' := b[..j] + b[j + 1..];
      assert b == b[..j] + [y] + b[j + 1..];
      assert multiset(b') == multiset(b) - multiset{y};
      assert multiset(a[..|a| - 1]) == multiset(a) - multiset{y};
      CountsPermute(a[..|a| - 1], b', x);
      CountsRemove(b[..j], y, b[j + 1..], x);
    }
  }

  lemma {:induction false} CountsRemove(a: seq<real>, y: real, b: seq<real>, x: real)
    ensures AtMost(a + [y] + b, x) == AtMost(a + b, x) + if y <= x then 1 else 0
    ensures AtLeast(a + [y] + b, x) == AtLeast(a + b, x) + if y >= x then 1 else 0
  {
    var s := a + [y] + b;
    if b == [] {
      assert s[..|s| - 1] == a && a + b == a;
    } else {
      var c := b[..|b| - 1];
      CountsRemove(a, y, c, x);
      assert s[..|s| - 1] == a + [y] + c;
      assert (a + b)[..|a + b| - 1] == a + c;
    }
  }

  lemma SidesOfSorted(s: seq<real>, q: int)
    requires Sorted(s) && |s| > 0 && 0 <= q <= 4
    ensures 4 * AtMost(s, At(s, q)) >= q * |s| && 4 * AtLeast(s, At(s, q)) >= 4 * |s| - q * |s|
  {
    var lo, hi := Bracket(s, q);
    PrefixAtMost(s, At(s, q), lo + 1);
    SuffixAtLeast(s, At(s, q), hi);
  }

  /** At least q quarters of any sample are at most its quartile q, and 4-q quarters at least that. */
  lemma QuartersOnEachSide(sample: seq<real>, q: int)
    requires |sample| > 0 && 0 <= q <= 4
    ensures 4 * AtMost(sample, At(SortReals(sample), q)) >= q * |sample|
    ensures 4 * AtLeast(sample, At(SortReals(sample), q)) >= (4 - q) * |sample|
  {
    var s := SortReals(sample);
    SortSpec(sample);
    SidesOfSorted(s, q);
    CountsPermute(sample, s, At(s, q));
    assert (4 - q) * |sample| == 4 * |sample| - q * |sample|;
  }

  /** The quartiles depend only on the sample's elements, not on their order. */
  lemma OrderDoesNotMatter(a: seq<real>, b: seq<real>, q: int)
    requires multiset(a) == multiset(b) && 0 <= q <= 4
    ensures QuartileOf(SortReals(a), q) == QuartileOf(SortReals(b), q)
  {
    SortSpec(a);
    SortSpec(b);
    SortedUnique(SortReals(a), SortReals(b));
  }

  // ----- negation -----

  function Negate(s: seq<real>): seq<real> { seq(|s|, i requires 0 <= i < |s| => -s[i]) }

  /** Negated and reversed: negating a sorted sample sorts it the other way round. */
  function Mirror(s: seq<real>): seq<real> { seq(|s|, i requires 0 <= i < |s| => -s[|s| - 1 - i]) }

  /** Both hold the negated elements. */
  lemma {:induction false} MirrorElements(s: seq<real>)
    ensures multiset(Mirror(s)) == multiset(Negate(s))
  {
    if s != [] {
      var n := |s| - 1;
      MirrorElements(s[..n]);
      assert Mirror(s) == [-s[n]] + Mirror(s[..n]);
      assert Negate(s) == Negate(s[..n]) + [-s[n]];
    }
  }

  lemma {:induction false} NegatedCount(s: seq<real>, y: real)
    ensures multiset(Negate(s))[y] == multiset(s)[-y]
  {
    if s != [] {
      var n := |s| - 1;
      NegatedCount(s[..n], y);
      assert s == s[..n] + [s[n]];
      assert Negate(s) == Negate(s[..n]) + [-s[n]];
    }
  }

  lemma NegateElements(a: seq<real>, b: seq<real>)
    requires multiset(a) == multiset(b)
    ensures multiset(Negate(a)) == multiset(Negate(b))
  {
    forall y ensures multiset(Negate(a))[y] == multiset(Negate(b))[y] {
      NegatedCount(a, y);
      NegatedCount(b, y);
    }
  }

  lemma SortOfNegation(sample: seq<real>)
    ensures SortReals(Negate(sample)) == Mirror(SortReals(sample))
  {
    var s := SortReals(sample);
    SortSpec(sample);
    SortSpec(Negate(sample));
    MirrorElements(s);
    NegateElements(s, sample);
    SortedUnique(SortReals(Negate(sample)), Mirror(s));
  }

  /** Where quartiles q and 4-q sit in a sample of n elements. */
  lemma MirroredIndex(n: nat, q: int)
    requires 1 <= q <= 3 && n > 0
    ensures var j, k := n * q / 4, n * (4 - q) / 4;
            if n * q % 4 == 0 then n * (4 - q) % 4 == 0 && k == n - j && 0 < j < n
            else n * (4 - q) % 4 != 0 && k == n - 1 - j && j < n
  {
    if q == 1 {
    } else if q == 2 {
    } else {
    }
  }

  /** Negating the sample turns quartile q into minus quartile 4-q. */
  lemma NegationMirrorsQuartiles(sample: seq<real>, q: int)
    requires |sample| > 0 && 0 <= q <= 4
    ensures At(SortReals(Negate(sample)), q) == -At(SortReals(sample), 4 - q)
  {
    SortOfNegation(sample);
    MirroredAt(SortReals(sample), q);
  }

  lemma MirroredAt(s: seq<real>, q: int)
    requires |s| > 0 && 0 <= q <= 4
    ensures At(Mirror(s), q) == -At(s, 4 - q)
  {
    if 1 <= q <= 3 {
      MirroredIndex(|s|, q);
    }
  }
}
