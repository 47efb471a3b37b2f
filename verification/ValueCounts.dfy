/** Counts of integer values, and their form as sorted (value, count) pairs. */
module ValueCounts {
  import opened Wrappers
  import opened Ordering
  import opened LineLengths

  datatype Pair = Pair(value: int, count: int)

  type Counts = map<int, int>

  method Count(data: seq<int>) returns (counts: Counts)
    ensures forall v :: v in counts <==> v in data
    ensures forall v :: v in counts ==> counts[v] == multiset(data)[v]
  {
    counts := map[];
    for i := 0 to |data|
      invariant forall v :: v in counts <==> v in data[..i]
      invariant forall v :: v in counts ==> counts[v] == multiset(data[..i])[v]
    {
      var value := data[i];
      assert data[..i + 1] == data[..i] + [value];
      counts := counts[value := (if value in counts then counts[value] else 0) + 1];
    }
    assert data[..|data|] == data;
  }

  function Less(): (int, int) -> bool { (a: int, b: int) => a < b }

  ghost function Values(pairs: seq<Pair>): seq<int> { seq(|pairs|, i requires 0 <= i < |pairs| => pairs[i].value) }

  /** The pairs list every count, by strictly increasing value. */
  ghost predicate Represents(pairs: seq<Pair>, counts: Counts) {
    && Lists(Less(), counts.Keys, Values(pairs))
    && forall i :: 0 <= i < |pairs| ==> pairs[i].value in counts && pairs[i].count == counts[pairs[i].value]
  }

  method ToPairs(counts: Counts) returns (pairs: seq<Pair>)
    ensures Represents(pairs, counts)
  {
    var values := SortSet(Less(), counts.Keys);
    pairs := [];
    for i := 0 to |values|
      invariant |pairs| == i
      invariant forall j :: 0 <= j < i ==> pairs[j].value == values[j] && values[j] in counts
      invariant forall j :: 0 <= j < i ==> pairs[j].count == counts[values[j]]
    {
      assert values[i] in values;
      pairs := pairs + [Pair(values[i], counts[values[i]])];
    }
    assert Values(pairs) == values;
  }

  ghost predicate DistinctValues(pairs: seq<Pair>) {
    forall i, j :: 0 <= i < j < |pairs| ==> pairs[i].value != pairs[j].value
  }

  /** The counts of a list of pairs; a repeated value is an error. */
  method FromPairs(pairs: seq<Pair>) returns (r: Option<Counts>)
    ensures r.Some? <==> DistinctValues(pairs)
    ensures r.Some? ==> forall v :: v in r.value <==> exists i :: 0 <= i < |pairs| && pairs[i].value == v
    ensures r.Some? ==> forall i :: 0 <= i < |pairs| ==>
              pairs[i].value in r.value && r.value[pairs[i].value] == pairs[i].count
  {
    var counts: Counts := map[];
    for i := 0 to |pairs|
      invariant DistinctValues(pairs[..i])
      invariant forall v :: v in counts <==> exists j :: 0 <= j < i && pairs[j].value == v
      invariant forall j :: 0 <= j < i ==> pairs[j].value in counts && counts[pairs[j].value] == pairs[j].count
    {
      if pairs[i].value in counts {
        return None;
      }
      counts := counts[pairs[i].value := pairs[i].count];
    }
    assert pairs[..|pairs|] == pairs;
    return Some(counts);
  }

  /** Writing counts as pairs and reading them back gives the same counts. */
  method RoundTrip(counts: Counts) returns (r: Option<Counts>)
    ensures r == Some(counts)
  {
    var pairs := ToPairs(counts);
    RepresentsDistinct(pairs, counts);
    r := FromPairs(pairs);
    ListsValues(pairs, counts);
    forall v ensures v in r.value <==> v in counts { }
    forall v | v in counts ensures r.value[v] == counts[v] {
      var i :| 0 <= i < |pairs| && pairs[i].value == v;
    }
    assert r.value.Keys == counts.Keys;
    assert r.value == counts;
  }

  lemma ListsValues(pairs: seq<Pair>, counts: Counts)
    requires Represents(pairs, counts)
    ensures forall v :: v in counts <==> exists i :: 0 <= i < |pairs| && pairs[i].value == v
  {
    forall v ensures v in counts <==> exists i :: 0 <= i < |pairs| && pairs[i].value == v {
      assert v in counts.Keys <==> v in Values(pairs);
      if v in Values(pairs) {
        var i :| 0 <= i < |pairs| && Values(pairs)[i] == v;
        assert pairs[i].value == v;
      }
    }
  }

  lemma RepresentsDistinct(pairs: seq<Pair>, counts: Counts)
    requires Represents(pairs, counts)
    ensures DistinctValues(pairs)
  {
    forall i, j | 0 <= i < j < |pairs| ensures pairs[i].value != pairs[j].value {
      assert Less()(Values(pairs)[i], Values(pairs)[j]);
    }
  }

  // ----- the total survives counting -----

  ghost function Weighted(pairs: seq<Pair>): int {
    if pairs == [] then 0 else pairs[0].value * pairs[0].count + Weighted(pairs[1..])
  }

  ghost function Without(data: seq<int>, v: int): seq<int> {
    if data == [] then []
    else if data[0] == v then Without(data[1..], v)
    else [data[0]] + Without(data[1..], v)
  }

  lemma SumCons(x: int, s: seq<int>)
    ensures Sum([x] + s) == x + Sum(s)
  {
  }

  ghost function Occurrences(data: seq<int>, v: int): nat {
    if data == [] then 0 else Occurrences(data[1..], v) + if data[0] == v then 1 else 0
  }

  lemma {:induction false} OccurrencesCount(data: seq<int>, v: int)
    ensures Occurrences(data, v) == multiset(data)[v]
  {
    if data != [] {
      OccurrencesCount(data[1..], v);
      assert data == [data[0]] + data[1..];
    }
  }

  lemma {:induction false} SumWithout(data: seq<int>, v: int)
    ensures Sum(data) == v * Occurrences(data, v) + Sum(Without(data, v))
  {
    if data != [] {
      var rest := data[1..];
      SumWithout(rest, v);
      if data[0] == v {
        assert v * (Occurrences(rest, v) + 1) == v * Occurrences(rest, v) + v;
      } else {
        SumCons(data[0], Without(rest, v));
      }
    }
  }

  ghost predicate CountsIn(pairs: seq<Pair>, data: seq<int>) {
    forall i :: 0 <= i < |pairs| ==> pairs[i].count == Occurrences(data, pairs[i].value)
  }

  ghost predicate HasValue(pairs: seq<Pair>, v: int) { exists i :: 0 <= i < |pairs| && pairs[i].value == v }

  ghost predicate AllIn(data: seq<int>, pairs: seq<Pair>) { forall v :: v in data ==> HasValue(pairs, v) }

  lemma {:induction false} OccurrencesWithout(data: seq<int>, v: int, w: int)
    ensures Occurrences(Without(data, v), w) == if w == v then 0 else Occurrences(data, w)
    ensures w in Without(data, v) <==> w in data && w != v
  {
    if data != [] {
      OccurrencesWithout(data[1..], v, w);
      assert data == [data[0]] + data[1..];
    }
  }

  lemma RestHolds(pairs: seq<Pair>, data: seq<int>)
    requires pairs != [] && DistinctValues(pairs) && CountsIn(pairs, data) && AllIn(data, pairs)
    ensures var rest := Without(data, pairs[0].value);
            DistinctValues(pairs[1..]) && CountsIn(pairs[1..], rest) && AllIn(rest, pairs[1..])
  {
    var v := pairs[0].value;
    var rest := Without(data, v);
    forall i | 0 <= i < |pairs[1..]| ensures pairs[1..][i].count == Occurrences(rest, pairs[1..][i].value) {
      OccurrencesWithout(data, v, pairs[i + 1].value);
    }
    forall w | w in rest ensures HasValue(pairs[1..], w) {
      OccurrencesWithout(data, v, w);
      var i :| 0 <= i < |pairs| && pairs[i].value == w;
      assert pairs[1..][i - 1].value == w;
    }
  }

  /** The weighted sum of the pairs of values and counts of some data is the sum of the data. */
  lemma {:induction false} WeightedSum(pairs: seq<Pair>, data: seq<int>)
    requires DistinctValues(pairs) && CountsIn(pairs, data) && AllIn(data, pairs)
    ensures Weighted(pairs) == Sum(data)
    decreases |pairs|
  {
    if pairs == [] {
      assert |data| > 0 ==> data[0] in data && HasValue(pairs, data[0]);
    } else {
      SumWithout(data, pairs[0].value);
      RestHolds(pairs, data);
      WeightedSum(pairs[1..], Without(data, pairs[0].value));
    }
  }

  /** Counting data and listing the counts keeps the total. */
  method CountedPairs(data: seq<int>) returns (pairs: seq<Pair>)
    ensures Weighted(pairs) == Sum(data) && DistinctValues(pairs)
  {
    var counts := Count(data);
    pairs := ToPairs(counts);
    RepresentsDistinct(pairs, counts);
    ListsValues(pairs, counts);
    forall i | 0 <= i < |pairs| ensures pairs[i].count == Occurrences(data, pairs[i].value) {
      OccurrencesCount(data, pairs[i].value);
    }
    WeightedSum(pairs, data);
  }

  /** The counted line lengths add up to the size of the source less its terminators. */
  method CountedLineLengths(source: string) returns (pairs: seq<Pair>)
    ensures Weighted(pairs) + Terminators(source) == |source|
  {
    LengthsAddUp(source);
    var lengths := GetLineLengths(source);
    pairs := CountedPairs(lengths);
  }
}
