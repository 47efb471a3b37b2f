/** The byte-wise order of strings that sort.Strings uses. */
module StringOrder {
  import opened Ordering

  predicate Less(a: string, b: string) {
    if b == "" then false
    else if a == "" then true
    else a[0] < b[0] || (a[0] == b[0] && Less(a[1..], b[1..]))
  }

  function ByString(): (string, string) -> bool { (a: string, b: string) => Less(a, b) }

  lemma {:induction false} Irreflexive(a: string)
    ensures !Less(a, a)
  {
    if a != "" { Irreflexive(a[1..]); }
  }

  lemma {:induction false} Total(a: string, b: string)
    ensures a == b || Less(a, b) || Less(b, a)
  {
    if a != "" && b != "" && a[0] == b[0] {
      Total(a[1..], b[1..]);
      assert a == [a[0]] + a[1..] && b == [b[0]] + b[1..];
    }
  }

  lemma {:induction false} Transitive(a: string, b: string, c: string)
    requires Less(a, b) && Less(b, c)
    ensures Less(a, c)
  {
    if a != "" && a[0] == b[0] && b[0] == c[0] {
      Transitive(a[1..], b[1..], c[1..]);
    }
  }

  lemma Linear(S: set<string>)
    ensures LinearOn(ByString(), S)
  {
    forall x | x in S ensures !ByString()(x, x) { Irreflexive(x); }
    forall x, y | x in S && y in S && x != y ensures ByString()(x, y) || ByString()(y, x) { Total(x, y); }
    forall x, y, z | x in S && y in S && z in S && ByString()(x, y) && ByString()(y, z) ensures ByString()(x, z) {
      Transitive(x, y, z);
    }
  }

  /** a and b first differ at k, where a has the smaller character. */
  ghost predicate SmallerAt(a: string, b: string, k: nat) {
    k < |a| && k < |b| && a[..k] == b[..k] && a[k] < b[k]
  }

  lemma SmallerAtNext(a: string, b: string, k: nat)
    requires a != "" && b != "" && a[0] == b[0]
    ensures SmallerAt(a[1..], b[1..], k) <==> SmallerAt(a, b, k + 1)
  {
    if k < |a| - 1 && k < |b| - 1 {
      assert a[..k + 1] == [a[0]] + a[1..][..k] && b[..k + 1] == [b[0]] + b[1..][..k];
      assert a[1..][..k] == a[..k + 1][1..] && b[1..][..k] == b[..k + 1][1..];
    }
  }

  /** A string comes before another if it is a proper beginning of it or has the smaller character first. */
  lemma {:induction false} LessExactly(a: string, b: string)
    ensures Less(a, b) <==> (a <= b && a != b) || exists k :: SmallerAt(a, b, k)
  {
    if a != "" && b != "" {
      assert a[..0] == b[..0] && (a[0] < b[0] ==> SmallerAt(a, b, 0));
      if a[0] == b[0] {
        LessExactly(a[1..], b[1..]);
        assert a == [a[0]] + a[1..] && b == [b[0]] + b[1..];
        forall k: nat ensures SmallerAt(a[1..], b[1..], k) <==> SmallerAt(a, b, k + 1) { SmallerAtNext(a, b, k); }
        if k: nat :| SmallerAt(a, b, k) {
          assert SmallerAt(a[1..], b[1..], k - 1);
        }
        if k: nat :| SmallerAt(a[1..], b[1..], k) {
          assert SmallerAt(a, b, k + 1);
        }
      } else if k: nat :| SmallerAt(a, b, k) {
        assert k > 0 ==> a[..k][0] == b[..k][0];
      }
    }
  }

  /** A common prefix does not matter. */
  lemma {:induction false} LessPrefix(p: string, a: string, b: string)
    ensures Less(p + a, p + b) <==> Less(a, b)
  {
    if p == "" {
      assert p + a == a && p + b == b;
    } else {
      LessPrefix(p[1..], a, b);
      assert (p + a)[1..] == p[1..] + a && (p + b)[1..] == p[1..] + b;
    }
  }

  /** Strings of one length compare by their beginnings first. */
  lemma {:induction false} LessSnoc(a: string, x: char, b: string, y: char)
    requires |a| == |b|
    ensures Less(a + [x], b + [y]) <==> Less(a, b) || (a == b && x < y)
  {
    if a == "" {
    } else {
      LessSnoc(a[1..], x, b[1..], y);
      assert (a + [x])[1..] == a[1..] + [x] && (b + [y])[1..] == b[1..] + [y];
      assert a == [a[0]] + a[1..] && b == [b[0]] + b[1..];
    }
  }
}
