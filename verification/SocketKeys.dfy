/** The map key of a socket: the address, a dash, and the port padded to five digits. */
module SocketKeys {
  import opened StringOrder

  function Digit(d: nat): char
    requires d < 10
  {
    '0' + d as char
  }

  /** The last k decimal digits of n. */
  function FixedDigits(n: nat, k: nat): (s: string)
    ensures |s| == k && '-' !in s
  {
    if k == 0 then "" else FixedDigits(n / 10, k - 1) + [Digit(n % 10)]
  }

  function Decimal(n: nat): (s: string)
    ensures '-' !in s && s != ""
  {
    if n < 10 then [Digit(n)] else Decimal(n / 10) + [Digit(n % 10)]
  }

  /** %05d of a port, which is never negative */
  function Padded(n: nat): (s: string)
    ensures '-' !in s
  {
    if n < 100000 then FixedDigits(n, 5) else Decimal(n)
  }

  function SocketKey(address: string, port: nat): string { address + "-" + Padded(port) }

  function Value(s: string): int {
    if s == "" then 0 else 10 * Value(s[..|s| - 1]) + (s[|s| - 1] as int - '0' as int)
  }

  function Pow10(k: nat): (p: nat)
    ensures p >= 1
  {
    if k == 0 then 1 else 10 * Pow10(k - 1)
  }

  lemma {:induction false} ValueFixed(n: nat, k: nat)
    requires n < Pow10(k)
    ensures Value(FixedDigits(n, k)) == n
    decreases k
  {
    if k > 0 {
      ValueFixed(n / 10, k - 1);
      var s := FixedDigits(n, k);
      assert s[..|s| - 1] == FixedDigits(n / 10, k - 1);
    }
  }

  lemma {:induction false} ValueDecimal(n: nat)
    ensures Value(Decimal(n)) == n
  {
    var s := Decimal(n);
    if n >= 10 {
      ValueDecimal(n / 10);
      assert s[..|s| - 1] == Decimal(n / 10);
    } else {
      assert s[..0] == "";
    }
  }

  lemma ValuePadded(n: nat)
    ensures Value(Padded(n)) == n
  {
    if n < 100000 {
      assert Pow10(5) == 10 * Pow10(4) == 100 * Pow10(3) == 1000 * Pow10(2) == 10000 * Pow10(1);
      ValueFixed(n, 5);
    } else {
      ValueDecimal(n);
    }
  }

  ghost predicate Digits(s: string) { forall i :: 0 <= i < |s| ==> '0' <= s[i] <= '9' }

  lemma {:induction false} FixedIsDigits(n: nat, k: nat)
    ensures Digits(FixedDigits(n, k))
    decreases k
  {
    if k > 0 { FixedIsDigits(n / 10, k - 1); }
  }

  lemma {:induction false} DecimalIsDigits(n: nat, k: nat)
    ensures Digits(Decimal(n)) && (n > 0 ==> Decimal(n)[0] != '0')
    ensures k > 0 && n >= Pow10(k) ==> |Decimal(n)| > k
  {
    if n >= 10 {
      DecimalIsDigits(n / 10, if k > 0 then k - 1 else 0);
    }
  }

  /** A key ends in the port's decimal digits, at least five of them, with leading zeros only to make up five. */
  lemma KeyFormat(address: string, port: nat)
    ensures address + "-" <= SocketKey(address, port)
    ensures var digits := SocketKey(address, port)[|address| + 1..];
            Digits(digits) && Value(digits) == port && |digits| >= 5 && (|digits| > 5 ==> digits[0] != '0')
  {
    ValuePadded(port);
    FixedIsDigits(port, 5);
    DecimalIsDigits(port, 5);
    assert Pow10(5) == 10 * Pow10(4) == 100 * Pow10(3) == 1000 * Pow10(2) == 10000 * Pow10(1);
    assert SocketKey(address, port)[|address| + 1..] == Padded(port);
  }

  /** The key determines the address and the port, dashes in the address or not. */
  lemma KeyInjective(a: string, p: nat, b: string, q: nat)
    requires SocketKey(a, p) == SocketKey(b, q)
    ensures a == b && p == q
  {
    LastDash(a, Padded(p), b, Padded(q));
    ValuePadded(p);
    ValuePadded(q);
  }

  lemma LastDash(a: string, x: string, b: string, y: string)
    requires a + "-" + x == b + "-" + y && '-' !in x && '-' !in y
    ensures a == b && x == y
  {
    var s, t := a + "-" + x, b + "-" + y;
    DashFree(a, x);
    DashFree(b, y);
    assert |a| == |b|;
    assert s[..|a|] == a && t[..|b|] == b;
    assert s[|a| + 1..] == x && t[|b| + 1..] == y;
  }

  lemma DashFree(a: string, x: string)
    requires '-' !in x
    ensures (a + "-" + x)[|a|] == '-'
    ensures forall i :: |a| < i < |a + "-" + x| ==> (a + "-" + x)[i] != '-'
  {
    forall i | |a| < i < |a + "-" + x| ensures (a + "-" + x)[i] != '-' {
      assert (a + "-" + x)[i] == x[i - |a| - 1];
    }
  }

  lemma {:induction false} FixedOrder(n: nat, m: nat, k: nat)
    requires n < Pow10(k) && m < Pow10(k)
    ensures Less(FixedDigits(n, k), FixedDigits(m, k)) <==> n < m
    decreases k
  {
    if k > 0 {
      FixedOrder(n / 10, m / 10, k - 1);
      ValueFixed(n / 10, k - 1);
      ValueFixed(m / 10, k - 1);
      LessSnoc(FixedDigits(n / 10, k - 1), Digit(n % 10), FixedDigits(m / 10, k - 1), Digit(m % 10));
    }
  }

  /** For one address and ports up to 99999 the order of the keys is the order of the ports. */
  lemma KeysSortByPort(address: string, p: nat, q: nat)
    requires p <= 99999 && q <= 99999
    ensures Less(SocketKey(address, p), SocketKey(address, q)) <==> p < q
  {
    assert Pow10(5) == 10 * Pow10(4) == 100 * Pow10(3) == 1000 * Pow10(2) == 10000 * Pow10(1);
    LessPrefix(address + "-", Padded(p), Padded(q));
    FixedOrder(p, q, 5);
  }

  /** Beyond five digits the two orders part: port 100000 sorts before port 99999. */
  lemma WidePortsSortEarly(address: string)
    ensures Less(SocketKey(address, 100000), SocketKey(address, 99999))
  {
    LessPrefix(address + "-", Padded(100000), Padded(99999));
    FirstDigit(100000);
    assert FixedDigits(99999, 5)[0] == '9' by {
      assert FixedDigits(99999, 5) == FixedDigits(9999, 4) + ['9'];
      assert FixedDigits(9999, 4) == FixedDigits(999, 3) + ['9'];
      assert FixedDigits(999, 3) == FixedDigits(99, 2) + ['9'];
      assert FixedDigits(99, 2) == FixedDigits(9, 1) + ['9'];
      assert FixedDigits(9, 1) == FixedDigits(0, 0) + ['9'];
    }
  }

  /** The keys of the ports up to n, for one address, sort like the ports. */
  ghost predicate SortsByPort(address: string, n: nat) {
    forall p: nat, q: nat :: p <= n && q <= n ==> SortsPair(address, p, q)
  }

  ghost predicate SortsPair(address: string, p: nat, q: nat) {
    Less(SocketKey(address, p), SocketKey(address, q)) <==> p < q
  }

  /** For one address, key order is port order exactly up to port 99999. */
  lemma KeysSortByPortExactly(address: string, n: nat)
    ensures SortsByPort(address, n) <==> n <= 99999
  {
    if n <= 99999 {
      forall p: nat, q: nat | p <= n && q <= n ensures SortsPair(address, p, q) {
        KeysSortByPort(address, p, q);
      }
    } else {
      WidePortsSortEarly(address);
      assert !SortsPair(address, 100000, 99999);
    }
  }

  lemma FirstDigit(n: nat)
    requires n == 100000
    ensures Decimal(n)[0] == '1'
  {
    assert Decimal(n) == Decimal(10000) + ['0'];
    assert Decimal(10000) == Decimal(1000) + ['0'];
    assert Decimal(1000) == Decimal(100) + ['0'];
    assert Decimal(100) == Decimal(10) + ['0'];
    assert Decimal(10) == Decimal(1) + ['0'];
  }
}
