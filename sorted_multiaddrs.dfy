/**
 * The sort key the host tests use to put resolved addresses in a fixed
 * order: byte-wise comparison of binary multiaddrs with `Less` meaning
 * "greater", so a sort yields descending byte order.
 */
module SortedMultiaddrs {
  import opened Addrs

  /** Three-way byte comparison: -1, 0 or +1; a proper prefix comes first. */
  function Compare(x: Multiaddr, y: Multiaddr): (r: int)
    ensures -1 <= r <= 1
    ensures r == 0 <==> x == y
  {
    if |x| == 0 then (if |y| == 0 then 0 else -1)
    else if |y| == 0 then 1
    else if x[0] < y[0] then -1
    else if x[0] > y[0] then 1
    else
      var r := Compare(x[1..], y[1..]);
      assert r == 0 ==> x == [x[0]] + x[1..] == [y[0]] + y[1..] == y;
      r
  }

  /** Lexicographic "greater", written out independently of `Compare`:
      the first differing byte is larger in `x`, or `y` is a proper prefix of `x`. */
  ghost predicate LexGreater(x: Multiaddr, y: Multiaddr)
  {
    || (exists k :: 0 <= k < |x| && k < |y| && x[..k] == y[..k] && x[k] > y[k])
    || (|y| < |x| && x[..|y|] == y)
  }

  /** The relation a sort by `Less` uses: `Compare(x, y) == 1`. */
  predicate Greater(x: Multiaddr, y: Multiaddr)
  {
    Compare(x, y) == 1
  }

  /** `Less(i, j)` of the sort interface: element i's bytes are greater than element j's. */
  function Less(sma: array<Multiaddr>, i: int, j: int): (r: bool)
    reads sma
    requires 0 <= i < sma.Length && 0 <= j < sma.Length
    ensures r <==> LexGreater(sma[i], sma[j])
  {
    GreaterIsLexGreater(sma[i], sma[j]);
    Greater(sma[i], sma[j])
  }

  /** The list after exchanging slots `i` and `j`. */
  function Swapped(s: seq<Multiaddr>, i: nat, j: nat): (r: seq<Multiaddr>)
    requires i < |s| && j < |s|
    ensures |r| == |s| && r[i] == s[j] && r[j] == s[i]
    ensures forall k :: 0 <= k < |s| && k != i && k != j ==> r[k] == s[k]
    ensures multiset(r) == multiset(s)
  {
    s[i := s[j]][j := s[i]]
  }

  /** `Swap(i, j)` of the sort interface: exchanges two slots in place. */
  method Swap(sma: array<Multiaddr>, i: int, j: int)
    requires 0 <= i < sma.Length && 0 <= j < sma.Length
    modifies sma
    ensures sma[..] == Swapped(old(sma[..]), i, j)
  {
    sma[i], sma[j] := sma[j], sma[i];
  }

  /** Swapping the same two slots again restores the list. */
  lemma SwapTwiceRestores(s: seq<Multiaddr>, i: nat, j: nat)
    requires i < |s| && j < |s|
    ensures Swapped(Swapped(s, i, j), i, j) == s
  {
  }

  lemma {:induction false} GreaterIsLexGreater(x: Multiaddr, y: Multiaddr)
    ensures Greater(x, y) <==> LexGreater(x, y)
  {
    if |x| == 0 {
    } else if |y| == 0 {
      assert x[..|y|] == y;
    } else if x[0] > y[0] {
      assert x[..0] == y[..0];
    } else if x[0] < y[0] {
    } else {
      var x', y' := x[1..], y[1..];
      GreaterIsLexGreater(x', y');
      assert Greater(x, y) == Greater(x', y');
      if LexGreater(x', y') {
        if k :| 0 <= k < |x'| && k < |y'| && x'[..k] == y'[..k] && x'[k] > y'[k] {
          assert x[..k + 1] == [x[0]] + x'[..k];
          assert y[..k + 1] == [y[0]] + y'[..k];
          assert x[k + 1] > y[k + 1];
        } else {
          assert x[..|y|] == [x[0]] + x'[..|y'|];
        }
      }
      if LexGreater(x, y) {
        if k :| 0 <= k < |x| && k < |y| && x[..k] == y[..k] && x[k] > y[k] {
          assert k > 0;
          assert x'[..k - 1] == x[..k][1..];
          assert y'[..k - 1] == y[..k][1..];
          assert x'[k - 1] > y'[k - 1];
        } else {
          assert x'[..|y'|] == x[..|y|][1..];
        }
      }
    }
  }

  /** Swapping the arguments negates the comparison. */
  lemma {:induction false} CompareAntisymmetric(x: Multiaddr, y: Multiaddr)
    ensures Compare(y, x) == -Compare(x, y)
  {
    if |x| > 0 && |y| > 0 && x[0] == y[0] {
      CompareAntisymmetric(x[1..], y[1..]);
    }
  }

  lemma {:induction false} GreaterTransitive(x: Multiaddr, y: Multiaddr, z: Multiaddr)
    requires Greater(x, y) && Greater(y, z)
    ensures Greater(x, z)
  {
    if |z| > 0 && x[0] == z[0] {
      assert x[0] == y[0] == z[0];
      GreaterTransitive(x[1..], y[1..], z[1..]);
    }
  }

  /** `Greater` is a strict total order on byte strings: irreflexive,
      asymmetric, transitive, and any two distinct strings are related. */
  lemma GreaterIsStrictTotalOrder()
    ensures forall x :: !Greater(x, x)
    ensures forall x, y :: Greater(x, y) ==> !Greater(y, x)
    ensures forall x, y, z :: Greater(x, y) && Greater(y, z) ==> Greater(x, z)
    ensures forall x, y :: x != y ==> Greater(x, y) || Greater(y, x)
  {
    forall x, y ensures Compare(y, x) == -Compare(x, y) {
      CompareAntisymmetric(x, y);
    }
    forall x, y, z | Greater(x, y) && Greater(y, z) ensures Greater(x, z) {
      GreaterTransitive(x, y, z);
    }
  }

  /** What a sort by this interface leaves behind: no element is `Less`
      than the one before it. */
  predicate SortedByLess(s: seq<Multiaddr>)
  {
    forall i :: 0 < i < |s| ==> !Greater(s[i], s[i - 1])
  }

  /** A list sorted by `Less` is in descending byte order: each element is
      greater than or equal to every later one. */
  lemma {:induction false} SortedIsDescending(s: seq<Multiaddr>, i: nat, j: nat)
    requires SortedByLess(s)
    requires i < j < |s|
    ensures s[i] == s[j] || Greater(s[i], s[j])
    decreases j - i
  {
    GreaterIsStrictTotalOrder();
    if i + 1 < j {
      SortedIsDescending(s, i + 1, j);
    }
  }

  /** `/dnsaddr/example.com` in binary form: protocol code 0x38, a length
      byte, then the name. */
  const DnsaddrExample: Multiaddr :=
    [0x38, 11, 'e' as int, 'x' as int, 'a' as int, 'm' as int, 'p' as int, 'l' as int,
     'e' as int, '.' as int, 'c' as int, 'o' as int, 'm' as int]

  /** `/ip4/192.0.2.1/tcp/123` in binary form: protocol code 0x04 and four
      address bytes, then protocol code 0x06 and a two-byte port. */
  const Ip4Tcp123: Multiaddr := [0x04, 192, 0, 2, 1, 0x06, 0, 123]

  /** The resolution tests expect the two resolved addresses sorted as
      `[/dnsaddr/example.com, /ip4/192.0.2.1/tcp/123]`: that is the only
      sorted arrangement of them. */
  lemma ResolvedAddrsSortOrder(s: seq<Multiaddr>)
    requires multiset(s) == multiset([Ip4Tcp123, DnsaddrExample])
    requires SortedByLess(s)
    ensures s == [DnsaddrExample, Ip4Tcp123]
  {
    assert |s| == |multiset(s)| == 2;
    assert Greater(DnsaddrExample, Ip4Tcp123);
    CompareAntisymmetric(DnsaddrExample, Ip4Tcp123);
    assert s[0] in multiset(s) && s[1] in multiset(s);
  }
}
