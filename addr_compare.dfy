/**
 * Order-insensitive comparison of tagged address lists and of whole
 * local-address events, as the host tests use it to check emitted events.
 */
module AddrCompare {
  import opened Addrs

  /** The lookup key built for one tagged address: its action together with
      its address bytes. */
  datatype AddrKey = AddrKey(action: AddrAction, bytes: Multiaddr)

  function Key(u: UpdatedAddress): AddrKey
  {
    AddrKey(u.action, u.address)
  }

  /** The keys of every element of a list. */
  function KeySet(a: seq<UpdatedAddress>): set<AddrKey>
  {
    set u | u in a :: Key(u)
  }

  /** No key occurs twice in the list. */
  predicate KeysDistinct(a: seq<UpdatedAddress>)
  {
    forall i, j :: 0 <= i < j < |a| ==> Key(a[i]) != Key(a[j])
  }

  /** What the comparison answers: equal lengths, and every element of `b`
      has its key among the keys of `a`. */
  predicate AddrListsMatch(a: seq<UpdatedAddress>, b: seq<UpdatedAddress>)
  {
    |a| == |b| && forall k :: 0 <= k < |b| ==> Key(b[k]) in KeySet(a)
  }

  /** Whole events match when their flags agree and both inner lists match. */
  predicate AddrEventsMatch(a: LocalAddressesUpdated, b: LocalAddressesUpdated)
  {
    a.diffs == b.diffs && AddrListsMatch(a.current, b.current) && AddrListsMatch(a.removed, b.removed)
  }

  /** Compares two tagged address lists ignoring order: first the lengths,
      then a set of the keys of `a`, then a membership test for each
      element of `b` that stops at the first miss. */
  method UpdatedAddrsEqual(a: seq<UpdatedAddress>, b: seq<UpdatedAddress>) returns (eq: bool)
    ensures |a| != |b| ==> !eq
    ensures eq <==> |a| == |b| && KeySet(b) <= KeySet(a)
    ensures eq == AddrListsMatch(a, b)
  {
    if |a| != |b| {
      return false;
    }
    var aSet: set<AddrKey> := {};
    for i := 0 to |a|
      invariant aSet == KeySet(a[..i])
    {
      KeySetSnoc(a[..i], a[i]);
      assert a[..i + 1] == a[..i] + [a[i]];
      aSet := aSet + {Key(a[i])};
    }
    assert a[..|a|] == a;
    for j := 0 to |b|
      invariant forall k :: 0 <= k < j ==> Key(b[k]) in aSet
    {
      if Key(b[j]) !in aSet {
        return false;
      }
    }
    MatchIsKeyInclusion(a, b);
    return true;
  }

  /** Compares two local-address events: the flags, then the current lists,
      then the removed lists, stopping at the first difference. */
  method UpdatedAddrEventsEqual(a: LocalAddressesUpdated, b: LocalAddressesUpdated) returns (eq: bool)
    ensures eq == AddrEventsMatch(a, b)
  {
    eq := a.diffs == b.diffs;
    if eq {
      eq := UpdatedAddrsEqual(a.current, b.current);
    }
    if eq {
      eq := UpdatedAddrsEqual(a.removed, b.removed);
    }
  }

  lemma KeySetSnoc(a: seq<UpdatedAddress>, u: UpdatedAddress)
    ensures KeySet(a + [u]) == KeySet(a) + {Key(u)}
  {
    assert forall v :: v in a + [u] <==> v in a || v == u;
  }

  /** The list comparison is inclusion of key sets at equal length. */
  lemma MatchIsKeyInclusion(a: seq<UpdatedAddress>, b: seq<UpdatedAddress>)
    ensures AddrListsMatch(a, b) <==> |a| == |b| && KeySet(b) <= KeySet(a)
  {
    if AddrListsMatch(a, b) {
      forall k | k in KeySet(b) ensures k in KeySet(a) {
        var u :| u in b && Key(u) == k;
        var i :| 0 <= i < |b| && b[i] == u;
      }
    }
  }

  /** Some element of `a` carries the same action and the same address bytes as `u`. */
  ghost predicate Occurs(a: seq<UpdatedAddress>, u: UpdatedAddress)
  {
    exists i :: 0 <= i < |a| && a[i].action == u.action && a[i].address == u.address
  }

  /** A matching `b` borrows every (action, bytes) pair from some element of `a`. */
  lemma MatchedKeysOccur(a: seq<UpdatedAddress>, b: seq<UpdatedAddress>)
    requires AddrListsMatch(a, b)
    ensures forall k :: 0 <= k < |b| ==> Occurs(a, b[k])
  {
    forall k | 0 <= k < |b| ensures Occurs(a, b[k]) {
      assert Key(b[k]) in KeySet(a);
      var u :| u in a && Key(u) == Key(b[k]);
      var i :| 0 <= i < |a| && a[i] == u;
      assert a[i].action == b[k].action && a[i].address == b[k].address;
    }
  }

  /** The action is part of the key: one address under two actions does not match. */
  lemma ActionIsPartOfKey(a: seq<UpdatedAddress>, v: UpdatedAddress)
    requires forall i :: 0 <= i < |a| ==> a[i].address == v.address && a[i].action != v.action
    ensures !AddrListsMatch(a, [v])
  {
    assert Key(v) !in KeySet(a);
    assert [v][0] == v;
  }

  /** Reordering is ignored: a permutation of `a` matches `a`. */
  lemma MatchPermutation(a: seq<UpdatedAddress>, b: seq<UpdatedAddress>)
    requires multiset(a) == multiset(b)
    ensures AddrListsMatch(a, b)
  {
    assert |a| == |multiset(a)| == |multiset(b)| == |b|;
    forall k | 0 <= k < |b| ensures Key(b[k]) in KeySet(a) {
      assert b[k] in multiset(b);
      assert b[k] in a;
    }
  }

  /** In particular every list matches itself. */
  lemma MatchReflexive(a: seq<UpdatedAddress>)
    ensures AddrListsMatch(a, a)
  {
    MatchPermutation(a, a);
  }

  /** A list without repeated keys has exactly as many keys as elements. */
  lemma {:induction false} KeySetCardinality(a: seq<UpdatedAddress>)
    requires KeysDistinct(a)
    ensures |KeySet(a)| == |a|
  {
    if a != [] {
      var init := a[..|a| - 1];
      var last := a[|a| - 1];
      assert a == init + [last];
      assert KeysDistinct(init);
      KeySetCardinality(init);
      KeySetSnoc(init, last);
      assert Key(last) !in KeySet(init);
    }
  }

  /** Without repeated keys, the comparison is equality of key sets (and so
      symmetric). */
  lemma MatchDistinctIsSetEquality(a: seq<UpdatedAddress>, b: seq<UpdatedAddress>)
    requires KeysDistinct(a) && KeysDistinct(b)
    ensures AddrListsMatch(a, b) <==> KeySet(a) == KeySet(b)
  {
    MatchIsKeyInclusion(a, b);
    KeySetCardinality(a);
    KeySetCardinality(b);
    if AddrListsMatch(a, b) {
      var ka, kb := KeySet(a), KeySet(b);
      assert |ka - kb| == |ka| - |kb|;
      assert ka - kb == {};
      assert ka == kb;
    }
  }

  /** With repeated keys the comparison is strictly weaker than set equality
      and not symmetric: `[x, y]` against `[x, x]`. */
  lemma MatchNotSymmetric(x: UpdatedAddress, y: UpdatedAddress)
    requires Key(x) != Key(y)
    ensures AddrListsMatch([x, y], [x, x])
    ensures !AddrListsMatch([x, x], [x, y])
    ensures KeySet([x, y]) != KeySet([x, x])
  {
    assert KeySet([x, x]) == {Key(x)};
    assert Key(y) in KeySet([x, y]);
  }
}
