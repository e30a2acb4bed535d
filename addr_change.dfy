/**
 * A reference model of address-change detection as the host test observes
 * it: each new snapshot of the host's addresses is diffed against the
 * previous one, every current address is tagged Added or Maintained, every
 * address that dropped out is tagged Removed, and an event is published
 * only when something was added or removed.
 */
module AddrChange {
  import opened Addrs
  import opened AddrCompare

  /** The addresses of `prev` that are not in `next`, in `prev`'s order, tagged Removed. */
  function Removals(prev: seq<Multiaddr>, next: seq<Multiaddr>): (r: seq<UpdatedAddress>)
    ensures |r| <= |prev|
    ensures forall k :: 0 <= k < |r| ==> r[k].action == Removed && r[k].address in prev && r[k].address !in next
    ensures forall x :: x in prev && x !in next ==> UpdatedAddress(Removed, x) in r
    ensures NoDup(prev) ==> KeysDistinct(r)
  {
    if prev == [] then []
    else
      var rest := Removals(prev[1..], next);
      assert forall x :: x in prev <==> x == prev[0] || x in prev[1..];
      if prev[0] in next then rest else [UpdatedAddress(Removed, prev[0])] + rest
  }

  /** The change event from snapshot `prev` to snapshot `next`. */
  function Diff(prev: seq<Multiaddr>, next: seq<Multiaddr>): (e: LocalAddressesUpdated)
    ensures |e.current| == |next|
    ensures forall i :: 0 <= i < |next| ==>
      e.current[i].address == next[i] && e.current[i].action != Removed
    ensures forall i :: 0 <= i < |next| ==> (e.current[i].action == Added <==> next[i] !in prev)
    ensures forall k :: 0 <= k < |e.removed| ==>
      e.removed[k].action == Removed && e.removed[k].address in prev && e.removed[k].address !in next
    ensures forall x :: x in prev && x !in next ==> UpdatedAddress(Removed, x) in e.removed
    ensures e.diffs <==> Elems(next) != Elems(prev)
  {
    var current := seq(|next|, i requires 0 <= i < |next| =>
      UpdatedAddress(if next[i] in prev then Maintained else Added, next[i]));
    var removed := Removals(prev, next);
    var added := exists x :: x in next && x !in prev;
    assert added ==> Elems(next) != Elems(prev) by {
      if added {
        var x :| x in next && x !in prev;
        assert x in Elems(next) && x !in Elems(prev);
      }
    }
    assert removed != [] ==> Elems(next) != Elems(prev) by {
      if removed != [] {
        assert removed[0].address in Elems(prev) && removed[0].address !in Elems(next);
      }
    }
    LocalAddressesUpdated(added || removed != [], current, removed)
  }

  /** The addresses a list carries under one action. */
  ghost function TaggedWith(us: seq<UpdatedAddress>, act: AddrAction): set<Multiaddr>
  {
    set u | u in us && u.action == act :: u.address
  }

  /** The current list carries the new addresses: Added those not in
      `prev`, Maintained those in it, and nothing Removed. */
  lemma CurrentTags(prev: seq<Multiaddr>, next: seq<Multiaddr>)
    ensures var c := Diff(prev, next).current;
      && TaggedWith(c, Added) + TaggedWith(c, Maintained) == Elems(next)
      && TaggedWith(c, Added) == Elems(next) - Elems(prev)
      && TaggedWith(c, Removed) == {}
  {
    var c := Diff(prev, next).current;
    forall x | x in Elems(next) ensures x in TaggedWith(c, Added) + TaggedWith(c, Maintained) {
      var i :| 0 <= i < |next| && next[i] == x;
      assert c[i] in c;
    }
    forall u | u in c ensures u.address in Elems(next) && u.action != Removed {
      var i :| 0 <= i < |c| && c[i] == u;
    }
  }

  /** The removed list carries exactly the addresses of `prev` missing from
      `next`, all tagged Removed. */
  lemma RemovedTags(prev: seq<Multiaddr>, next: seq<Multiaddr>)
    ensures var r := Diff(prev, next).removed;
      && TaggedWith(r, Removed) == Elems(prev) - Elems(next)
      && TaggedWith(r, Added) + TaggedWith(r, Maintained) == {}
  {
    var r := Diff(prev, next).removed;
    forall x | x in Elems(prev) - Elems(next) ensures x in TaggedWith(r, Removed) {
      assert UpdatedAddress(Removed, x) in r;
    }
    forall u | u in r ensures u.action == Removed && u.address in Elems(prev) - Elems(next) {
      var k :| 0 <= k < |r| && r[k] == u;
    }
  }

  /** The three actions partition the union of the snapshots exactly:
      Added is next minus prev, Maintained their intersection, Removed prev
      minus next; so Added and Maintained together are next, and Removed and
      Maintained together are prev. */
  lemma DiffPartition(prev: seq<Multiaddr>, next: seq<Multiaddr>)
    ensures var e := Diff(prev, next);
      && TaggedWith(e.current, Added) == Elems(next) - Elems(prev)
      && TaggedWith(e.current, Maintained) == Elems(next) * Elems(prev)
      && TaggedWith(e.current, Removed) == {}
      && TaggedWith(e.removed, Removed) == Elems(prev) - Elems(next)
      && TaggedWith(e.removed, Added) + TaggedWith(e.removed, Maintained) == {}
  {
    CurrentTags(prev, next);
    RemovedTags(prev, next);
    var c := Diff(prev, next).current;
    forall x | x in TaggedWith(c, Maintained) ensures x in Elems(prev) {
      var u :| u in c && u.action == Maintained && u.address == x;
      var i :| 0 <= i < |c| && c[i] == u;
    }
  }

  /** An unchanged snapshot yields no diff: nothing Added, nothing Removed. */
  lemma DiffOfSameSnapshot(s: seq<Multiaddr>)
    ensures !Diff(s, s).diffs
    ensures Diff(s, s).removed == []
    ensures forall i :: 0 <= i < |s| ==> Diff(s, s).current[i] == UpdatedAddress(Maintained, s[i])
  {
  }

  /** The keys of the current list: each next address under its tag. */
  lemma CurrentKeys(prev: seq<Multiaddr>, next: seq<Multiaddr>)
    ensures forall k :: k in KeySet(Diff(prev, next).current) <==>
      k.bytes in next && k.action == (if k.bytes in prev then Maintained else Added)
  {
    var c := Diff(prev, next).current;
    forall k ensures k in KeySet(c) <==> k.bytes in next && k.action == (if k.bytes in prev then Maintained else Added) {
      if k in KeySet(c) {
        var u :| u in c && Key(u) == k;
        var i :| 0 <= i < |c| && c[i] == u;
      }
      if k.bytes in next && k.action == (if k.bytes in prev then Maintained else Added) {
        var i :| 0 <= i < |next| && next[i] == k.bytes;
        assert c[i] in c && Key(c[i]) == k;
      }
    }
  }

  /** The keys of the removed list: each address of prev not in next, tagged Removed. */
  lemma RemovedKeys(prev: seq<Multiaddr>, next: seq<Multiaddr>)
    ensures forall k :: k in KeySet(Diff(prev, next).removed) <==>
      k.bytes in prev && k.bytes !in next && k.action == Removed
  {
    var r := Diff(prev, next).removed;
    forall k ensures k in KeySet(r) <==> k.bytes in prev && k.bytes !in next && k.action == Removed {
      if k in KeySet(r) {
        var u :| u in r && Key(u) == k;
        var i :| 0 <= i < |r| && r[i] == u;
      }
      if k.bytes in prev && k.bytes !in next && k.action == Removed {
        assert UpdatedAddress(Removed, k.bytes) in r;
      }
    }
  }

  /** The diff depends only on the snapshots as sets: for duplicate-free
      snapshots, reordering either one gives an event that compares equal. */
  lemma DiffIgnoresOrder(prev: seq<Multiaddr>, next: seq<Multiaddr>, prev': seq<Multiaddr>, next': seq<Multiaddr>)
    requires NoDup(prev) && NoDup(next) && NoDup(prev') && NoDup(next')
    requires Elems(prev) == Elems(prev') && Elems(next) == Elems(next')
    ensures AddrEventsMatch(Diff(prev, next), Diff(prev', next'))
  {
    var e, e' := Diff(prev, next), Diff(prev', next');
    assert forall x :: x in prev <==> x in Elems(prev);
    assert forall x :: x in prev' <==> x in Elems(prev');
    assert forall x :: x in next <==> x in Elems(next);
    assert forall x :: x in next' <==> x in Elems(next');
    CurrentKeys(prev, next);
    CurrentKeys(prev', next');
    RemovedKeys(prev, next);
    RemovedKeys(prev', next');
    assert KeySet(e.current) == KeySet(e'.current);
    assert KeySet(e.removed) == KeySet(e'.removed);
    assert KeysDistinct(e.current);
    assert KeysDistinct(e'.current);
    MatchDistinctIsSetEquality(e.current, e'.current);
    MatchDistinctIsSetEquality(e.removed, e'.removed);
  }

  /** What one change check publishes: the diff event if its flag is set, otherwise nothing. */
  function CheckStep(prev: seq<Multiaddr>, current: seq<Multiaddr>): (r: seq<LocalAddressesUpdated>)
    ensures |r| <= 1
    ensures r != [] <==> Elems(current) != Elems(prev)
    ensures forall k :: 0 <= k < |r| ==> r[k].diffs
  {
    var e := Diff(prev, current);
    if e.diffs then [e] else []
  }

  /** The events published while the host moves from snapshot `prev`
      through each snapshot of `steps` in turn. */
  function Published(prev: seq<Multiaddr>, steps: seq<seq<Multiaddr>>): (r: seq<LocalAddressesUpdated>)
    ensures |r| <= |steps|
    ensures forall k :: 0 <= k < |r| ==> r[k].diffs
    decreases |steps|
  {
    if steps == [] then [] else CheckStep(prev, steps[0]) + Published(steps[0], steps[1..])
  }

  /** Publishing from position `i` on is the check at `i`, then the rest from there. */
  lemma PublishedFrom(prev: seq<Multiaddr>, steps: seq<seq<Multiaddr>>, i: nat)
    requires i < |steps|
    ensures Published(prev, steps[i..]) == CheckStep(prev, steps[i]) + Published(steps[i], steps[i + 1..])
  {
    assert steps[i..][1..] == steps[i + 1..];
  }

  lemma SeqAssoc(a: seq<LocalAddressesUpdated>, b: seq<LocalAddressesUpdated>, c: seq<LocalAddressesUpdated>)
    ensures (a + b) + c == a + (b + c)
  {}

  /** Checking twice against the same snapshot publishes nothing the second time. */
  lemma RepeatedCheckPublishesNothing(prev: seq<Multiaddr>, s: seq<Multiaddr>)
    ensures Published(prev, [s, s]) == Published(prev, [s])
  {
    DiffOfSameSnapshot(s);
    assert [s, s][1..] == [s];
    assert [s][1..] == [];
    assert CheckStep(s, s) == [];
  }

  /** The host's change detector: the previous snapshot and the events it
      has published so far. */
  class AddrChangeTracker {
    var previous: seq<Multiaddr>
    var published: seq<LocalAddressesUpdated>

    constructor (initial: seq<Multiaddr>)
      ensures previous == initial && published == []
    {
      previous := initial;
      published := [];
    }

    /** Diffs `current` against the previous snapshot, publishes the event if
        anything was added or removed, and keeps `current` as the new previous
        snapshot either way. */
    method CheckForAddressChanges(current: seq<Multiaddr>)
      modifies this
      ensures previous == current
      ensures published == old(published) + CheckStep(old(previous), current)
    {
      var e := Diff(previous, current);
      if e.diffs {
        published := published + [e];
      }
      previous := current;
    }
  }

  /** The test's driver: start a host on the first snapshot, move through
      the rest calling the change check after each, and collect what was
      published. */
  method RunChangeDetection(initial: seq<Multiaddr>, steps: seq<seq<Multiaddr>>)
    returns (received: seq<LocalAddressesUpdated>)
    ensures received == Published(initial, steps)
  {
    var h := new AddrChangeTracker(initial);
    ghost var all := Published(initial, steps);
    for i := 0 to |steps|
      invariant h.published + Published(h.previous, steps[i..]) == all
    {
      ghost var before, prev := h.published, h.previous;
      PublishedFrom(prev, steps, i);
      h.CheckForAddressChanges(steps[i]);
      assert h.published == before + CheckStep(prev, steps[i]);
      assert h.previous == steps[i];
      SeqAssoc(before, CheckStep(prev, steps[i]), Published(steps[i], steps[i + 1..]));
    }
    assert steps[|steps|..] == [];
    received := h.published;
  }

  // The test's snapshots, in binary multiaddr form (ip4 protocol code 0x04
  // with four address bytes, tcp protocol code 0x06 with a two-byte port).

  /** `/ip4/1.2.3.4/tcp/1234` */
  const Addr1: Multiaddr := [0x04, 1, 2, 3, 4, 0x06, 0x04, 0xD2]
  /** `/ip4/2.3.4.5/tcp/1234` */
  const Addr2: Multiaddr := [0x04, 2, 3, 4, 5, 0x06, 0x04, 0xD2]
  /** `/ip4/3.4.5.6/tcp/4321` */
  const Addr3: Multiaddr := [0x04, 3, 4, 5, 6, 0x06, 0x10, 0xE1]

  const AddrSets: seq<seq<Multiaddr>> := [[], [Addr1], [Addr1, Addr2], [Addr2, Addr3]]

  const ExpectedEvents: seq<LocalAddressesUpdated> := [
    LocalAddressesUpdated(true, [UpdatedAddress(Added, Addr1)], []),
    LocalAddressesUpdated(true, [UpdatedAddress(Maintained, Addr1), UpdatedAddress(Added, Addr2)], []),
    LocalAddressesUpdated(true, [UpdatedAddress(Added, Addr3), UpdatedAddress(Maintained, Addr2)],
                          [UpdatedAddress(Removed, Addr1)])
  ]

  lemma AddrsDistinct()
    ensures Addr1 != Addr2 && Addr2 != Addr3 && Addr1 != Addr3
  {
    assert Addr1[1] != Addr2[1] && Addr2[1] != Addr3[1] && Addr1[1] != Addr3[1];
  }

  lemma FirstStepMatches()
    ensures Diff([], [Addr1]).diffs
    ensures AddrEventsMatch(ExpectedEvents[0], Diff([], [Addr1]))
    ensures AddrEventsMatch(Diff([], [Addr1]), ExpectedEvents[0])
  {
    var e := Diff([], [Addr1]);
    assert Addr1 in Elems([Addr1]);
    assert e == ExpectedEvents[0];
    MatchReflexive(e.current);
    MatchReflexive(e.removed);
  }

  lemma SecondStepMatches()
    ensures Diff([Addr1], [Addr1, Addr2]).diffs
    ensures AddrEventsMatch(ExpectedEvents[1], Diff([Addr1], [Addr1, Addr2]))
    ensures AddrEventsMatch(Diff([Addr1], [Addr1, Addr2]), ExpectedEvents[1])
  {
    AddrsDistinct();
    var e := Diff([Addr1], [Addr1, Addr2]);
    assert Addr2 in Elems([Addr1, Addr2]) && Addr2 !in Elems([Addr1]);
    assert e.current == [UpdatedAddress(Maintained, Addr1), UpdatedAddress(Added, Addr2)];
    assert e.removed == [];
    MatchReflexive(e.current);
    MatchReflexive(e.removed);
  }

  lemma ThirdStepMatches()
    ensures Diff([Addr1, Addr2], [Addr2, Addr3]).diffs
    ensures AddrEventsMatch(ExpectedEvents[2], Diff([Addr1, Addr2], [Addr2, Addr3]))
    ensures AddrEventsMatch(Diff([Addr1, Addr2], [Addr2, Addr3]), ExpectedEvents[2])
  {
    AddrsDistinct();
    var next := [Addr2, Addr3];
    var e := Diff([Addr1, Addr2], next);
    var x := ExpectedEvents[2];
    assert Addr3 in Elems(next) && Addr3 !in Elems([Addr1, Addr2]);
    assert e.current == [UpdatedAddress(Maintained, Addr2), UpdatedAddress(Added, Addr3)];
    assert e.removed == [UpdatedAddress(Removed, Addr1)] by {
      assert [Addr1, Addr2][1..] == [Addr2];
      assert [Addr2][1..] == [];
      assert Removals([Addr2], next) == [];
    }
    assert KeySet(e.current) == KeySet(x.current);
    MatchDistinctIsSetEquality(x.current, e.current);
    MatchReflexive(e.removed);
  }

  /** Each consecutive pair of the test's snapshots diffs to the event the
      test expects, compared as the test compares them (and the other way round). */
  lemma DiffMatchesExpectedEvents(k: nat)
    requires k < 3
    ensures Diff(AddrSets[k], AddrSets[k + 1]).diffs
    ensures AddrEventsMatch(ExpectedEvents[k], Diff(AddrSets[k], AddrSets[k + 1]))
    ensures AddrEventsMatch(Diff(AddrSets[k], AddrSets[k + 1]), ExpectedEvents[k])
  {
    if k == 0 {
      FirstStepMatches();
    } else if k == 1 {
      SecondStepMatches();
    } else {
      ThirdStepMatches();
    }
  }

  /** A step that changes the snapshot publishes its diff ahead of the rest. */
  lemma PublishedChange(prev: seq<Multiaddr>, steps: seq<seq<Multiaddr>>)
    requires steps != [] && Diff(prev, steps[0]).diffs
    ensures Published(prev, steps) == [Diff(prev, steps[0])] + Published(steps[0], steps[1..])
  {
    assert CheckStep(prev, steps[0]) == [Diff(prev, steps[0])];
  }

  /** Three steps that each change the snapshot publish their three diffs, in order. */
  lemma PublishedThreeChanges(p0: seq<Multiaddr>, p1: seq<Multiaddr>, p2: seq<Multiaddr>, p3: seq<Multiaddr>)
    requires Diff(p0, p1).diffs && Diff(p1, p2).diffs && Diff(p2, p3).diffs
    ensures Published(p0, [p1, p2, p3]) == [Diff(p0, p1), Diff(p1, p2), Diff(p2, p3)]
  {
    var s3: seq<seq<Multiaddr>> := [p1, p2, p3];
    var s2: seq<seq<Multiaddr>> := [p2, p3];
    var s1: seq<seq<Multiaddr>> := [p3];
    assert s3[1..] == s2 && s2[1..] == s1 && |s1[1..]| == 0;
    PublishedChange(p2, s1);
    PublishedChange(p1, s2);
    PublishedChange(p0, s3);
  }

  /** Driving the test's snapshots through the change check publishes
      exactly as many events as the test expects, each comparing equal to
      the expected one. */
  lemma TestSequencePublishesExpectedEvents()
    ensures |Published(AddrSets[0], AddrSets[1..])| == |ExpectedEvents|
    ensures forall k :: 0 <= k < |ExpectedEvents| ==>
      AddrEventsMatch(ExpectedEvents[k], Published(AddrSets[0], AddrSets[1..])[k])
  {
    DiffMatchesExpectedEvents(0);
    DiffMatchesExpectedEvents(1);
    DiffMatchesExpectedEvents(2);
    assert AddrSets[1..] == [AddrSets[1], AddrSets[2], AddrSets[3]];
    PublishedThreeChanges(AddrSets[0], AddrSets[1], AddrSets[2], AddrSets[3]);
  }
}
