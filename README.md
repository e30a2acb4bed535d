# Address-change comparison and ordering helpers of the libp2p basic host tests

This project is a Dafny model of the sequential logic in the go-libp2p basic
host test file `p2p/host/basic/basic_host_test.go`, plus the proofs about it:

- **Comparing tagged address lists and events without regard to order.**
  `updatedAddrsEqual` first checks the lengths. It then builds a set of
  `(action, address bytes)` keys from the first list and checks that every
  element of the second list is in that set. `updatedAddrEventsEqual` also
  compares the `Diffs` flags and applies the list comparison to both the
  `Current` and the `Removed` lists. Both are modelled as methods with loops
  (module `AddrCompare`) and proved against the predicates `AddrListsMatch`
  and `AddrEventsMatch`. The lemmas state exactly what a `true` answer means.
  For lists without repeated keys it means equal key sets. With repeated keys
  it is strictly weaker, and it is not symmetric.
- **The `sortedMultiaddrs` sort interface.** `Less(i, j)` is
  `bytes.Compare(i, j) == 1`, so sorting gives descending byte order.
  `Swap` exchanges two slots in place. Module `SortedMultiaddrs` models
  `bytes.Compare` and proves that `Less` matches an independent lexicographic
  definition and is a strict total order. It also proves that a list sorted
  by it is in descending order, so the resolution tests' expected order
  `[/dnsaddr/…, /ip4/…]` is the only sorted arrangement. `Swap` is a method
  on an array.
- **Address-change detection as the change-detection test observes it.**
  Module `AddrChange` has a reference `Diff(prev, next)`:
  - it tags each element of `next` as Added or Maintained;
  - it tags each element of `prev` that is missing from `next` as Removed;
  - it sets the flag when the two snapshots differ as sets.

  It also has a tracker that publishes an event only when the flag is set,
  and the test's driver loop. The host implementation is not part of this
  model, so `Diff` and the tracker are not claimed to mirror that code. They
  are a reference for the behaviour the test asserts. The test's four
  snapshots and three expected events are proved to match under the test's
  own comparison.

Addresses are opaque byte strings (`Multiaddr = seq<Byte>`). The
multiaddr codec is not modelled. The test's concrete addresses are written
out in their binary form (protocol code, then address bytes). Only their
distinctness and, for the sort, their first byte matter. The `Len` method of
the sort interface is the array's `Length`.

The map key `string(Action) + "::" + bytes` is modelled as the pair
`AddrKey(action, bytes)`. This treats the string encoding as injective,
which holds because each action is a single rune.

## Model

| member | source | states |
|---|---|---|
| AddrCompare.UpdatedAddrsEqual | p2p/host/basic/basic_host_test.go:620-638 | returns false when the lengths differ; otherwise true exactly when every (action, bytes) key of `b` is among the keys of `a` |
| AddrCompare.UpdatedAddrEventsEqual | p2p/host/basic/basic_host_test.go:643-647 | true exactly when the `Diffs` flags agree and both the `Current` and the `Removed` lists match under the list comparison |
| AddrCompare.MatchIsKeyInclusion | p2p/host/basic/basic_host_test.go:620-638 | the list comparison is equal length plus inclusion of `b`'s key set in `a`'s key set |
| AddrCompare.MatchedKeysOccur | p2p/host/basic/basic_host_test.go:625-637 | when the lists match, each element of `b` has an element of `a` with the same action and the same address bytes |
| AddrCompare.ActionIsPartOfKey | p2p/host/basic/basic_host_test.go:626-634 | the same address under a different action does not match: the key includes the action |
| AddrCompare.MatchPermutation | p2p/host/basic/basic_host_test.go:618-624 | ordering is ignored: any permutation of `a` matches `a` |
| AddrCompare.MatchReflexive | p2p/host/basic/basic_host_test.go:618-624 | every list matches itself |
| AddrCompare.MatchDistinctIsSetEquality | p2p/host/basic/basic_host_test.go:620-638 | for lists without repeated keys, the comparison holds exactly when the key sets are equal |
| AddrCompare.MatchNotSymmetric | p2p/host/basic/basic_host_test.go:620-638 | with repeated keys, `[x, y]` against `[x, x]` matches but the reverse does not, and the key sets differ |
| SortedMultiaddrs.Compare | p2p/host/basic/basic_host_test.go:614-616 | the byte comparison `Less` uses returns -1, 0 or +1, and 0 exactly for equal byte strings |
| SortedMultiaddrs.Less | p2p/host/basic/basic_host_test.go:614-616 | `Less(i, j)` holds exactly when element i's bytes are lexicographically greater than element j's |
| SortedMultiaddrs.GreaterIsLexGreater | p2p/host/basic/basic_host_test.go:614-616 | `Compare(x, y) == 1` holds exactly when the first differing byte is larger in `x`, or `y` is a proper prefix of `x` |
| SortedMultiaddrs.CompareAntisymmetric | p2p/host/basic/basic_host_test.go:614-616 | swapping the arguments of the byte comparison negates the result |
| SortedMultiaddrs.GreaterTransitive | p2p/host/basic/basic_host_test.go:614-616 | the relation behind `Less` is transitive |
| SortedMultiaddrs.GreaterIsStrictTotalOrder | p2p/host/basic/basic_host_test.go:614-616 | the relation behind `Less` is irreflexive, asymmetric, transitive, and relates any two distinct byte strings |
| SortedMultiaddrs.SortedIsDescending | p2p/host/basic/basic_host_test.go:434-437 | in a list sorted by `Less`, each element is equal to or byte-wise greater than every later element |
| SortedMultiaddrs.ResolvedAddrsSortOrder | p2p/host/basic/basic_host_test.go:432-437 | the only sorted arrangement of the two resolved addresses is `[/dnsaddr/example.com, /ip4/192.0.2.1/tcp/123]`, the order the assertion expects |
| SortedMultiaddrs.Swapped | p2p/host/basic/basic_host_test.go:613 | exchanging slots i and j keeps the length, puts each element in the other slot, leaves all other slots alone, and keeps the multiset |
| SortedMultiaddrs.Swap | p2p/host/basic/basic_host_test.go:613 | the array after the call is the old contents with slots i and j exchanged |
| SortedMultiaddrs.SwapTwiceRestores | p2p/host/basic/basic_host_test.go:613 | swapping the same two slots twice restores the list |
| AddrChange.Removals | p2p/host/basic/basic_host_test.go:545-547 | every entry is tagged Removed and is in `prev` but not in `next`; every such address appears; no key repeats when `prev` has no duplicates |
| AddrChange.Diff | p2p/host/basic/basic_host_test.go:514-549 | `Current` has one entry per new address, tagged Added exactly when the address was not in the old snapshot, otherwise Maintained; `Removed` is exactly the old addresses that are gone, tagged Removed; the flag is set exactly when the snapshots differ as sets |
| AddrChange.DiffPartition | p2p/host/basic/basic_host_test.go:514-549 | Added is next minus prev, Maintained is their intersection, and Removed is prev minus next; no other action appears in either list |
| AddrChange.DiffOfSameSnapshot | p2p/host/basic/basic_host_test.go:521-522 | an unchanged snapshot gives no diff: the flag is off, nothing is Removed, and every address is Maintained |
| AddrChange.DiffIgnoresOrder | p2p/host/basic/basic_host_test.go:602-607 | for duplicate-free snapshots, reordering either snapshot gives an event that compares equal under the event comparison |
| AddrChange.CheckStep | p2p/host/basic/basic_host_test.go:594 | one change check publishes at most one event; it publishes one exactly when the snapshots differ as sets, and that event has its flag set |
| AddrChange.Published | p2p/host/basic/basic_host_test.go:591-596 | stepping through the snapshots publishes at most one event per step, and each published event has its flag set |
| AddrChange.RepeatedCheckPublishesNothing | p2p/host/basic/basic_host_test.go:594 | running the check a second time on the same snapshot publishes nothing more |
| AddrChange.AddrChangeTracker.constructor | p2p/host/basic/basic_host_test.go:557-570 | a new host starts from its first snapshot and has published nothing |
| AddrChange.AddrChangeTracker.CheckForAddressChanges | p2p/host/basic/basic_host_test.go:594 | appends the diff event when the flag is set; the new snapshot becomes the previous one either way |
| AddrChange.RunChangeDetection | p2p/host/basic/basic_host_test.go:591-596 | the events collected over the driver loop are exactly `Published(initial, steps)` |
| AddrChange.DiffMatchesExpectedEvents | p2p/host/basic/basic_host_test.go:514-549 | the diff of each consecutive pair of the test's snapshots has its flag set and matches the expected event, in both argument orders of the comparison |
| AddrChange.TestSequencePublishesExpectedEvents | p2p/host/basic/basic_host_test.go:598-607 | the test's snapshot sequence publishes exactly three events, each matching the expected event at the same position |

## Left out

- Host and network behaviour: `New`, `Connect`, `NewStream`, stream I/O, echo handlers, double close, lazy handshake, protocol preference, downgrade and protocol mismatch. The host implementation and the swarm are not part of this model, and that behaviour depends on sockets and the protocol-selection handshake.
- DNS address resolution (`madns.MockBackend`, `Resolver`, `peer.AddrInfoFromP2pAddr`). These are calls into foreign libraries with timeouts. Only the sort order the resolution tests rely on is modelled.
- The event bus, subscriptions, goroutines, channels, `time.After` and `time.Sleep`. These are concurrency and timing. In the model, events are appended directly to a list in the tracker.
- RunChangeDetection: the test's receiving goroutine stops after as many events as it expects. The model collects every published event. For the test's snapshots those are exactly three.
- The multiaddr codec (`ma.StringCast`, `Bytes()`, `Equal`). Addresses are opaque byte strings, and the test's addresses are written out in binary form.
- The exact string key `string(Action) + "::" + bytes`. It is modelled as the pair `AddrKey(action, bytes)`, which assumes the encoding is injective.
- The `Unknown` action of the event package. The event package is not part of this model, and only Added, Maintained and Removed occur here.
- `sort.Sort` itself. The model proves properties of `Less` and `Swap` and of any list sorted by `Less`, not of Go's sorting algorithm.
- Out-of-range indices passed to `Less` and `Swap`: Go panics on these, and the sort never passes them. `Less` and `Swap` require valid indices.
