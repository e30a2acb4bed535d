/**
 * The values carried by the host's local-address notification: tagged
 * addresses and the event that groups them.
 */
module Addrs {

  /** One byte of a binary multiaddr. */
  type Byte = b: int | 0 <= b < 256

  /** A multiaddr, kept as its opaque binary form (what `Bytes()` returns). */
  type Multiaddr = seq<Byte>

  /** How an address changed between two snapshots of the host's address set. */
  datatype AddrAction = Added | Maintained | Removed

  /** An address together with the action it is tagged with. */
  datatype UpdatedAddress = UpdatedAddress(action: AddrAction, address: Multiaddr)

  /** The local-addresses-updated event: a diff flag, the tagged current
      addresses and the tagged addresses that dropped out. */
  datatype LocalAddressesUpdated =
    LocalAddressesUpdated(diffs: bool, current: seq<UpdatedAddress>, removed: seq<UpdatedAddress>)

  /** The set of elements of a list of addresses. */
  function Elems(s: seq<Multiaddr>): set<Multiaddr>
  {
    set x | x in s
  }

  /** A list of addresses with no entry twice. */
  predicate NoDup(s: seq<Multiaddr>)
  {
    forall i, j :: 0 <= i < j < |s| ==> s[i] != s[j]
  }
}
