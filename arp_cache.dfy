/** The static half of the ARP cache: bindings of an IP address to a
    hardware address, kept head first as the IP instance's static list. */
module ArpCache {
  import opened NxTypes

  /** One static binding: the three fields of an NX_ARP entry the drain
      reads. Its other fields (interface, retry and aging state, queued
      packets, the list links) are left out on purpose; the list links are
      the order of the sequence that holds the entries. The fields match
      `ArpKey`'s because the drain deletes an entry by exactly these three
      values. */
  datatype ArpEntry = ArpEntry(ipAddress: Word32, physicalMsw: Word32, physicalLsw: Word32)

  /** The key the single-entry delete is given: IP address and both
      halves of the hardware address. */
  datatype ArpKey = ArpKey(ipAddress: Word32, physicalMsw: Word32, physicalLsw: Word32)

  function KeyOf(e: ArpEntry): ArpKey {
    ArpKey(e.ipAddress, e.physicalMsw, e.physicalLsw)
  }

  /** The keys of a list of entries, in list order. */
  function Keys(entries: seq<ArpEntry>): seq<ArpKey> {
    seq(|entries|, i requires 0 <= i < |entries| => KeyOf(entries[i]))
  }

  /** Position of the first entry whose key is `key`, if any. */
  function FindEntry(list: seq<ArpEntry>, key: ArpKey): (r: Option<nat>)
    ensures r.Some? ==> r.value < |list| && KeyOf(list[r.value]) == key
    ensures r.Some? ==> forall j :: 0 <= j < r.value ==> KeyOf(list[j]) != key
    ensures r.None? ==> forall j :: 0 <= j < |list| ==> KeyOf(list[j]) != key
  {
    if list == [] then None
    else if KeyOf(list[0]) == key then Some(0)
    else match FindEntry(list[1..], key)
      case None => None
      case Some(i) => Some(i + 1)
  }

  /** The list with the entry at position `i` unlinked. */
  function RemoveAt(list: seq<ArpEntry>, i: nat): (r: seq<ArpEntry>)
    requires i < |list|
    ensures |r| == |list| - 1
    ensures forall j :: 0 <= j < i ==> r[j] == list[j]
    ensures forall j :: i <= j < |r| ==> r[j] == list[j + 1]
  {
    list[..i] + list[i + 1..]
  }

  /** Unlinking removes exactly one binding, the one at `i`, and keeps every other. */
  lemma {:induction false} RemoveAtRemovesOne(list: seq<ArpEntry>, i: nat)
    requires i < |list|
    ensures multiset(RemoveAt(list, i)) == multiset(list) - multiset{list[i]}
  {
    assert list == list[..i] + [list[i]] + list[i + 1..];
  }

  /** The head's own key always finds the head, and unlinking it leaves the tail. */
  lemma HeadKeyFindsHead(list: seq<ArpEntry>)
    requires list != []
    ensures FindEntry(list, KeyOf(list[0])) == Some(0)
    ensures RemoveAt(list, 0) == list[1..]
  {
  }
}
