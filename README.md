# NetX raw IP send validation and static ARP drain, in Dafny

This project models two services of the NetX TCP/IP stack.

- `_nxe_ip_raw_packet_send` is the error-checking entry point for sending a raw IP packet. It checks seven things in a fixed order:
  - the IP instance and packet pointers, the instance's id tag and the packet's "allocated" marker;
  - raw IP processing is enabled;
  - the destination address is not zero;
  - the type of service has no bits outside the TOS mask;
  - there is room to prepend one IP header (buffer underflow);
  - the append pointer is within the buffer (buffer overflow);
  - the caller is a thread.

  The first check that fails decides the returned error. When every check passes, the service calls the raw-send worker and returns the worker's status unchanged. It clears the application's packet pointer only when that status is success: from then on the stack owns the packet.
- `_nx_arp_static_entries_delete` deletes every static ARP entry of an IP instance. It takes the instance's protection mutex. It then repeatedly reads the head of the static list and calls the single-entry delete with that head's IP address and hardware address. It stops when the list is empty or a delete fails, releases the mutex, and always returns success.

## Layout

| file | module | contents |
|---|---|---|
| `nx_types.dfy` | `NxTypes` | 32-bit words, the symbolic status codes, `Option` |
| `arp_cache.dfy` | `ArpCache` | static ARP entries, their keys, search and unlink on the list |
| `ip_instance.dfy` | `NxIp` | classes for the IP instance, the packet descriptor and the application's packet handle; the collaborators the services call (mutex get/put, raw-send worker, single-entry delete) |
| `arp_static_entries_delete.dfy` | `ArpStaticEntriesDelete` | the drain loop and the lemmas about its outcome |
| `ip_raw_packet_send_checked.dfy` | `IpRawPacketSendChecked` | the validation chain as a function, the ordered reference for it, the lemmas for each check, and the entry point as a method |

## How the model is built

- **The IP instance** is a class. Its fields are:
  - `id` and `rawIpProcessing`;
  - the static ARP list as a `seq`, head first;
  - the protection mutex's ownership count.

  It also has two ghost logs. One records mutex gets, mutex puts and single-entry delete calls, in the order they happen. The other records the calls the raw-send worker receives. Lock pairing, call order and "the worker was not called" are stated over these logs.
- **Addresses are integers.** The four buffer cursors of a packet are integer addresses.
- **The application's `NX_PACKET **`** is a non-null `PacketHandle` object, because the source dereferences it without a check. Clearing it means setting its `packet` field to `null`.
- **The validation chain** is the function `RawSendCheck`, written check by check in the source's order. It is read on a snapshot of the request: `RequestOf` copies the instance's and the packet's fields into a `RawSendRequest` value.
  - Its reference is `Guards` and `FirstFailure`: the seven conditions as an ordered list, and "the error of the first one that fails".
  - `RawSendCheckIsFirstFailure` proves that the two agree.
- **The collaborators** are methods of `IpInstance`: `MutexGet`, `MutexPut`, `RawPacketSend` and `StaticEntryDelete`. Their bodies are not part of this model, so each has a stand-in body. The callers are verified only against the collaborators' contracts.
  - The raw-send worker's status is whatever its transmission path reports. That status is the parameter `linkStatus`.
  - The single-entry delete's contract says two things: on success, the first entry with the given key is unlinked; on any other status, the list is unchanged. It does not promise success, so the drain is proved for a failure at any point.
- **The drain ends in one of two ways.** Either the list is empty, or a delete failed. `DrainOutcome` states both cases as a relation between the list and log before and after the drain. The method `StaticEntriesDelete` ensures this relation, and the lemmas derive the listed properties from it.
- **The loop terminates** because the list length is its `decreases` measure: each successful delete removes the head.
- **Two behaviours of the drain worth noting:**
  - The drain returns success on every path, even after a failed delete (nx_arp_static_entries_delete.c:125), and so does `StaticEntriesDelete`.
  - The drain does not check the IP instance (line 90 dereferences it), so `StaticEntriesDelete` takes a non-null `IpInstance`.

## Model

| member | source | states |
|---|---|---|
| `ArpCache.FindEntry` | common/src/nx_arp_static_entries_delete.c:107-109 | the position found holds an entry whose (IP address, MSW, LSW) is the key, no earlier entry has that key, and no position is found only when no entry has it |
| `ArpCache.RemoveAt` | common/src/nx_arp_static_entries_delete.c:105-106 | unlinking one entry keeps the others in order and shortens the list by one |
| `ArpCache.RemoveAtRemovesOne` | common/src/nx_arp_static_entries_delete.c:105-106 | unlinking removes exactly the entry at that position from the list's multiset |
| `ArpCache.HeadKeyFindsHead` | common/src/nx_arp_static_entries_delete.c:97-109 | the head's own key finds the head, and unlinking it leaves the tail |
| `NxIp.IpInstance.MutexGet` | common/src/nx_arp_static_entries_delete.c:90 | obtaining the protection mutex adds one to its ownership count and logs a get |
| `NxIp.IpInstance.MutexPut` | common/src/nx_arp_static_entries_delete.c:122 | releasing the mutex the caller holds takes one from the ownership count and logs a put |
| `NxIp.IpInstance.StaticEntryDelete` | common/src/nx_arp_static_entries_delete.c:105-109 | on success the first entry with the given key is unlinked, otherwise the list is unchanged; the call and its status are logged |
| `NxIp.IpInstance.RawPacketSend` | common/src/nxe_ip_raw_packet_send.c:132 | the worker records one call with the arguments it was given and the status it returns |
| `ArpStaticEntriesDelete.SuccessfulDeletes` | common/src/nx_arp_static_entries_delete.c:93-116 | a run of successful deletes has one call per entry, in list order, each with that entry's key |
| `ArpStaticEntriesDelete.StaticEntriesDelete` | common/src/nx_arp_static_entries_delete.c:72-126 | returns success on every path; the mutex ownership count is restored; the list loses exactly its first `removed` entries; the list is empty unless a delete failed, and then the failing entry is still at the head; the log holds one get, the delete calls and one put, in that order |
| `ArpStaticEntriesDelete.DrainCallsShape` | common/src/nx_arp_static_entries_delete.c:97-116 | the delete calls of a drain hold no lock operation, and carry the keys of the original entries up to and including the failing one |
| `ArpStaticEntriesDelete.DrainLocksPaired` | common/src/nx_arp_static_entries_delete.c:90-122 | the lock operations of a drain are exactly one get followed by one put, on every exit path |
| `ArpStaticEntriesDelete.DrainDeletesHeadsInOrder` | common/src/nx_arp_static_entries_delete.c:97-116 | each delete is given the key of the head at that moment: the keys passed are the original entries' keys in list order, and none after a failing delete |
| `ArpStaticEntriesDelete.EmptyListDrainDeletesNothing` | common/src/nx_arp_static_entries_delete.c:97-103 | with an empty static list no delete is attempted, the list stays empty, and only the mutex is taken and released |
| `ArpStaticEntriesDelete.AllSuccessDrainEmptiesList` | common/src/nx_arp_static_entries_delete.c:93-116 | if every single delete succeeds, the drain makes exactly N successful deletes for N entries and ends with an empty list |
| `ArpStaticEntriesDelete.FailedDeleteStopsDrain` | common/src/nx_arp_static_entries_delete.c:116 | after a failed delete the drain stops: the failing call is the last event before the put, it was given the key of the entry still at the head, and that entry and all later ones remain |
| `IpRawPacketSendChecked.Guards` | common/src/nxe_ip_raw_packet_send.c:93-129 | the seven checks in the entry point's order, with pairwise distinct error codes, none of them success |
| `IpRawPacketSendChecked.RawSendCheck` | common/src/nxe_ip_raw_packet_send.c:93-129 | the chain succeeds exactly when all seven conditions hold, and otherwise returns one of the seven validation errors |
| `IpRawPacketSendChecked.FirstFailureIs` | common/src/nxe_ip_raw_packet_send.c:93-129 | in an ordered list of checks, a failing check after checks that all pass decides the result |
| `IpRawPacketSendChecked.FirstFailureAllPass` | common/src/nxe_ip_raw_packet_send.c:129-132 | when every check passes the result is success |
| `IpRawPacketSendChecked.RawSendCheckIsFirstFailure` | common/src/nxe_ip_raw_packet_send.c:93-129 | the chain as written returns the error of the first failing check in the ordered list |
| `IpRawPacketSendChecked.FirstFailingCheckDecides` | common/src/nxe_ip_raw_packet_send.c:93-129 | when check i fails and all earlier checks pass, the status is check i's error whatever the later inputs are; a request that violates one check alone gets that check's error |
| `IpRawPacketSendChecked.PointerErrorComesFirst` | common/src/nxe_ip_raw_packet_send.c:93-96 | a null or untagged IP instance, or a null or unallocated packet, yields the pointer error whatever else holds, and the pointer error arises only then |
| `IpRawPacketSendChecked.NotEnabledAfterPointers` | common/src/nxe_ip_raw_packet_send.c:99-102 | with valid pointers, the not-enabled error arises exactly when raw IP processing is off |
| `IpRawPacketSendChecked.ZeroDestinationRejected` | common/src/nxe_ip_raw_packet_send.c:105-108 | once the earlier checks pass, the address error arises exactly when the destination is zero |
| `IpRawPacketSendChecked.TosMaskTest` | common/src/nxe_ip_raw_packet_send.c:111 | the source's test `tos & ~mask` is zero exactly when the type of service is contained in the mask, that is when masking it keeps every bit |
| `IpRawPacketSendChecked.BitOutsideMaskFails` | common/src/nxe_ip_raw_packet_send.c:111 | any bit outside the mask makes a type of service fail the test, whatever other bits it has |
| `IpRawPacketSendChecked.TosOutsideMaskRejected` | common/src/nxe_ip_raw_packet_send.c:111-114 | once the earlier checks pass, the option error arises exactly when the type of service has a bit outside the mask |
| `IpRawPacketSendChecked.UnderflowWhenNoHeaderRoom` | common/src/nxe_ip_raw_packet_send.c:117-120 | once the earlier checks pass, the underflow error arises exactly when the prepend pointer minus the IP header size lies below the data start |
| `IpRawPacketSendChecked.UnderflowBoundaryInclusive` | common/src/nxe_ip_raw_packet_send.c:117 | room for exactly one header passes the underflow check, and one byte less fails it |
| `IpRawPacketSendChecked.OverflowWhenAppendBeyondEnd` | common/src/nxe_ip_raw_packet_send.c:123-126 | once the earlier checks pass, the overflow error arises exactly when the append pointer lies beyond the data end |
| `IpRawPacketSendChecked.OverflowBoundaryInclusive` | common/src/nxe_ip_raw_packet_send.c:123 | an append pointer equal to the data end passes the overflow check, and one byte more fails it |
| `IpRawPacketSendChecked.CallerCheckedLast` | common/src/nxe_ip_raw_packet_send.c:129 | a caller that is not a thread is rejected exactly when every other check passes |
| `IpRawPacketSendChecked.IpRawPacketSend` | common/src/nxe_ip_raw_packet_send.c:80-145 | on a failed check: that check's error, no worker call, the handle and the instance unchanged; otherwise (with the worker assumed to leave the instance's other fields alone): exactly one worker call with the same arguments, the worker's status returned verbatim, and the handle null exactly when that status is success and unchanged otherwise |

## Left out

- The bodies of `_nx_ip_raw_packet_send` and `_nx_arp_static_entry_delete` are not part of this model. The collaborator methods named below have stand-in bodies, and the callers rely only on their contracts.
- NxIp.IpInstance.StaticEntryDelete: the contract is deliberately weaker than its stand-in body. It does not promise success when the key is present, so the drain is proved correct even when the collaborator fails.
- NxIp.IpInstance.RawPacketSend: the contract promises nothing about the returned status, because the worker may report any status. Its effect on the packet (writing the IP header, queueing the packet to the driver) is not modelled.
- NxIp.IpInstance.RawPacketSend: its frame is the worker-call log alone, so the model assumes the worker leaves the instance's id, raw IP flag, static ARP list, ARP log and mutex ownership count as they were. Any use the worker makes of the protection mutex or of the ARP cache is not logged, and the shim's promise that those fields are unchanged after a worker call rests on this assumption; the source itself promises an unchanged instance only when a check fails.
- The blocking and scheduling behind `tx_mutex_get` with `TX_WAIT_FOREVER`, and any concurrent reader or writer of the ARP table, are not modelled. The mutex is only an ownership count. The only obligation kept is pairing: one get before the list is read and one put before returning.
- The runtime's caller-context detection (`NX_THREADS_ONLY_CALLER_CHECKING`, `NX_CALLER_CHECKING_EXTERNS`) is the boolean input `callerIsThread`.
- Trace instrumentation is observational and is left out: the trace insert and update, and the `deleted_count` counter.
- The values of `NX_IP_ID`, `NX_PACKET_ALLOCATED` and `NX_IP_TOS_MASK` are set in nx_api.h, which is not part of this model. The model declares them as constants with no value, so no proof depends on what they are. The IP header size is 20 bytes, the minimal IPv4 header of section 3.1 of RFC 791.
- The exact result of the C subtraction `prepend_ptr - sizeof(NX_IP_HEADER)` is not modelled when the prepend pointer lies within 20 bytes of address zero. There the C pointer subtraction wraps around; here addresses are unbounded integers.
- The dynamic ARP list, ARP aging and the creation of static entries are not part of these services.
