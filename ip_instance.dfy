/** The IP instance, the packet descriptor and the application's packet
    handle, with the collaborators the two core services call: the
    protection mutex, the raw-send worker and the single static-entry delete. */
module NxIp {
  import opened NxTypes
  import opened ArpCache

  /** NX_IP_ID: the tag a created IP instance carries in its id field.
      Its value is set in nx_api.h, which is not part of this model. */
  const IP_ID: Word32

  /** NX_PACKET_ALLOCATED: the marker the queue-next field of a packet holds
      while the packet is allocated and owned by the application. Its value
      is set in nx_api.h, which is not part of this model. */
  const PACKET_ALLOCATED: int

  /** What happens to an IP instance's ARP state, in order. */
  datatype ArpEvent =
    | MutexGet
    | MutexPut
    | EntryDeleteCall(key: ArpKey, status: Status)

  /** One call of the raw-send worker, with the status it returned. */
  datatype RawSendCall = RawSendCall(packet: NxPacket, destinationIp: Word32, typeOfService: Word32, status: Status)

  /** A packet descriptor. Addresses are integers; the four cursors bound
      the buffer (data start and end) and the payload (prepend and append). */
  class NxPacket {
    var tcpQueueNext: int
    var dataStart: int
    var prependPtr: int
    var appendPtr: int
    var dataEnd: int
  }

  /** The application's packet pointer, passed by reference so that a
      successful send can clear it. */
  class PacketHandle {
    var packet: NxPacket?
  }

  class IpInstance {
    var id: Word32
    var rawIpProcessing: bool
    /** The static ARP list, head first. */
    var arpStaticList: seq<ArpEntry>
    /** Ownership count of the instance's protection mutex (0 when free). */
    var protectionOwnership: nat
    /** Mutex operations and static-entry deletes, in the order they happen. */
    ghost var arpLog: seq<ArpEvent>
    /** Calls the raw-send worker has received. */
    ghost var rawSends: seq<RawSendCall>

    /** Obtain the protection mutex, waiting as long as it takes. */
    method MutexGet()
      modifies this`protectionOwnership, this`arpLog
      ensures protectionOwnership == old(protectionOwnership) + 1
      ensures arpLog == old(arpLog) + [ArpEvent.MutexGet]
    {
      protectionOwnership := protectionOwnership + 1;
      arpLog := arpLog + [ArpEvent.MutexGet];
    }

    /** Release the protection mutex, which the caller holds. */
    method MutexPut()
      requires protectionOwnership > 0
      modifies this`protectionOwnership, this`arpLog
      ensures protectionOwnership == old(protectionOwnership) - 1
      ensures arpLog == old(arpLog) + [ArpEvent.MutexPut]
    {
      protectionOwnership := protectionOwnership - 1;
      arpLog := arpLog + [ArpEvent.MutexPut];
    }

    /** The raw-send worker. It builds the IP header and hands the packet
        to the link layer; `linkStatus` is the status that path reports.
        Its contract promises nothing about the status, only that the call
        is recorded with the arguments it was given. */
    method RawPacketSend(packet: NxPacket, destinationIp: Word32, typeOfService: Word32, linkStatus: Status)
      returns (status: Status)
      modifies this`rawSends
      ensures rawSends == old(rawSends) + [RawSendCall(packet, destinationIp, typeOfService, status)]
    {
      status := linkStatus;
      rawSends := rawSends + [RawSendCall(packet, destinationIp, typeOfService, status)];
    }

    /** The single static-entry delete. On success the first entry with the
        given key has been unlinked; on any other status the list is as it
        was. The contract does not promise success when the key is present,
        so callers must cope with a failure at any point. */
    method StaticEntryDelete(ipAddress: Word32, physicalMsw: Word32, physicalLsw: Word32)
      returns (status: Status)
      modifies this`arpStaticList, this`arpLog
      ensures arpLog == old(arpLog) + [EntryDeleteCall(ArpKey(ipAddress, physicalMsw, physicalLsw), status)]
      ensures status == Success ==>
                var found := FindEntry(old(arpStaticList), ArpKey(ipAddress, physicalMsw, physicalLsw));
                found.Some? && arpStaticList == RemoveAt(old(arpStaticList), found.value)
      ensures status != Success ==> arpStaticList == old(arpStaticList)
    {
      var key := ArpKey(ipAddress, physicalMsw, physicalLsw);
      match FindEntry(arpStaticList, key) {
        case Some(i) =>
          arpStaticList := RemoveAt(arpStaticList, i);
          status := Success;
        case None =>
          status := EntryNotFound;
      }
      arpLog := arpLog + [EntryDeleteCall(key, status)];
    }
  }
}
