/** The validating entry point for sending a raw IP packet: a fixed chain of
    checks on the IP instance, the packet, the destination and the type of
    service, then a call of the raw-send worker and, when the worker
    succeeds, the clearing of the application's packet pointer. */
module IpRawPacketSendChecked {
  import opened NxTypes
  import opened NxIp

  /** Size of the IP header the worker prepends: the minimal IPv4 header of
      five 32-bit words (section 3.1 of RFC 791). */
  const IP_HEADER_SIZE: int := 20

  /** NX_IP_TOS_MASK: the bits a type-of-service argument may use. Its
      value is set in nx_api.h, which is not part of this model. */
  const IP_TOS_MASK: Word32

  /** What the checks read of the IP instance. */
  datatype IpView = IpView(id: Word32, rawIpProcessing: bool)

  /** What the checks read of the packet descriptor. */
  datatype PacketView = PacketView(tcpQueueNext: int, dataStart: int, prependPtr: int, appendPtr: int, dataEnd: int)

  /** The inputs of one send request; `None` stands for a null pointer and
      `callerIsThread` for the runtime's answer to "is the caller a thread". */
  datatype RawSendRequest = RawSendRequest(
    ip: Option<IpView>,
    packet: Option<PacketView>,
    destinationIp: Word32,
    typeOfService: Word32,
    callerIsThread: bool)

  function RequestOf(ip: IpInstance?, packet: NxPacket?, destinationIp: Word32, typeOfService: Word32,
                     callerIsThread: bool): RawSendRequest
    reads ip, packet
  {
    RawSendRequest(
      if ip == null then None else Some(IpView(ip.id, ip.rawIpProcessing)),
      if packet == null then None
      else Some(PacketView(packet.tcpQueueNext, packet.dataStart, packet.prependPtr, packet.appendPtr, packet.dataEnd)),
      destinationIp, typeOfService, callerIsThread)
  }

  // The seven conditions, each stated on its own. A condition about the IP
  // instance or the packet holds vacuously when the pointer is null: the
  // pointer condition already covers that case.

  predicate PointersValid(q: RawSendRequest) {
    && q.ip.Some? && q.ip.value.id == IP_ID
    && q.packet.Some? && q.packet.value.tcpQueueNext == PACKET_ALLOCATED
  }

  predicate RawIpEnabled(q: RawSendRequest) {
    q.ip.None? || q.ip.value.rawIpProcessing
  }

  predicate DestinationGiven(q: RawSendRequest) {
    q.destinationIp != 0
  }

  /** The bits of a type of service that lie outside the mask. */
  function TosOutsideMask(tos: Word32): Word32 {
    tos & !IP_TOS_MASK
  }

  /** The type of service has no bit outside the mask. */
  predicate TosWithinMask(tos: Word32) {
    TosOutsideMask(tos) == 0
  }

  /** There is room before the payload for one IP header. */
  predicate HeaderFits(q: RawSendRequest) {
    q.packet.None? || q.packet.value.dataStart <= q.packet.value.prependPtr - IP_HEADER_SIZE
  }

  /** The payload ends within the buffer. */
  predicate AppendWithinBuffer(q: RawSendRequest) {
    q.packet.None? || q.packet.value.appendPtr <= q.packet.value.dataEnd
  }

  predicate CallerAllowed(q: RawSendRequest) {
    q.callerIsThread
  }

  /** A check together with the status it reports when it fails. */
  datatype Guard = Guard(passes: bool, error: Status)

  /** The checks, in the order the entry point applies them. */
  function Guards(q: RawSendRequest): (gs: seq<Guard>)
    ensures |gs| == 7
    ensures forall i :: 0 <= i < |gs| ==> gs[i].error != Success
    ensures forall i, j :: 0 <= i < j < |gs| ==> gs[i].error != gs[j].error
  {
    [ Guard(PointersValid(q), PtrError),
      Guard(RawIpEnabled(q), NotEnabled),
      Guard(DestinationGiven(q), IpAddressError),
      Guard(TosWithinMask(q.typeOfService), OptionError),
      Guard(HeaderFits(q), Underflow),
      Guard(AppendWithinBuffer(q), Overflow),
      Guard(CallerAllowed(q), CallerError) ]
  }

  /** The error of the first guard that fails, or success when none does. */
  function FirstFailure(gs: seq<Guard>): Status {
    if gs == [] then Success
    else if !gs[0].passes then gs[0].error
    else FirstFailure(gs[1..])
  }

  /** The validation chain of the entry point, check by check as it is
      written. It succeeds exactly when every condition holds, and otherwise
      reports one of the seven validation errors, never a worker status. */
  function RawSendCheck(q: RawSendRequest): (r: Status)
    ensures r == Success <==>
              && PointersValid(q) && RawIpEnabled(q) && DestinationGiven(q) && TosWithinMask(q.typeOfService)
              && HeaderFits(q) && AppendWithinBuffer(q) && CallerAllowed(q)
    ensures r in {Success, PtrError, NotEnabled, IpAddressError, OptionError, Underflow, Overflow, CallerError}
  {
    if q.ip.None? || q.ip.value.id != IP_ID || q.packet.None? || q.packet.value.tcpQueueNext != PACKET_ALLOCATED then
      PtrError
    else if !q.ip.value.rawIpProcessing then
      NotEnabled
    else if q.destinationIp == 0 then
      IpAddressError
    else if TosOutsideMask(q.typeOfService) != 0 then
      OptionError
    else if q.packet.value.prependPtr - IP_HEADER_SIZE < q.packet.value.dataStart then
      Underflow
    else if q.packet.value.appendPtr > q.packet.value.dataEnd then
      Overflow
    else if !q.callerIsThread then
      CallerError
    else
      Success
  }

  /** A type of service contained in the mask passes the mask test. */
  lemma ContainedTosPasses(tos: Word32)
    requires tos & IP_TOS_MASK == tos
    ensures TosWithinMask(tos)
  {
  }

  /** A type of service that passes the mask test is contained in the mask. */
  lemma PassingTosIsContained(tos: Word32)
    requires TosWithinMask(tos)
    ensures tos & IP_TOS_MASK == tos
  {
  }

  /** A type of service passes the mask test exactly when it is contained
      in the mask, that is when masking it keeps every bit. */
  lemma TosMaskTest(tos: Word32)
    ensures TosWithinMask(tos) <==> tos & IP_TOS_MASK == tos
  {
    if tos & IP_TOS_MASK == tos {
      ContainedTosPasses(tos);
    }
    if TosWithinMask(tos) {
      PassingTosIsContained(tos);
    }
  }

  /** Any bit outside the mask makes a type of service fail the test,
      whatever other bits it has. */
  lemma BitOutsideMaskFails(tos: Word32, bit: Word32)
    requires bit != 0 && bit & IP_TOS_MASK == 0
    ensures !TosWithinMask(tos | bit)
  {
  }

  /** A guard that fails after guards that all pass decides the outcome. */
  lemma {:induction false} FirstFailureIs(gs: seq<Guard>, i: nat)
    requires i < |gs| && !gs[i].passes
    requires forall j :: 0 <= j < i ==> gs[j].passes
    ensures FirstFailure(gs) == gs[i].error
  {
    if i > 0 {
      FirstFailureIs(gs[1..], i - 1);
    }
  }

  /** When every guard passes, the outcome is success. */
  lemma {:induction false} FirstFailureAllPass(gs: seq<Guard>)
    requires forall j :: 0 <= j < |gs| ==> gs[j].passes
    ensures FirstFailure(gs) == Success
  {
    if gs != [] {
      FirstFailureAllPass(gs[1..]);
    }
  }

  /** The chain as written reports the error of the first failing check, in
      the order pointers, raw IP enabled, destination, type of service,
      underflow, overflow, caller. */
  lemma RawSendCheckIsFirstFailure(q: RawSendRequest)
    ensures RawSendCheck(q) == FirstFailure(Guards(q))
  {
    var gs := Guards(q);
    if !gs[0].passes { FirstFailureIs(gs, 0); }
    else if !gs[1].passes { FirstFailureIs(gs, 1); }
    else if !gs[2].passes { FirstFailureIs(gs, 2); }
    else if !gs[3].passes { FirstFailureIs(gs, 3); }
    else if !gs[4].passes { FirstFailureIs(gs, 4); }
    else if !gs[5].passes { FirstFailureIs(gs, 5); }
    else if !gs[6].passes { FirstFailureIs(gs, 6); }
    else { FirstFailureAllPass(gs); }
  }

  /** First failing check wins: when check `i` fails and every earlier check
      passes, the status is check `i`'s error, whatever the later inputs are.
      In particular a request that violates one check alone gets that
      check's error. */
  lemma FirstFailingCheckDecides(q: RawSendRequest, i: nat)
    requires i < |Guards(q)| && !Guards(q)[i].passes
    requires forall j :: 0 <= j < i ==> Guards(q)[j].passes
    ensures RawSendCheck(q) == Guards(q)[i].error
  {
    RawSendCheckIsFirstFailure(q);
    FirstFailureIs(Guards(q), i);
  }

  /** Bad pointers are reported before anything else is looked at. */
  lemma PointerErrorComesFirst(q: RawSendRequest)
    ensures RawSendCheck(q) == PtrError <==> !PointersValid(q)
  {
  }

  /** With valid pointers, disabled raw IP processing is reported next. */
  lemma NotEnabledAfterPointers(q: RawSendRequest)
    requires PointersValid(q)
    ensures RawSendCheck(q) == NotEnabled <==> !q.ip.value.rawIpProcessing
  {
  }

  /** Once the earlier checks pass, a zero destination is rejected and any
      other destination passes this check. */
  lemma ZeroDestinationRejected(q: RawSendRequest)
    requires PointersValid(q) && RawIpEnabled(q)
    ensures RawSendCheck(q) == IpAddressError <==> q.destinationIp == 0
  {
  }

  /** Once the earlier checks pass, a type of service with a bit outside the
      mask is rejected and one contained in the mask passes this check. */
  lemma TosOutsideMaskRejected(q: RawSendRequest)
    requires PointersValid(q) && RawIpEnabled(q) && DestinationGiven(q)
    ensures RawSendCheck(q) == OptionError <==> !TosWithinMask(q.typeOfService)
  {
  }

  /** Once the earlier checks pass, underflow is reported exactly when one
      IP header would not fit before the payload. */
  lemma UnderflowWhenNoHeaderRoom(q: RawSendRequest)
    requires PointersValid(q) && RawIpEnabled(q) && DestinationGiven(q) && TosWithinMask(q.typeOfService)
    ensures RawSendCheck(q) == Underflow <==> q.packet.value.prependPtr - IP_HEADER_SIZE < q.packet.value.dataStart
  {
  }

  /** The request with the packet's data start moved to `dataStart`. */
  function WithDataStart(q: RawSendRequest, dataStart: int): RawSendRequest
    requires q.packet.Some?
  {
    q.(packet := Some(q.packet.value.(dataStart := dataStart)))
  }

  /** The request with the packet's append pointer moved to `appendPtr`. */
  function WithAppendPtr(q: RawSendRequest, appendPtr: int): RawSendRequest
    requires q.packet.Some?
  {
    q.(packet := Some(q.packet.value.(appendPtr := appendPtr)))
  }

  /** The underflow boundary is inclusive: a header that ends exactly at the
      data start passes, and one byte less room fails. */
  lemma UnderflowBoundaryInclusive(q: RawSendRequest)
    requires PointersValid(q) && RawIpEnabled(q) && DestinationGiven(q) && TosWithinMask(q.typeOfService)
    requires q.packet.value.prependPtr - IP_HEADER_SIZE == q.packet.value.dataStart
    ensures RawSendCheck(q) != Underflow
    ensures RawSendCheck(WithDataStart(q, q.packet.value.dataStart + 1)) == Underflow
  {
    var moved := WithDataStart(q, q.packet.value.dataStart + 1);
    UnderflowWhenNoHeaderRoom(q);
    assert PointersValid(moved) && RawIpEnabled(moved) && DestinationGiven(moved);
    assert moved.typeOfService == q.typeOfService;
    UnderflowWhenNoHeaderRoom(moved);
  }

  /** Once the earlier checks pass, overflow is reported exactly when the
      append pointer lies beyond the data end. */
  lemma OverflowWhenAppendBeyondEnd(q: RawSendRequest)
    requires PointersValid(q) && RawIpEnabled(q) && DestinationGiven(q) && TosWithinMask(q.typeOfService)
    requires HeaderFits(q)
    ensures RawSendCheck(q) == Overflow <==> q.packet.value.appendPtr > q.packet.value.dataEnd
  {
  }

  /** The overflow boundary is inclusive: an append pointer equal to the data
      end passes, and one byte more fails. */
  lemma OverflowBoundaryInclusive(q: RawSendRequest)
    requires PointersValid(q) && RawIpEnabled(q) && DestinationGiven(q) && TosWithinMask(q.typeOfService)
    requires HeaderFits(q)
    requires q.packet.value.appendPtr == q.packet.value.dataEnd
    ensures RawSendCheck(q) != Overflow
    ensures RawSendCheck(WithAppendPtr(q, q.packet.value.dataEnd + 1)) == Overflow
  {
    var moved := WithAppendPtr(q, q.packet.value.dataEnd + 1);
    OverflowWhenAppendBeyondEnd(q);
    assert PointersValid(moved) && RawIpEnabled(moved) && DestinationGiven(moved) && HeaderFits(moved);
    assert moved.typeOfService == q.typeOfService;
    OverflowWhenAppendBeyondEnd(moved);
  }

  /** The caller is checked last: a caller that is not a thread is rejected
      exactly when every other check passes. */
  lemma CallerCheckedLast(q: RawSendRequest)
    ensures RawSendCheck(q) == CallerError <==>
              && PointersValid(q) && RawIpEnabled(q) && DestinationGiven(q) && TosWithinMask(q.typeOfService)
              && HeaderFits(q) && AppendWithinBuffer(q) && !CallerAllowed(q)
  {
  }

  /** Send a raw IP packet after validating the request. `handle` is the
      application's packet pointer, passed by reference; `callerIsThread`
      and `linkStatus` stand for the runtime's caller check and for what the
      worker's transmission path reports. A failed check returns its error
      with no call of the worker and the handle untouched. Otherwise the
      worker is called once with the same arguments, its status is returned
      as it is, and the handle is cleared exactly when that status is
      success: the stack then owns the packet. The instance's fields other
      than the worker-call log stay as they were on every path; after a
      worker call that rests on the worker's contract, which changes only
      that log. */
  method IpRawPacketSend(ip: IpInstance?, handle: PacketHandle, destinationIp: Word32, typeOfService: Word32,
                         callerIsThread: bool, linkStatus: Status)
    returns (status: Status)
    modifies handle, ip
    ensures ip != null ==>
              && ip.id == old(ip.id) && ip.rawIpProcessing == old(ip.rawIpProcessing)
              && ip.arpStaticList == old(ip.arpStaticList) && ip.arpLog == old(ip.arpLog)
              && ip.protectionOwnership == old(ip.protectionOwnership)
    ensures var check := old(RawSendCheck(RequestOf(ip, handle.packet, destinationIp, typeOfService, callerIsThread)));
            check != Success ==>
              && status == check
              && handle.packet == old(handle.packet)
              && (ip != null ==> ip.rawSends == old(ip.rawSends))
    ensures var check := old(RawSendCheck(RequestOf(ip, handle.packet, destinationIp, typeOfService, callerIsThread)));
            check == Success ==>
              && ip != null && old(handle.packet) != null
              && ip.rawSends == old(ip.rawSends) + [RawSendCall(old(handle.packet), destinationIp, typeOfService, status)]
              && (handle.packet == null <==> status == Success)
              && (status != Success ==> handle.packet == old(handle.packet))
  {
    var packet := handle.packet;
    var check := RawSendCheck(RequestOf(ip, packet, destinationIp, typeOfService, callerIsThread));
    if check != Success {
      return check;
    }
    status := ip.RawPacketSend(packet, destinationIp, typeOfService, linkStatus);
    if status == Success {
      handle.packet := null;
    }
  }
}
