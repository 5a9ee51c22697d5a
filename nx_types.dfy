/** Types shared by the NetX IP and ARP components: 32-bit words, the symbolic
    completion codes a NetX service returns, and an Option wrapper. */
module NxTypes {

  /** A C `ULONG`: a 32-bit unsigned word. */
  type Word32 = bv32

  datatype Option<T> = None | Some(value: T)

  /** Completion status of a NetX service call. Only the codes this model
      mentions are named; every other code a collaborator may report is
      carried verbatim by `OtherStatus`, whose `code` is never the value of
      a named code (in particular never NX_SUCCESS's), so each status has
      exactly one representation and `Success` is the only success. */
  datatype Status =
    | Success          // NX_SUCCESS
    | PtrError         // NX_PTR_ERROR
    | NotEnabled       // NX_NOT_ENABLED
    | IpAddressError   // NX_IP_ADDRESS_ERROR
    | OptionError      // NX_OPTION_ERROR
    | Underflow        // NX_UNDERFLOW
    | Overflow         // NX_OVERFLOW
    | CallerError      // NX_CALLER_ERROR
    | EntryNotFound    // NX_ENTRY_NOT_FOUND
    | OtherStatus(code: Word32)
}
