/** Deleting every static ARP entry of an IP instance: under the instance's
    protection mutex, repeatedly delete the current head of the static list
    by its key, until the list is empty or a delete fails. */
module ArpStaticEntriesDelete {
  import opened NxTypes
  import opened ArpCache
  import opened NxIp

  /** The delete calls made for `entries`, one at a time and in order,
      each with that entry's key and each succeeding. */
  function SuccessfulDeletes(entries: seq<ArpEntry>): (calls: seq<ArpEvent>)
    ensures |calls| == |entries|
    ensures forall i :: 0 <= i < |entries| ==> calls[i] == EntryDeleteCall(KeyOf(entries[i]), Success)
  {
    if entries == [] then []
    else SuccessfulDeletes(entries[..|entries| - 1]) + [EntryDeleteCall(KeyOf(entries[|entries| - 1]), Success)]
  }

  /** The delete calls of a drain of `before` that removed its first
      `removed` entries and, when `failure` is present, then stopped on a
      delete of the next head that reported that status. */
  function DrainCalls(before: seq<ArpEntry>, removed: nat, failure: Option<Status>): seq<ArpEvent>
    requires removed <= |before|
    requires failure.Some? ==> removed < |before|
  {
    SuccessfulDeletes(before[..removed])
    + (if failure.Some? then [EntryDeleteCall(KeyOf(before[removed]), failure.value)] else [])
  }

  /** What one drain does to the static list and to the ARP log: the list
      loses its first `removed` entries and nothing else; it is empty unless
      the drain stopped on a failed delete; and the log records one mutex
      get, the delete calls, and one mutex put, in that order. */
  ghost predicate DrainOutcome(before: seq<ArpEntry>, after: seq<ArpEntry>,
                               logBefore: seq<ArpEvent>, logAfter: seq<ArpEvent>,
                               removed: nat, failure: Option<Status>)
  {
    && removed <= |before|
    && after == before[removed..]
    && (failure.None? ==> after == [])
    && (failure.Some? ==> failure.value != Success && after != [])
    && logAfter == logBefore + [ArpEvent.MutexGet] + DrainCalls(before, removed, failure) + [ArpEvent.MutexPut]
  }

  /** Delete all static ARP entries of `ip`. The status is always success,
      even when a single delete fails; `removed` and `failure` name what
      happened for the contract. */
  method StaticEntriesDelete(ip: IpInstance) returns (status: Status, ghost removed: nat, ghost failure: Option<Status>)
    modifies ip`arpStaticList, ip`arpLog, ip`protectionOwnership
    ensures status == Success
    ensures ip.protectionOwnership == old(ip.protectionOwnership)
    ensures DrainOutcome(old(ip.arpStaticList), ip.arpStaticList, old(ip.arpLog), ip.arpLog, removed, failure)
  {
    ghost var before := ip.arpStaticList;
    ghost var logBefore := ip.arpLog;
    ip.MutexGet();
    removed, failure := 0, None;
    while true
      invariant removed <= |before| && ip.arpStaticList == before[removed..]
      invariant ip.protectionOwnership == old(ip.protectionOwnership) + 1
      invariant failure.None?
      invariant ip.arpLog == logBefore + [ArpEvent.MutexGet] + SuccessfulDeletes(before[..removed])
      decreases |ip.arpStaticList|
    {
      if ip.arpStaticList == [] {
        break;
      }
      var head := ip.arpStaticList[0];
      HeadKeyFindsHead(ip.arpStaticList);
      var deleted := ip.StaticEntryDelete(head.ipAddress, head.physicalMsw, head.physicalLsw);
      if deleted != Success {
        failure := Some(deleted);
        break;
      }
      assert before[..removed + 1][..removed] == before[..removed];
      removed := removed + 1;
    }
    ip.MutexPut();
    status := Success;
  }

  /** An event, if it is a lock operation. */
  function LockEventOf(e: ArpEvent): seq<ArpEvent> {
    if e.EntryDeleteCall? then [] else [e]
  }

  /** The key of an event, if it is a single-entry delete. */
  function DeleteKeyOf(e: ArpEvent): seq<ArpKey> {
    if e.EntryDeleteCall? then [e.key] else []
  }

  /** The lock operations in a log, in order. */
  function LockEvents(log: seq<ArpEvent>): seq<ArpEvent> {
    if log == [] then [] else LockEventOf(log[0]) + LockEvents(log[1..])
  }

  /** The keys given to the single-entry delete in a log, in order. */
  function DeleteKeys(log: seq<ArpEvent>): seq<ArpKey> {
    if log == [] then [] else DeleteKeyOf(log[0]) + DeleteKeys(log[1..])
  }

  lemma {:induction false} LockEventsAppend(a: seq<ArpEvent>, b: seq<ArpEvent>)
    ensures LockEvents(a + b) == LockEvents(a) + LockEvents(b)
  {
    if a == [] {
      assert a + b == b;
    } else {
      calc {
        LockEvents(a + b);
        == { assert (a + b)[0] == a[0]; assert (a + b)[1..] == a[1..] + b; }
        LockEventOf(a[0]) + LockEvents(a[1..] + b);
        == { LockEventsAppend(a[1..], b); }
        LockEventOf(a[0]) + (LockEvents(a[1..]) + LockEvents(b));
      }
    }
  }

  lemma {:induction false} DeleteKeysAppend(a: seq<ArpEvent>, b: seq<ArpEvent>)
    ensures DeleteKeys(a + b) == DeleteKeys(a) + DeleteKeys(b)
  {
    if a == [] {
      assert a + b == b;
    } else {
      calc {
        DeleteKeys(a + b);
        == { assert (a + b)[0] == a[0]; assert (a + b)[1..] == a[1..] + b; }
        DeleteKeyOf(a[0]) + DeleteKeys(a[1..] + b);
        == { DeleteKeysAppend(a[1..], b); }
        DeleteKeyOf(a[0]) + (DeleteKeys(a[1..]) + DeleteKeys(b));
      }
    }
  }

  /** The lock operations and delete keys of a one-event log. */
  lemma SingleEvent(e: ArpEvent)
    ensures LockEvents([e]) == LockEventOf(e)
    ensures DeleteKeys([e]) == DeleteKeyOf(e)
  {
    assert [e][1..] == [];
  }

  /** The delete calls of a drain contain no lock operation, and carry the
      keys of the entries they were made for, in list order. */
  lemma {:induction false} SuccessfulDeletesShape(entries: seq<ArpEntry>)
    ensures LockEvents(SuccessfulDeletes(entries)) == []
    ensures DeleteKeys(SuccessfulDeletes(entries)) == Keys(entries)
  {
    if entries != [] {
      var n := |entries| - 1;
      var call := EntryDeleteCall(KeyOf(entries[n]), Success);
      SuccessfulDeletesShape(entries[..n]);
      LockEventsAppend(SuccessfulDeletes(entries[..n]), [call]);
      DeleteKeysAppend(SuccessfulDeletes(entries[..n]), [call]);
      SingleEvent(call);
      assert Keys(entries) == Keys(entries[..n]) + [KeyOf(entries[n])];
    }
  }

  /** The same for all the delete calls of a drain, the failing one included. */
  lemma DrainCallsShape(before: seq<ArpEntry>, removed: nat, failure: Option<Status>)
    requires removed <= |before|
    requires failure.Some? ==> removed < |before|
    ensures LockEvents(DrainCalls(before, removed, failure)) == []
    ensures DeleteKeys(DrainCalls(before, removed, failure))
            == Keys(before[..if failure.Some? then removed + 1 else removed])
  {
    SuccessfulDeletesShape(before[..removed]);
    if failure.Some? {
      var call := EntryDeleteCall(KeyOf(before[removed]), failure.value);
      LockEventsAppend(SuccessfulDeletes(before[..removed]), [call]);
      DeleteKeysAppend(SuccessfulDeletes(before[..removed]), [call]);
      SingleEvent(call);
      assert Keys(before[..removed + 1]) == Keys(before[..removed]) + [KeyOf(before[removed])];
    } else {
      assert DrainCalls(before, removed, failure) == SuccessfulDeletes(before[..removed]);
    }
  }

  /** The lock operations of a log that brackets `calls` between one mutex
      get and one mutex put. */
  lemma BracketedLocks(logBefore: seq<ArpEvent>, calls: seq<ArpEvent>)
    ensures LockEvents(logBefore + [ArpEvent.MutexGet] + calls + [ArpEvent.MutexPut])
            == LockEvents(logBefore) + [ArpEvent.MutexGet] + LockEvents(calls) + [ArpEvent.MutexPut]
  {
    var withGet := logBefore + [ArpEvent.MutexGet];
    var inner := withGet + calls;
    LockEventsAppend(inner, [ArpEvent.MutexPut]);
    LockEventsAppend(withGet, calls);
    LockEventsAppend(logBefore, [ArpEvent.MutexGet]);
    SingleEvent(ArpEvent.MutexGet);
    SingleEvent(ArpEvent.MutexPut);
  }

  /** The delete keys of a log that brackets `calls` between one mutex get
      and one mutex put. */
  lemma BracketedDeleteKeys(logBefore: seq<ArpEvent>, calls: seq<ArpEvent>)
    ensures DeleteKeys(logBefore + [ArpEvent.MutexGet] + calls + [ArpEvent.MutexPut])
            == DeleteKeys(logBefore) + DeleteKeys(calls)
  {
    var withGet := logBefore + [ArpEvent.MutexGet];
    var inner := withGet + calls;
    DeleteKeysAppend(inner, [ArpEvent.MutexPut]);
    DeleteKeysAppend(withGet, calls);
    DeleteKeysAppend(logBefore, [ArpEvent.MutexGet]);
    SingleEvent(ArpEvent.MutexGet);
    SingleEvent(ArpEvent.MutexPut);
  }

  /** Lock pairing: the lock operations of one drain are exactly one get,
      followed by one put, whether the list was empty, fully drained or the
      drain stopped on a failed delete. */
  lemma DrainLocksPaired(before: seq<ArpEntry>, after: seq<ArpEntry>,
                         logBefore: seq<ArpEvent>, logAfter: seq<ArpEvent>,
                         removed: nat, failure: Option<Status>)
    requires DrainOutcome(before, after, logBefore, logAfter, removed, failure)
    ensures LockEvents(logAfter) == LockEvents(logBefore) + [ArpEvent.MutexGet, ArpEvent.MutexPut]
  {
    DrainCallsShape(before, removed, failure);
    BracketedLocks(logBefore, DrainCalls(before, removed, failure));
  }

  /** Every delete is given the key of the head at that moment: the keys
      passed are those of the original entries, in list order, up to and
      including the one whose delete failed, and no entry after it. */
  lemma DrainDeletesHeadsInOrder(before: seq<ArpEntry>, after: seq<ArpEntry>,
                                 logBefore: seq<ArpEvent>, logAfter: seq<ArpEvent>,
                                 removed: nat, failure: Option<Status>)
    requires DrainOutcome(before, after, logBefore, logAfter, removed, failure)
    ensures failure.None? ==> DeleteKeys(logAfter) == DeleteKeys(logBefore) + Keys(before)
    ensures failure.Some? ==> DeleteKeys(logAfter) == DeleteKeys(logBefore) + Keys(before[..removed + 1])
  {
    DrainCallsShape(before, removed, failure);
    BracketedDeleteKeys(logBefore, DrainCalls(before, removed, failure));
    if failure.None? {
      assert before[..removed] == before;
    }
  }

  /** An empty static list is left as it was and no delete is attempted:
      the drain only takes and releases the mutex. */
  lemma EmptyListDrainDeletesNothing(after: seq<ArpEntry>, logBefore: seq<ArpEvent>, logAfter: seq<ArpEvent>,
                                     removed: nat, failure: Option<Status>)
    requires DrainOutcome([], after, logBefore, logAfter, removed, failure)
    ensures after == [] && removed == 0 && failure.None?
    ensures logAfter == logBefore + [ArpEvent.MutexGet, ArpEvent.MutexPut]
  {
    assert SuccessfulDeletes([]) == [];
  }

  /** When every single delete succeeds, the drain deletes each of the N
      entries exactly once and leaves the static list empty. */
  lemma AllSuccessDrainEmptiesList(before: seq<ArpEntry>, after: seq<ArpEntry>,
                                   logBefore: seq<ArpEvent>, logAfter: seq<ArpEvent>,
                                   removed: nat, failure: Option<Status>)
    requires DrainOutcome(before, after, logBefore, logAfter, removed, failure)
    requires forall i :: |logBefore| <= i < |logAfter| && logAfter[i].EntryDeleteCall? ==> logAfter[i].status == Success
    ensures failure.None? && after == [] && removed == |before|
    ensures logAfter == logBefore + [ArpEvent.MutexGet] + SuccessfulDeletes(before) + [ArpEvent.MutexPut]
  {
    FailedDeleteStopsDrain(before, after, logBefore, logAfter, removed, failure);
    assert before[..removed] == before;
  }

  /** A failed single delete ends the drain: the failing call is the last
      delete, it was given the key of the entry now at the head, and that
      entry and every one after it are still in the list. */
  lemma FailedDeleteStopsDrain(before: seq<ArpEntry>, after: seq<ArpEntry>,
                               logBefore: seq<ArpEvent>, logAfter: seq<ArpEvent>,
                               removed: nat, failure: Option<Status>)
    requires DrainOutcome(before, after, logBefore, logAfter, removed, failure)
    ensures failure.Some? ==> after != [] && after == before[removed..] && failure.value != Success
    ensures failure.Some? ==> |logBefore| + 2 <= |logAfter|
                              && logAfter[|logAfter| - 2] == EntryDeleteCall(KeyOf(after[0]), failure.value)
  {
  }
}
