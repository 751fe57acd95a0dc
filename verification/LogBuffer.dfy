/** The log buffer and the numbering of log records. */
module LogBuffer {
  import opened Defs
  const LOG_BUFFER_SIZE: nat := 1024 * PAGE_SIZE

  datatype LogEntry = LogEntry(lsn: nat, len: nat)

  function TotalLen(es: seq<LogEntry>): nat {
    if es == [] then 0 else TotalLen(es[..|es| - 1]) + es[|es| - 1].len
  }

  lemma {:induction false} TotalLenZero(es: seq<LogEntry>)
    requires forall i :: 0 <= i < |es| ==> es[i].len > 0
    ensures TotalLen(es) == 0 <==> es == []
  {
    if es != [] { TotalLenZero(es[..|es| - 1]); }
  }

  /** `LogManager`: numbers the records and buffers them until they are flushed. */
  class LogManager {
    var durable: seq<LogEntry>
    var buffer: seq<LogEntry>
    var offset: nat
    var globalLsn: nat
    var persistLsn: int

    ghost predicate Valid()
      reads this
    {
      && |durable| + |buffer| == globalLsn
      && (forall i :: 0 <= i < |durable| ==> durable[i].lsn == i)
      && (forall i :: 0 <= i < |buffer| ==> buffer[i].lsn == |durable| + i && buffer[i].len > 0)
      && offset == TotalLen(buffer) <= LOG_BUFFER_SIZE
    }

    /** `persist_lsn_` is the first LSN that is not durable. It starts uninitialised, so
        this may fail until the first flush that writes something. */
    ghost predicate Tracking()
      reads this
    {
      persistLsn == |durable|
    }

    constructor (uninitialised: int)
      ensures Valid() && durable == [] && globalLsn == 0 && persistLsn == uninitialised
    {
      durable, buffer, offset, globalLsn, persistLsn := [], [], 0, 0, uninitialised;
    }

    method FlushLogToDisk()
      requires Valid()
      modifies this
      ensures Valid() && buffer == [] && globalLsn == old(globalLsn)
      ensures durable == old(durable + buffer) && |durable| == globalLsn
      ensures old(buffer) != [] || old(Tracking()) ==> Tracking()
    {
      TotalLenZero(buffer);
      if offset == 0 {
        return;
      }
      durable := durable + buffer;
      buffer, offset := [], 0;
      persistLsn := globalLsn;
    }

    /** Appends the record under the next LSN, after a flush if the buffer is full. */
    method AddLogToBuffer(len: nat) returns (lsn: nat)
      requires Valid() && 0 < len <= LOG_BUFFER_SIZE
      modifies this
      ensures Valid() && lsn == old(globalLsn) && globalLsn == lsn + 1
      ensures durable + buffer == old(durable + buffer) + [LogEntry(lsn, len)]
      ensures durable == if old(offset) + len > LOG_BUFFER_SIZE then old(durable + buffer) else old(durable)
      ensures old(Tracking()) ==> Tracking()
    {
      if offset + len > LOG_BUFFER_SIZE {
        FlushLogToDisk();
      }
      lsn := globalLsn;
      globalLsn := globalLsn + 1;
      assert (buffer + [LogEntry(lsn, len)])[..|buffer|] == buffer;
      buffer := buffer + [LogEntry(lsn, len)];
      offset := offset + len;
    }
  }
}
