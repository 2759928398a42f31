/** The values that travel through the queues. */
module CellCore {

  datatype TraceContext = TraceContext(traceId: nat, timestamp: nat, originNode: nat)

  datatype RawPayload = RawPayload(context: TraceContext, data: seq<bv8>)

  datatype WorkResult =
    | Completed(context: TraceContext)
    | Failed(context: TraceContext, nodeId: nat, reason: string)

  datatype FailureRecord = FailureRecord(context: TraceContext, nodeId: nat, reason: string)

  /** What the application processor answers to a payload. */
  function Validate(raw: RawPayload): WorkResult {
    if |raw.data| == 0 then Failed(raw.context, 1, "Corrupted payload in AP1")
    else Completed(raw.context)
  }
}
