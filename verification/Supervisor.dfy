/** The bounded failure log. */
module Supervisor {
  import opened CellCore
  import opened Wrappers

  /** The failures among some results, in order. */
  function Failures(results: seq<WorkResult>): seq<FailureRecord> {
    if results == [] then []
    else
      var before, r := Failures(results[..|results| - 1]), results[|results| - 1];
      if r.Failed? then before + [FailureRecord(r.context, r.nodeId, r.reason)] else before
  }

  function First<T>(n: nat, s: seq<T>): seq<T> {
    if n < |s| then s[..n] else s
  }

  /** What a log of `cap` places holds after one more result. */
  function Logged(cap: nat, records: seq<FailureRecord>, r: WorkResult): seq<FailureRecord> {
    if r.Failed? && |records| < cap then records + [FailureRecord(r.context, r.nodeId, r.reason)] else records
  }

  /** The log holds the first `cap` failures of all results observed. */
  lemma ObserveKeepsFirst(cap: nat, results: seq<WorkResult>, r: WorkResult)
    ensures Logged(cap, First(cap, Failures(results)), r) == First(cap, Failures(results + [r]))
  {
    assert (results + [r])[..|results|] == results;
  }

  /** Nothing is dropped while no more results are observed than the log has places. */
  lemma {:induction false} NoMoreFailuresThanResults(results: seq<WorkResult>)
    ensures |Failures(results)| <= |results|
  {
    if results != [] {
      NoMoreFailuresThanResults(results[..|results| - 1]);
    }
  }

  predicate AllSome<T>(s: seq<Option<T>>) {
    forall i :: 0 <= i < |s| ==> s[i].Some?
  }

  function Values<T>(s: seq<Option<T>>): seq<T>
    requires AllSome(s)
  {
    seq(|s|, i requires 0 <= i < |s| => s[i].value)
  }

  class Supervisor {
    const records: array<Option<FailureRecord>>
    var len: nat
    /** All results observed so far. */
    ghost var observed: seq<WorkResult>

    ghost predicate Valid()
      reads this, records
    {
      len <= records.Length
      && AllSome(records[..len])
      && Stored() == First(records.Length, Failures(observed))
    }

    ghost function Stored(): seq<FailureRecord>
      requires len <= records.Length && AllSome(records[..len])
      reads this, records
    {
      Values(records[..len])
    }

    constructor (cap: nat)
      ensures Valid() && fresh(records) && records.Length == cap && observed == []
    {
      var none := new Option<FailureRecord>[cap](_ => None);
      records := none;
      len := 0;
      observed := [];
    }

    /** Answers with the record of a failure, stored or not, and stores it while there is room. */
    method Observe(result: WorkResult) returns (record: Option<FailureRecord>)
      requires Valid()
      modifies this, records
      ensures Valid() && observed == old(observed) + [result]
      ensures record == if result.Failed? then Some(FailureRecord(result.context, result.nodeId, result.reason))
                        else None
      ensures Stored() == Logged(records.Length, old(Stored()), result)
    {
      ObserveKeepsFirst(records.Length, observed, result);
      ghost var before := Stored();
      observed := observed + [result];
      if !result.Failed? {
        return None;
      }
      var r := FailureRecord(result.context, result.nodeId, result.reason);
      if len < records.Length {
        records[len] := Some(r);
        len := len + 1;
        assert Stored() == before + [r];
      }
      record := Some(r);
    }

    /** The number of failures, as far as the log could hold them. */
    function FailureCount(): (n: nat)
      requires Valid()
      reads this, records
      ensures n == |Stored()|
      ensures n == if |Failures(observed)| < records.Length then |Failures(observed)| else records.Length
    {
      len
    }

    /** The earliest stored failure of the trace, and nothing exactly when none is stored. */
    method FindTrace(traceId: nat) returns (found: Option<FailureRecord>)
      requires Valid()
      ensures match found
              case None => forall i :: 0 <= i < |Stored()| ==> Stored()[i].context.traceId != traceId
              case Some(r) =>
                exists i :: 0 <= i < |Stored()| && Stored()[i] == r && r.context.traceId == traceId
                            && forall j :: 0 <= j < i ==> Stored()[j].context.traceId != traceId
    {
      for i := 0 to len
        invariant forall j :: 0 <= j < i ==> Stored()[j].context.traceId != traceId
      {
        if records[i].value.context.traceId == traceId {
          assert Stored()[i] == records[i].value;
          return records[i];
        }
      }
      found := None;
    }
  }
}
