/**
 * The execution history store: the `JobExecutionHistory` entity and the
 * `JobExecutionHistoryRepository` that saves, queries and purges it.
 * Completion dates are a natural-number clock reading.
 */
module History {
  import opened Wrappers

  /** `JobExecutionHistory.Result`. */
  datatype Result = Success | Failed

  /** One immutable history row; every column is `updatable = false`. */
  datatype Record = Record(jobName: string, completion: nat, result: Result)

  /** True when some record of `records` belongs to job `name`. */
  predicate HasRecordFor(records: seq<Record>, name: string)
  {
    exists i :: 0 <= i < |records| && records[i].jobName == name
  }

  /**
   * `findTopByJobNameOrderByCompletionDateDesc`: the record of job `name`
   * with the latest completion date, or none when the job has no record.
   * Among records with the same completion date, the one saved last wins.
   */
  function FindTopByJobName(records: seq<Record>, name: string): (top: Option<Record>)
    ensures top.None? <==> !HasRecordFor(records, name)
    ensures top.Some? ==> top.value in records && top.value.jobName == name
    ensures top.Some? ==>
      forall i :: 0 <= i < |records| && records[i].jobName == name ==>
        records[i].completion <= top.value.completion
  {
    if records == [] then None
    else
      var last := records[|records| - 1];
      var earlier := FindTopByJobName(records[..|records| - 1], name);
      assert forall i :: 0 <= i < |records| - 1 ==> records[..|records| - 1][i] == records[i];
      if last.jobName != name then earlier
      else if earlier.Some? && earlier.value.completion > last.completion then earlier
      else Some(last)
  }

  /** The records of `records` that belong to job `name`, in their original order. */
  function RecordsOf(records: seq<Record>, name: string): (own: seq<Record>)
    ensures forall r :: r in own <==> r in records && r.jobName == name
  {
    if records == [] then []
    else
      var last := records[|records| - 1];
      RecordsOf(records[..|records| - 1], name) + (if last.jobName == name then [last] else [])
  }

  /** What `deleteAllByJobName(name)` leaves behind: every record of another job, in order. */
  function WithoutJob(records: seq<Record>, name: string): (kept: seq<Record>)
    ensures forall r :: r in kept <==> r in records && r.jobName != name
    ensures |kept| <= |records|
  {
    if records == [] then []
    else
      var last := records[|records| - 1];
      WithoutJob(records[..|records| - 1], name) + (if last.jobName == name then [] else [last])
  }

  /** Where each record kept by `WithoutJob(records, name)` stood in `records`. */
  function KeptPositions(records: seq<Record>, name: string): seq<nat>
  {
    if records == [] then []
    else
      KeptPositions(records[..|records| - 1], name)
        + (if records[|records| - 1].jobName == name then [] else [|records| - 1])
  }

  /**
   * The purge keeps the other jobs' records as an order-preserving subsequence:
   * the k-th kept record is the record at the k-th of strictly increasing
   * positions, and every record of another job has its position among them.
   */
  lemma {:induction false} WithoutJobInOrder(records: seq<Record>, name: string)
    ensures |KeptPositions(records, name)| == |WithoutJob(records, name)|
    ensures forall k :: 0 <= k < |KeptPositions(records, name)| ==>
      KeptPositions(records, name)[k] < |records| &&
      records[KeptPositions(records, name)[k]] == WithoutJob(records, name)[k]
    ensures forall k, l :: 0 <= k < l < |KeptPositions(records, name)| ==>
      KeptPositions(records, name)[k] < KeptPositions(records, name)[l]
    ensures forall i :: 0 <= i < |records| && records[i].jobName != name ==> i in KeptPositions(records, name)
  {
    KeptPositionsMatch(records, name);
    KeptPositionsIncreasing(records, name);
    KeptPositionsCover(records, name);
  }

  /** Every kept position is a position of `records`. */
  lemma {:induction false} KeptPositionsBounded(records: seq<Record>, name: string)
    ensures forall k :: 0 <= k < |KeptPositions(records, name)| ==> KeptPositions(records, name)[k] < |records|
  {
    if records != [] {
      KeptPositionsBounded(records[..|records| - 1], name);
    }
  }

  /** The kept positions strictly increase. */
  lemma {:induction false} KeptPositionsIncreasing(records: seq<Record>, name: string)
    ensures forall k, l :: 0 <= k < l < |KeptPositions(records, name)| ==>
      KeptPositions(records, name)[k] < KeptPositions(records, name)[l]
  {
    if records != [] {
      var earlier := records[..|records| - 1];
      KeptPositionsIncreasing(earlier, name);
      KeptPositionsBounded(earlier, name);
    }
  }

  /** The k-th kept record is the record at the k-th kept position. */
  lemma {:induction false} KeptPositionsMatch(records: seq<Record>, name: string)
    ensures |KeptPositions(records, name)| == |WithoutJob(records, name)|
    ensures forall k :: 0 <= k < |KeptPositions(records, name)| ==>
      KeptPositions(records, name)[k] < |records| &&
      records[KeptPositions(records, name)[k]] == WithoutJob(records, name)[k]
  {
    if records != [] {
      var earlier := records[..|records| - 1];
      KeptPositionsMatch(earlier, name);
      var rest := KeptPositions(earlier, name);
      var kept := WithoutJob(earlier, name);
      var pos := KeptPositions(records, name);
      var all := WithoutJob(records, name);
      var last := records[|records| - 1];
      assert pos == rest + (if last.jobName == name then [] else [|earlier|]);
      assert all == kept + (if last.jobName == name then [] else [last]);
      forall k | 0 <= k < |rest| ensures pos[k] < |records| && records[pos[k]] == all[k] {
        assert pos[k] == rest[k] && all[k] == kept[k];
        assert records[rest[k]] == earlier[rest[k]];
      }
    }
  }

  /** Every record of another job has its position among the kept positions. */
  lemma {:induction false} KeptPositionsCover(records: seq<Record>, name: string)
    ensures forall i :: 0 <= i < |records| && records[i].jobName != name ==> i in KeptPositions(records, name)
  {
    if records != [] {
      var earlier := records[..|records| - 1];
      KeptPositionsCover(earlier, name);
      var rest := KeptPositions(earlier, name);
      var pos := KeptPositions(records, name);
      var last := records[|records| - 1];
      assert pos == rest + (if last.jobName == name then [] else [|earlier|]);
      forall i | 0 <= i < |earlier| && records[i].jobName != name ensures i in pos {
        assert earlier[i] == records[i];
        assert i in rest;
      }
    }
  }

  /** After the purge no record of `name` remains. */
  lemma WithoutJobRemovesAll(records: seq<Record>, name: string)
    ensures !HasRecordFor(WithoutJob(records, name), name)
  {
    var kept := WithoutJob(records, name);
    forall i | 0 <= i < |kept| ensures kept[i].jobName != name {
      assert kept[i] in kept;
    }
  }

  /** The purge keeps the history of every other job exactly: same records, same order. */
  lemma {:induction false} WithoutJobKeepsOthers(records: seq<Record>, name: string, other: string)
    requires other != name
    ensures RecordsOf(WithoutJob(records, name), other) == RecordsOf(records, other)
  {
    if records != [] {
      var last := records[|records| - 1];
      var earlier := records[..|records| - 1];
      var kept := WithoutJob(earlier, name);
      WithoutJobKeepsOthers(earlier, name, other);
      assert RecordsOf(records, other)
          == RecordsOf(earlier, other) + (if last.jobName == other then [last] else []);
      if last.jobName == name {
        assert WithoutJob(records, name) == kept + [];
        assert kept + [] == kept;
      } else {
        assert WithoutJob(records, name) == kept + [last];
        assert (kept + [last])[..|kept + [last]| - 1] == kept;
        assert RecordsOf(kept + [last], other)
            == RecordsOf(kept, other) + (if last.jobName == other then [last] else []);
      }
    }
  }

  /** The purge does not change what the latest-record query answers for another job. */
  lemma {:induction false} WithoutJobKeepsOthersTop(records: seq<Record>, name: string, other: string)
    requires other != name
    ensures FindTopByJobName(WithoutJob(records, name), other) == FindTopByJobName(records, other)
  {
    if records != [] {
      var last := records[|records| - 1];
      var earlier := records[..|records| - 1];
      var kept := WithoutJob(earlier, name);
      WithoutJobKeepsOthersTop(earlier, name, other);
      if last.jobName == name {
        assert WithoutJob(records, name) == kept + [];
        assert kept + [] == kept;
      } else {
        assert WithoutJob(records, name) == kept + [last];
        assert (kept + [last])[..|kept + [last]| - 1] == kept;
        assert (kept + [last])[|kept + [last]| - 1] == last;
      }
    }
  }

  /** A purge of a job that has no record changes nothing. */
  lemma {:induction false} WithoutAbsentJob(records: seq<Record>, name: string)
    requires !HasRecordFor(records, name)
    ensures WithoutJob(records, name) == records
  {
    if records != [] {
      var earlier := records[..|records| - 1];
      assert !HasRecordFor(earlier, name) by {
        forall i | 0 <= i < |earlier| ensures earlier[i].jobName != name {
          assert earlier[i] == records[i];
        }
      }
      WithoutAbsentJob(earlier, name);
      assert records == earlier + [records[|records| - 1]];
    }
  }

  /**
   * Saving a record stamped no earlier than any record of its job makes it the
   * job's latest record, and leaves every other job's latest record alone.
   */
  lemma SaveBecomesTop(records: seq<Record>, r: Record)
    requires forall x :: x in records && x.jobName == r.jobName ==> x.completion <= r.completion
    ensures FindTopByJobName(records + [r], r.jobName) == Some(r)
    ensures forall other :: other != r.jobName ==>
      FindTopByJobName(records + [r], other) == FindTopByJobName(records, other)
  {
    assert (records + [r])[..|records + [r]| - 1] == records;
  }

  /** `JobExecutionHistoryRepository`: a table of history rows. */
  class HistoryRepository {
    var records: seq<Record>

    constructor(initial: seq<Record>)
      ensures records == initial
    {
      records := initial;
    }

    /** `save` of a new entity: appended; the existing rows are not touched. */
    method Save(r: Record)
      modifies this
      ensures records == old(records) + [r]
      ensures records[..|old(records)|] == old(records)
    {
      records := records + [r];
    }

    /** `deleteAllByJobName`. */
    method DeleteAllByJobName(name: string)
      modifies this
      ensures records == WithoutJob(old(records), name)
      ensures !HasRecordFor(records, name)
      ensures forall other :: other != name ==> RecordsOf(records, other) == RecordsOf(old(records), other)
    {
      ghost var before := records;
      records := WithoutJob(records, name);
      WithoutJobRemovesAll(before, name);
      forall other | other != name
        ensures RecordsOf(records, other) == RecordsOf(before, other)
      {
        WithoutJobKeepsOthers(before, name, other);
      }
    }
  }
}
