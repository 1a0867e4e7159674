/**
 * How the three drivers' NextPart loops compare on the same error.
 * benchmark/message panics on everything but io.EOF itself,
 * benchmark/large_payload also tolerates unknown charsets and the
 * multipart EOF failure, and benchmark/sync_all_v2 tolerates a superset.
 */
module TriageOrder {
  import opened GoStrings
  import opened Mime
  import LargePayload
  import SyncAllV2
  import MessageBench

  /**
   * Whatever large_payload ignores, sync_all_v2 ignores too, and whatever
   * large_payload stops on, sync_all_v2 ignores or stops on: the error text
   * "multipart: NextPart: EOF" contains "multipart:".
   */
  lemma ToleranceOrder(e: PartError)
    requires !e.IsEOF()
    ensures Tolerance(LargePayload.Triage(e)) <= Tolerance(SyncAllV2.Triage(e))
  {
    if LargePayload.Triage(e).Stop? && !SyncAllV2.Triage(e).Ignore? {
      assert OccursAt(LargePayload.MultipartError, SyncAllV2.MultipartError, 0);
      ContainsTransitive(e.Error(), LargePayload.MultipartError, SyncAllV2.MultipartError);
    }
  }

  /**
   * An error that wraps io.EOF without being it ends the two errors.Is
   * walks normally but is fatal to the strict `err == io.EOF` walk.
   */
  lemma WrappedEOF(disk: LargePayload.Disk, o: Outcome)
    requires o.err.Some? && o.err.value.Failure? && o.err.value.wrapsEOF
    ensures LargePayload.Handle(disk, o) == Finish([], Done)
    ensures SyncAllV2.Handle(o) == Finish([], Done)
    ensures MessageBench.Handle(o) == Finish([], Failed(PartFailed(o.err.value.text)))
  {
  }
}
