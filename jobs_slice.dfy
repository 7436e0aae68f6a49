/**
 * The client's jobs slice: the job list as last loaded, a loading flag and
 * the last error message. Each method is one case reducer. Only the fetch
 * has a rejected case: a failed create, update or delete leaves the state
 * as it was.
 */
module JobsSlice {
  import opened Wrappers
  import Rows
  import ApiErrors
  import opened ClientTypes

  class JobsState {
    var items: seq<JobRecord>
    var loading: bool
    var error: Option<string>

    /** The initial state: no jobs, not loading, no error. */
    constructor ()
      ensures items == [] && !loading && error == None
    {
      items, loading, error := [], false, None;
    }

    /** `clearError`: forgets the error and nothing else. */
    method ClearError()
      modifies this
      ensures error == None
      ensures items == old(items) && loading == old(loading)
    {
      error := None;
    }

    /** `fetchJobs.pending`: loading, and any earlier error cleared. */
    method FetchJobsPending()
      modifies this
      ensures loading && error == None
      ensures items == old(items)
    {
      loading, error := true, None;
    }

    /** `fetchJobs.fulfilled`: the list becomes the payload; the error stays. */
    method FetchJobsFulfilled(payload: seq<JobRecord>)
      modifies this
      ensures items == payload && !loading
      ensures error == old(error)
    {
      items, loading := payload, false;
    }

    /** `fetchJobs.rejected`: loading ends with the failure's message; the list stays. */
    method FetchJobsRejected(failure: ApiErrors.CaughtError)
      modifies this
      ensures !loading && error == Some(ApiErrors.HandleApiError(failure))
      ensures items == old(items)
    {
      loading, error := false, Some(ApiErrors.HandleApiError(failure));
    }

    /** `createJob.fulfilled`: the created job is appended. */
    method CreateJobFulfilled(payload: JobRecord)
      modifies this
      ensures items == old(items) + [payload]
      ensures loading == old(loading) && error == old(error)
    {
      items := items + [payload];
    }

    /** `updateJob.fulfilled`: the first job with the payload's id is
        replaced by the payload; no change when no job has that id. */
    method UpdateJobFulfilled(payload: JobRecord)
      modifies this
      ensures items == Rows.ReplaceFirst(old(items), JobRecordId, payload)
      ensures |items| == |old(items)|
      ensures !Rows.HasKey(old(items), JobRecordId, payload.id) ==> items == old(items)
      ensures loading == old(loading) && error == old(error)
    {
      var index := Rows.FindIndex(items, JobRecordId, payload.id);
      if index != -1 {
        items := items[index := payload];
      }
    }

    /** `deleteJob.fulfilled`: every job with the deleted id is dropped, the
        rest keep their order. */
    method DeleteJobFulfilled(id: int)
      modifies this
      ensures items == Rows.RemoveKey(old(items), JobRecordId, id)
      ensures Rows.IsSubsequence(items, old(items))
      ensures forall k :: 0 <= k < |items| ==> items[k].id != id
      ensures loading == old(loading) && error == old(error)
    {
      Rows.RemoveKeyIsSubsequence(items, JobRecordId, id);
      items := Rows.RemoveKey(items, JobRecordId, id);
    }
  }
}
