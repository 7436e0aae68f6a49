/**
 * The earlier, single slice that holds entries, jobs and departments
 * together. Its thunks call the API directly without `handleApiError`; only
 * the address-book fetch has pending and rejected cases, the pending case
 * does not clear an earlier error, and there is no `clearError`.
 */
module CombinedAddressBookSlice {
  import opened Wrappers
  import Rows
  import ApiErrors
  import opened ClientTypes

  const FetchFailedMessage: string := "Failed to fetch address book"

  class AddressBookState {
    var entries: seq<EntryRecord>
    var jobs: seq<JobRecord>
    var departments: seq<DepartmentRecord>
    var loading: bool
    var error: Option<string>

    /** The initial state: empty lists, not loading, no error. */
    constructor ()
      ensures entries == [] && jobs == [] && departments == []
      ensures !loading && error == None
    {
      entries, jobs, departments := [], [], [];
      loading, error := false, None;
    }

    /** `fetchAddressBook.pending`: loading; the error stays as it was. */
    method FetchAddressBookPending()
      modifies this
      ensures loading
      ensures entries == old(entries) && jobs == old(jobs) && departments == old(departments)
      ensures error == old(error)
    {
      loading := true;
    }

    /** `fetchAddressBook.fulfilled`: the entry list becomes the payload. */
    method FetchAddressBookFulfilled(payload: seq<EntryRecord>)
      modifies this
      ensures entries == payload && !loading
      ensures jobs == old(jobs) && departments == old(departments) && error == old(error)
    {
      entries, loading := payload, false;
    }

    /** `fetchAddressBook.rejected`: loading ends with the thrown error's
        message, or a fixed message when it has none (or an empty one). */
    method FetchAddressBookRejected(message: Option<string>)
      modifies this
      ensures !loading && error == Some(ApiErrors.OrElse(message, FetchFailedMessage))
      ensures error.value != ""
      ensures entries == old(entries) && jobs == old(jobs) && departments == old(departments)
    {
      loading, error := false, Some(ApiErrors.OrElse(message, FetchFailedMessage));
    }

    /** `fetchJobs.fulfilled`: the job list becomes the payload. */
    method FetchJobsFulfilled(payload: seq<JobRecord>)
      modifies this
      ensures jobs == payload
      ensures entries == old(entries) && departments == old(departments)
      ensures loading == old(loading) && error == old(error)
    {
      jobs := payload;
    }

    /** `fetchDepartments.fulfilled`: the department list becomes the payload. */
    method FetchDepartmentsFulfilled(payload: seq<DepartmentRecord>)
      modifies this
      ensures departments == payload
      ensures entries == old(entries) && jobs == old(jobs)
      ensures loading == old(loading) && error == old(error)
    {
      departments := payload;
    }

    /** `addEntry.fulfilled`: the created entry is appended. */
    method AddEntryFulfilled(payload: EntryRecord)
      modifies this
      ensures entries == old(entries) + [payload]
      ensures jobs == old(jobs) && departments == old(departments)
      ensures loading == old(loading) && error == old(error)
    {
      entries := entries + [payload];
    }

    /** `updateEntry.fulfilled`: the first entry with the payload's id is
        replaced by the payload; no change when no entry has that id. */
    method UpdateEntryFulfilled(payload: EntryRecord)
      modifies this
      ensures entries == Rows.ReplaceFirst(old(entries), EntryRecordId, payload)
      ensures |entries| == |old(entries)|
      ensures !Rows.HasKey(old(entries), EntryRecordId, payload.id) ==> entries == old(entries)
      ensures jobs == old(jobs) && departments == old(departments)
      ensures loading == old(loading) && error == old(error)
    {
      var index := Rows.FindIndex(entries, EntryRecordId, payload.id);
      if index != -1 {
        entries := entries[index := payload];
      }
    }

    /** `deleteEntry.fulfilled`: every entry with the deleted id is dropped,
        the rest keep their order. */
    method DeleteEntryFulfilled(id: int)
      modifies this
      ensures entries == Rows.RemoveKey(old(entries), EntryRecordId, id)
      ensures Rows.IsSubsequence(entries, old(entries))
      ensures forall k :: 0 <= k < |entries| ==> entries[k].id != id
      ensures jobs == old(jobs) && departments == old(departments)
      ensures loading == old(loading) && error == old(error)
    {
      Rows.RemoveKeyIsSubsequence(entries, EntryRecordId, id);
      entries := Rows.RemoveKey(entries, EntryRecordId, id);
    }
  }
}
