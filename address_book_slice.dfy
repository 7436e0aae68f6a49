/**
 * The client's address-book slice: the entry list as last loaded from the
 * API, a loading flag and the last error message. Each method is one case
 * reducer, applied to the state in place; a `...Rejected` reducer receives
 * what the request threw and stores the message `handleApiError` makes of it.
 */
module AddressBookSlice {
  import opened Wrappers
  import Rows
  import ApiErrors
  import opened ClientTypes

  class AddressBookState {
    var entries: seq<EntryRecord>
    var loading: bool
    var error: Option<string>

    /** The initial state: no entries, not loading, no error. */
    constructor ()
      ensures entries == [] && !loading && error == None
    {
      entries, loading, error := [], false, None;
    }

    /** `clearError`: forgets the error and nothing else. */
    method ClearError()
      modifies this
      ensures error == None
      ensures entries == old(entries) && loading == old(loading)
    {
      error := None;
    }

    /** `fetchAddressBook.pending`: loading, and any earlier error cleared. */
    method FetchAddressBookPending()
      modifies this
      ensures loading && error == None
      ensures entries == old(entries)
    {
      loading, error := true, None;
    }

    /** `fetchAddressBook.fulfilled`: the list becomes the payload; the error stays. */
    method FetchAddressBookFulfilled(payload: seq<EntryRecord>)
      modifies this
      ensures entries == payload && !loading
      ensures error == old(error)
    {
      entries, loading := payload, false;
    }

    /** `fetchAddressBook.rejected`: loading ends with the failure's message; the list stays. */
    method FetchAddressBookRejected(failure: ApiErrors.CaughtError)
      modifies this
      ensures !loading && error == Some(ApiErrors.HandleApiError(failure))
      ensures entries == old(entries)
    {
      loading, error := false, Some(ApiErrors.HandleApiError(failure));
    }

    /** `createEntry.fulfilled`: the created entry is appended. */
    method CreateEntryFulfilled(payload: EntryRecord)
      modifies this
      ensures entries == old(entries) + [payload]
      ensures loading == old(loading) && error == old(error)
    {
      entries := entries + [payload];
    }

    /** `createEntry.rejected`: only the error changes. */
    method CreateEntryRejected(failure: ApiErrors.CaughtError)
      modifies this
      ensures error == Some(ApiErrors.HandleApiError(failure))
      ensures entries == old(entries) && loading == old(loading)
    {
      error := Some(ApiErrors.HandleApiError(failure));
    }

    /** `updateEntry.fulfilled`: the first entry with the payload's id is
        replaced by the payload; no change when no entry has that id. */
    method UpdateEntryFulfilled(payload: EntryRecord)
      modifies this
      ensures entries == Rows.ReplaceFirst(old(entries), EntryRecordId, payload)
      ensures |entries| == |old(entries)|
      ensures !Rows.HasKey(old(entries), EntryRecordId, payload.id) ==> entries == old(entries)
      ensures loading == old(loading) && error == old(error)
    {
      var index := Rows.FindIndex(entries, EntryRecordId, payload.id);
      if index != -1 {
        entries := entries[index := payload];
      }
    }

    /** `updateEntry.rejected`: only the error changes. */
    method UpdateEntryRejected(failure: ApiErrors.CaughtError)
      modifies this
      ensures error == Some(ApiErrors.HandleApiError(failure))
      ensures entries == old(entries) && loading == old(loading)
    {
      error := Some(ApiErrors.HandleApiError(failure));
    }

    /** `deleteEntry.fulfilled`: every entry with the deleted id is dropped,
        the rest keep their order. */
    method DeleteEntryFulfilled(id: int)
      modifies this
      ensures entries == Rows.RemoveKey(old(entries), EntryRecordId, id)
      ensures Rows.IsSubsequence(entries, old(entries))
      ensures forall k :: 0 <= k < |entries| ==> entries[k].id != id
      ensures loading == old(loading) && error == old(error)
    {
      Rows.RemoveKeyIsSubsequence(entries, EntryRecordId, id);
      entries := Rows.RemoveKey(entries, EntryRecordId, id);
    }

    /** `deleteEntry.rejected`: only the error changes. */
    method DeleteEntryRejected(failure: ApiErrors.CaughtError)
      modifies this
      ensures error == Some(ApiErrors.HandleApiError(failure))
      ensures entries == old(entries) && loading == old(loading)
    {
      error := Some(ApiErrors.HandleApiError(failure));
    }
  }
}
