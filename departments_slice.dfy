/**
 * The client's departments slice: the department list as last loaded, a loading flag and
 * the last error message. Each method is one case reducer. Only the fetch
 * has a rejected case: a failed create, update or delete leaves the state
 * as it was.
 */
module DepartmentsSlice {
  import opened Wrappers
  import Rows
  import ApiErrors
  import opened ClientTypes

  class DepartmentsState {
    var items: seq<DepartmentRecord>
    var loading: bool
    var error: Option<string>

    /** The initial state: no departments, not loading, no error. */
    constructor ()
      ensures items == [] && !loading && error == None
    {
      items, loading, error := [], false, None;
    }

    /** `clearError`: forgets the error and nothing else. */
    method ClearError()
      modifies this
      ensures error == None
      ensures items == old(items) && loading == old(loading)
    {
      error := None;
    }

    /** `fetchDepartments.pending`: loading, and any earlier error cleared. */
    method FetchDepartmentsPending()
      modifies this
      ensures loading && error == None
      ensures items == old(items)
    {
      loading, error := true, None;
    }

    /** `fetchDepartments.fulfilled`: the list becomes the payload; the error stays. */
    method FetchDepartmentsFulfilled(payload: seq<DepartmentRecord>)
      modifies this
      ensures items == payload && !loading
      ensures error == old(error)
    {
      items, loading := payload, false;
    }

    /** `fetchDepartments.rejected`: loading ends with the failure's message; the list stays. */
    method FetchDepartmentsRejected(failure: ApiErrors.CaughtError)
      modifies this
      ensures !loading && error == Some(ApiErrors.HandleApiError(failure))
      ensures items == old(items)
    {
      loading, error := false, Some(ApiErrors.HandleApiError(failure));
    }

    /** `createDepartment.fulfilled`: the created department is appended. */
    method CreateDepartmentFulfilled(payload: DepartmentRecord)
      modifies this
      ensures items == old(items) + [payload]
      ensures loading == old(loading) && error == old(error)
    {
      items := items + [payload];
    }

    /** `updateDepartment.fulfilled`: the first department with the payload's id is
        replaced by the payload; no change when no department has that id. */
    method UpdateDepartmentFulfilled(payload: DepartmentRecord)
      modifies this
      ensures items == Rows.ReplaceFirst(old(items), DepartmentRecordId, payload)
      ensures |items| == |old(items)|
      ensures !Rows.HasKey(old(items), DepartmentRecordId, payload.id) ==> items == old(items)
      ensures loading == old(loading) && error == old(error)
    {
      var index := Rows.FindIndex(items, DepartmentRecordId, payload.id);
      if index != -1 {
        items := items[index := payload];
      }
    }

    /** `deleteDepartment.fulfilled`: every department with the deleted id is dropped, the
        rest keep their order. */
    method DeleteDepartmentFulfilled(id: int)
      modifies this
      ensures items == Rows.RemoveKey(old(items), DepartmentRecordId, id)
      ensures Rows.IsSubsequence(items, old(items))
      ensures forall k :: 0 <= k < |items| ==> items[k].id != id
      ensures loading == old(loading) && error == old(error)
    {
      Rows.RemoveKeyIsSubsequence(items, DepartmentRecordId, id);
      items := Rows.RemoveKey(items, DepartmentRecordId, id);
    }
  }
}
