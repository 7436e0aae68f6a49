/** The departments reference table and the service that lists, reads,
    creates, renames and deletes its rows. */
module Departments {
  import opened Wrappers
  import Rows

  datatype Department = Department(id: int, name: string)

  function DepartmentId(d: Department): int { d.id }

  class DepartmentService {
    /** The departments table, in insertion (= ascending id) order. */
    var departments: seq<Department>
    /** The next value of the identity column. */
    var nextId: int

    ghost predicate Valid()
      reads this
    {
      && Rows.IncreasingKeys(departments, DepartmentId)
      && 0 < nextId
      && (forall k :: 0 <= k < |departments| ==> 0 < departments[k].id < nextId)
    }

    constructor ()
      ensures Valid() && departments == [] && nextId == 1
    {
      departments, nextId := [], 1;
    }

    /** Every stored department, each with a distinct id. */
    function GetAllDepartments(): (r: seq<Department>)
      reads this
      requires Valid()
      ensures r == departments
      ensures forall i, j :: 0 <= i < j < |r| ==> r[i].id != r[j].id
    {
      departments
    }

    /** The department with the given id, or none. */
    function GetDepartmentById(id: int): (r: Option<Department>)
      reads this
      ensures r.Some? <==> Rows.HasKey(departments, DepartmentId, id)
      ensures r.Some? ==> r.value.id == id && r.value in departments
    {
      var k := Rows.FindIndex(departments, DepartmentId, id);
      if k == -1 then None else Some(departments[k])
    }

    /** Adds a department with the given name under a fresh id and returns it. */
    method CreateDepartment(name: string) returns (department: Department)
      requires Valid()
      modifies this
      ensures Valid()
      ensures department == Department(old(nextId), name)
      ensures !Rows.HasKey(old(departments), DepartmentId, department.id)
      ensures departments == old(departments) + [department]
      ensures nextId == old(nextId) + 1
    {
      department := Department(nextId, name);
      departments := departments + [department];
      nextId := nextId + 1;
    }

    /** Renames the department with the given id; none and no change when absent. */
    method UpdateDepartment(id: int, name: string) returns (r: Option<Department>)
      requires Valid()
      modifies this
      ensures Valid() && nextId == old(nextId)
      ensures r.Some? <==> Rows.HasKey(old(departments), DepartmentId, id)
      ensures r.None? ==> departments == old(departments)
      ensures r.Some? ==> r.value == Department(id, name) && departments == Rows.ReplaceFirst(old(departments), DepartmentId, r.value)
      ensures |departments| == |old(departments)|
      ensures forall k :: 0 <= k < |departments| && old(departments)[k].id != id ==> departments[k] == old(departments)[k]
    {
      var k := Rows.FindIndex(departments, DepartmentId, id);
      if k == -1 {
        return None;
      }
      Rows.ReplaceFirstKeepsIncreasingKeys(departments, DepartmentId, Department(id, name));
      departments := departments[k := departments[k].(name := name)];
      r := Some(departments[k]);
    }

    /** Removes the department with the given id; no change when absent. */
    method DeleteDepartment(id: int)
      requires Valid()
      modifies this
      ensures Valid() && nextId == old(nextId)
      ensures departments == Rows.RemoveKey(old(departments), DepartmentId, id)
      ensures Rows.HasKey(old(departments), DepartmentId, id) ==>
        departments == Rows.RemoveAt(old(departments), Rows.FindIndex(old(departments), DepartmentId, id))
    {
      var k := Rows.FindIndex(departments, DepartmentId, id);
      if k != -1 {
        Rows.RemoveAtIsRemoveKey(departments, DepartmentId, k);
        Rows.RemoveAtKeepsIncreasingKeys(departments, DepartmentId, k);
        departments := Rows.RemoveAt(departments, k);
      }
    }
  }
}
