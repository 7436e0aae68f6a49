/** The records the client receives from the API, and their key functions. */
module ClientTypes {
  import opened Wrappers

  datatype JobRecord = JobRecord(id: int, title: string)

  datatype DepartmentRecord = DepartmentRecord(id: int, name: string)

  /** An entry as serialised by the API; the date of birth arrives as text. */
  datatype EntryRecord = EntryRecord(
    id: int,
    fullName: string,
    jobId: int,
    departmentId: int,
    mobileNumber: string,
    dateOfBirth: string,
    address: string,
    email: string,
    password: string,
    photoPath: string,
    age: int,
    job: Option<JobRecord>,
    department: Option<DepartmentRecord>)

  function JobRecordId(j: JobRecord): int { j.id }

  function DepartmentRecordId(d: DepartmentRecord): int { d.id }

  function EntryRecordId(e: EntryRecord): int { e.id }
}
