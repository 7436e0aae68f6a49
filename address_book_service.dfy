/**
 * The address-book entry service: create, read, update, delete, search and
 * spreadsheet export over the entry table, with uploaded photos kept as a set
 * of file names in the upload directory.
 *
 * The jobs and departments tables are read-only inputs of this service.
 * Password hashing, the current date and the random file-name prefix are
 * parameters: `hash` stands for the salted hash, `today` for `DateTime.Today`
 * and `guid` for `Guid.NewGuid().ToString()`.
 */
module AddressBookEntries {
  import opened Wrappers
  import opened Calendar
  import Rows
  import Text
  import Jobs
  import Departments

  /** A stored entry. The `Job` and `Department` navigation properties are
      represented by their foreign keys and resolved against the tables. */
  datatype Entry = Entry(
    id: int,
    fullName: string,
    jobId: int,
    departmentId: int,
    mobileNumber: string,
    dateOfBirth: DateTime,
    address: string,
    email: string,
    password: string,
    photoPath: Option<string>,
    age: int)

  function EntryId(e: Entry): int { e.id }

  /** An uploaded photo; only the name the client sent is used. */
  datatype Upload = Upload(fileName: string)

  /** The form fields of a create or update request. On create the password
      may still be absent (the service rejects that); on update an absent or
      empty password and an absent photo mean "keep the stored one". */
  datatype EntryRequest = EntryRequest(
    fullName: string,
    jobId: int,
    departmentId: int,
    mobileNumber: string,
    dateOfBirth: DateTime,
    address: string,
    email: string,
    password: Option<string>,
    photo: Option<Upload>)

  /** The file name a saved photo gets: the random prefix, `_`, the client's name. */
  function PhotoFileName(guid: string, upload: Upload): (name: string)
    ensures |name| == |guid| + 1 + |upload.fileName|
    ensures name[..|guid|] == guid && name[|guid|] == '_'
    ensures name[|guid| + 1..] == upload.fileName
  {
    guid + "_" + upload.fileName
  }

  /** What saving `photo` records as the entry's photo path. */
  function SavedPath(photo: Option<Upload>, guid: string): (path: Option<string>)
    ensures path.Some? <==> photo.Some?
    ensures photo.Some? ==> path.value == PhotoFileName(guid, photo.value)
  {
    match photo
    case None => None
    case Some(upload) => Some(PhotoFileName(guid, upload))
  }

  /** The files that deleting the photo at `path` removes: none for a null or
      empty path. */
  function DeletedFiles(path: Option<string>): (files: set<string>)
    ensures path.None? || path.value == "" ==> files == {}
    ensures path.Some? && path.value != "" ==> files == {path.value}
  {
    if path.Some? && path.value != "" then {path.value} else {}
  }

  /** The birthday (month, day) of `dateOfBirth` falls after (month, day) of
      `today` in the calendar year. */
  predicate BirthdayLater(dateOfBirth: DateTime, today: DateTime) {
    dateOfBirth.month > today.month
    || (dateOfBirth.month == today.month && dateOfBirth.day > today.day)
  }

  /** Age in whole years: the year difference, less one when this year's
      birthday is still ahead. Computed as the source does, by comparing the
      birth date with today moved back by the year difference. */
  function CalculateAge(dateOfBirth: DateTime, today: DateTime): (age: int)
    requires Valid(dateOfBirth) && Valid(today)
    ensures age == today.year - dateOfBirth.year - (if BirthdayLater(dateOfBirth, today) then 1 else 0)
  {
    var t := DateOf(today);
    var age := t.year - dateOfBirth.year;
    var shifted := AddYears(t, -age);
    assert shifted.year == dateOfBirth.year;
    assert shifted.month == 2 && shifted.day == 28 && t.day == 29 ==> dateOfBirth.month != 2 || dateOfBirth.day <= 28;
    if Before(shifted, DateOf(dateOfBirth)) then age - 1 else age
  }

  /** The age is never negative exactly when the birth date is not in the future. */
  lemma AgeNonNegativeIffBorn(dateOfBirth: DateTime, today: DateTime)
    requires Valid(dateOfBirth) && Valid(today)
    ensures CalculateAge(dateOfBirth, today) >= 0 <==> AtOrBefore(DateOf(dateOfBirth), DateOf(today))
  {
  }

  /** Someone born on this day `n` years ago is `n`; born on a later day of that year, `n - 1`. */
  lemma AgeOnAnniversary(dateOfBirth: DateTime, today: DateTime, n: int)
    requires Valid(dateOfBirth) && Valid(today)
    requires dateOfBirth.year + n == today.year
    ensures dateOfBirth.month == today.month && dateOfBirth.day == today.day ==> CalculateAge(dateOfBirth, today) == n
    ensures BirthdayLater(dateOfBirth, today) ==> CalculateAge(dateOfBirth, today) == n - 1
  {
  }

  /** The free-text part of the search, for a term already lower-cased:
      a case-insensitive substring of the name, e-mail or address, or a plain
      substring of the mobile number. */
  predicate MatchesTerm(e: Entry, loweredTerm: string)
    ensures MatchesTerm(e, loweredTerm) ==>
      || |loweredTerm| <= |e.fullName| || |loweredTerm| <= |e.email|
      || |loweredTerm| <= |e.address| || |loweredTerm| <= |e.mobileNumber|
  {
    || Text.Contains(Text.ToLower(e.fullName), loweredTerm)
    || Text.Contains(Text.ToLower(e.email), loweredTerm)
    || Text.Contains(Text.ToLower(e.address), loweredTerm)
    || Text.Contains(e.mobileNumber, loweredTerm)
  }

  /** The search filters composed with AND; an absent (or empty) filter
      imposes nothing, and the date bounds are inclusive. */
  predicate Matches(e: Entry, searchTerm: Option<string>, startDate: Option<DateTime>, endDate: Option<DateTime>)
    ensures (searchTerm.None? || searchTerm == Some("")) && startDate.None? && endDate.None? ==> Matches(e, searchTerm, startDate, endDate)
    ensures startDate.Some? && endDate.Some? && Before(endDate.value, startDate.value) ==> !Matches(e, searchTerm, startDate, endDate)
  {
    && (searchTerm.None? || searchTerm.value == "" || MatchesTerm(e, Text.ToLower(searchTerm.value)))
    && (startDate.None? || AtOrBefore(startDate.value, e.dateOfBirth))
    && (endDate.None? || AtOrBefore(e.dateOfBirth, endDate.value))
  }

  /** A spreadsheet cell value. */
  datatype Cell = Blank | TextCell(text: string) | NumberCell(number: int) | DateCell(date: DateTime)

  /** The header row of the export. */
  const Header: seq<string> :=
    ["Full Name", "Job Title", "Department", "Mobile Number", "Date of Birth", "Age", "Email", "Address", "Photo Url"]

  /** `entry.Job?.Title`: the title of the referenced job, blank when none is loaded. */
  function JobTitleCell(jobs: seq<Jobs.Job>, jobId: int): (c: Cell)
    ensures c.Blank? <==> !Rows.HasKey(jobs, Jobs.JobId, jobId)
    ensures c.TextCell? ==> exists k :: 0 <= k < |jobs| && jobs[k].id == jobId && jobs[k].title == c.text
  {
    var k := Rows.FindIndex(jobs, Jobs.JobId, jobId);
    if k == -1 then Blank else TextCell(jobs[k].title)
  }

  /** `entry.Department?.Name`, likewise. */
  function DepartmentNameCell(departments: seq<Departments.Department>, departmentId: int): (c: Cell)
    ensures c.Blank? <==> !Rows.HasKey(departments, Departments.DepartmentId, departmentId)
    ensures c.TextCell? ==> exists k :: 0 <= k < |departments| && departments[k].id == departmentId && departments[k].name == c.text
  {
    var k := Rows.FindIndex(departments, Departments.DepartmentId, departmentId);
    if k == -1 then Blank else TextCell(departments[k].name)
  }

  /** The photo path as text, blank when the entry has none. */
  function PhotoCell(path: Option<string>): (c: Cell)
    ensures c.Blank? <==> path.None?
    ensures c.TextCell? ==> path == Some(c.text)
  {
    if path.Some? then TextCell(path.value) else Blank
  }

  /** The nine cells written for one entry, in header order. */
  function RowCells(e: Entry, jobs: seq<Jobs.Job>, departments: seq<Departments.Department>): (r: seq<Cell>)
    ensures |r| == |Header|
  {
    [ TextCell(e.fullName), JobTitleCell(jobs, e.jobId), DepartmentNameCell(departments, e.departmentId),
      TextCell(e.mobileNumber), DateCell(e.dateOfBirth), NumberCell(e.age), TextCell(e.email),
      TextCell(e.address), PhotoCell(e.photoPath) ]
  }

  class AddressBookService {
    /** The entry table, in insertion (= ascending id) order. */
    var entries: seq<Entry>
    /** The next value of the identity column. */
    var nextId: int
    /** The files present in the upload directory. */
    var photos: set<string>

    /** Ids are positive, unique, increasing, and below the identity counter. */
    ghost predicate Valid()
      reads this
    {
      && Rows.IncreasingKeys(entries, EntryId)
      && 0 < nextId
      && (forall k :: 0 <= k < |entries| ==> 0 < entries[k].id < nextId)
    }

    constructor (files: set<string>)
      ensures Valid() && entries == [] && nextId == 1 && photos == files
    {
      entries, nextId, photos := [], 1, files;
    }

    /** Every entry, each with a distinct id. */
    function GetAllEntries(): (r: seq<Entry>)
      reads this
      requires Valid()
      ensures r == entries
      ensures forall i, j :: 0 <= i < j < |r| ==> r[i].id != r[j].id
    {
      entries
    }

    /** The entry with the given id, or none. */
    function GetEntryById(id: int): (r: Option<Entry>)
      reads this
      ensures r.Some? <==> Rows.HasKey(entries, EntryId, id)
      ensures r.Some? ==> r.value.id == id && r.value in entries
    {
      var k := Rows.FindIndex(entries, EntryId, id);
      if k == -1 then None else Some(entries[k])
    }

    /** Writes the uploaded file, if any, under its generated name. */
    method SavePhoto(photo: Option<Upload>, guid: string) returns (path: Option<string>)
      modifies this`photos
      ensures path == SavedPath(photo, guid)
      ensures photos == old(photos) + (if photo.Some? then {path.value} else {})
    {
      if photo.None? {
        return None;
      }
      var name := PhotoFileName(guid, photo.value);
      photos := photos + {name};
      path := Some(name);
    }

    /** Removes the file at `path` when there is such a file; nothing for a
        null or empty path. */
    method DeletePhoto(path: Option<string>)
      modifies this`photos
      ensures photos == old(photos) - DeletedFiles(path)
    {
      if path.None? || path.value == "" {
        return;
      }
      if path.value in photos {
        photos := photos - {path.value};
      }
    }

    /** An update's photo step: the stored file is deleted and the new one
        saved in its place. */
    method ReplacePhoto(current: Option<string>, photo: Upload, guid: string) returns (path: Option<string>)
      modifies this`photos
      ensures path == Some(PhotoFileName(guid, photo))
      ensures photos == old(photos) - DeletedFiles(current) + {PhotoFileName(guid, photo)}
    {
      DeletePhoto(current);
      path := SavePhoto(Some(photo), guid);
    }

    /** Saves the photo first, then rejects an unknown job or department id
        or an absent password; otherwise stores a new entry with the hashed
        password and the computed age. */
    method CreateEntry(request: EntryRequest, jobs: seq<Jobs.Job>, departments: seq<Departments.Department>,
                       guid: string, hash: string -> string, today: DateTime) returns (r: Option<Entry>)
      requires Valid() && Calendar.Valid(request.dateOfBirth) && Calendar.Valid(today)
      modifies this
      ensures Valid()
      ensures photos == old(photos) + (if request.photo.Some? then {PhotoFileName(guid, request.photo.value)} else {})
      ensures r.None? <==>
        || !Rows.HasKey(jobs, Jobs.JobId, request.jobId)
        || !Rows.HasKey(departments, Departments.DepartmentId, request.departmentId)
        || request.password.None?
      ensures r.None? ==> entries == old(entries) && nextId == old(nextId)
      ensures r.Some? ==>
        && r.value == Entry(old(nextId), request.fullName, request.jobId, request.departmentId,
                            request.mobileNumber, request.dateOfBirth, request.address, request.email,
                            hash(request.password.value), SavedPath(request.photo, guid),
                            CalculateAge(request.dateOfBirth, today))
        && !Rows.HasKey(old(entries), EntryId, r.value.id)
        && entries == old(entries) + [r.value]
        && nextId == old(nextId) + 1
    {
      var photoPath := SavePhoto(request.photo, guid);
      var jobIndex := Rows.FindIndex(jobs, Jobs.JobId, request.jobId);
      var departmentIndex := Rows.FindIndex(departments, Departments.DepartmentId, request.departmentId);
      if jobIndex == -1 || departmentIndex == -1 {
        return None;
      }
      if request.password.None? {
        return None;
      }
      var entry := Entry(nextId, request.fullName, request.jobId, request.departmentId,
                         request.mobileNumber, request.dateOfBirth, request.address, request.email,
                         hash(request.password.value), photoPath,
                         CalculateAge(request.dateOfBirth, today));
      entries := entries + [entry];
      nextId := nextId + 1;
      r := Some(entry);
    }

    /** Overwrites every field of the entry with the given id. A supplied
        photo replaces the stored file; a non-empty password is re-hashed,
        otherwise the stored hash stays; the age is recomputed. The job and
        department ids are not checked. A missing id changes nothing. */
    method UpdateEntry(id: int, request: EntryRequest, guid: string, hash: string -> string, today: DateTime)
      returns (r: Option<Entry>)
      requires Valid() && Calendar.Valid(request.dateOfBirth) && Calendar.Valid(today)
      modifies this
      ensures Valid() && nextId == old(nextId)
      ensures r.Some? <==> Rows.HasKey(old(entries), EntryId, id)
      ensures r.None? ==> entries == old(entries) && photos == old(photos)
      ensures r.Some? ==>
        var k := Rows.FindIndex(old(entries), EntryId, id);
        var before := old(entries)[k];
        && r.value == Entry(id, request.fullName, request.jobId, request.departmentId,
                            request.mobileNumber, request.dateOfBirth, request.address, request.email,
                            if request.password.Some? && request.password.value != ""
                            then hash(request.password.value) else before.password,
                            if request.photo.Some? then SavedPath(request.photo, guid) else before.photoPath,
                            CalculateAge(request.dateOfBirth, today))
        && entries == old(entries)[k := r.value]
        && photos == if request.photo.Some?
                     then old(photos) - DeletedFiles(before.photoPath) + {PhotoFileName(guid, request.photo.value)}
                     else old(photos)
    {
      var k := Rows.FindIndex(entries, EntryId, id);
      if k == -1 {
        return None;
      }
      var entry := entries[k];
      var photoPath := entry.photoPath;
      if request.photo.Some? {
        photoPath := ReplacePhoto(entry.photoPath, request.photo.value, guid);
      }
      var password := entry.password;
      if request.password.Some? && request.password.value != "" {
        password := hash(request.password.value);
      }
      entry := Entry(entry.id, request.fullName, request.jobId, request.departmentId,
                     request.mobileNumber, request.dateOfBirth, request.address, request.email,
                     password, photoPath, CalculateAge(request.dateOfBirth, today));
      entries := entries[k := entry];
      r := Some(entry);
    }

    /** Removes the entry with the given id together with its photo file;
        a missing id changes nothing. */
    method DeleteEntry(id: int)
      requires Valid()
      modifies this
      ensures Valid() && nextId == old(nextId)
      ensures entries == Rows.RemoveKey(old(entries), EntryId, id)
      ensures !Rows.HasKey(old(entries), EntryId, id) ==> photos == old(photos)
      ensures Rows.HasKey(old(entries), EntryId, id) ==>
        var k := Rows.FindIndex(old(entries), EntryId, id);
        && entries == Rows.RemoveAt(old(entries), k)
        && photos == old(photos) - DeletedFiles(old(entries)[k].photoPath)
    {
      var k := Rows.FindIndex(entries, EntryId, id);
      if k != -1 {
        DeletePhoto(entries[k].photoPath);
        Rows.RemoveAtIsRemoveKey(entries, EntryId, k);
        Rows.RemoveAtKeepsIncreasingKeys(entries, EntryId, k);
        entries := Rows.RemoveAt(entries, k);
      }
    }

    /** The entries passing every given filter, in table order. */
    function SearchEntries(searchTerm: Option<string>, startDate: Option<DateTime>, endDate: Option<DateTime>)
      : (r: seq<Entry>)
      reads this
      ensures Rows.IsSubsequence(r, entries)
      ensures forall k :: 0 <= k < |r| ==> r[k] in entries
      ensures forall k :: 0 <= k < |r| && searchTerm.Some? && searchTerm.value != "" ==>
        MatchesTerm(r[k], Text.ToLower(searchTerm.value))
      ensures forall k :: 0 <= k < |r| && startDate.Some? ==> AtOrBefore(startDate.value, r[k].dateOfBirth)
      ensures forall k :: 0 <= k < |r| && endDate.Some? ==> AtOrBefore(r[k].dateOfBirth, endDate.value)
      ensures forall k :: 0 <= k < |entries| && Matches(entries[k], searchTerm, startDate, endDate) ==> entries[k] in r
      ensures (searchTerm.None? || searchTerm.value == "") && startDate.None? && endDate.None? ==> r == entries
    {
      var p := (e: Entry) => Matches(e, searchTerm, startDate, endDate);
      assert Rows.IsSubsequence(Rows.Filter(entries, p), entries) by {
        Rows.FilterIsSubsequence(entries, p);
      }
      Rows.Filter(entries, p)
    }

    /** The term is compared lower-cased, so terms differing only in ASCII
        case give the same result. */
    lemma SearchIgnoresTermCase(term1: string, term2: string, startDate: Option<DateTime>, endDate: Option<DateTime>)
      requires Text.ToLower(term1) == Text.ToLower(term2)
      ensures SearchEntries(Some(term1), startDate, endDate) == SearchEntries(Some(term2), startDate, endDate)
    {
      assert |term1| == |term2|;
      Rows.FilterCongruent(entries,
        (e: Entry) => Matches(e, Some(term1), startDate, endDate),
        (e: Entry) => Matches(e, Some(term2), startDate, endDate));
    }

    /** The export worksheet as its rows of cells: the header first, then
        one row per entry in table order; worksheet cell (r, c) is
        `sheet[r - 1][c - 1]`. */
    method ExportCells(jobs: seq<Jobs.Job>, departments: seq<Departments.Department>)
      returns (sheet: seq<seq<Cell>>)
      ensures |sheet| == |entries| + 1
      ensures forall r :: 0 <= r < |sheet| ==> |sheet[r]| == |Header|
      ensures forall c :: 0 <= c < |Header| ==> sheet[0][c] == TextCell(Header[c])
      ensures forall i :: 0 <= i < |entries| ==> sheet[i + 1] == RowCells(entries[i], jobs, departments)
    {
      sheet := [seq(|Header|, c requires 0 <= c < |Header| => TextCell(Header[c]))];
      var row := 2;
      for i := 0 to |entries|
        invariant row == i + 2 && |sheet| == row - 1
        invariant forall r :: 0 <= r < |sheet| ==> |sheet[r]| == |Header|
        invariant forall c :: 0 <= c < |Header| ==> sheet[0][c] == TextCell(Header[c])
        invariant forall k :: 0 <= k < i ==> sheet[k + 1] == RowCells(entries[k], jobs, departments)
      {
        sheet := sheet + [RowCells(entries[i], jobs, departments)];
        row := row + 1;
      }
    }
  }
}
