/**
 * StudentServiceImpl over the students table. The table is a map from studentId to row;
 * `nextId` is the next key the IDENTITY column hands out and `clock` the logical time of the
 * most recent save, from which @CreationTimestamp and @UpdateTimestamp take their readings.
 * Each call runs as one atomic step.
 */
module StudentService {
  import opened Wrappers
  import opened Text
  import opened Collections
  import opened Errors
  import opened Students
  import Repo = StudentRepository

  /** The table invariant the service maintains: no two rows share an email. */
  ghost predicate EmailsUnique(m: map<int, Student>) {
    forall i, j :: i in m && j in m && i != j ==> m[i].email != m[j].email
  }

  /**
   * The table invariant: each row sits under its own generated key below `nextId` and carries
   * both timestamps, no later than `clock`; emails are unique.
   */
  ghost predicate ValidTable(m: map<int, Student>, nextId: int, clock: int) {
    && 1 <= nextId
    && (forall id :: id in m ==>
          && 1 <= id < nextId
          && m[id].studentId == Some(id)
          && m[id].createdAt.Some? && m[id].updatedAt.Some?
          && m[id].createdAt.value <= m[id].updatedAt.value <= clock)
    && EmailsUnique(m)
  }

  /** Overwriting a row under the next tick keeps the invariant when its email is unchanged or free. */
  lemma OverwriteKeepsValid(m: map<int, Student>, nextId: int, clock: int, id: int, v: Student)
    requires ValidTable(m, nextId, clock) && id in m
    requires v.studentId == Some(id) && v.createdAt == m[id].createdAt && v.updatedAt == Some(clock + 1)
    requires m[id].email == v.email || forall k :: k in m ==> m[k].email != v.email
    ensures ValidTable(m[id := v], nextId, clock + 1)
  {
  }

  class StudentServiceImpl {
    var students: map<int, Student>
    var nextId: int
    var clock: int

    /** Each row sits under its own generated key and carries both timestamps; emails are unique. */
    ghost predicate Valid()
      reads this
    {
      ValidTable(students, nextId, clock)
    }

    /** An empty table. */
    constructor ()
      ensures Valid() && students == map[] && nextId == 1 && clock == 0
    {
      students := map[];
      nextId := 1;
      clock := 0;
    }

    /**
     * The rows as findAll() returns them. The query fixes no order; the model reads the table
     * in primary-key order, the order an IDENTITY-keyed table is usually scanned in.
     */
    function Table(): seq<Student>
      reads this
    {
      Rows(students, 1, nextId)
    }

    /** A row is in the table's listing exactly when it is stored. */
    lemma TableIsStored()
      requires Valid()
      ensures forall s :: s in Table() <==> s in students.Values
      ensures |Table()| == |students|
      ensures Repo.IdsAscending(Table())
    {
      RowsCount(students, 1, nextId);
      RowsAscending(students, 1, nextId, Repo.IdOf);
      forall s | s in students.Values ensures s in Table() {
        var id :| id in students && students[id] == s;
      }
    }

    /** existsByEmail over the table: some stored row holds the email. */
    lemma EmailTaken(e: string)
      requires Valid()
      ensures Repo.ExistsByEmail(Table(), e) <==> exists id :: id in students && students[id].email == e
    {
      TableIsStored();
      if id :| id in students && students[id].email == e {
        assert students[id] in students.Values;
      }
    }

    /** getAllStudents: every stored row exactly once, in the model's primary-key order. */
    function GetAllStudents(): (r: seq<Student>)
      requires Valid()
      reads this
      ensures forall s :: s in r <==> s in students.Values
      ensures |r| == |students|
      ensures Repo.IdsAscending(r)
    {
      TableIsStored();
      Table()
    }

    /** getStudentById: the stored row, or ResourceNotFound for an absent id. */
    function GetStudentById(id: int): (r: Result<Student, Failure>)
      reads this
      ensures r.Success? <==> id in students
      ensures r.Success? ==> r.value == students[id]
      ensures r.Failure? ==> r.error == StudentNotFound(id)
    {
      if id in students then Success(students[id]) else Failure(StudentNotFound(id))
    }

    /**
     * createStudent: refuses an email already held, otherwise saves the row under a new key
     * and stamps both timestamps. Any studentId the caller set is replaced by the new key.
     */
    method CreateStudent(student: Student) returns (r: Result<Student, Failure>)
      requires Valid()
      modifies this
      ensures Valid()
      ensures r.Failure? <==> exists id :: id in old(students) && old(students)[id].email == student.email
      ensures r.Failure? ==>
                && r.error == DuplicateEmail(student.email)
                && students == old(students) && nextId == old(nextId) && clock == old(clock)
      ensures r.Success? ==>
                && old(nextId) !in old(students)
                && r.value == student.(studentId := Some(old(nextId)), createdAt := Some(clock), updatedAt := Some(clock))
                && students == old(students)[old(nextId) := r.value]
                && nextId == old(nextId) + 1 && clock == old(clock) + 1
      ensures r.Success? ==> GetStudentById(old(nextId)) == Success(r.value) && DetailsOf(r.value) == DetailsOf(student)
    {
      EmailTaken(student.email);
      if Repo.ExistsByEmail(Table(), student.email) {
        return Failure(DuplicateEmail(student.email));
      }
      clock := clock + 1;
      var saved := student.(studentId := Some(nextId), createdAt := Some(clock), updatedAt := Some(clock));
      students := students[nextId := saved];
      nextId := nextId + 1;
      r := Success(saved);
    }

    /**
     * updateStudent: ResourceNotFound for an absent id; DuplicateResource when the email changes
     * to one already held; otherwise overwrites the five data fields and refreshes updatedAt.
     */
    method UpdateStudent(id: int, details: Student) returns (r: Result<Student, Failure>)
      requires Valid()
      modifies this
      ensures Valid()
      ensures id !in old(students) ==> r == Failure(StudentNotFound(id))
      ensures id in old(students) && old(students)[id].email != details.email
              && (exists k :: k in old(students) && old(students)[k].email == details.email)
              ==> r == Failure(DuplicateEmail(details.email))
      ensures r.Success? <==>
                id in old(students)
                && (old(students)[id].email == details.email
                    || forall k :: k in old(students) ==> old(students)[k].email != details.email)
      ensures r.Failure? ==> students == old(students) && nextId == old(nextId) && clock == old(clock)
      ensures r.Success? ==>
                && r.value == old(students)[id].(name := details.name, email := details.email,
                                                 department := details.department, year := details.year,
                                                 phoneNumber := details.phoneNumber, updatedAt := Some(clock))
                && students == old(students)[id := r.value]
                && nextId == old(nextId) && clock == old(clock) + 1
      ensures r.Success? ==>
                && r.value.studentId == Some(id) && r.value.createdAt == old(students)[id].createdAt
                && r.value.updatedAt.value > old(students)[id].updatedAt.value
                && DetailsOf(r.value) == DetailsOf(details)
    {
      var existing := GetStudentById(id);
      if existing.Failure? {
        return Failure(existing.error);
      }
      var current := existing.value;
      EmailTaken(details.email);
      if current.email != details.email {
        if Repo.ExistsByEmail(Table(), details.email) {
          return Failure(DuplicateEmail(details.email));
        }
      }
      var updated := current.(name := details.name, email := details.email, department := details.department,
                              year := details.year, phoneNumber := details.phoneNumber, updatedAt := Some(clock + 1));
      OverwriteKeepsValid(students, nextId, clock, id, updated);
      clock := clock + 1;
      students := students[id := updated];
      r := Success(updated);
    }

    /** deleteStudent: ResourceNotFound for an absent id; otherwise removes that row only. */
    method DeleteStudent(id: int) returns (r: Outcome<Failure>)
      requires Valid()
      modifies this
      ensures Valid()
      ensures r.Fail? <==> id !in old(students)
      ensures r.Fail? ==> r.error == StudentNotFound(id) && students == old(students)
      ensures r.Pass? ==> students == old(students) - {id}
      ensures nextId == old(nextId) && clock == old(clock)
      ensures GetStudentById(id) == Failure(StudentNotFound(id))
    {
      var existing := GetStudentById(id);
      if existing.Failure? {
        return Fail(existing.error);
      }
      students := students - {id};
      r := Pass;
    }

    /** searchStudents: a missing or blank term lists everything; otherwise the store's search. */
    function SearchStudents(term: Option<string>): (r: seq<Student>)
      requires Valid()
      reads this
      ensures term.None? || IsBlank(term.value) ==> r == GetAllStudents()
      ensures term.Some? && !IsBlank(term.value) ==>
                forall s :: s in r <==> s in students.Values && Repo.MatchesNameOrDepartment(s, term.value)
      ensures Repo.IdsAscending(r)
    {
      TableIsStored();
      if term.None? || IsBlank(term.value) then GetAllStudents()
      else
        var found := Repo.SearchStudents(Table(), term.value);
        SubsequenceKeepsAscending(found, Table());
        found
    }

    /** A subsequence of ascending rows is ascending. */
    static lemma {:induction false} SubsequenceKeepsAscending(r: seq<Student>, s: seq<Student>)
      requires IsSubsequence(r, s) && Repo.IdsAscending(s)
      ensures Repo.IdsAscending(r)
      decreases |s|
    {
      if r != [] {
        assert s != [];
        if r[0] == s[0] {
          SubsequenceKeepsAscending(r[1..], s[1..]);
          SubsequenceIsContained(r[1..], s[1..]);
          forall j | 0 < j < |r| ensures Repo.IdOf(r[0]) < Repo.IdOf(r[j]) {
            assert r[j] == r[1..][j - 1];
            assert r[j] in r[1..];
            var k :| 0 <= k < |s[1..]| && s[1..][k] == r[j];
            assert s[k + 1] == r[j];
          }
        } else {
          SubsequenceKeepsAscending(r, s[1..]);
        }
      }
    }

    static lemma {:induction false} SubsequenceIsContained(r: seq<Student>, s: seq<Student>)
      requires IsSubsequence(r, s)
      ensures forall x :: x in r ==> x in s
      decreases |s|
    {
      if r != [] {
        if r[0] == s[0] {
          SubsequenceIsContained(r[1..], s[1..]);
          assert forall x :: x in r ==> x == r[0] || x in r[1..];
        } else {
          SubsequenceIsContained(r, s[1..]);
        }
      }
    }

    /** getStudentsByDepartment: exactly the rows of that department; none is not an error. */
    function GetStudentsByDepartment(department: string): (r: seq<Student>)
      requires Valid()
      reads this
      ensures forall s :: s in r <==> s in students.Values && s.department == department
      ensures IsSubsequence(r, GetAllStudents()) && Repo.IdsAscending(r)
    {
      TableIsStored();
      var r := Repo.FindByDepartment(Table(), department);
      SubsequenceKeepsAscending(r, Table());
      r
    }

    /** getStudentsByYear: exactly the rows of that year. */
    function GetStudentsByYear(year: int): (r: seq<Student>)
      requires Valid()
      reads this
      ensures forall s :: s in r <==> s in students.Values && s.year == Some(year)
      ensures IsSubsequence(r, GetAllStudents()) && Repo.IdsAscending(r)
    {
      TableIsStored();
      var r := Repo.FindByYear(Table(), year);
      SubsequenceKeepsAscending(r, Table());
      r
    }

    /** getStudentsWithPagination: one window of the table, sorted by studentId when the request asks. */
    function GetStudentsWithPagination(pageable: Repo.Pageable): (p: Repo.Page<Student>)
      requires Valid()
      reads this
      ensures p.totalElements == |students| && |p.content| <= pageable.size && p.number == pageable.page
      ensures forall s :: s in p.content ==> s in students.Values
      ensures p == Repo.Paginate(Repo.Arrange(GetAllStudents(), pageable.sort), pageable.page, pageable.size)
    {
      TableIsStored();
      Repo.FindAllPaged(Table(), pageable)
    }

    /** No student id is listed on two different pages of the same listing. */
    lemma PagesNeverRepeatAnId(pageable: Repo.Pageable, other: nat)
      requires Valid() && other != pageable.page
      ensures forall x, y ::
                (x in GetStudentsWithPagination(pageable).content
                 && y in GetStudentsWithPagination(pageable.(page := other)).content) ==> x.studentId != y.studentId
    {
      TableIsStored();
      var ordered := Repo.Arrange(Table(), pageable.sort);
      if pageable.sort.Some? {
        Repo.OrderByIdSorts(Table(), pageable.sort.value);
      }
      assert forall i, j :: 0 <= i < j < |ordered| ==> Repo.IdOf(ordered[i]) != Repo.IdOf(ordered[j]);
      Repo.PagesAreDisjoint(ordered, pageable.page, other, pageable.size, Repo.IdOf);
    }

    /** searchStudentsWithPagination: one window of the name, department or email matches, in store order unless sorted. */
    function SearchStudentsWithPagination(term: string, pageable: Repo.Pageable): (p: Repo.Page<Student>)
      requires Valid()
      reads this
      ensures |p.content| <= pageable.size && p.number == pageable.page
      ensures forall s :: s in p.content ==> s in students.Values && Repo.MatchesNameDepartmentOrEmail(s, term)
      ensures p.totalElements == |Repo.SearchMatches(GetAllStudents(), term)|
      ensures p == Repo.Paginate(Repo.Arrange(Repo.SearchMatches(GetAllStudents(), term), pageable.sort), pageable.page, pageable.size)
    {
      TableIsStored();
      Repo.SearchStudentsWithPagination(Table(), term, pageable)
    }

    /** getAllDepartments: each department in use once, ascending. */
    function GetAllDepartments(): (r: seq<string>)
      requires Valid()
      reads this
      ensures Repo.StrictlySorted(r)
      ensures forall d :: d in r <==> exists id :: id in students && students[id].department == d
    {
      TableIsStored();
      assert forall id :: id in students ==> students[id] in students.Values;
      Repo.FindAllDepartments(Table())
    }

    /** getStudentCountByDepartment: the size of the department's listing, 0 when it has none. */
    function GetStudentCountByDepartment(department: string): (n: nat)
      requires Valid()
      reads this
      ensures n == |GetStudentsByDepartment(department)|
      ensures n == 0 <==> forall id :: id in students ==> students[id].department != department
    {
      TableIsStored();
      assert forall id :: id in students ==> students[id] in students.Values;
      Repo.CountByDepartment(Table(), department)
    }
  }

  /** A stored student can be read back unchanged, and its email then blocks a second one. */
  method CreateThenReadBack(svc: StudentServiceImpl)
    requires svc.Valid() && svc.students == map[]
    modifies svc
  {
    assert svc.GetStudentById(9999) == Failure(StudentNotFound(9999));
    var ada := NewStudent("Ada Lovelace", "ada@example.com", "CS", Some(3), "1234567890");
    var first := svc.CreateStudent(ada);
    assert first.Success?;
    var id := first.value.studentId.value;
    assert svc.GetStudentById(id) == Success(first.value);
    assert DetailsOf(first.value) == DetailsOf(ada);
    var second := svc.CreateStudent(ada);
    assert second == Failure(DuplicateEmail("ada@example.com"));
  }
}
