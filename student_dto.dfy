/** The transfer object of the second package tree and its field constraints. */
module StudentDtos {
  import opened Wrappers
  import opened Text
  import Students

  /** StudentDTO: the entity's fields without the timestamps; the id carries no constraint. */
  datatype StudentDto = StudentDto(
    id: Option<int>,
    name: string,
    email: string,
    department: string,
    year: Option<int>,
    phoneNumber: string)

  /** @NotBlank @Size(max = 50): no minimum length, unlike the entity. */
  predicate ValidDtoDepartment(d: string) {
    !IsBlank(d) && |d| <= 50
  }

  /** Every field constraint of the DTO; name, email, year and phone read as on the entity. */
  predicate ValidDto(d: StudentDto) {
    Students.ValidName(d.name) && Students.ValidEmail(d.email) && ValidDtoDepartment(d.department)
    && Students.ValidYear(d.year) && Students.ValidPhoneNumber(d.phoneNumber)
  }

  /** convertToDTO: the DTO view of a stored row, identifier and data fields, timestamps dropped. */
  function ToDto(s: Students.Student): (d: StudentDto)
    ensures d.id == s.studentId
    ensures Students.DetailsOf(s) == Students.Details(d.name, d.email, d.department, d.year, d.phoneNumber)
  {
    StudentDto(s.studentId, s.name, s.email, s.department, s.year, s.phoneNumber)
  }

  /** The DTO accepts everything the entity accepts, whatever the id. */
  lemma EntityValidImpliesDtoValid(s: Students.Student)
    requires Students.ValidStudent(s)
    ensures ValidDto(ToDto(s))
  {
  }

  /** The two differ on departments: a one-letter department passes the DTO and fails the entity. */
  lemma DepartmentRulesDiffer(d: string)
    requires |d| == 1 && !IsJavaSpace(d[0])
    ensures ValidDtoDepartment(d) && !Students.ValidDepartment(d)
  {
    NotBlankAt(d, 0);
  }

  /** On departments the DTO is exactly the entity rule with the minimum length lifted. */
  lemma DepartmentRulesOnlyDifferInLength(d: string)
    ensures Students.ValidDepartment(d) <==> ValidDtoDepartment(d) && |d| >= 2
  {
  }
}
