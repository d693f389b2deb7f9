/** The stored Student entity and its Bean Validation constraints. */
module Students {
  import opened Wrappers
  import opened Text

  /**
   * A row of the students table. Identifier and timestamps are absent (null) until the
   * store has saved the row; timestamps are readings of a logical clock.
   */
  datatype Student = Student(
    studentId: Option<int>,
    name: string,
    email: string,
    department: string,
    year: Option<int>,
    phoneNumber: string,
    createdAt: Option<int>,
    updatedAt: Option<int>)

  /** The five data fields a client supplies and an update overwrites. */
  datatype Details = Details(name: string, email: string, department: string, year: Option<int>, phoneNumber: string)

  function DetailsOf(s: Student): Details {
    Details(s.name, s.email, s.department, s.year, s.phoneNumber)
  }

  /** The five-argument constructor: a row not yet saved, with the given data fields. */
  function NewStudent(name: string, email: string, department: string, year: Option<int>, phoneNumber: string): (s: Student)
    ensures s.studentId == None && s.createdAt == None && s.updatedAt == None
    ensures DetailsOf(s) == Details(name, email, department, year, phoneNumber)
  {
    Student(None, name, email, department, year, phoneNumber, None, None)
  }

  /**
   * Stand-in for jakarta @Email: one '@' with text on both sides and none in the domain.
   * Bean Validation's @Email is more permissive and more detailed than this shape.
   */
  predicate IsEmailShaped(e: string) {
    exists i :: 0 < i < |e| - 1 && e[i] == '@' && '@' !in e[i + 1..]
  }

  /** @NotBlank @Size(min = 2, max = 100) */
  predicate ValidName(n: string) {
    !IsBlank(n) && 2 <= |n| <= 100
  }

  /** @NotBlank @Email */
  predicate ValidEmail(e: string) {
    !IsBlank(e) && IsEmailShaped(e)
  }

  /** @NotBlank @Size(min = 2, max = 50) */
  predicate ValidDepartment(d: string) {
    !IsBlank(d) && 2 <= |d| <= 50
  }

  /** @NotNull @Min(1) @Max(4) */
  predicate ValidYear(y: Option<int>) {
    y.Some? && 1 <= y.value <= 4
  }

  /** @NotBlank @Pattern("^[0-9]{10}$") */
  predicate ValidPhoneNumber(p: string) {
    !IsBlank(p) && IsTenDigits(p)
  }

  /** Every field constraint of the entity; uniqueness of the email is a property of the table. */
  predicate ValidStudent(s: Student) {
    ValidName(s.name) && ValidEmail(s.email) && ValidDepartment(s.department)
    && ValidYear(s.year) && ValidPhoneNumber(s.phoneNumber)
  }

  /** The @NotBlank on the phone number adds nothing: ten digits are never blank. */
  lemma TenDigitsAreNotBlank(p: string)
    requires IsTenDigits(p)
    ensures ValidPhoneNumber(p)
  {
    NotBlankAt(p, 0);
  }

  /** Likewise an email of the required shape always has a character that is not trimmed away. */
  lemma EmailShapedIsNotBlank(e: string)
    requires IsEmailShaped(e)
    ensures ValidEmail(e)
  {
    var i :| 0 < i < |e| - 1 && e[i] == '@' && '@' !in e[i + 1..];
    NotBlankAt(e, i);
  }

  /** A name is valid iff it has 2 to 100 characters not all of them spaces. */
  lemma ValidNameIff(n: string)
    ensures ValidName(n) <==> 2 <= |n| <= 100 && exists i :: 0 <= i < |n| && !IsJavaSpace(n[i])
  {
    BlankIffAllSpace(n);
  }
}
