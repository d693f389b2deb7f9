# Student management system — a verified model

This project models the decision logic of a small student-management application. The pieces:

- A Spring service keeps a table of student records keyed by a generated id. It refuses a second record with an email already in use. It reports a missing id as not found. An update overwrites exactly five fields. A blank search lists everyone.
- A repository interface fixes what each query returns: derived finders, case-insensitive substring searches, counts, the distinct sorted list of departments, and pages.
- Bean-validation annotations constrain the Student entity, the StudentDTO transfer object and the AdminUser entity.
- A second service stores administrator accounts. Registration checks the username before the email and always assigns role `ADMIN`. Login is an exact comparison of the stored and supplied passwords.
- A REST controller guards the registration request (username, then password, then email) and maps outcomes to 201 / 400 / 409 and 200 / 401.
- A browser script keeps the fetched list, filters it by search box and selectors, sorts it by one of five comparators, cuts it into pages of ten, lays out the page controls, and decides whether a form submission creates, updates or is refused.

## Module layout

| file | module | models |
|---|---|---|
| wrappers.dfy | `Wrappers` | Option, Result, the void-or-failure Outcome, `Map.get` |
| text.dfy | `Text` | Java `trim`/`isBlank`, JavaScript `trim`, ASCII lower-casing, `contains`, the ten-digit pattern, string order |
| collections.dfy | `Collections` | ordered filtering, counting, a keyed table listed in key order |
| errors.dfy | `Errors` | `ResourceNotFoundException` and `DuplicateResourceException` with their messages |
| student.dfy | `Students` | `Student.java` |
| student_dto.dfy | `StudentDtos` | `StudentDTO.java` |
| student_repository.dfy | `StudentRepository` | `StudentRepository.java`, Spring paging |
| student_service.dfy | `StudentService` | `StudentServiceImpl.java`, a class over `map<int, Student>` |
| admin_user.dfy | `AdminUsers` | `AdminUser.java` and the derived queries of `AdminUserRepository.java` |
| authentication.dfy | `Authentication` | `AuthService.java`, a class over `map<int, AdminUser>` |
| auth_api.dfy | `AuthApi` | `AuthController.java` |
| student_list.dfy | `StudentList` | the list state and computations of `app.js` |

### Stateful services

Both services are classes. Each holds its table as a map from primary key to row, plus the next key the IDENTITY column will hand out.

- `findAll()` and the search queries fix no order. The model reads the table in ascending key order, and lists results in that order.
- The student table also holds a logical clock. Every save ticks it, and `@CreationTimestamp` and `@UpdateTimestamp` take their readings from it.
- The invariant `Valid()` says:
  - every row sits under its own key;
  - both timestamps are set, with `createdAt <= updatedAt`;
  - no two rows share an email;
  - for accounts, also no two share a username, and every role is `ADMIN`.

Every mutating method keeps `Valid()`. It states the whole new table and the error it returns, which is exactly what the source throws.

### The browser list

The list is a class holding:

- `allStudents` and `filteredStudents`;
- `currentEditId`;
- `currentPage`.

The methods reassign those fields as the script does. `handleSort` is an insertion sort proved to yield a sorted permutation that keeps tied rows in their original order, as the stable `Array.prototype.sort` does. `updatePagination` is a counting loop proved equal to a specification of the control row.

## Model

| member | source | states |
|---|---|---|
| `Text.TrimStart` | StudentServiceImpl.java:153 | strips the leading run of trimmable characters (for Java `trim`, those up to U+0020): what is left is a suffix that is empty or starts with a character that is kept, and everything removed is trimmable |
| `Text.TrimEnd` | StudentServiceImpl.java:153 | strips the trailing run the same way: what is left is a prefix that is empty or ends with a kept character, and everything removed is trimmable |
| `Text.BlankIffAllSpace` | Student.java:44 | a string is blank (empty after trimming) exactly when every character is at most U+0020 |
| `Text.ContainsAt` | StudentRepository.java:91-94 | substring containment holds exactly when the term occurs at some offset |
| `Text.LexLessTotal` | StudentRepository.java:134 | the string order used by ORDER BY is total and asymmetric |
| `Text.LexLessTransitive` | StudentRepository.java:134 | the string order is transitive |
| `Text.LexCompare` | app.js:384-386 | the comparator's sign: 0 for equal strings, negative exactly when the first sorts before the second |
| `Collections.Filter` | StudentRepository.java:46 | the kept rows are exactly the rows satisfying the condition, in their original order |
| `Collections.CountIsFilterLength` | StudentRepository.java:126 | a count query returns the length of the corresponding list query |
| `Collections.RowsAscending` | StudentServiceImpl.java:76 | rows that carry their own key are listed strictly ascending by key (the order the model gives the store) |
| `Collections.RowsCount` | StudentServiceImpl.java:76 | the listing has one entry per stored row |
| `Students.NewStudent` | Student.java:100-106 | the five-argument constructor sets exactly the five data fields and leaves id and both timestamps unset |
| `Students.ValidNameIff` | Student.java:44-45 | a name is valid exactly when it is 2 to 100 characters with some non-space character |
| `Students.TenDigitsAreNotBlank` | Student.java:77-78 | ten decimal digits satisfy both phone constraints, so @NotBlank adds nothing beyond the pattern |
| `Students.EmailShapedIsNotBlank` | Student.java:52-53 | an email-shaped string is also non-blank |
| `StudentDtos.ToDto` | StudentDTO.java:24-44 | `convertToDTO` (lines 198-207 of `StudentService (1).java`): the transfer object carries the entity's id and its five data fields unchanged |
| `StudentDtos.EntityValidImpliesDtoValid` | StudentDTO.java:26-44 | every valid entity yields a valid transfer object |
| `StudentDtos.DepartmentRulesDiffer` | StudentDTO.java:34-35 | any one-character, non-space department passes the DTO check but not the entity's 2..50 rule |
| `StudentDtos.DepartmentRulesOnlyDifferInLength` | StudentDTO.java:34-35 | the entity's department rule is exactly the DTO's rule plus a minimum length of 2 |
| `StudentRepository.FindByEmail` | StudentRepository.java:37 | a found row is in the table with that email; nothing is found exactly when no row has it |
| `StudentRepository.ExistsByEmail` | StudentRepository.java:117 | true exactly when some row has that email |
| `StudentRepository.ExistsIffFound` | StudentRepository.java:117 | `existsByEmail` is true exactly when `findByEmail` finds a row |
| `StudentRepository.FindByDepartment` | StudentRepository.java:46 | exactly the rows of that department, in table order |
| `StudentRepository.FindByYear` | StudentRepository.java:55 | exactly the rows of that year, in table order |
| `StudentRepository.FindByDepartmentAndYear` | StudentRepository.java:65 | exactly the rows with both that department and that year |
| `StudentRepository.DepartmentAndYearIsBothFilters` | StudentRepository.java:65 | the combined finder equals the year finder applied to the department finder's result |
| `StudentRepository.FindByNameContainingIgnoreCase` | StudentRepository.java:74 | exactly the rows whose lower-cased name contains the lower-cased term |
| `StudentRepository.FindByDepartmentContainingIgnoreCase` | StudentRepository.java:82 | exactly the rows whose lower-cased department contains the lower-cased term |
| `StudentRepository.SearchStudents` | StudentRepository.java:91-94 | exactly the rows whose name or department contains the term, ignoring case |
| `StudentRepository.NameAndDepartmentSearchesAreContained` | StudentRepository.java:74-94 | the search is the union of the name finder and the department finder |
| `StudentRepository.SearchMatches` | StudentRepository.java:104-107 | the paged search's match set: name, department or email contains the term |
| `StudentRepository.SearchIsContainedInPagedSearch` | StudentRepository.java:91-108 | every row the plain search finds, the paged search also matches |
| `StudentRepository.CountByDepartment` | StudentRepository.java:126 | the count equals the department listing's length, and is 0 exactly when no row has that department |
| `StudentRepository.InsertDistinct` | StudentRepository.java:134 | inserting into a strictly sorted list keeps it strictly sorted and adds exactly that value |
| `StudentRepository.StrictlySortedIsDistinct` | StudentRepository.java:134 | a strictly sorted list holds no value twice |
| `StudentRepository.FindAllDepartments` | StudentRepository.java:134-135 | strictly ascending, holding a department exactly when some row has it |
| `StudentRepository.ParseDirection` | StudentController.java:196-198 | descending exactly when the parameter is "DESC" in any letter case; ascending otherwise |
| `StudentRepository.TotalPages` | StudentServiceImpl.java:201-202 | the page count is the fewest pages of the given size that hold every element |
| `StudentRepository.Paginate` | StudentServiceImpl.java:200 | the page is the window `IsWindow` describes: total is the item count; content is the items from offset `page*size` on, `size` of them or as many as are left, empty past the end |
| `StudentRepository.WindowIsUnique` | StudentServiceImpl.java:200 | the items, the page number and the size determine the page completely |
| `StudentRepository.PagesAreDisjoint` | StudentServiceImpl.java:200 | two different pages of a list with distinct keys share no key |
| `StudentRepository.EveryItemIsOnItsPage` | StudentServiceImpl.java:200 | item k is at position k mod size of page k div size |
| `StudentRepository.OrderByIdSorts` | StudentController.java:196-199 | the sort by studentId yields strictly ascending ids for ASC and strictly descending ids for DESC |
| `StudentRepository.FindAllPaged` | StudentServiceImpl.java:200 | exactly the window at offset `page*size` of the table, sorted by studentId in the requested direction when the request carries that sort, in store order when it carries none; total is the row count |
| `StudentRepository.SearchStudentsWithPagination` | StudentRepository.java:104-108 | exactly the window at offset `page*size` of the name, department or email matches; the query adds no ORDER BY, so they are in store order unless the request carries a studentId sort; total is the match count |
| `StudentRepository.UnsortedSearchKeepsStoreOrder` | StudentController.java:225 | the search endpoint's unsorted `PageRequest.of(page, size)` gets the window of the matches in store order |
| `StudentService.StudentServiceImpl.constructor` | StudentServiceImpl.java:44-46 | the service starts on an empty table that satisfies the invariant |
| `StudentService.StudentServiceImpl.TableIsStored` | StudentServiceImpl.java:76 | the listing holds exactly the stored rows, one entry each, in the model's ascending-id order |
| `StudentService.StudentServiceImpl.GetAllStudents` | StudentServiceImpl.java:74-79 | every stored row exactly once, in the model's ascending-studentId order |
| `StudentService.StudentServiceImpl.GetStudentById` | StudentServiceImpl.java:87-95 | succeeds exactly for a stored id, with that row; otherwise "Student not found with ID: " and the id |
| `StudentService.StudentServiceImpl.CreateStudent` | StudentServiceImpl.java:53-67 | fails exactly when some stored row already has the email, with an unchanged table. Otherwise it stores one new row under a fresh id, carrying the submitted fields and a new timestamp, and reads back by that id. Uniqueness of emails is kept |
| `StudentService.StudentServiceImpl.UpdateStudent` | StudentServiceImpl.java:102-128 | NotFound for an absent id. Duplicate only when the email changes to one already held; an unchanged email is never rejected. Both failures leave the table unchanged. Success overwrites exactly the five data fields. Id and createdAt are kept, updatedAt advances, no other row changes, and emails stay unique |
| `StudentService.StudentServiceImpl.DeleteStudent` | StudentServiceImpl.java:134-143 | NotFound exactly for an absent id; otherwise removes that row only, after which reading it back fails with NotFound |
| `StudentService.StudentServiceImpl.SearchStudents` | StudentServiceImpl.java:150-161 | a null or blank term gives the same list as getAllStudents; otherwise exactly the stored rows matching on name or department |
| `StudentService.StudentServiceImpl.SubsequenceKeepsAscending` | StudentServiceImpl.java:157 | the search keeps the order in which the model lists the table |
| `StudentService.StudentServiceImpl.GetStudentsByDepartment` | StudentServiceImpl.java:168-175 | exactly the stored rows of that department, each once, in the order `getAllStudents` lists them |
| `StudentService.StudentServiceImpl.GetStudentsByYear` | StudentServiceImpl.java:182-189 | exactly the stored rows of that year, each once, in the order `getAllStudents` lists them |
| `StudentService.StudentServiceImpl.GetStudentsWithPagination` | StudentServiceImpl.java:196-205 | the requested window of the table, sorted by studentId in the requested direction (the listing endpoint always asks for that sort) |
| `StudentService.StudentServiceImpl.PagesNeverRepeatAnId` | StudentServiceImpl.java:196-205 | no student id appears on two different pages of the same listing |
| `StudentService.StudentServiceImpl.SearchStudentsWithPagination` | StudentServiceImpl.java:212-220 | exactly the requested window of the stored rows matching on name, department or email, in store order unless the request carries a studentId sort; every row shown is stored and matches; total is the number of matches |
| `StudentService.StudentServiceImpl.GetAllDepartments` | StudentServiceImpl.java:227-234 | each department in use exactly once, strictly ascending |
| `StudentService.StudentServiceImpl.GetStudentCountByDepartment` | StudentServiceImpl.java:241-248 | equals the size of the department listing; 0 exactly when no stored row has that department |
| `AdminUsers.NewAdminUser` | AdminUser.java:50 | a newly built account has no id and role "ADMIN" |
| `AdminUsers.ValidAdminUserIff` | AdminUser.java:26-41 | the constraints, spelled out: a username has 4 to 50 characters and a password at least 6, each with some non-space character; the email is well-formed |
| `AdminUsers.SizeDoesNotImplyNotBlank` | AdminUser.java:35-36 | a password of six or more spaces meets the size rule but fails @NotBlank |
| `AdminUsers.FindByUsername` | AdminUserRepository.java:20 | a found account has that username; nothing is found exactly when no account has it |
| `AdminUsers.ExistsByUsername` | AdminUserRepository.java:25 | true exactly when some account has that username |
| `AdminUsers.ExistsByEmail` | AdminUserRepository.java:30 | true exactly when some account has that email |
| `Authentication.AuthService.constructor` | AuthService.java:28-30 | the service starts on an empty account table satisfying the invariant |
| `Authentication.AuthService.Register` | AuthService.java:38-57 | "Username already exists" when the username is taken, checked first. Otherwise "Email already exists" when the email is. Either failure saves nothing. Success exactly when both are free: stores one account with the given fields and role ADMIN under a fresh id, keeps both uniqueness invariants, and the new account can then log in with that password |
| `Authentication.AuthService.LoginFinds` | AuthService.java:66-72 | login with a stored username returns that account exactly when the password equals the stored one |
| `Authentication.AuthService.Login` | AuthService.java:65-77 | present exactly when some account has that username and its stored password equals the given one; empty for a null or unknown username or a wrong password |
| `Authentication.AuthService.UserExists` | AuthService.java:82-84 | true exactly when some account has that username |
| `AuthApi.RegisterGuard` | AuthController.java:40-48 | checks run in order. "Username is required" exactly for a null or blank username. The password message exactly for a null or short password after a good username. The email message exactly for a null or '@'-less email after both pass. Nothing exactly when all three pass |
| `AuthApi.ValidAccountPassesGuards` | AuthController.java:40-48 | every request whose fields satisfy the AdminUser constraints passes the guards |
| `AuthApi.GuardsAdmitInvalidAccounts` | AuthController.java:40-48 | a three-letter username and an address ending at '@' pass the guards although the entity forbids both |
| `AuthApi.Register` | AuthController.java:34-60 | a failed guard gives 400 with its message and leaves the accounts unchanged. Otherwise 201 with "Registration successful" and the username, exactly when username and email are both free. The table then gains exactly the new ADMIN account under the next id, and the account can log in. Else 409 with the service's message, and neither the accounts nor the next id change |
| `AuthApi.Login` | AuthController.java:69-90 | 200 exactly when the credentials match a stored account, with "Login successful", the username, that account's email, role ADMIN and success=true; otherwise 401, "Invalid username or password", success=false |
| `AuthApi.CheckUsername` | AuthController.java:98-101 | always 200, with `exists` true exactly when an account has the username |
| `StudentList.SearchResult` | app.js:326-334 | exactly the rows whose lower-cased name, email or department contains the lower-cased term, in their original order |
| `StudentList.EmptySearchKeepsAll` | app.js:326-334 | an empty search box keeps every row in order |
| `StudentList.FilterResult` | app.js:343-362 | exactly the rows passing both selectors (an empty selector passes all) and, when the box is not empty, the search; in their original order |
| `StudentList.UnselectedFilterIsSearch` | app.js:346-362 | with both selectors empty, the filter keeps exactly what the search keeps |
| `StudentList.FilterNarrowsSearch` | app.js:326-362 | every row kept by the filter is also kept by the search for the same box |
| `StudentList.CompareOrders` | app.js:382-394 | the comparator `Compare` for each selector: negative exactly when the first row sorts first by name or department (string order), by year ascending, by createdAt newest first, or otherwise by studentId ascending; 0 exactly when that field is equal |
| `StudentList.CompareFlips` | app.js:382-394 | swapping the rows turns a positive result into a negative one and back |
| `StudentList.CompareTransitive` | app.js:382-394 | each of the five comparators is transitive on "not after" |
| `StudentList.SortedIsPairwise` | app.js:382 | a list sorted by neighbours is in order for every pair |
| `StudentList.CompareStrictlyTransitive` | app.js:382-394 | a row that sorts strictly before one that does not sort after a third sorts strictly before the third |
| `StudentList.Insert` | app.js:382-394 | inserting into a sorted list keeps it sorted and adds exactly that row |
| `StudentList.TiedWith` | app.js:382-394 | the rows the comparator ties with a given row, in their order in the list |
| `StudentList.InsertKeepsTies` | app.js:382 | inserting keeps every group of tied rows in order, with the new row at the back of its own group |
| `StudentList.TotalPagesOf` | app.js:255 | `Math.ceil(n / 10)`: the fewest ten-row pages holding n rows, 0 exactly for no rows |
| `StudentList.Slice` | app.js:224 | `Array.prototype.slice`: when start <= end, never longer than end minus start; for non-negative bounds, the elements between them clamped to the length |
| `StudentList.Window` | app.js:222-224 | at most ten rows; for a page p >= 1, the rows from offset (p-1)*10 in order, ten or what is left, empty past the end |
| `StudentList.EveryRowHasAPage` | app.js:222-255 | row j is shown as row j mod 10 of page j div 10 + 1, which is within the page count |
| `StudentList.Pagination` | app.js:255-292 | nothing for at most one page. Otherwise Previous is disabled exactly on page 1, then the page slots, then Next, disabled exactly on the last page |
| `StudentList.ButtonIff` | app.js:270-276 | a button for page i is laid out exactly when 1 <= i <= total and i is the first, the last, or within one of the current page; it is active exactly when i is the current page |
| `StudentList.ButtonsAscend` | app.js:270-283 | page buttons come out in strictly increasing page order |
| `StudentList.DotsCount` | app.js:277-281 | the ellipses sit at current-2 and current+2, unless that page is the first, the last or outside the range |
| `StudentList.DotsMarkHiddenPages` | app.js:270-283 | on a page in range the slots before the current page's button, which are the first of all the slots, hold one ellipsis exactly when current >= 4 and none otherwise; all the slots hold that one plus one more exactly when current <= total - 3 |
| `StudentList.Collect` | app.js:463-469 | the request body carries trimmed name, email and phone, and the department and year as read |
| `StudentList.StudentListState.constructor` | app.js:20-23 | empty lists, nothing being edited, page 1 |
| `StudentList.StudentListState.LoadStudents` | app.js:50-51 | both lists become the fetched rows; the page and the edit target stay |
| `StudentList.StudentListState.HandleSearch` | app.js:325-337 | the filtered list becomes the search result and the page 1; the loaded rows stay |
| `StudentList.StudentListState.HandleFilter` | app.js:342-365 | the filtered list becomes the filter result and the page 1; the loaded rows stay |
| `StudentList.StudentListState.ApplyFilters` | app.js:370-374 | back to page 1, nothing else changes |
| `StudentList.StudentListState.ResetFilters` | app.js:402-412 | the filtered list becomes every loaded row and the page 1 |
| `StudentList.StudentListState.HandleSort` | app.js:379-397 | the filtered rows become a permutation of themselves, sorted by the chosen comparator; rows the comparator ties keep the order they had, as a stable sort keeps them |
| `StudentList.StudentListState.ChangePage` | app.js:297-301 | the page becomes the one asked for, nothing else changes |
| `StudentList.StudentListState.SetEditTarget` | app.js:420 | the edit target becomes the given id, or none, nothing else changes |
| `StudentList.StudentListState.DisplayedRows` | app.js:222-227 | exactly the page window of the filtered list for the current page: at most ten rows, all from the filtered list |
| `StudentList.StudentListState.UpdatePagination` | app.js:254-292 | the laid-out controls equal the specification `Pagination` for the filtered count and current page |
| `StudentList.StudentListState.HandleFormSubmit` | app.js:460-482 | refused exactly when the trimmed phone is not ten digits. An update of the edit target exactly when the phone passes and a non-zero id is being edited; otherwise a create. The body sent always meets the server's phone constraint |

## Left out

- Wall-clock timestamps. `@CreationTimestamp` and `@UpdateTimestamp` read a logical clock that every save ticks.
- Hibernate's handling of an update that changes nothing. The model always advances `updatedAt`.
- `createStudent` with a client-supplied `studentId`. Spring's `save` would merge into that row; the model always assigns a fresh key.
- Logging, `@Transactional` boundaries, and the check-then-insert race between two concurrent creates. Each call is one atomic step.
- Persist-time bean validation. The annotation constraints are predicates with lemmas; the services do not re-check them. The controller that applies `@Valid` is not part of this model.
- `AuthApi.Register` and `Authentication.AuthService.Register`: the save at AuthService.java:56 validates the entity. An account that passes the controller's guards but is invalid as an entity (the `GuardsAdmitInvalidAccounts` witness "bob"/"bob@") would raise a ConstraintViolationException there, which AuthController.java:56-58 answers with 409. The model stores such an account and answers 201.
- The exact grammar of jakarta `@Email`. It is modelled as "some '@' with characters on both sides and none after the last".
- SQL `LIKE` wildcards inside a search term, and database collation. Search is plain substring matching after ASCII lower-casing; ORDER BY is code-point order.
- Unicode case folding. Java's `toLowerCase` and `equalsIgnoreCase` and JavaScript's `toLowerCase` are modelled on ASCII letters only. So `ParseDirection` does not read a non-ASCII spelling such as "DEſC" (U+017F upper-cases to 'S') as descending, although Java does.
- String lengths. They are counted in characters, not UTF-16 code units.
- Column length limits (`length = 100`, etc.) enforced by the database.
- Null strings. Entity fields and service arguments are non-null strings. Nulls are modelled only where the source branches on them: request maps, login parameters and the search term.
- The order of `findAll()`, of the plain search and of the paged search. No ORDER BY fixes it (StudentServiceImpl.java:76, StudentRepository.java:91-94, StudentRepository.java:104-108). The search endpoint's request carries no sort either (`PageRequest.of(page, size)`, StudentController.java:225), so the store is free to return any order. The model fixes that order to ascending primary key, and an unsorted request (`sort == None`) is cut from it. The following speak of that chosen order, not of an order the source promises: `GetAllStudents`, `SearchStudents`, `GetStudentsByDepartment`, `GetStudentsByYear`, `TableIsStored`, `SubsequenceKeepsAscending`, `StudentRepository.SearchStudentsWithPagination`, `StudentService.StudentServiceImpl.SearchStudentsWithPagination` and `UnsortedSearchKeepsStoreOrder`.
- `findByEmail` raising an error when several rows share an email. The invariant makes that impossible.
- `StudentRepository.FindAllPaged`: sorting by fields other than `studentId` is left out. Spring's `Sort.by` on an arbitrary property is framework behaviour; only the default key is modelled, ascending and descending.
- `StudentController.java`, `SecurityConfig.java`, `WebConfig.java` and the bootstrapping class. They are HTTP routing and configuration; only the direction parsing of the paged listing and the unsorted request of the paged search are modelled.
- Of the second package tree (`com.placement.studentms`), `StudentService (1).java`, `Student (1).java`, `StudentRepository (1).java`, `StudentController (1).java` and the test class `StudentServiceTest.java`. Only its `convertToDTO` is modelled, as `StudentDtos.ToDto`. `AdminUser`, `AuthService`, `AuthController` and `StudentDTO` come from that tree and are modelled.
- Everything in `app.js` that touches the document or the network: `fetch`, toasts, loading overlays, modal display, keyboard shortcuts, and the click handlers' wiring. A fetch is a parameter of `LoadStudents`.
- The dashboard statistics of `updateStats`: the average year is floating point, and the other counts are display only.
- `localeCompare` collation and `Date` parsing in the sort comparator. Strings compare by code point and `createdAt` is a number.
- `parseInt` of a non-numeric year. The year selector and the form field are Some(number) or None.
- `displayStudents` returning early on an empty list. It then leaves the previous page controls in place; the model computes the controls from the state.
- `SetEditTarget` stands for the three one-line writers of `currentEditId` (app.js lines 420, 431 and 454), not for the modal display around them.
