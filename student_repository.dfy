/**
 * What each query of the student repository returns, as a function of the table's rows
 * `db` in the store's order. Derived queries compare whole field values; the JPQL searches
 * are case-insensitive substring tests.
 */
module StudentRepository {
  import opened Wrappers
  import opened Text
  import opened Collections
  import opened Students

  /** findByEmail: the row holding email `e`, if any (the first one, were there several). */
  function FindByEmail(db: seq<Student>, e: string): (r: Option<Student>)
    ensures r.Some? ==> r.value in db && r.value.email == e
    ensures r.None? <==> forall s :: s in db ==> s.email != e
  {
    if db == [] then None
    else if db[0].email == e then Some(db[0])
    else FindByEmail(db[1..], e)
  }

  /** existsByEmail */
  function ExistsByEmail(db: seq<Student>, e: string): (b: bool)
    ensures b <==> exists s :: s in db && s.email == e
  {
    Count(db, (s: Student) => s.email == e) > 0
  }

  /** existsByEmail(e) holds exactly when findByEmail(e) finds a row. */
  lemma ExistsIffFound(db: seq<Student>, e: string)
    ensures ExistsByEmail(db, e) <==> FindByEmail(db, e).Some?
  {
  }

  /** findByDepartment: exact match on the department. */
  function FindByDepartment(db: seq<Student>, d: string): (r: seq<Student>)
    ensures forall s :: s in r <==> s in db && s.department == d
    ensures IsSubsequence(r, db)
  {
    Filter(db, (s: Student) => s.department == d)
  }

  /** findByYear: exact match on the year. */
  function FindByYear(db: seq<Student>, y: int): (r: seq<Student>)
    ensures forall s :: s in r <==> s in db && s.year == Some(y)
    ensures IsSubsequence(r, db)
  {
    Filter(db, (s: Student) => s.year == Some(y))
  }

  /** findByDepartmentAndYear: both fields match exactly. */
  function FindByDepartmentAndYear(db: seq<Student>, d: string, y: int): (r: seq<Student>)
    ensures forall s :: s in r <==> s in db && s.department == d && s.year == Some(y)
    ensures IsSubsequence(r, db)
  {
    Filter(db, (s: Student) => s.department == d && s.year == Some(y))
  }

  /** Filtering by year within a department gives findByDepartmentAndYear. */
  lemma {:induction false} DepartmentAndYearIsBothFilters(db: seq<Student>, d: string, y: int)
    ensures FindByYear(FindByDepartment(db, d), y) == FindByDepartmentAndYear(db, d, y)
  {
    if db != [] {
      DepartmentAndYearIsBothFilters(db[1..], d, y);
    }
  }

  /** findByNameContainingIgnoreCase */
  function FindByNameContainingIgnoreCase(db: seq<Student>, t: string): (r: seq<Student>)
    ensures forall s :: s in r <==> s in db && ContainsIgnoreCase(s.name, t)
    ensures IsSubsequence(r, db)
  {
    Filter(db, (s: Student) => ContainsIgnoreCase(s.name, t))
  }

  /** findByDepartmentContainingIgnoreCase */
  function FindByDepartmentContainingIgnoreCase(db: seq<Student>, t: string): (r: seq<Student>)
    ensures forall s :: s in r <==> s in db && ContainsIgnoreCase(s.department, t)
    ensures IsSubsequence(r, db)
  {
    Filter(db, (s: Student) => ContainsIgnoreCase(s.department, t))
  }

  /** The WHERE clause of searchStudents. */
  predicate MatchesNameOrDepartment(s: Student, t: string) {
    ContainsIgnoreCase(s.name, t) || ContainsIgnoreCase(s.department, t)
  }

  /** The WHERE clause of searchStudentsWithPagination: the email is searched as well. */
  predicate MatchesNameDepartmentOrEmail(s: Student, t: string) {
    MatchesNameOrDepartment(s, t) || ContainsIgnoreCase(s.email, t)
  }

  /** searchStudents: lower-cased name or department contains the lower-cased term. */
  function SearchStudents(db: seq<Student>, t: string): (r: seq<Student>)
    ensures forall s :: s in r <==> s in db && (ContainsIgnoreCase(s.name, t) || ContainsIgnoreCase(s.department, t))
    ensures IsSubsequence(r, db)
  {
    Filter(db, (s: Student) => MatchesNameOrDepartment(s, t))
  }

  /** The search by name and the search by department each find only what searchStudents finds. */
  lemma NameAndDepartmentSearchesAreContained(db: seq<Student>, t: string)
    ensures forall s :: s in FindByNameContainingIgnoreCase(db, t) ==> s in SearchStudents(db, t)
    ensures forall s :: s in FindByDepartmentContainingIgnoreCase(db, t) ==> s in SearchStudents(db, t)
    ensures forall s :: s in SearchStudents(db, t) ==>
              s in FindByNameContainingIgnoreCase(db, t) || s in FindByDepartmentContainingIgnoreCase(db, t)
  {
  }

  /** The matches of the paged search: searchStudents' matches and those found by email. */
  function SearchMatches(db: seq<Student>, t: string): (r: seq<Student>)
    ensures forall s :: s in r <==> s in db && (MatchesNameOrDepartment(s, t) || ContainsIgnoreCase(s.email, t))
    ensures IsSubsequence(r, db)
  {
    Filter(db, (s: Student) => MatchesNameDepartmentOrEmail(s, t))
  }

  /** Everything searchStudents finds, the paged search finds too. */
  lemma SearchIsContainedInPagedSearch(db: seq<Student>, t: string)
    ensures forall s :: s in SearchStudents(db, t) ==> s in SearchMatches(db, t)
  {
  }

  /** countByDepartment */
  function CountByDepartment(db: seq<Student>, d: string): (n: nat)
    ensures n == |FindByDepartment(db, d)|
    ensures n == 0 <==> forall s :: s in db ==> s.department != d
  {
    CountIsFilterLength(db, (s: Student) => s.department == d);
    Count(db, (s: Student) => s.department == d)
  }

  // ---- findAllDepartments: SELECT DISTINCT s.department ... ORDER BY s.department ----

  /** Strictly ascending, hence free of repetitions. */
  predicate StrictlySorted(ds: seq<string>) {
    forall i, j :: 0 <= i < j < |ds| ==> LexLess(ds[i], ds[j])
  }

  lemma StrictlySortedIsDistinct(ds: seq<string>)
    requires StrictlySorted(ds)
    ensures forall i, j :: 0 <= i < j < |ds| ==> ds[i] != ds[j]
  {
    forall i, j | 0 <= i < j < |ds| ensures ds[i] != ds[j] {
      LexLessTotal(ds[i], ds[j]);
    }
  }

  /** Adds `d` to a strictly ascending list unless it is already there. */
  function InsertDistinct(d: string, ds: seq<string>): (r: seq<string>)
    requires StrictlySorted(ds)
    ensures StrictlySorted(r)
    ensures forall x :: x in r <==> x == d || x in ds
  {
    if ds == [] then [d]
    else if d == ds[0] then ds
    else if LexLess(d, ds[0]) then
      assert forall j :: 0 < j < |ds| ==> LexLess(d, ds[j]) by {
        forall j | 0 < j < |ds| ensures LexLess(d, ds[j]) {
          LexLessTransitive(d, ds[0], ds[j]);
        }
      }
      [d] + ds
    else
      var rest := InsertDistinct(d, ds[1..]);
      LexLessTotal(d, ds[0]);
      assert forall x :: x in rest ==> LexLess(ds[0], x);
      [ds[0]] + rest
  }

  function DistinctSorted(ds: seq<string>): (r: seq<string>)
    ensures StrictlySorted(r)
    ensures forall x :: x in r <==> x in ds
  {
    if ds == [] then [] else InsertDistinct(ds[0], DistinctSorted(ds[1..]))
  }

  function DepartmentColumn(db: seq<Student>): (r: seq<string>)
    ensures |r| == |db| && forall i :: 0 <= i < |db| ==> r[i] == db[i].department
  {
    seq(|db|, i requires 0 <= i < |db| => db[i].department)
  }

  /** findAllDepartments: each department in use, once, in ascending order. */
  function FindAllDepartments(db: seq<Student>): (r: seq<string>)
    ensures StrictlySorted(r)
    ensures forall d :: d in r <==> exists s :: s in db && s.department == d
  {
    var col := DepartmentColumn(db);
    assert forall d :: d in col <==> exists s :: s in db && s.department == d by {
      forall d ensures d in col <==> exists s :: s in db && s.department == d {
        if d in col {
          var i :| 0 <= i < |col| && col[i] == d;
          assert db[i] in db;
        }
        if s :| s in db && s.department == d {
          var i :| 0 <= i < |db| && db[i] == s;
          assert col[i] == d;
        }
      }
    }
    DistinctSorted(col)
  }

  // ---- Paged queries (Pageable / Page) ----

  /** Sort.Direction; the key is studentId, the controller's default sort field. */
  datatype Direction = Asc | Desc

  /** `direction.equalsIgnoreCase("DESC")` means descending; anything else ascending. */
  function ParseDirection(s: string): (d: Direction)
    ensures d == Desc <==> |s| == 4 && Lower(s) == "desc"
  {
    if EqualsIgnoreCase(s, "DESC") then Desc else Asc
  }

  /** PageRequest.of refuses a page size below one. */
  type PageSize = n: int | n >= 1 witness 1

  /**
   * A page request. `sort` is None for `PageRequest.of(page, size)`, which asks for no order,
   * and Some(d) for a request sorted by studentId in direction d.
   */
  datatype Pageable = Pageable(page: nat, size: PageSize, sort: Option<Direction>)

  /** Page: one window of the matches plus the total number of matches. */
  datatype Page<T> = Page(content: seq<T>, totalElements: nat, number: nat, size: PageSize)

  /** Page.getTotalPages: the number of windows of `size` that cover every match. */
  function TotalPages<T>(p: Page<T>): (n: nat)
    ensures (n - 1) * p.size < p.totalElements <= n * p.size || (n == 0 && p.totalElements == 0)
  {
    (p.totalElements + p.size - 1) / p.size
  }

  /**
   * `p` is page `page` of `items` in windows of `size`: every item from offset page * size on,
   * `size` of them or as many as are left, and the total count of items.
   */
  ghost predicate IsWindow<T>(p: Page<T>, items: seq<T>, page: nat, size: PageSize) {
    && p.totalElements == |items| && p.number == page && p.size == size
    && |p.content| == (if page * size >= |items| then 0 else if |items| - page * size < size then |items| - page * size else size)
    && forall i :: 0 <= i < |p.content| ==> page * size + i < |items| && p.content[i] == items[page * size + i]
  }

  /** A window is determined by the items, the page and the size. */
  lemma WindowIsUnique<T>(p: Page<T>, q: Page<T>, items: seq<T>, page: nat, size: PageSize)
    requires IsWindow(p, items, page, size) && IsWindow(q, items, page, size)
    ensures p == q
  {
    assert p.content == q.content;
  }

  /** The window of `items` at offset page * size, at most `size` long. */
  function Paginate<T>(items: seq<T>, page: nat, size: PageSize): (p: Page<T>)
    ensures IsWindow(p, items, page, size)
    ensures |p.content| <= size
  {
    var start := page * size;
    if start >= |items| then Page([], |items|, page, size)
    else
      var end := if start + size <= |items| then start + size else |items|;
      Page(items[start..end], |items|, page, size)
  }

  /** Two different pages never share an element, when no two items share the key. */
  lemma PagesAreDisjoint<T>(items: seq<T>, p: nat, q: nat, size: PageSize, key: T -> int)
    requires p != q
    requires forall i, j :: 0 <= i < j < |items| ==> key(items[i]) != key(items[j])
    ensures forall x, y :: x in Paginate(items, p, size).content && y in Paginate(items, q, size).content ==> key(x) != key(y)
  {
    forall x, y | x in Paginate(items, p, size).content && y in Paginate(items, q, size).content
      ensures key(x) != key(y)
    {
      var k1 := OnPage(items, p, size, x);
      var k2 := OnPage(items, q, size, y);
      WindowsDiffer(p, q, size, k1, k2);
      if k1 < k2 {
        assert key(items[k1]) != key(items[k2]);
      } else {
        assert key(items[k2]) != key(items[k1]);
      }
    }
  }

  /** The index in `items` of an element of a page's content, and that it lies in the page's window. */
  lemma OnPage<T>(items: seq<T>, page: nat, size: PageSize, x: T) returns (k: nat)
    requires x in Paginate(items, page, size).content
    ensures InWindow(k, page, size) && k < |items| && items[k] == x
  {
    var c := Paginate(items, page, size).content;
    var i :| 0 <= i < |c| && c[i] == x;
    k := page * size + i;
  }

  /** Page `page` covers the offsets [page * size, (page + 1) * size). */
  predicate InWindow(k: int, page: nat, size: PageSize) {
    page * size <= k < page * size + size
  }

  lemma WindowsDiffer(p: nat, q: nat, size: PageSize, k1: int, k2: int)
    requires p != q && InWindow(k1, p, size) && InWindow(k2, q, size)
    ensures k1 != k2
  {
    if p < q {
      MulMonotone(p + 1, q, size);
      assert (p + 1) * size == p * size + size;
    } else {
      MulMonotone(q + 1, p, size);
      assert (q + 1) * size == q * size + size;
    }
  }

  lemma {:induction false} MulMonotone(a: nat, b: nat, c: nat)
    requires a <= b
    ensures a * c <= b * c
    decreases b - a
  {
    if a < b {
      MulMonotone(a, b - 1, c);
      assert b * c == (b - 1) * c + c;
    }
  }

  /** Every item appears on page index / size, at position index % size. */
  lemma EveryItemIsOnItsPage<T>(items: seq<T>, k: nat, size: PageSize)
    requires k < |items|
    ensures var p := Paginate(items, k / size, size);
      k % size < |p.content| && p.content[k % size] == items[k]
  {
    var page := k / size;
    assert page * size + k % size == k;
    assert page * size <= k;
  }

  /**
   * The order of a sort by studentId, given the rows in ascending-id order: as they are for
   * ascending, reversed for descending. On rows in any other order it is not a sort.
   */
  function OrderById(db: seq<Student>, d: Direction): (r: seq<Student>)
    ensures |r| == |db|
    ensures forall i :: 0 <= i < |db| ==> r[i] == if d == Asc then db[i] else db[|db| - 1 - i]
    ensures forall x :: x in r ==> x in db
  {
    if d == Asc then db else seq(|db|, i requires 0 <= i < |db| => db[|db| - 1 - i])
  }

  function IdOf(s: Student): int {
    if s.studentId.Some? then s.studentId.value else 0
  }

  predicate IdsAscending(db: seq<Student>) {
    forall i, j :: 0 <= i < j < |db| ==> IdOf(db[i]) < IdOf(db[j])
  }

  /** Ordering ascending-id rows for a direction sorts them by id in that direction. */
  lemma OrderByIdSorts(db: seq<Student>, d: Direction)
    requires IdsAscending(db)
    ensures forall i, j :: 0 <= i < j < |db| ==>
      if d == Asc then IdOf(OrderById(db, d)[i]) < IdOf(OrderById(db, d)[j])
      else IdOf(OrderById(db, d)[i]) > IdOf(OrderById(db, d)[j])
  {
  }

  /**
   * The listing a page is cut from: the rows as the store returns them for an unsorted
   * request, otherwise ordered by studentId. `db` is in the store's ascending-id order, which
   * OrderById relies on.
   */
  function Arrange(db: seq<Student>, sort: Option<Direction>): seq<Student> {
    if sort.None? then db else OrderById(db, sort.value)
  }

  /**
   * findAll(pageable): the window of the table, arranged as the request asks. The service
   * passes the table in ascending-id order, so a sort by studentId is OrderById.
   */
  function FindAllPaged(db: seq<Student>, pageable: Pageable): (p: Page<Student>)
    ensures IsWindow(p, Arrange(db, pageable.sort), pageable.page, pageable.size)
    ensures p.totalElements == |db| && |p.content| <= pageable.size
    ensures forall s :: s in p.content ==> s in db
  {
    Paginate(Arrange(db, pageable.sort), pageable.page, pageable.size)
  }

  /**
   * searchStudentsWithPagination(term, pageable): the JPQL has no ORDER BY, so the matches come
   * in the store's order unless the request itself carries a sort.
   */
  function SearchStudentsWithPagination(db: seq<Student>, t: string, pageable: Pageable): (p: Page<Student>)
    ensures IsWindow(p, Arrange(SearchMatches(db, t), pageable.sort), pageable.page, pageable.size)
    ensures p.totalElements == |SearchMatches(db, t)| && |p.content| <= pageable.size
    ensures forall s :: s in p.content ==> s in db && MatchesNameDepartmentOrEmail(s, t)
  {
    Paginate(Arrange(SearchMatches(db, t), pageable.sort), pageable.page, pageable.size)
  }

  /**
   * The search endpoint asks with `PageRequest.of(page, size)`, no sort: its page is cut from
   * the matches in the store's order.
   */
  lemma UnsortedSearchKeepsStoreOrder(db: seq<Student>, t: string, page: nat, size: PageSize)
    ensures IsWindow(SearchStudentsWithPagination(db, t, Pageable(page, size, None)), SearchMatches(db, t), page, size)
  {
  }
}
