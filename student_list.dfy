/**
 * The browser's student list: the rows last fetched, the rows currently filtered, the page
 * being shown (ten rows to a page) and the row being edited. Search, filter, sort and paging
 * reassign that state; the page slice, the page count and the page controls are computed
 * from it. Everything that touches the document is outside this module.
 */
module StudentList {
  import opened Wrappers
  import opened Text
  import opened Collections
  import Students

  const ItemsPerPage := 10

  /** A student as the list endpoint returns it; createdAt is a timestamp taken as a number. */
  datatype StudentRow = StudentRow(
    studentId: int,
    name: string,
    email: string,
    department: string,
    year: int,
    phoneNumber: string,
    createdAt: int)

  // ---- search and filter ----

  /** The search predicate: the lower-cased name, email or department contains the term. */
  predicate MatchesTerm(s: StudentRow, term: string) {
    Contains(Lower(s.name), term) || Contains(Lower(s.email), term) || Contains(Lower(s.department), term)
  }

  /** The rows handleSearch keeps for the text in the search box. */
  function SearchResult(all: seq<StudentRow>, input: string): (r: seq<StudentRow>)
    ensures IsSubsequence(r, all)
    ensures forall s :: s in r <==> s in all && MatchesTerm(s, Lower(input))
  {
    var term := Lower(input);
    Filter(all, (s: StudentRow) => MatchesTerm(s, term))
  }

  /** An empty search box keeps every row, in order. */
  lemma EmptySearchKeepsAll(all: seq<StudentRow>)
    ensures SearchResult(all, "") == all
  {
    forall s | s in all ensures MatchesTerm(s, Lower("")) {
      ContainsEmpty(Lower(s.name));
    }
    FilterKeepsAll(all, (s: StudentRow) => MatchesTerm(s, Lower("")));
  }

  /** The department and year selectors: an empty selector lets every row through. */
  predicate PassesSelectors(s: StudentRow, department: string, year: Option<int>) {
    (department == [] || s.department == department) && (year.None? || s.year == year.value)
  }

  /** The rows handleFilter keeps: the selectors first, then the search term if there is one. */
  function FilterResult(all: seq<StudentRow>, department: string, year: Option<int>, input: string): (r: seq<StudentRow>)
    ensures IsSubsequence(r, all)
    ensures forall s :: s in r <==>
              s in all && PassesSelectors(s, department, year) && (input == [] || MatchesTerm(s, Lower(input)))
  {
    var selected := Filter(all, (s: StudentRow) => PassesSelectors(s, department, year));
    var term := Lower(input);
    if term != [] then
      FilterFilter(all, (s: StudentRow) => PassesSelectors(s, department, year), (s: StudentRow) => MatchesTerm(s, term));
      Filter(selected, (s: StudentRow) => MatchesTerm(s, term))
    else selected
  }

  /** With both selectors empty, handleFilter keeps exactly what handleSearch keeps. */
  lemma {:induction false} UnselectedFilterIsSearch(all: seq<StudentRow>, input: string)
    ensures FilterResult(all, [], None, input) == SearchResult(all, input)
  {
    FilterKeepsAll(all, (s: StudentRow) => PassesSelectors(s, [], None));
    if Lower(input) == [] {
      assert input == [];
      EmptySearchKeepsAll(all);
    }
  }

  /** The filters only narrow the search: no row shown after handleFilter is hidden by handleSearch. */
  lemma FilterNarrowsSearch(all: seq<StudentRow>, department: string, year: Option<int>, input: string)
    ensures forall s :: s in FilterResult(all, department, year, input) ==> s in SearchResult(all, input)
  {
    if input == [] {
      EmptySearchKeepsAll(all);
    }
  }

  // ---- sorting ----

  /**
   * The comparator handleSort picks for the sort selector: name or department by string order,
   * year ascending, createdAt newest first, anything else studentId ascending. A negative
   * result puts `a` first.
   */
  function Compare(sortBy: string, a: StudentRow, b: StudentRow): int {
    if sortBy == "name" then LexCompare(a.name, b.name)
    else if sortBy == "department" then LexCompare(a.department, b.department)
    else if sortBy == "year" then a.year - b.year
    else if sortBy == "createdAt" then b.createdAt - a.createdAt
    else a.studentId - b.studentId
  }

  /**
   * What each comparator's sign means: a negative result exactly when `a` sorts first on that
   * selector's field (newest first for createdAt), 0 exactly when the fields are equal.
   */
  lemma CompareOrders(sortBy: string, a: StudentRow, b: StudentRow)
    ensures var c := Compare(sortBy, a, b);
      && (sortBy == "name" ==> (c < 0 <==> LexLess(a.name, b.name)) && (c == 0 <==> a.name == b.name))
      && (sortBy == "department" ==>
            (c < 0 <==> LexLess(a.department, b.department)) && (c == 0 <==> a.department == b.department))
      && (sortBy == "year" ==> (c < 0 <==> a.year < b.year) && (c == 0 <==> a.year == b.year))
      && (sortBy == "createdAt" ==> (c < 0 <==> a.createdAt > b.createdAt) && (c == 0 <==> a.createdAt == b.createdAt))
      && (sortBy !in {"name", "department", "year", "createdAt"} ==>
            (c < 0 <==> a.studentId < b.studentId) && (c == 0 <==> a.studentId == b.studentId))
  {
  }

  /** Each comparator orders its pair the opposite way when the arguments are swapped. */
  lemma CompareFlips(sortBy: string, a: StudentRow, b: StudentRow)
    ensures Compare(sortBy, a, b) > 0 <==> Compare(sortBy, b, a) < 0
  {
  }

  /** Each comparator is transitive on "not after". */
  lemma CompareTransitive(sortBy: string, a: StudentRow, b: StudentRow, c: StudentRow)
    requires Compare(sortBy, a, b) <= 0 && Compare(sortBy, b, c) <= 0
    ensures Compare(sortBy, a, c) <= 0
  {
    if sortBy == "name" {
      if a.name != b.name && b.name != c.name {
        LexLessTransitive(a.name, b.name, c.name);
      }
    } else if sortBy == "department" {
      if a.department != b.department && b.department != c.department {
        LexLessTransitive(a.department, b.department, c.department);
      }
    }
  }

  /** No row is followed by one the comparator puts before it. */
  predicate Sorted(sortBy: string, s: seq<StudentRow>) {
    forall i :: 0 <= i < |s| - 1 ==> Compare(sortBy, s[i], s[i + 1]) <= 0
  }

  /** A sorted list is in order across every pair, not only neighbours. */
  lemma {:induction false} SortedIsPairwise(sortBy: string, s: seq<StudentRow>)
    requires Sorted(sortBy, s)
    ensures forall i, j :: 0 <= i < j < |s| ==> Compare(sortBy, s[i], s[j]) <= 0
  {
    forall i, j | 0 <= i < j < |s| ensures Compare(sortBy, s[i], s[j]) <= 0 {
      var k := i + 1;
      while k < j
        invariant i < k <= j
        invariant Compare(sortBy, s[i], s[k]) <= 0
      {
        CompareTransitive(sortBy, s[i], s[k], s[k + 1]);
        k := k + 1;
      }
    }
  }

  /** A row the comparator puts first stays first past every row that is not before the middle one. */
  lemma CompareStrictlyTransitive(sortBy: string, a: StudentRow, b: StudentRow, c: StudentRow)
    requires (Compare(sortBy, a, b) < 0 && Compare(sortBy, b, c) <= 0) ||
             (Compare(sortBy, a, b) <= 0 && Compare(sortBy, b, c) < 0)
    ensures Compare(sortBy, a, c) < 0
  {
    if sortBy == "name" {
      if a.name != b.name && b.name != c.name {
        LexLessTransitive(a.name, b.name, c.name);
      }
    } else if sortBy == "department" {
      if a.department != b.department && b.department != c.department {
        LexLessTransitive(a.department, b.department, c.department);
      }
    }
  }

  /**
   * `x` placed into a sorted list after every row it does not come before, so that a row tied
   * with others lands behind them.
   */
  function Insert(sortBy: string, x: StudentRow, s: seq<StudentRow>): (r: seq<StudentRow>)
    requires Sorted(sortBy, s)
    ensures Sorted(sortBy, r)
    ensures multiset(r) == multiset(s) + multiset{x}
    ensures r[0] == x || (s != [] && r[0] == s[0])
  {
    if s == [] || Compare(sortBy, x, s[0]) < 0 then [x] + s
    else
      CompareFlips(sortBy, s[0], x);
      assert s == [s[0]] + s[1..];
      [s[0]] + Insert(sortBy, x, s[1..])
  }

  /** The test "ties with z" for the comparator sortBy selects. */
  function TiesWith(sortBy: string, z: StudentRow): StudentRow -> bool {
    (y: StudentRow) => Compare(sortBy, y, z) == 0
  }

  /** The rows of `s` the comparator ties with `z`, in their order in `s`. */
  function TiedWith(sortBy: string, z: StudentRow, s: seq<StudentRow>): (r: seq<StudentRow>)
    ensures forall y :: y in r <==> y in s && Compare(sortBy, y, z) == 0
  {
    Filter(s, TiesWith(sortBy, z))
  }

  /**
   * Inserting keeps every group of tied rows in order: `x` joins its group at the back, and
   * no other group changes.
   */
  lemma {:induction false} InsertKeepsTies(sortBy: string, x: StudentRow, s: seq<StudentRow>, z: StudentRow)
    requires Sorted(sortBy, s)
    ensures TiedWith(sortBy, z, Insert(sortBy, x, s)) == TiedWith(sortBy, z, s) + TiedWith(sortBy, z, [x])
    decreases |s|
  {
    if s == [] {
      assert Insert(sortBy, x, s) == [x] && TiedWith(sortBy, z, s) == [];
    } else if Compare(sortBy, x, s[0]) < 0 {
      assert Insert(sortBy, x, s) == [x] + s;
      TiesBehindFront(sortBy, x, s, z);
    } else {
      var rest := s[1..];
      InsertKeepsTies(sortBy, x, rest, z);
      assert Insert(sortBy, x, s) == [s[0]] + Insert(sortBy, x, rest) && s == [s[0]] + rest;
      FilterConsBoth(s[0], Insert(sortBy, x, rest), rest, TiedWith(sortBy, z, [x]), TiesWith(sortBy, z));
    }
  }

  /** `x` put in front of a sorted list whose head it comes before is the last of its group. */
  lemma TiesBehindFront(sortBy: string, x: StudentRow, s: seq<StudentRow>, z: StudentRow)
    requires Sorted(sortBy, s) && s != [] && Compare(sortBy, x, s[0]) < 0
    ensures TiedWith(sortBy, z, [x] + s) == TiedWith(sortBy, z, s) + TiedWith(sortBy, z, [x])
  {
    FilterAppend([x], s, TiesWith(sortBy, z));
    if Compare(sortBy, x, z) == 0 {
      NoneTiedBehind(sortBy, x, s, z);
    } else {
      assert TiedWith(sortBy, z, [x]) == [];
    }
  }

  /** A row tied with `x` is never one that `x` comes before. */
  lemma BeforeIsNotTied(sortBy: string, x: StudentRow, y: StudentRow, z: StudentRow)
    requires Compare(sortBy, x, y) < 0 && Compare(sortBy, x, z) == 0
    ensures Compare(sortBy, y, z) != 0
  {
    CompareFlips(sortBy, z, x);
    CompareStrictlyTransitive(sortBy, z, x, y);
    CompareFlips(sortBy, y, z);
  }

  /** No row of a sorted list that `x` comes before is tied with `x`'s group. */
  lemma NoneTiedBehind(sortBy: string, x: StudentRow, s: seq<StudentRow>, z: StudentRow)
    requires Sorted(sortBy, s) && s != [] && Compare(sortBy, x, s[0]) < 0 && Compare(sortBy, x, z) == 0
    ensures TiedWith(sortBy, z, s) == []
  {
    SortedIsPairwise(sortBy, s);
    forall y | y in s ensures Compare(sortBy, y, z) != 0 {
      var j :| 0 <= j < |s| && s[j] == y;
      if j > 0 {
        CompareStrictlyTransitive(sortBy, x, s[0], y);
      }
      BeforeIsNotTied(sortBy, x, y, z);
    }
    FilterKeepsNone(s, TiesWith(sortBy, z));
  }

  /** Appending a row to the input appends it to its group. */
  lemma TiedWithAppend(sortBy: string, z: StudentRow, s: seq<StudentRow>, x: StudentRow)
    ensures TiedWith(sortBy, z, s + [x]) == TiedWith(sortBy, z, s) + TiedWith(sortBy, z, [x])
  {
    FilterAppend(s, [x], TiesWith(sortBy, z));
  }

  // ---- pages ----

  /** Math.ceil(n / 10): the fewest ten-row pages that hold n rows. */
  function TotalPagesOf(n: nat): (t: nat)
    ensures t * ItemsPerPage >= n
    ensures t == 0 || (t - 1) * ItemsPerPage < n
    ensures t == 0 <==> n == 0
  {
    (n + ItemsPerPage - 1) / ItemsPerPage
  }

  /** An index as Array.prototype.slice reads it: negative counts from the end; clamped to [0, len]. */
  function SliceIndex(i: int, len: nat): (k: nat)
    ensures k <= len
    ensures 0 <= i <= len ==> k == i
  {
    if i < 0 then (if len + i < 0 then 0 else len + i)
    else if i > len then len
    else i
  }

  /** Reading two indices never moves them further apart. */
  lemma SliceIndexSpread(i: int, j: int, len: nat)
    ensures i <= j ==> SliceIndex(j, len) - SliceIndex(i, len) <= j - i
  {
  }

  /** Array.prototype.slice(start, end). */
  function Slice<T>(s: seq<T>, start: int, end: int): (r: seq<T>)
    ensures start <= end ==> |r| <= end - start
    ensures 0 <= start <= end ==>
              r == s[(if start <= |s| then start else |s|)..(if end <= |s| then end else |s|)]
    ensures forall x :: x in r ==> x in s
  {
    var (a, b) := (SliceIndex(start, |s|), SliceIndex(end, |s|));
    SliceIndexSpread(start, end, |s|);
    if a < b then s[a..b] else []
  }

  /** The rows displayStudents shows for a page: ten rows from offset (page - 1) * 10. */
  function Window(rows: seq<StudentRow>, page: int): (r: seq<StudentRow>)
    ensures |r| <= ItemsPerPage
    ensures page >= 1 && (page - 1) * ItemsPerPage >= |rows| ==> r == []
    ensures page >= 1 && (page - 1) * ItemsPerPage < |rows| ==>
              && |r| == (if page * ItemsPerPage <= |rows| then ItemsPerPage else |rows| - (page - 1) * ItemsPerPage)
              && forall i :: 0 <= i < |r| ==> r[i] == rows[(page - 1) * ItemsPerPage + i]
  {
    var start := (page - 1) * ItemsPerPage;
    Slice(rows, start, start + ItemsPerPage)
  }

  /** Row j is the (j % 10)-th row of page j / 10 + 1, and that page exists. */
  lemma EveryRowHasAPage(rows: seq<StudentRow>, j: int)
    requires 0 <= j < |rows|
    ensures 1 <= j / ItemsPerPage + 1 <= TotalPagesOf(|rows|)
    ensures j % ItemsPerPage < |Window(rows, j / ItemsPerPage + 1)|
    ensures Window(rows, j / ItemsPerPage + 1)[j % ItemsPerPage] == rows[j]
  {
    var page := j / ItemsPerPage + 1;
    assert (page - 1) * ItemsPerPage + j % ItemsPerPage == j;
  }

  /** One of the page controls updatePagination lays out. */
  datatype Control = Previous(disabled: bool) | PageButton(page: int, active: bool) | Dots | Next(disabled: bool)

  /** Page i gets a button when it is the first, the last or next to the current page. */
  predicate HasButton(i: int, current: int, total: int) {
    i == 1 || i == total || (current - 1 <= i <= current + 1)
  }

  /** What the loop lays out for page i. */
  function Slot(i: int, current: int, total: int): seq<Control> {
    if HasButton(i, current, total) then [PageButton(i, i == current)]
    else if i == current - 2 || i == current + 2 then [Dots]
    else []
  }

  /** What the loop has laid out after pages 1 to k. */
  function Slots(k: int, current: int, total: int): seq<Control>
    decreases k
  {
    if k <= 0 then [] else Slots(k - 1, current, total) + Slot(k, current, total)
  }

  /** The controls for n filtered rows with `current` the page shown: none for a single page. */
  function Pagination(n: nat, current: int): (r: seq<Control>)
    ensures TotalPagesOf(n) <= 1 ==> r == []
    ensures TotalPagesOf(n) > 1 ==>
              && |r| >= 2
              && r[0] == Previous(current == 1)
              && r[|r| - 1] == Next(current == TotalPagesOf(n))
              && r[1..|r| - 1] == Slots(TotalPagesOf(n), current, TotalPagesOf(n))
  {
    var total := TotalPagesOf(n);
    if total <= 1 then []
    else [Previous(current == 1)] + Slots(total, current, total) + [Next(current == total)]
  }

  /** A button for page i is laid out exactly when i is first, last or next to the current page. */
  lemma {:induction false} ButtonIff(k: int, current: int, total: int, i: int, active: bool)
    ensures PageButton(i, active) in Slots(k, current, total) <==>
              1 <= i <= k && HasButton(i, current, total) && active == (i == current)
    decreases k
  {
    if k > 0 {
      ButtonIff(k - 1, current, total, i, active);
    }
  }

  predicate ButtonsIncrease(s: seq<Control>) {
    forall a, b :: 0 <= a < b < |s| && s[a].PageButton? && s[b].PageButton? ==> s[a].page < s[b].page
  }

  /** Buttons come out in increasing page order, all within 1..k. */
  lemma {:induction false} ButtonsAscend(k: int, current: int, total: int)
    ensures forall c :: c in Slots(k, current, total) && c.PageButton? ==> 1 <= c.page <= k
    ensures ButtonsIncrease(Slots(k, current, total))
    decreases k
  {
    if k > 0 {
      ButtonsAscend(k - 1, current, total);
      var prev := Slots(k - 1, current, total);
      var s := prev + Slot(k, current, total);
      forall a, b | 0 <= a < b < |s| && s[a].PageButton? && s[b].PageButton? ensures s[a].page < s[b].page {
        if b >= |prev| {
          assert |Slot(k, current, total)| <= 1;
          assert s[b] == Slot(k, current, total)[b - |prev|];
          assert s[b].page == k;
          assert a < |prev|;
          assert s[a] == prev[a] && prev[a] in prev;
          assert prev[a].page <= k - 1;
        } else {
          assert s[a] == prev[a] && s[b] == prev[b];
        }
      }
      forall c | c in s && c.PageButton? ensures 1 <= c.page <= k {
        if c in prev {
        } else {
          assert c in Slot(k, current, total);
        }
      }
    }
  }

  /** The ellipses among the first k slots: at current - 2 and at current + 2, unless that page is 1 or total. */
  function DotsUpTo(k: int, current: int, total: int): nat {
    (if 2 <= current - 2 <= k && current - 2 != total then 1 else 0) +
    (if 2 <= current + 2 <= k && current + 2 != total then 1 else 0)
  }

  lemma {:induction false} DotsCount(k: int, current: int, total: int)
    ensures multiset(Slots(k, current, total))[Dots] == DotsUpTo(k, current, total)
    decreases k
  {
    if k > 0 {
      DotsCount(k - 1, current, total);
      var prev := Slots(k - 1, current, total);
      var last := Slot(k, current, total);
      assert Slots(k, current, total) == prev + last;
      assert multiset(prev + last) == multiset(prev) + multiset(last);
      SlotDots(k, current, total);
    }
  }

  /** Slot k adds the ellipsis DotsUpTo counts at k, and nothing else that is one. */
  lemma SlotDots(k: int, current: int, total: int)
    requires k > 0
    ensures multiset(Slot(k, current, total))[Dots] == DotsUpTo(k, current, total) - DotsUpTo(k - 1, current, total)
  {
    if HasButton(k, current, total) {
      assert Slot(k, current, total) == [PageButton(k, k == current)];
    } else if k == current - 2 || k == current + 2 {
      assert Slot(k, current, total) == [Dots];
    } else {
      assert Slot(k, current, total) == [];
    }
  }

  /**
   * On a page in range there is an ellipsis before the current page's button exactly when pages
   * are hidden there (current >= 4), and one after it exactly when current <= total - 3: the
   * slots before page current hold the first, and all the slots hold both.
   */
  lemma DotsMarkHiddenPages(current: int, total: int)
    requires 1 <= current <= total
    ensures Slots(current - 1, current, total) <= Slots(total, current, total)
    ensures multiset(Slots(current - 1, current, total))[Dots] == (if current >= 4 then 1 else 0)
    ensures multiset(Slots(total, current, total))[Dots] ==
              (if current >= 4 then 1 else 0) + (if current + 3 <= total then 1 else 0)
  {
    SlotsExtend(current - 1, total, current, total);
    DotsCount(current - 1, current, total);
    DotsCount(total, current, total);
  }

  /** The slots up to page k are the first slots of those up to any later page m. */
  lemma {:induction false} SlotsExtend(k: int, m: int, current: int, total: int)
    requires k <= m
    ensures Slots(k, current, total) <= Slots(m, current, total)
    decreases m - k
  {
    if k < m && m > 0 {
      SlotsExtend(k, m - 1, current, total);
    }
  }

  // ---- form submission ----

  /** The values read from the add/edit form; the year is parseInt's result, None for NaN. */
  datatype FormFields = FormFields(name: string, email: string, department: string, year: Option<int>, phoneNumber: string)

  /** The request body handleFormSubmit sends. */
  datatype StudentData = StudentData(name: string, email: string, department: string, year: Option<int>, phoneNumber: string)

  /** What a submission does: refuse the phone number, or send an update or a create. */
  datatype Submission = RejectPhone(message: string) | SendUpdate(id: int, data: StudentData) | SendCreate(data: StudentData)

  /** Name, email and phone are trimmed; department and year are sent as read. */
  function Collect(form: FormFields): (d: StudentData)
    ensures d.name == JsTrim(form.name) && d.email == JsTrim(form.email) && d.phoneNumber == JsTrim(form.phoneNumber)
    ensures d.department == form.department && d.year == form.year
  {
    StudentData(JsTrim(form.name), JsTrim(form.email), form.department, form.year, JsTrim(form.phoneNumber))
  }

  class StudentListState {
    var allStudents: seq<StudentRow>
    var filteredStudents: seq<StudentRow>
    var currentEditId: Option<int>
    var currentPage: int

    constructor ()
      ensures allStudents == [] && filteredStudents == [] && currentEditId == None && currentPage == 1
    {
      allStudents := [];
      filteredStudents := [];
      currentEditId := None;
      currentPage := 1;
    }

    /** loadStudents after a successful fetch: both lists become the fetched rows; the page stays. */
    method LoadStudents(fetched: seq<StudentRow>)
      modifies this
      ensures allStudents == fetched && filteredStudents == fetched
      ensures currentEditId == old(currentEditId) && currentPage == old(currentPage)
    {
      allStudents := fetched;
      filteredStudents := allStudents[..];
    }

    /** handleSearch: keep the rows that match the search box, then back to page 1. */
    method HandleSearch(input: string)
      modifies this
      ensures filteredStudents == SearchResult(allStudents, input) && currentPage == 1
      ensures allStudents == old(allStudents) && currentEditId == old(currentEditId)
    {
      var term := Lower(input);
      filteredStudents := Filter(allStudents, (s: StudentRow) => MatchesTerm(s, term));
      ApplyFilters();
    }

    /** handleFilter: the selectors, then the search box when it is not empty, then back to page 1. */
    method HandleFilter(department: string, year: Option<int>, input: string)
      modifies this
      ensures filteredStudents == FilterResult(allStudents, department, year, input) && currentPage == 1
      ensures allStudents == old(allStudents) && currentEditId == old(currentEditId)
    {
      filteredStudents := Filter(allStudents, (s: StudentRow) => PassesSelectors(s, department, year));
      var term := Lower(input);
      if term != [] {
        filteredStudents := Filter(filteredStudents, (s: StudentRow) => MatchesTerm(s, term));
      }
      ApplyFilters();
    }

    /** applyFilters: the first page of whatever is filtered. */
    method ApplyFilters()
      modifies this
      ensures currentPage == 1
      ensures allStudents == old(allStudents) && filteredStudents == old(filteredStudents)
      ensures currentEditId == old(currentEditId)
    {
      currentPage := 1;
    }

    /** resetFilters: every loaded row again, on page 1. */
    method ResetFilters()
      modifies this
      ensures filteredStudents == allStudents && currentPage == 1
      ensures allStudents == old(allStudents) && currentEditId == old(currentEditId)
    {
      filteredStudents := allStudents[..];
      currentPage := 1;
    }

    /**
     * handleSort: the filtered rows reordered by the chosen comparator; Array.prototype.sort is
     * stable, so rows the comparator ties keep the order they had.
     */
    method HandleSort(sortBy: string)
      modifies this
      ensures Sorted(sortBy, filteredStudents)
      ensures multiset(filteredStudents) == multiset(old(filteredStudents))
      ensures forall z :: TiedWith(sortBy, z, filteredStudents) == TiedWith(sortBy, z, old(filteredStudents))
      ensures allStudents == old(allStudents) && currentPage == old(currentPage) && currentEditId == old(currentEditId)
    {
      var sorted: seq<StudentRow> := [];
      var i := 0;
      while i < |filteredStudents|
        invariant 0 <= i <= |filteredStudents|
        invariant Sorted(sortBy, sorted)
        invariant multiset(sorted) == multiset(filteredStudents[..i])
        invariant forall z :: TiedWith(sortBy, z, sorted) == TiedWith(sortBy, z, filteredStudents[..i])
      {
        var x := filteredStudents[i];
        assert filteredStudents[..i + 1] == filteredStudents[..i] + [x];
        forall z ensures TiedWith(sortBy, z, Insert(sortBy, x, sorted)) == TiedWith(sortBy, z, filteredStudents[..i + 1]) {
          InsertKeepsTies(sortBy, x, sorted, z);
          TiedWithAppend(sortBy, z, filteredStudents[..i], x);
        }
        sorted := Insert(sortBy, x, sorted);
        i := i + 1;
      }
      assert filteredStudents[..i] == filteredStudents;
      filteredStudents := sorted;
    }

    /** changePage: show the given page. */
    method ChangePage(page: int)
      modifies this
      ensures currentPage == page
      ensures allStudents == old(allStudents) && filteredStudents == old(filteredStudents)
      ensures currentEditId == old(currentEditId)
    {
      currentPage := page;
    }

    /** editStudent records the row being edited; showAddStudentModal and closeModal clear it. */
    method SetEditTarget(target: Option<int>)
      modifies this
      ensures currentEditId == target
      ensures allStudents == old(allStudents) && filteredStudents == old(filteredStudents)
      ensures currentPage == old(currentPage)
    {
      currentEditId := target;
    }

    /** The rows displayStudents puts in the table. */
    function DisplayedRows(): (r: seq<StudentRow>)
      reads this
      ensures r == Window(filteredStudents, currentPage)
      ensures |r| <= ItemsPerPage
      ensures forall s :: s in r ==> s in filteredStudents
    {
      var r := Window(filteredStudents, currentPage);
      assert forall s :: s in r ==> s in filteredStudents by {
        var start := (currentPage - 1) * ItemsPerPage;
        var (a, b) := (SliceIndex(start, |filteredStudents|), SliceIndex(start + ItemsPerPage, |filteredStudents|));
        assert r == if a < b then filteredStudents[a..b] else [];
      }
      r
    }

    /** updatePagination: lays out Previous, the page slots 1..total and Next. */
    method UpdatePagination() returns (controls: seq<Control>)
      ensures controls == Pagination(|filteredStudents|, currentPage)
    {
      var total := TotalPagesOf(|filteredStudents|);
      if total <= 1 {
        return [];
      }
      controls := [Previous(currentPage == 1)];
      var i := 1;
      while i <= total
        invariant 1 <= i <= total + 1
        invariant controls == [Previous(currentPage == 1)] + Slots(i - 1, currentPage, total)
      {
        if i == 1 || i == total || (i >= currentPage - 1 && i <= currentPage + 1) {
          controls := controls + [PageButton(i, i == currentPage)];
        } else if i == currentPage - 2 || i == currentPage + 2 {
          controls := controls + [Dots];
        }
        i := i + 1;
      }
      controls := controls + [Next(currentPage == total)];
    }

    /**
     * handleFormSubmit: a phone number that is not ten digits after trimming is refused before
     * any request; otherwise an update of the row being edited, or a create when none is (an id
     * of 0 counts as none, as JavaScript reads it).
     */
    function HandleFormSubmit(form: FormFields): (r: Submission)
      reads this
      ensures r.RejectPhone? <==> !IsTenDigits(JsTrim(form.phoneNumber))
      ensures r.SendUpdate? <==> !r.RejectPhone? && currentEditId.Some? && currentEditId.value != 0
      ensures r.SendUpdate? ==> r.id == currentEditId.value
      ensures !r.RejectPhone? ==> r.data == Collect(form) && Students.ValidPhoneNumber(r.data.phoneNumber)
    {
      var data := Collect(form);
      if !IsTenDigits(data.phoneNumber) then RejectPhone("Please enter a valid 10-digit phone number")
      else
        Students.TenDigitsAreNotBlank(data.phoneNumber);
        if currentEditId.Some? && currentEditId.value != 0 then SendUpdate(currentEditId.value, data)
        else SendCreate(data)
    }
  }
}
