/**
 * The student list page of the client: a search over four fields combined
 * with three equality filters, twelve students per page, and the list
 * updates that editing, adding and deleting a student make.
 */
module StudentsPage {
  import opened Wrappers
  import Text
  import Seqs
  import Validation

  const StudentsPerPage: nat := 12

  /** A listed student: its id, the data of the student form, and the date it
      was enrolled (`YYYY-MM-DD`). */
  datatype Student = Student(id: string, form: Validation.StudentFormData, enrollmentDate: string)

  /** The three filters; an empty filter lets everything through. */
  datatype Filters = Filters(department: string, year: string, status: string)

  const NoFilters := Filters("", "", "")

  datatype FilterKey = Department | Year | Status

  // ---- filteredStudents ----------------------------------------------------

  /** The query, lower-cased, occurs in the lower-cased first name, last
      name, e-mail or student id. */
  predicate MatchesSearch(s: Student, query: string) {
    || Text.IncludesIgnoringCase(s.form.firstName, query)
    || Text.IncludesIgnoringCase(s.form.lastName, query)
    || Text.IncludesIgnoringCase(s.form.email, query)
    || Text.IncludesIgnoringCase(s.form.studentId, query)
  }

  /** The year filter compares against the decimal text of the year. */
  predicate MatchesFilters(s: Student, f: Filters) {
    && (f.department == "" || s.form.department == f.department)
    && (f.year == "" || Text.IntToString(s.form.year) == f.year)
    && (f.status == "" || s.form.status == f.status)
  }

  function Keep(query: string, f: Filters): Student -> bool {
    s => MatchesSearch(s, query) && MatchesFilters(s, f)
  }

  function FilteredStudents(students: seq<Student>, query: string, f: Filters): seq<Student> {
    Seqs.Filter(students, Keep(query, f))
  }

  /** A student is listed exactly when it is in the list, matches the search
      and passes every filter. */
  lemma FilteredMembership(students: seq<Student>, query: string, f: Filters, s: Student)
    ensures s in FilteredStudents(students, query, f) <==>
      s in students && MatchesSearch(s, query) && MatchesFilters(s, f)
  {
    Seqs.FilterMembership(students, Keep(query, f), s);
  }

  /** The listed students keep the order of the list. */
  lemma FilteredKeepsOrder(students: seq<Student>, query: string, f: Filters)
    ensures Seqs.IsSubsequence(FilteredStudents(students, query, f), students)
  {
    Seqs.FilterIsSubsequence(students, Keep(query, f));
  }

  /** With an empty query and no filters every student is listed. */
  lemma NothingFiltered(students: seq<Student>)
    ensures FilteredStudents(students, "", NoFilters) == students
  {
    forall i | 0 <= i < |students| ensures Keep("", NoFilters)(students[i]) {
      Text.EmptyIncluded(Text.Lower(students[i].form.firstName));
      assert Text.Lower("") == "";
    }
    Seqs.FilterKeepsAll(students, Keep("", NoFilters));
  }

  /** A year filter written as the text of a year passes exactly the
      students of that year. */
  lemma YearFilterExact(s: Student, f: Filters, y: int)
    requires f.year == Text.IntToString(y)
    ensures (f.year == "" || Text.IntToString(s.form.year) == f.year) <==> s.form.year == y
  {
    if Text.IntToString(s.form.year) == f.year {
      Text.IntToStringInjective(s.form.year, y);
    }
  }

  // ---- pagination ----------------------------------------------------------

  /** `Math.ceil(n / studentsPerPage)` */
  function TotalPages(n: nat): (r: nat)
    ensures n <= r * StudentsPerPage
    ensures r > 0 ==> (r - 1) * StudentsPerPage < n
    ensures r == 0 <==> n == 0
  {
    (n + StudentsPerPage - 1) / StudentsPerPage
  }

  function PageStart(page: int): int {
    (page - 1) * StudentsPerPage
  }

  /** `filtered.slice(startIndex, startIndex + studentsPerPage)` */
  function PageOf<T>(list: seq<T>, page: int): (r: seq<T>)
    ensures |r| <= StudentsPerPage
  {
    Seqs.SliceLength(list, PageStart(page), StudentsPerPage);
    Seqs.Slice(list, PageStart(page), PageStart(page) + StudentsPerPage)
  }

  /** Every page from the first to the last holds the next run of at most
      twelve elements, and is never empty. */
  lemma PageContents<T>(list: seq<T>, page: int)
    requires 1 <= page <= TotalPages(|list|)
    ensures PageStart(page) < |list|
    ensures PageOf(list, page) ==
      list[PageStart(page)..if PageStart(page) + StudentsPerPage <= |list| then PageStart(page) + StudentsPerPage else |list|]
    ensures |PageOf(list, page)| >= 1
  {
    assert (page - 1) * StudentsPerPage <= (TotalPages(|list|) - 1) * StudentsPerPage;
  }

  /** The element at index `k` is on page `k / 12 + 1`, at position `k % 12`:
      the pages together show the whole list. */
  lemma ElementOnItsPage<T>(list: seq<T>, k: int)
    requires 0 <= k < |list|
    ensures 1 <= k / StudentsPerPage + 1 <= TotalPages(|list|)
    ensures k % StudentsPerPage < |PageOf(list, k / StudentsPerPage + 1)|
    ensures PageOf(list, k / StudentsPerPage + 1)[k % StudentsPerPage] == list[k]
  {
    var page := k / StudentsPerPage + 1;
    assert k == PageStart(page) + k % StudentsPerPage;
    PageContents(list, page);
  }

  /** Pages after the last one are empty. */
  lemma PageBeyondLast<T>(list: seq<T>, page: int)
    requires page > TotalPages(|list|)
    ensures PageOf(list, page) == []
  {
    assert PageStart(page) >= TotalPages(|list|) * StudentsPerPage;
  }

  // ---- list updates --------------------------------------------------------

  /** `filters[key]` */
  function FilterValue(f: Filters, key: FilterKey): string {
    match key
    case Department => f.department
    case Year => f.year
    case Status => f.status
  }

  /** `{ ...prev, [key]: value }`: the filter under `key` reads `value` and
      every other filter reads as before. */
  function WithFilter(f: Filters, key: FilterKey, value: string): (r: Filters)
    ensures forall k :: FilterValue(r, k) == if k == key then value else FilterValue(f, k)
  {
    match key
    case Department => f.(department := value)
    case Year => f.(year := value)
    case Status => f.(status := value)
  }

  /** `{ ...student, ...data }`: every form field comes from `data`, the id
      and the enrolment date are kept. */
  function Merge(s: Student, data: Validation.StudentFormData): Student {
    s.(form := data)
  }

  /** Editing keeps the length and every student with another id; each
      student with that id gets the submitted data and keeps its id and
      enrolment date. */
  function ReplaceById(students: seq<Student>, id: string, data: Validation.StudentFormData): (r: seq<Student>)
    ensures |r| == |students|
    ensures forall i :: 0 <= i < |students| && students[i].id != id ==> r[i] == students[i]
    ensures forall i :: 0 <= i < |students| && students[i].id == id ==>
      r[i] == Student(id, data, students[i].enrollmentDate)
  {
    Seqs.Map(students, (s: Student) => if s.id == id then Merge(s, data) else s)
  }

  /** Submitting the same data twice changes nothing more. */
  lemma {:induction false} ReplaceByIdIdempotent(students: seq<Student>, id: string, data: Validation.StudentFormData)
    ensures ReplaceById(ReplaceById(students, id, data), id, data) == ReplaceById(students, id, data)
  {
    var once := ReplaceById(students, id, data);
    var twice := ReplaceById(once, id, data);
    forall i | 0 <= i < |students| ensures twice[i] == once[i] {
      assert once[i].id == students[i].id;
    }
  }

  function RemoveById(students: seq<Student>, id: string): seq<Student> {
    Seqs.Filter(students, (s: Student) => s.id != id)
  }

  /** Deleting removes exactly the students with that id and keeps the order
      of the rest. */
  lemma RemoveByIdEffect(students: seq<Student>, id: string, s: Student)
    ensures s in RemoveById(students, id) <==> s in students && s.id != id
    ensures Seqs.IsSubsequence(RemoveById(students, id), students)
  {
    Seqs.FilterMembership(students, (s: Student) => s.id != id, s);
    Seqs.FilterIsSubsequence(students, (s: Student) => s.id != id);
  }

  /** Deleting an id nobody has leaves the list as it was. */
  lemma RemoveAbsentId(students: seq<Student>, id: string)
    requires forall i :: 0 <= i < |students| ==> students[i].id != id
    ensures RemoveById(students, id) == students
  {
    Seqs.FilterKeepsAll(students, (s: Student) => s.id != id);
  }

  // ---- the page's state ----------------------------------------------------

  /** All of the page's state, to state each handler's effect in one place. */
  datatype PageState = PageState(
    students: seq<Student>,
    searchQuery: string,
    filters: Filters,
    currentPage: int,
    editingStudent: Option<Student>,
    showStudentForm: bool,
    studentToDelete: Option<Student>,
    showDeleteConfirm: bool)

  class StudentsView {
    var students: seq<Student>
    var searchQuery: string
    var filters: Filters
    var currentPage: int
    var editingStudent: Option<Student>
    var showStudentForm: bool
    var studentToDelete: Option<Student>
    var showDeleteConfirm: bool

    /** The page number starts at one and the buttons only offer pages
        `1..totalPages`, so it never drops below one. */
    ghost predicate Valid()
      reads this
    {
      currentPage >= 1
    }

    function State(): PageState
      reads this
    {
      PageState(students, searchQuery, filters, currentPage, editingStudent,
                showStudentForm, studentToDelete, showDeleteConfirm)
    }

    /** `filteredStudents` */
    function Listed(): seq<Student>
      reads this
    {
      FilteredStudents(students, searchQuery, filters)
    }

    /** `paginatedStudents` */
    function Shown(): seq<Student>
      reads this
    {
      PageOf(Listed(), currentPage)
    }

    /** The page starts with the given students, no query, no filters, on
        page one. */
    constructor(initial: seq<Student>)
      ensures Valid()
      ensures State() == PageState(initial, "", NoFilters, 1, None, false, None, false)
    {
      students := initial;
      searchQuery := "";
      filters := NoFilters;
      currentPage := 1;
      editingStudent := None;
      showStudentForm := false;
      studentToDelete := None;
      showDeleteConfirm := false;
    }

    /** Typing in the search box: only the query changes. */
    method SetSearchQuery(query: string)
      requires Valid()
      modifies this
      ensures Valid()
      ensures State() == old(State()).(searchQuery := query)
    {
      searchQuery := query;
    }

    /** Typing in the search box and going back to page one. */
    method SearchFor(query: string)
      requires Valid()
      modifies this
      ensures Valid()
      ensures State() == old(State()).(searchQuery := query, currentPage := 1)
      ensures Listed() != [] ==> Shown() != []
    {
      searchQuery := query;
      currentPage := 1;
      if Listed() != [] {
        PageContents(Listed(), 1);
      }
    }

    /** Changing one filter changes only that filter and returns to page one. */
    method HandleFilterChange(key: FilterKey, value: string)
      requires Valid()
      modifies this
      ensures Valid()
      ensures State() == old(State()).(filters := WithFilter(old(filters), key, value), currentPage := 1)
    {
      filters := WithFilter(filters, key, value);
      currentPage := 1;
    }

    /** Empties the three filters and the query and returns to page one, after
        which every student is listed. */
    method ClearFilters()
      requires Valid()
      modifies this
      ensures Valid()
      ensures State() == old(State()).(filters := NoFilters, searchQuery := "", currentPage := 1)
      ensures Listed() == students
    {
      filters := NoFilters;
      searchQuery := "";
      currentPage := 1;
      NothingFiltered(students);
    }

    /** A numbered page button; the buttons are shown only when there is more
        than one page, and offer pages `1..totalPages`. */
    method SetCurrentPage(page: int)
      requires Valid()
      requires TotalPages(|Listed()|) > 1
      requires 1 <= page <= TotalPages(|Listed()|)
      modifies this
      ensures Valid()
      ensures State() == old(State()).(currentPage := page)
      ensures Shown() != []
    {
      currentPage := page;
      PageContents(Listed(), page);
    }

    /** The `Previous` button, shown when there is more than one page and
        disabled on page one. */
    method PreviousPage()
      requires Valid()
      requires TotalPages(|Listed()|) > 1
      modifies this
      ensures Valid()
      ensures State() == old(State()).(currentPage := if old(currentPage) == 1 then 1 else old(currentPage) - 1)
      ensures old(currentPage) <= TotalPages(|Listed()|) ==> Shown() != []
    {
      if currentPage != 1 {
        currentPage := currentPage - 1;
      }
      if currentPage <= TotalPages(|Listed()|) {
        PageContents(Listed(), currentPage);
      }
    }

    /** The `Next` button, shown when there is more than one page and
        disabled on the last page. */
    method NextPage()
      requires Valid()
      requires TotalPages(|Listed()|) > 1
      modifies this
      ensures Valid()
      ensures State() == old(State()).(currentPage :=
        if old(currentPage) == TotalPages(|old(Listed())|) then old(currentPage) else old(currentPage) + 1)
      ensures old(currentPage) <= TotalPages(|Listed()|) ==> Shown() != []
    {
      if currentPage != TotalPages(|Listed()|) {
        currentPage := currentPage + 1;
      }
      if currentPage <= TotalPages(|Listed()|) {
        PageContents(Listed(), currentPage);
      }
    }

    method HandleAddStudent()
      requires Valid()
      modifies this
      ensures Valid()
      ensures State() == old(State()).(editingStudent := None, showStudentForm := true)
    {
      editingStudent := None;
      showStudentForm := true;
    }

    method HandleEditStudent(s: Student)
      requires Valid()
      modifies this
      ensures Valid()
      ensures State() == old(State()).(editingStudent := Some(s), showStudentForm := true)
    {
      editingStudent := Some(s);
      showStudentForm := true;
    }

    method HandleDeleteStudent(s: Student)
      requires Valid()
      modifies this
      ensures Valid()
      ensures State() == old(State()).(studentToDelete := Some(s), showDeleteConfirm := true)
    {
      studentToDelete := Some(s);
      showDeleteConfirm := true;
    }

    /** Submitting the form: when editing, the students with the edited id
        get the data; otherwise a new student with the given fresh id and
        today's date goes in front. */
    method HandleStudentSubmit(data: Validation.StudentFormData, freshId: string, today: string)
      requires Valid()
      modifies this
      ensures Valid()
      ensures old(editingStudent).Some? ==>
        State() == old(State()).(students := ReplaceById(old(students), old(editingStudent).value.id, data))
      ensures old(editingStudent).None? ==>
        State() == old(State()).(students := [Student(freshId, data, today)] + old(students))
      ensures old(editingStudent).Some? ==> |students| == |old(students)|
      ensures old(editingStudent).None? ==> |students| == |old(students)| + 1
    {
      match editingStudent
      case Some(editing) =>
        students := ReplaceById(students, editing.id, data);
      case None =>
        students := [Student(freshId, data, today)] + students;
    }

    /** Confirming the deletion removes the students with that id and closes
        the dialog; with nothing to delete nothing happens. */
    method ConfirmDelete()
      requires Valid()
      modifies this
      ensures Valid()
      ensures old(studentToDelete).None? ==> State() == old(State())
      ensures old(studentToDelete).Some? ==>
        State() == old(State()).(students := RemoveById(old(students), old(studentToDelete).value.id),
                                 showDeleteConfirm := false, studentToDelete := None)
    {
      if studentToDelete.Some? {
        students := RemoveById(students, studentToDelete.value.id);
        showDeleteConfirm := false;
        studentToDelete := None;
      }
    }
  }

  /** After a search that leaves at most twelve matches, a page after the
      first shows nothing although there are matches, and with a single page
      the page buttons are not shown to go back. */
  lemma StaleSearchPage(view: PageState, query: string)
    requires view.currentPage >= 2
    requires 1 <= |FilteredStudents(view.students, query, view.filters)| <= StudentsPerPage
    ensures PageOf(FilteredStudents(view.students, query, view.filters), view.currentPage) == []
    ensures TotalPages(|FilteredStudents(view.students, query, view.filters)|) == 1
  {
    PageBeyondLast(FilteredStudents(view.students, query, view.filters), view.currentPage);
  }
}
