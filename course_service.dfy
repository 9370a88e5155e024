/** CourseService: the student's course list screen, which filters the enrolled
    courses by a keyword, sorts them by a chosen field and turns each into a view row. */
module CourseService {
  import opened Wrappers
  import opened Seqs
  import opened Text
  import opened Sorting
  import opened Entities

  // ---------------------------------------------------------------------------
  // Filtering.
  // ---------------------------------------------------------------------------

  /** A keyword that is absent or empty after trimming selects nothing to filter by. */
  predicate IsBlankKeyword(keyword: Option<string>) {
    keyword.None? || |Trim(keyword.value)| == 0
  }

  /** The courses the lower-cased keyword `kw` finds: it occurs in the lower-cased code,
      name, or (when there is a teacher) teacher's full name. */
  function MatchesKeyword(kw: string): Course -> bool {
    (c: Course) =>
      Contains(Lower(c.code), kw) || Contains(Lower(c.name), kw) ||
      (c.teacher.Some? && Contains(Lower(c.teacher.value.fullName), kw))
  }

  /** filterCourses: the courses the keyword finds, in list order; the list itself for
      a blank keyword. The keyword is lower-cased, then trimmed. */
  function FilterCourses(courses: seq<Course>, keyword: Option<string>): (r: seq<Course>)
    ensures IsBlankKeyword(keyword) ==> r == courses
    ensures |r| <= |courses|
  {
    if IsBlankKeyword(keyword) then courses
    else Filter(courses, MatchesKeyword(Trim(Lower(keyword.value))))
  }

  /** With a keyword, a course is kept exactly when it is in the list and the keyword
      finds it, and the kept courses keep their order. */
  lemma FilterCoursesKeeps(courses: seq<Course>, keyword: Option<string>)
    requires !IsBlankKeyword(keyword)
    ensures var kw := Trim(Lower(keyword.value));
            var r := FilterCourses(courses, keyword);
            (forall i :: 0 <= i < |r| ==> r[i] in courses && MatchesKeyword(kw)(r[i])) &&
            (forall i :: 0 <= i < |courses| && MatchesKeyword(kw)(courses[i]) ==> courses[i] in r) &&
            IsSubsequence(r, courses)
  {
    var kw := Trim(Lower(keyword.value));
    FilterMembers(courses, MatchesKeyword(kw));
    FilterIsSubsequence(courses, MatchesKeyword(kw));
  }

  // ---------------------------------------------------------------------------
  // Sorting.
  // ---------------------------------------------------------------------------

  /** The sort options the switch of sortCourses knows. */
  datatype SortField = ByName | ByCode | ByTeacher | BySchedule

  /** The comparator key of each option: the name; the code; the teacher's full name,
      "" without a teacher; the schedule, with a null schedule after every other. */
  function KeyOf(f: SortField): Course -> SortKey {
    match f
    case ByName => (c: Course) => Key(c.name)
    case ByCode => (c: Course) => Key(c.code)
    case ByTeacher => (c: Course) => Key(if c.teacher.Some? then c.teacher.value.fullName else "")
    case BySchedule => (c: Course) => if c.schedule.Some? then Key(c.schedule.value) else NoKey
  }

  /** The switch on option.toLowerCase() (not trimmed): one of the four names, or none. */
  function ParseSortOption(option: string): (r: Option<SortField>)
    ensures r == Some(ByName) <==> Lower(option) == "name"
    ensures r == Some(ByCode) <==> Lower(option) == "code"
    ensures r == Some(ByTeacher) <==> Lower(option) == "teacher"
    ensures r == Some(BySchedule) <==> Lower(option) == "schedule"
  {
    var o := Lower(option);
    if o == "name" then Some(ByName)
    else if o == "code" then Some(ByCode)
    else if o == "teacher" then Some(ByTeacher)
    else if o == "schedule" then Some(BySchedule)
    else None
  }

  /** The option that sortCourses acts on: none for an absent or blank option. */
  function ChosenField(option: Option<string>): Option<SortField> {
    if option.None? || |Trim(option.value)| == 0 then None else ParseSortOption(option.value)
  }

  /** sortCourses: the stable sort by the chosen field; the list itself for an absent,
      blank or unknown option. */
  function SortCourses(courses: seq<Course>, option: Option<string>): (r: seq<Course>)
    ensures ChosenField(option).None? ==> r == courses
  {
    match ChosenField(option)
    case None => courses
    case Some(f) => SortBy(courses, KeyOf(f))
  }

  /** A known option needs no trimming check: its lower-cased text is one of the four
      names, which contain no character that trim removes. */
  lemma KnownOptionIsNotBlank(option: string)
    requires ParseSortOption(option).Some?
    ensures |Trim(option)| > 0
  {
    TrimEmptyIff(option);
    assert |option| > 0 && LowerChar(option[0]) in "nctsh";
    assert !TrimmedAway(option[0]);
  }

  /** Sorting returns the same courses, and a known option always sorts. */
  lemma SortCoursesPermutes(courses: seq<Course>, option: Option<string>)
    ensures multiset(SortCourses(courses, option)) == multiset(courses)
    ensures option.Some? && ParseSortOption(option.value).Some? ==>
              ChosenField(option) == ParseSortOption(option.value)
  {
    if option.Some? && ParseSortOption(option.value).Some? {
      KnownOptionIsNotBlank(option.value);
    }
    if ChosenField(option).Some? {
      SortByCorrect(courses, KeyOf(ChosenField(option).value));
    }
  }

  /** A chosen field's sort puts the courses in that key's order and keeps courses of
      equal key in their original order. */
  lemma SortCoursesOrders(courses: seq<Course>, option: Option<string>, k: SortKey)
    requires ChosenField(option).Some?
    ensures var key := KeyOf(ChosenField(option).value);
            SortedBy(SortCourses(courses, option), key) &&
            Filter(SortCourses(courses, option), HasKey(key, k)) == Filter(courses, HasKey(key, k))
  {
    var key := KeyOf(ChosenField(option).value);
    SortByCorrect(courses, key);
    SortByStable(courses, key, k);
  }

  // ---------------------------------------------------------------------------
  // Views and the whole screen.
  // ---------------------------------------------------------------------------

  /** A row of the course list screen (CourseView). */
  datatype CourseView = CourseView(courseCode: string, courseName: string, teacherName: string,
                                   schedule: Option<string>, totalCourses: int)

  /** The view of one course: "N/A" for a course without a teacher. */
  function ViewOf(c: Course, total: int): CourseView {
    CourseView(c.code, c.name, if c.teacher.Some? then c.teacher.value.fullName else "N/A", c.schedule, total)
  }

  /** convertToViews: one view per course, in list order, each carrying the list size. */
  function ConvertToViews(courses: seq<Course>): (views: seq<CourseView>)
    ensures |views| == |courses|
    ensures forall i :: 0 <= i < |courses| ==> views[i] == ViewOf(courses[i], |courses|)
  {
    seq(|courses|, i requires 0 <= i < |courses| => ViewOf(courses[i], |courses|))
  }

  /** getStudentCourses: the enrolled courses (None when the student does not exist,
      where the source throws) are filtered, then sorted, then turned into views. */
  function GetStudentCourses(enrolled: Option<seq<Course>>, keyword: Option<string>,
                             option: Option<string>): (r: Option<seq<CourseView>>)
    ensures r.None? <==> enrolled.None?
  {
    match enrolled
    case None => None
    case Some(courses) => Some(ConvertToViews(SortCourses(FilterCourses(courses, keyword), option)))
  }

  /** The screen shows exactly one row per enrolled course that the keyword finds (every
      enrolled course for a blank keyword), each row stating how many rows there are. */
  lemma StudentCoursesRows(courses: seq<Course>, keyword: Option<string>, option: Option<string>)
    ensures var views := GetStudentCourses(Some(courses), keyword, option).value;
            ViewsOf(views, FilterCourses(courses, keyword))
  {
    var shown := FilterCourses(courses, keyword);
    SortCoursesPermutes(shown, option);
    ViewsOfReordered(shown, SortCourses(shown, option));
  }

  /** The rows follow the sorted list: row i is the view of its i-th course. That list
      holds the courses the keyword finds; for a known option it is ordered by the
      chosen key and keeps courses of equal key in their filtered order, and otherwise
      it is the filtered list itself. */
  lemma StudentCoursesOrdered(courses: seq<Course>, keyword: Option<string>, option: Option<string>, k: SortKey)
    ensures var shown := FilterCourses(courses, keyword);
            var sorted := SortCourses(shown, option);
            var views := GetStudentCourses(Some(courses), keyword, option).value;
            |views| == |sorted| &&
            (forall i :: 0 <= i < |sorted| ==> views[i] == ViewOf(sorted[i], |sorted|)) &&
            multiset(sorted) == multiset(shown) &&
            (ChosenField(option).None? ==> sorted == shown) &&
            (ChosenField(option).Some? ==>
               var key := KeyOf(ChosenField(option).value);
               SortedBy(sorted, key) && Filter(sorted, HasKey(key, k)) == Filter(shown, HasKey(key, k)))
  {
    var shown := FilterCourses(courses, keyword);
    SortCoursesPermutes(shown, option);
    if ChosenField(option).Some? {
      SortCoursesOrders(shown, option, k);
    }
  }

  /** `views` holds one row per course of `shown`, in some order, each carrying the
      number of rows. */
  ghost predicate ViewsOf(views: seq<CourseView>, shown: seq<Course>) {
    |views| == |shown| &&
    (forall i :: 0 <= i < |views| ==> views[i].totalCourses == |views|) &&
    (forall i :: 0 <= i < |views| ==> views[i] in ConvertToViews(shown)) &&
    (forall j :: 0 <= j < |shown| ==> ConvertToViews(shown)[j] in views)
  }

  lemma ViewsOfReordered(shown: seq<Course>, sorted: seq<Course>)
    requires multiset(sorted) == multiset(shown)
    ensures ViewsOf(ConvertToViews(sorted), shown)
  {
    SameRows(shown, sorted);
    var views, expected := ConvertToViews(sorted), ConvertToViews(shown);
    forall i | 0 <= i < |views|
      ensures views[i] in expected
    {
      var j :| 0 <= j < |shown| && shown[j] == sorted[i];
      assert views[i] == expected[j];
    }
    forall j | 0 <= j < |shown|
      ensures expected[j] in views
    {
      var i :| 0 <= i < |sorted| && sorted[i] == shown[j];
      assert views[i] == expected[j];
    }
  }

  /** Two lists with the same multiset have the same length and the same members. */
  lemma SameRows<T>(a: seq<T>, b: seq<T>)
    requires multiset(a) == multiset(b)
    ensures |a| == |b|
    ensures forall i :: 0 <= i < |b| ==> exists j :: 0 <= j < |a| && a[j] == b[i]
    ensures forall j :: 0 <= j < |a| ==> exists i :: 0 <= i < |b| && b[i] == a[j]
  {
    assert |multiset(a)| == |multiset(b)|;
    forall i | 0 <= i < |b|
      ensures exists j :: 0 <= j < |a| && a[j] == b[i]
    {
      assert b[i] in multiset(a);
    }
    forall j | 0 <= j < |a|
      ensures exists i :: 0 <= i < |b| && b[i] == a[j]
    {
      assert a[j] in multiset(b);
    }
  }
}
