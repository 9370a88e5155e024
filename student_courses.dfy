/** The course list methods of the Student entity: the courses of its active
    enrollments, filtered by a keyword or sorted by name or code. */
module StudentCourses {
  import opened Wrappers
  import opened Seqs
  import opened Text
  import opened Sorting
  import opened Entities
  import CourseService

  /** An enrollment as the Student entity holds it: the course and a status text
      (ACTIVE, COMPLETED, DROPPED, or null). */
  datatype StudentEnrollment = StudentEnrollment(course: Course, status: Option<string>)

  /** The enrollments whose status is exactly "ACTIVE" ("ACTIVE".equals(status)). */
  function IsActive(): StudentEnrollment -> bool {
    (e: StudentEnrollment) => e.status == Some("ACTIVE")
  }

  /** The course of each enrollment, in order. */
  function CoursesOf(es: seq<StudentEnrollment>): (r: seq<Course>)
    ensures |r| == |es|
    ensures forall i :: 0 <= i < |es| ==> r[i] == es[i].course
  {
    seq(|es|, i requires 0 <= i < |es| => es[i].course)
  }

  /** viewMyCourses: the courses of the active enrollments, in enrollment order. */
  function ViewMyCourses(es: seq<StudentEnrollment>): (r: seq<Course>)
    ensures |r| == Count(es, IsActive())
  {
    CoursesOf(Filter(es, IsActive()))
  }

  /** Every listed course is the course of an active enrollment, and the course of every
      active enrollment is listed. */
  lemma ViewMyCoursesActive(es: seq<StudentEnrollment>)
    ensures forall c :: c in ViewMyCourses(es) ==>
              exists k :: 0 <= k < |es| && es[k].status == Some("ACTIVE") && es[k].course == c
    ensures forall k :: 0 <= k < |es| && es[k].status == Some("ACTIVE") ==> es[k].course in ViewMyCourses(es)
  {
    var active := Filter(es, IsActive());
    var r := ViewMyCourses(es);
    FilterMembers(es, IsActive());
    forall c | c in r
      ensures exists k :: 0 <= k < |es| && es[k].status == Some("ACTIVE") && es[k].course == c
    {
      var i :| 0 <= i < |r| && r[i] == c;
      assert active[i] in es && IsActive()(active[i]);
      var k :| 0 <= k < |es| && es[k] == active[i];
      assert es[k].status == Some("ACTIVE") && es[k].course == c;
    }
    forall k | 0 <= k < |es| && es[k].status == Some("ACTIVE")
      ensures es[k].course in r
    {
      assert IsActive()(es[k]);
      var i :| 0 <= i < |active| && active[i] == es[k];
      assert r[i] == es[k].course;
    }
  }

  /** The courses the lower-cased keyword `kw` finds by name or code. */
  function NameOrCode(kw: string): Course -> bool {
    (c: Course) => Contains(Lower(c.name), kw) || Contains(Lower(c.code), kw)
  }

  /** filterCourses: the active courses whose lower-cased name or code contains the
      lower-cased keyword (not trimmed). */
  function FilterCourses(es: seq<StudentEnrollment>, keyword: string): (r: seq<Course>)
    ensures |r| <= |ViewMyCourses(es)|
  {
    Filter(ViewMyCourses(es), NameOrCode(Lower(keyword)))
  }

  /** A course is kept exactly when it is an active course the keyword finds, in the
      order of the active courses; an empty keyword keeps every active course. */
  lemma FilterCoursesKeeps(es: seq<StudentEnrollment>, keyword: string)
    ensures var all, r := ViewMyCourses(es), FilterCourses(es, keyword);
            (forall i :: 0 <= i < |r| ==> r[i] in all && NameOrCode(Lower(keyword))(r[i])) &&
            (forall i :: 0 <= i < |all| && NameOrCode(Lower(keyword))(all[i]) ==> all[i] in r) &&
            IsSubsequence(r, all) &&
            (keyword == "" ==> r == all)
  {
    var all := ViewMyCourses(es);
    FilterMembers(all, NameOrCode(Lower(keyword)));
    FilterIsSubsequence(all, NameOrCode(Lower(keyword)));
    if keyword == "" {
      forall i | 0 <= i < |all|
        ensures NameOrCode(Lower(keyword))(all[i])
      {
        ContainsEmpty(Lower(all[i].name));
      }
      FilterAll(all, NameOrCode(Lower(keyword)));
    }
  }

  /** The field sortCourses sorts by: "name" or "code", compared ignoring case; none for
      any other option, including null. */
  function SortFieldOf(option: Option<string>): (r: Option<CourseService.SortField>)
    ensures r.Some? ==> r.value == CourseService.ByName || r.value == CourseService.ByCode
  {
    if option.Some? && EqualsIgnoreCase("name", option.value) then Some(CourseService.ByName)
    else if option.Some? && EqualsIgnoreCase("code", option.value) then Some(CourseService.ByCode)
    else None
  }

  /** sortCourses: the active courses sorted by name or by code; unsorted otherwise. */
  function SortCourses(es: seq<StudentEnrollment>, option: Option<string>): (r: seq<Course>)
    ensures SortFieldOf(option).None? ==> r == ViewMyCourses(es)
  {
    match SortFieldOf(option)
    case None => ViewMyCourses(es)
    case Some(f) => SortBy(ViewMyCourses(es), CourseService.KeyOf(f))
  }

  /** Sorting returns the active courses, in the order of the chosen key, with courses of
      equal key in their original order. */
  lemma SortCoursesSorts(es: seq<StudentEnrollment>, option: Option<string>, k: SortKey)
    ensures multiset(SortCourses(es, option)) == multiset(ViewMyCourses(es))
    ensures SortFieldOf(option).Some? ==>
              var key := CourseService.KeyOf(SortFieldOf(option).value);
              SortedBy(SortCourses(es, option), key) &&
              Filter(SortCourses(es, option), HasKey(key, k)) == Filter(ViewMyCourses(es), HasKey(key, k))
  {
    if SortFieldOf(option).Some? {
      var key := CourseService.KeyOf(SortFieldOf(option).value);
      SortByCorrect(ViewMyCourses(es), key);
      SortByStable(ViewMyCourses(es), key, k);
    }
  }

  /** The option is matched ignoring case: "NAME" and "Name" sort by name. */
  lemma SortOptionIgnoresCase()
    ensures SortFieldOf(Some("NAME")) == Some(CourseService.ByName)
    ensures SortFieldOf(Some("Code")) == Some(CourseService.ByCode)
    ensures SortFieldOf(Some("teacher")).None? && SortFieldOf(None).None?
  {
    assert Lower("NAME") == "name";
    assert Lower("Code") == "code";
    assert Lower("teacher") != Lower("name") by {
      assert Lower("teacher")[0] == 't';
    }
    assert Lower("teacher") != Lower("code") by {
      assert Lower("teacher")[0] == 't';
    }
  }
}
