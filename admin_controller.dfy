/** AdminController: the handlers of the admin screens that change enrollments,
    courses and teachers, or compute the lists the add-course and add-student pages
    offer. Redirects are modelled by the state the handler leaves behind. */
module AdminController {
  import opened Wrappers
  import opened Seqs
  import opened Tables
  import opened Entities
  import opened Store
  import EnrollmentService

  // ---------------------------------------------------------------------------
  // Offering the courses a student is not enrolled in, and the students a course
  // does not have.
  // ---------------------------------------------------------------------------

  /** The courses that are not in the student's course list (List.contains, which
      compares courses by value). */
  function NotEnrolled(enrolled: seq<Course>): Course -> bool {
    (c: Course) => c !in enrolled
  }

  /** The students whose id is not among the course's student ids. */
  function NotListed(ids: seq<int>): Student -> bool {
    (s: Student) => s.id !in ids
  }

  /** The students whose id is `id` (List.remove(Object), students compared by id). */
  function HasId(id: int): Student -> bool {
    (s: Student) => s.id == id
  }

  /** The loop of addCourseToStudent: walks the list of all courses, removing at
      index i each course the student has and staying at i (`remove(i); i--`). */
  method OfferCourses(all: seq<Course>, enrolled: seq<Course>) returns (offered: seq<Course>)
    ensures offered == Filter(all, NotEnrolled(enrolled))
  {
    offered := all;
    var i := 0;
    ghost var j := 0;
    while i < |offered|
      invariant 0 <= i <= |offered| && 0 <= j <= |all|
      invariant offered[..i] == Filter(all[..j], NotEnrolled(enrolled))
      invariant offered[i..] == all[j..]
      decreases |offered| - i
    {
      assert offered[i] == all[j] by {
        assert offered[i..][0] == all[j..][0];
      }
      FilterSnoc(all[..j], all[j], NotEnrolled(enrolled));
      assert all[..j + 1] == all[..j] + [all[j]];
      if offered[i] in enrolled {
        DropAt(offered, i, all, j);
        offered := offered[..i] + offered[i + 1..];
      } else {
        KeepAt(offered, i, all, j);
        i := i + 1;
      }
      j := j + 1;
    }
    assert all[..j] == all;
  }

  /** The loop of addStudentToCourse: walks the list of all students, removing each
      student the course has (`students.remove(students.get(i)); i--`). */
  method OfferStudents(all: seq<Student>, listed: seq<int>) returns (offered: seq<Student>)
    ensures offered == Filter(all, NotListed(listed))
  {
    offered := all;
    var i := 0;
    ghost var j := 0;
    while i < |offered|
      invariant 0 <= i <= |offered| && 0 <= j <= |all|
      invariant offered[..i] == Filter(all[..j], NotListed(listed))
      invariant offered[i..] == all[j..]
      invariant forall k :: 0 <= k < i ==> offered[k].id !in listed
      decreases |offered| - i
    {
      assert offered[i] == all[j] by {
        assert offered[i..][0] == all[j..][0];
      }
      FilterSnoc(all[..j], all[j], NotListed(listed));
      assert all[..j + 1] == all[..j] + [all[j]];
      if offered[i].id in listed {
        RemoveListed(offered, i, listed);
        DropAt(offered, i, all, j);
        offered := RemoveFirst(offered, HasId(offered[i].id));
      } else {
        KeepAt(offered, i, all, j);
        i := i + 1;
      }
      j := j + 1;
    }
    assert all[..j] == all;
  }

  /** The walk's bookkeeping when the element at i is removed: the part before i
      stays, and the part from i on is what is left of the full list after j. */
  lemma DropAt<T>(s: seq<T>, i: nat, all: seq<T>, j: nat)
    requires i < |s| && j < |all| && s[i..] == all[j..]
    ensures (s[..i] + s[i + 1..])[..i] == s[..i]
    ensures (s[..i] + s[i + 1..])[i..] == all[j + 1..]
  {
    assert s[i + 1..] == s[i..][1..];
  }

  /** The walk's bookkeeping when the element at i is kept. */
  lemma KeepAt<T>(s: seq<T>, i: nat, all: seq<T>, j: nat)
    requires i < |s| && j < |all| && s[i..] == all[j..]
    ensures s[..i + 1] == s[..i] + [s[i]]
    ensures s[i + 1..] == all[j + 1..]
  {
    assert s[i + 1..] == s[i..][1..];
  }

  /** Removing by id the first listed student, when no earlier student is listed,
      removes that student. */
  lemma RemoveListed(s: seq<Student>, i: nat, listed: seq<int>)
    requires i < |s| && s[i].id in listed
    requires forall k :: 0 <= k < i ==> s[k].id !in listed
    ensures RemoveFirst(s, HasId(s[i].id)) == s[..i] + s[i + 1..]
  {
    assert FirstIndex(s, HasId(s[i].id)) == i;
  }

  /** A course is offered exactly when it is one of all the courses and the student
      does not have it; the offered courses keep the order of the full list. */
  lemma OfferedCourses(all: seq<Course>, enrolled: seq<Course>)
    ensures var r := Filter(all, NotEnrolled(enrolled));
            (forall i :: 0 <= i < |r| ==> r[i] in all && r[i] !in enrolled) &&
            (forall i :: 0 <= i < |all| && all[i] !in enrolled ==> all[i] in r) &&
            IsSubsequence(r, all)
  {
    FilterMembers(all, NotEnrolled(enrolled));
    FilterIsSubsequence(all, NotEnrolled(enrolled));
  }

  /** A student is offered exactly when it is one of all the students and the course
      does not list its id. */
  lemma OfferedStudents(all: seq<Student>, listed: seq<int>)
    ensures var r := Filter(all, NotListed(listed));
            (forall i :: 0 <= i < |r| ==> r[i] in all && r[i].id !in listed) &&
            (forall i :: 0 <= i < |all| && all[i].id !in listed ==> all[i] in r) &&
            IsSubsequence(r, all)
  {
    FilterMembers(all, NotListed(listed));
    FilterIsSubsequence(all, NotListed(listed));
  }

  /** With no course list on the student, every course is offered. */
  lemma NothingEnrolledOffersAll(all: seq<Course>)
    ensures Filter(all, NotEnrolled([])) == all
  {
    FilterAll(all, NotEnrolled([]));
  }

  /** addCourseToStudent: None when the student does not exist (the redirect);
      otherwise the courses of the course table the student's course list lacks, a
      missing list counting as empty. The student is loaded by findById, which gives
      it no course list, so every course is offered. */
  method AddCourseToStudent(db: Database, sid: int) returns (offered: Option<seq<Course>>)
    ensures offered.None? <==> Lookup(db.students, StudentKey, sid).None?
    ensures offered.Some? ==> offered.value == db.courses
  {
    var student := db.FindStudent(sid);
    if student.None? {
      return None;
    }
    var enrolled: seq<Course>;
    match student.value.courses {
      case None => enrolled := [];
      case Some(list) => enrolled := list;
    }
    var courses := OfferCourses(db.courses, enrolled);
    NothingEnrolledOffersAll(db.courses);
    offered := Some(courses);
  }

  /** addStudentToCourse: the students of the student table that course.getStudents()
      does not contain. The course is dereferenced only when there is a student to
      test, so a missing course fails only then. */
  method AddStudentToCourse(db: Database, cid: int) returns (offered: seq<Student>)
    requires |db.students| == 0 || Lookup(db.courses, CourseKey, cid).Some?
    ensures offered == Filter(db.students, NotListed(CourseStudentIds(db.enrollments, db.students, cid)))
  {
    offered := OfferStudents(db.students, CourseStudentIds(db.enrollments, db.students, cid));
  }

  // ---------------------------------------------------------------------------
  // Enrolling and unenrolling.
  // ---------------------------------------------------------------------------

  /** saveCourseToStudent: inserts a new enrollment of the pair, without checking for
      an existing one; the empty grade object it builds is not stored. */
  method SaveCourseToStudent(db: Database, sid: int, cid: int)
    requires db.Valid()
    modifies db`enrollments, db`nextId
    ensures db.Valid()
    ensures db.enrollments == old(db.enrollments) + [Enrollment(old(db.nextId), sid, cid, None)]
  {
    var _ := db.SaveEnrollment(Enrollment(0, sid, cid, Some(EmptyGrade)));
  }

  /** saveStudentToCourse: the same insert, with no grade object. */
  method SaveStudentToCourse(db: Database, sid: int, cid: int)
    requires db.Valid()
    modifies db`enrollments, db`nextId
    ensures db.Valid()
    ensures db.enrollments == old(db.enrollments) + [Enrollment(old(db.nextId), sid, cid, None)]
  {
    var _ := db.SaveEnrollment(Enrollment(0, sid, cid, None));
  }

  /** Enrolling adds one enrollment of the pair to those already there, and the pair
      then has an enrollment; enrollments of other pairs are untouched. */
  lemma EnrollAddsOne(es: seq<Enrollment>, e: Enrollment, sid: int, cid: int)
    ensures Count(es + [e], IsPair(e.studentId, e.courseId)) == Count(es, IsPair(e.studentId, e.courseId)) + 1
    ensures EnrollmentOf(es + [e], e.studentId, e.courseId).Some?
    ensures (sid, cid) != (e.studentId, e.courseId) ==>
              Filter(es + [e], IsPair(sid, cid)) == Filter(es, IsPair(sid, cid))
  {
    CountSnoc(es, e, IsPair(e.studentId, e.courseId));
    FilterSnoc(es, e, IsPair(sid, cid));
    assert IsPair(e.studentId, e.courseId)((es + [e])[|es|]);
  }

  /** The loop the unenroll and course-delete handlers share: every grade of the pair
      found by findByStudentIdAndCourseId is deleted by id. */
  method DeleteGradesOfPair(db: Database, sid: int, cid: int)
    requires db.Valid()
    modifies db`grades
    ensures db.Valid()
    ensures db.grades == Filter(old(db.grades), Not(GradeOfPair(sid, cid)))
  {
    ghost var g0 := db.grades;
    var list := GradesFor(db.grades, sid, cid);
    DeleteNone(g0, GradeKey, list);
    var i := 0;
    while i < |list|
      invariant 0 <= i <= |list|
      invariant db.Valid()
      invariant db.grades == Filter(g0, KeyNotIn(GradeKey, KeySet(list[..i], GradeKey)))
    {
      DeleteNext(g0, GradeKey, list, i);
      db.DeleteGrade(list[i].id);
      i := i + 1;
    }
    assert list[..i] == list;
    DeleteSelected(g0, GradeKey, db.nextId, GradeOfPair(sid, cid));
  }

  /** deleteCourseFromStudent: deletes the first enrollment of the pair and every
      grade of the pair. */
  method DeleteCourseFromStudent(db: Database, sid: int, cid: int)
    requires db.Valid()
    modifies db`enrollments, db`grades
    ensures db.Valid()
    ensures db.enrollments == RemoveFirst(old(db.enrollments), IsPair(sid, cid))
    ensures db.grades == Filter(old(db.grades), Not(GradeOfPair(sid, cid)))
  {
    EnrollmentService.DeleteByStudentAndCourseId(db, sid, cid);
    DeleteGradesOfPair(db, sid, cid);
  }

  /** deleteStudentFromCourse: the same two steps, reached from the course screen. */
  method DeleteStudentFromCourse(db: Database, cid: int, sid: int)
    requires db.Valid()
    modifies db`enrollments, db`grades
    ensures db.Valid()
    ensures db.enrollments == RemoveFirst(old(db.enrollments), IsPair(sid, cid))
    ensures db.grades == Filter(old(db.grades), Not(GradeOfPair(sid, cid)))
  {
    DeleteCourseFromStudent(db, sid, cid);
  }

  /** Unenrolling leaves the pair without grades and every other pair with exactly the
      grades and enrollments it had. */
  lemma UnenrollKeepsOthers(es: seq<Enrollment>, gs: seq<Grade>, sid: int, cid: int, sid': int, cid': int)
    requires (sid', cid') != (sid, cid)
    ensures GradesFor(Filter(gs, Not(GradeOfPair(sid, cid))), sid, cid) == []
    ensures GradesFor(Filter(gs, Not(GradeOfPair(sid, cid))), sid', cid') == GradesFor(gs, sid', cid')
    ensures Filter(RemoveFirst(es, IsPair(sid, cid)), IsPair(sid', cid')) == Filter(es, IsPair(sid', cid'))
  {
    var rest := Filter(gs, Not(GradeOfPair(sid, cid)));
    FilterMembers(gs, Not(GradeOfPair(sid, cid)));
    FilterNone(rest, GradeOfPair(sid, cid));
    FilterFilter(gs, Not(GradeOfPair(sid, cid)), GradeOfPair(sid', cid'), GradeOfPair(sid', cid'));
    RemoveFirstOther(es, IsPair(sid, cid), IsPair(sid', cid'));
  }

  /** Removing the first p-element does not change the q-elements when no element
      satisfies both. */
  lemma {:induction false} RemoveFirstOther<T>(s: seq<T>, p: T -> bool, q: T -> bool)
    requires forall i :: 0 <= i < |s| ==> !(p(s[i]) && q(s[i]))
    ensures Filter(RemoveFirst(s, p), q) == Filter(s, q)
  {
    if |s| != 0 {
      assert forall i :: 1 <= i < |s| ==> s[i] == s[1..][i - 1];
      RemoveFirstOther(s[1..], p, q);
      assert s == [s[0]] + s[1..];
      RemoveFirstCons(s[0], s[1..], p);
      FilterCons(s[0], s[1..], q);
      if !p(s[0]) {
        FilterCons(s[0], RemoveFirst(s[1..], p), q);
      }
    }
  }

  // ---------------------------------------------------------------------------
  // Deleting a teacher.
  // ---------------------------------------------------------------------------

  /** The course table after the teacher's courses are saved without a teacher. */
  function DetachTeacher(cs: seq<Course>, tid: int): (r: seq<Course>)
    ensures |r| == |cs|
  {
    seq(|cs|, j requires 0 <= j < |cs| => if TaughtBy(tid)(cs[j]) then cs[j].(teacher := None) else cs[j])
  }

  /** The course table after the courses with an id in `ids` are saved without a
      teacher (the state part-way through the loop of deleteTeacher). */
  function DetachIds(cs: seq<Course>, ids: set<int>): (r: seq<Course>)
    ensures |r| == |cs|
  {
    seq(|cs|, j requires 0 <= j < |cs| => if cs[j].id in ids then cs[j].(teacher := None) else cs[j])
  }

  /** After the detach, no course names the teacher; every course keeps its id and
      every other field, and a course the teacher did not teach is unchanged. */
  lemma DetachTeacherEffect(cs: seq<Course>, tid: int)
    ensures var r := DetachTeacher(cs, tid);
            (forall j :: 0 <= j < |r| ==> !TaughtBy(tid)(r[j])) &&
            (forall j :: 0 <= j < |r| ==> r[j].(teacher := cs[j].teacher) == cs[j]) &&
            (forall j :: 0 <= j < |r| && !TaughtBy(tid)(cs[j]) ==> r[j] == cs[j]) &&
            OwnedCourses(r, tid) == []
  {
    var r := DetachTeacher(cs, tid);
    forall j | 0 <= j < |r|
      ensures !TaughtBy(tid)(r[j])
    {
      if TaughtBy(tid)(cs[j]) {
        assert r[j].teacher == None;
      } else {
        assert r[j] == cs[j];
      }
    }
    FilterNone(r, TaughtBy(tid));
  }

  /** One step of the loop: saving the next owned course without a teacher. */
  lemma DetachStep(c0: seq<Course>, tid: int, next: int, i: int)
    requires KeysOk(c0, CourseKey, next)
    requires 0 <= i < |OwnedCourses(c0, tid)|
    ensures var owned := OwnedCourses(c0, tid);
            Replace(DetachIds(c0, KeySet(owned[..i], CourseKey)), CourseKey, owned[i].(teacher := None)) ==
            DetachIds(c0, KeySet(owned[..i + 1], CourseKey))
  {
    var owned := OwnedCourses(c0, tid);
    var x := owned[i];
    FilterMembers(c0, TaughtBy(tid));
    assert x in c0;
    var m :| 0 <= m < |c0| && c0[m] == x;
    KeySetSnoc(owned, CourseKey, i);
    var before := DetachIds(c0, KeySet(owned[..i], CourseKey));
    var lhs := Replace(before, CourseKey, x.(teacher := None));
    var rhs := DetachIds(c0, KeySet(owned[..i + 1], CourseKey));
    forall j | 0 <= j < |c0|
      ensures lhs[j] == rhs[j]
    {
      if c0[j].id == x.id {
        assert j == m;
      }
    }
  }

  /** At the end of the loop, the detached ids are exactly the courses of the teacher. */
  lemma DetachDone(c0: seq<Course>, tid: int, next: int)
    requires KeysOk(c0, CourseKey, next)
    ensures DetachIds(c0, KeySet(OwnedCourses(c0, tid), CourseKey)) == DetachTeacher(c0, tid)
  {
    var owned := OwnedCourses(c0, tid);
    FilterMembers(c0, TaughtBy(tid));
    forall j | 0 <= j < |c0|
      ensures c0[j].id in KeySet(owned, CourseKey) <==> TaughtBy(tid)(c0[j])
    {
      if TaughtBy(tid)(c0[j]) {
        var m :| 0 <= m < |owned| && owned[m] == c0[j];
        assert CourseKey(owned[m]) in KeySet(owned, CourseKey);
      }
      if c0[j].id in KeySet(owned, CourseKey) {
        var m :| 0 <= m < |owned| && CourseKey(owned[m]) == c0[j].id;
        assert owned[m] in c0;
        var n :| 0 <= n < |c0| && c0[n] == owned[m];
        assert n == j;
      }
    }
  }

  /** deleteTeacher: nothing happens for a missing teacher; otherwise each course the
      teacher teaches is saved without a teacher, then the teacher is deleted. */
  method DeleteTeacher(db: Database, tid: int)
    requires db.Valid()
    modifies db`courses, db`teachers, db`nextId
    ensures db.Valid()
    ensures db.nextId == old(db.nextId)
    ensures old(db.FindTeacher(tid)).None? ==> db.courses == old(db.courses) && db.teachers == old(db.teachers)
    ensures old(db.FindTeacher(tid)).Some? ==>
              db.courses == DetachTeacher(old(db.courses), tid) &&
              db.teachers == Without(old(db.teachers), TeacherKey, tid)
  {
    var teacher := db.FindTeacher(tid);
    if teacher.None? {
      return;
    }
    ghost var c0 := db.courses;
    var courses := teacher.value.courses;
    assert courses == Some(OwnedCourses(c0, tid));
    if courses.None? || |courses.value| == 0 {
      CountZero(c0, TaughtBy(tid));
      assert DetachTeacher(c0, tid) == c0;
      db.DeleteTeacher(tid);
    } else {
      var list := courses.value;
      FilterMembers(c0, TaughtBy(tid));
      assert DetachIds(c0, KeySet(list[..0], CourseKey)) == c0;
      var i := 0;
      while i < |list|
        invariant 0 <= i <= |list|
        invariant db.Valid() && db.nextId == old(db.nextId)
        invariant KeysOk(c0, CourseKey, db.nextId)
        invariant db.courses == DetachIds(c0, KeySet(list[..i], CourseKey))
        invariant db.teachers == old(db.teachers)
      {
        assert list[i] in c0;
        DetachStep(c0, tid, db.nextId, i);
        var _ := db.SaveCourse(list[i].(teacher := None));
        i := i + 1;
      }
      assert list[..i] == list;
      DetachDone(c0, tid, db.nextId);
      db.DeleteTeacher(tid);
    }
  }

  // ---------------------------------------------------------------------------
  // Deleting a course.
  // ---------------------------------------------------------------------------

  /** The grade rows in course `cid` of a student whose id is in `sids`. */
  function GradeOfAny(sids: set<int>, cid: int): Grade -> bool {
    (g: Grade) => g.studentId in sids && g.courseId == cid
  }

  /** The enrollment table after deleteByStudentAndCourseId(sid, cid) for each sid
      of `sids` in turn. */
  function RemovePairs(es: seq<Enrollment>, sids: seq<int>, cid: int): seq<Enrollment> {
    if |sids| == 0 then es else RemovePairs(RemoveFirst(es, IsPair(sids[0], cid)), sids[1..], cid)
  }

  lemma {:induction false} RemovePairsSnoc(es: seq<Enrollment>, sids: seq<int>, sid: int, cid: int)
    ensures RemovePairs(es, sids + [sid], cid) == RemoveFirst(RemovePairs(es, sids, cid), IsPair(sid, cid))
  {
    if |sids| == 0 {
      assert RemovePairs(es, [sid], cid) == RemovePairs(RemoveFirst(es, IsPair(sid, cid)), [], cid);
    } else {
      assert (sids + [sid])[0] == sids[0] && (sids + [sid])[1..] == sids[1..] + [sid];
      RemovePairsSnoc(RemoveFirst(es, IsPair(sids[0], cid)), sids[1..], sid, cid);
    }
  }

  /** Removing pairs whose student is not that of row x leaves x in front. */
  lemma {:induction false} RemovePairsCons(x: Enrollment, es: seq<Enrollment>, sids: seq<int>, cid: int)
    requires forall k :: 0 <= k < |sids| ==> !IsPair(sids[k], cid)(x)
    ensures RemovePairs([x] + es, sids, cid) == [x] + RemovePairs(es, sids, cid)
  {
    if |sids| != 0 {
      RemoveFirstCons(x, es, IsPair(sids[0], cid));
      RemovePairsCons(x, RemoveFirst(es, IsPair(sids[0], cid)), sids[1..], cid);
    }
  }

  /** Removing, for each enrollment of the course's roster in turn, the first
      enrollment of that student in the course removes exactly the roster. */
  lemma {:induction false} RemoveRoster(es: seq<Enrollment>, known: set<int>, cid: int)
    ensures RemovePairs(es, StudentIds(Filter(es, EnrolledKnown(cid, known))), cid) ==
            Filter(es, Not(EnrolledKnown(cid, known)))
  {
    var p := EnrolledKnown(cid, known);
    if |es| != 0 {
      var x, t := es[0], es[1..];
      assert es == [x] + t;
      RemoveRoster(t, known, cid);
      var ft := Filter(t, p);
      if p(x) {
        assert Filter(es, p) == [x] + ft;
        assert StudentIds([x] + ft) == [x.studentId] + StudentIds(ft);
        RemoveFirstCons(x, t, IsPair(x.studentId, cid));
      } else {
        assert Filter(es, p) == ft;
        FilterMembers(t, p);
        forall k | 0 <= k < |StudentIds(ft)|
          ensures !IsPair(StudentIds(ft)[k], cid)(x)
        {
          assert ft[k] in t && p(ft[k]);
        }
        RemovePairsCons(x, t, StudentIds(ft), cid);
      }
    }
  }

  lemma GradesStep(gs: seq<Grade>, sids: seq<int>, cid: int, i: int)
    requires 0 <= i < |sids|
    ensures Filter(Filter(gs, Not(GradeOfAny(IdSet(sids[..i]), cid))), Not(GradeOfPair(sids[i], cid))) ==
            Filter(gs, Not(GradeOfAny(IdSet(sids[..i + 1]), cid)))
  {
    assert sids[..i + 1] == sids[..i] + [sids[i]];
    assert IdSet(sids[..i + 1]) == IdSet(sids[..i]) + {sids[i]};
    FilterFilter(gs, Not(GradeOfAny(IdSet(sids[..i]), cid)), Not(GradeOfPair(sids[i], cid)),
                 Not(GradeOfAny(IdSet(sids[..i + 1]), cid)));
  }

  /** The loop of deleteCourse: unenrolls each student of the list from the course
      and deletes the grades of the pair. */
  method DeletePairs(db: Database, students: seq<int>, cid: int)
    requires db.Valid()
    modifies db`enrollments, db`grades
    ensures db.Valid()
    ensures db.enrollments == RemovePairs(old(db.enrollments), students, cid)
    ensures db.grades == Filter(old(db.grades), Not(GradeOfAny(IdSet(students), cid)))
  {
    ghost var e0, g0 := db.enrollments, db.grades;
    assert IdSet(students[..0]) == {};
    FilterAll(g0, Not(GradeOfAny({}, cid)));
    var i := 0;
    while i < |students|
      invariant 0 <= i <= |students|
      invariant db.Valid()
      invariant db.enrollments == RemovePairs(e0, students[..i], cid)
      invariant db.grades == Filter(g0, Not(GradeOfAny(IdSet(students[..i]), cid)))
    {
      assert students[..i + 1] == students[..i] + [students[i]];
      RemovePairsSnoc(e0, students[..i], students[i], cid);
      GradesStep(g0, students, cid, i);
      DeleteCourseFromStudent(db, students[i], cid);
      i := i + 1;
    }
    assert students[..i] == students;
  }

  /** deleteCourse: for each student of course.getStudents(), deletes the first
      enrollment of the student in the course and every grade of the pair; then deletes
      the course. A missing course is dereferenced before any change. */
  method DeleteCourse(db: Database, cid: int)
    requires db.Valid()
    requires Lookup(db.courses, CourseKey, cid).Some?
    modifies db`enrollments, db`grades, db`courses
    ensures db.Valid()
    ensures db.enrollments == Filter(old(db.enrollments), Not(EnrolledKnown(cid, KeySet(old(db.students), StudentKey))))
    ensures db.grades == Filter(old(db.grades), Not(GradeOfAny(IdSet(CourseStudentIds(old(db.enrollments), old(db.students), cid)), cid)))
    ensures db.courses == Without(old(db.courses), CourseKey, cid)
  {
    RemoveRoster(db.enrollments, KeySet(db.students, StudentKey), cid);
    var students := CourseStudentIds(db.enrollments, db.students, cid);
    DeletePairs(db, students, cid);
    db.DeleteCourse(cid);
  }

  /** After deleteCourse, no existing student has an enrollment or a grade in the
      course, and enrollments and grades of other courses are unchanged. */
  lemma DeleteCourseEffect(es: seq<Enrollment>, gs: seq<Grade>, ss: seq<Student>, cid: int, sid: int, other: int)
    requires sid in KeySet(ss, StudentKey) && EnrollmentOf(es, sid, cid).Some?
    requires other != cid
    ensures var es' := Filter(es, Not(EnrolledKnown(cid, KeySet(ss, StudentKey))));
            EnrollmentOf(es', sid, cid).None? &&
            Filter(es', IsPair(sid, other)) == Filter(es, IsPair(sid, other))
    ensures var gs' := Filter(gs, Not(GradeOfAny(IdSet(CourseStudentIds(es, ss, cid)), cid)));
            GradesFor(gs', sid, cid) == [] &&
            GradesFor(gs', sid, other) == GradesFor(gs, sid, other)
  {
    var known := KeySet(ss, StudentKey);
    var p := EnrolledKnown(cid, known);
    var es' := Filter(es, Not(p));
    FilterMembers(es, Not(p));
    FilterFilter(es, Not(p), IsPair(sid, other), IsPair(sid, other));
    var roster := CourseRoster(es, ss, cid);
    var e :| e in es && IsPair(sid, cid)(e);
    FilterMembers(es, p);
    assert e in roster;
    var k :| 0 <= k < |roster| && roster[k] == e;
    assert CourseStudentIds(es, ss, cid)[k] == sid;
    var ids := IdSet(CourseStudentIds(es, ss, cid));
    var gs' := Filter(gs, Not(GradeOfAny(ids, cid)));
    FilterMembers(gs, Not(GradeOfAny(ids, cid)));
    FilterNone(gs', GradeOfPair(sid, cid));
    FilterFilter(gs, Not(GradeOfAny(ids, cid)), GradeOfPair(sid, other), GradeOfPair(sid, other));
  }
}
