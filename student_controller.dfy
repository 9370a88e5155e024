/** StudentController: the course and assignment screens of a student and marking an
    assignment as done. The current date is a parameter (`today`, a day number). */
module StudentController {
  import opened Wrappers
  import opened Seqs
  import opened Tables
  import opened Dates
  import opened Entities
  import opened Store
  import TeacherController
  import EnrollmentService

  // ---------------------------------------------------------------------------
  // Days remaining.
  // ---------------------------------------------------------------------------

  /** findDayDifference of this controller: the whole days from today to the due date,
      cast to int; 0 when the date is null and 0 when it does not parse. */
  function DayDifference(due: DueDate, today: int): (r: int)
    ensures INT_MIN <= r <= INT_MAX
    ensures !due.OnDay? ==> r == 0
    ensures due.OnDay? && INT_MIN <= due.day - today <= INT_MAX ==> r == DaysBetween(today, due.day)
  {
    match due
    case OnDay(d) => ToJavaInt(DaysBetween(today, d))
    case _ => 0
  }

  /** For a date within the int range of today, the figure is negative exactly when the
      assignment is overdue and 0 exactly when it is due today or has no usable date:
      a missing date cannot be told apart from a date due today. */
  lemma DayDifferenceSign(due: DueDate, today: int)
    requires due.OnDay? ==> INT_MIN <= due.day - today <= INT_MAX
    ensures DayDifference(due, today) < 0 <==> due.OnDay? && due.day < today
    ensures DayDifference(due, today) == 0 <==> !due.OnDay? || due.day == today
  {
  }

  /** The two controllers agree on every date that parses and fits in an int, and differ
      on every date that does not parse: 0 here, -1 on the teacher's screen. */
  lemma DayDifferencesCompared(due: DueDate, today: int)
    ensures due.OnDay? ==> DayDifference(due, today) == TeacherController.DayDifference(due, today)
    ensures !due.OnDay? ==> DayDifference(due, today) == 0 && TeacherController.DayDifference(due, today) == -1
  {
  }

  /** The loop of showStudentCourse: every assignment of the list gets its days remaining. */
  method SetDaysRemaining(assignments: seq<Assignment>, today: int) returns (list: seq<Assignment>)
    ensures |list| == |assignments|
    ensures forall k :: 0 <= k < |assignments| ==>
              list[k] == assignments[k].(daysRemaining := DayDifference(assignments[k].dueDate, today))
  {
    list := assignments;
    var i := 0;
    while i < |list|
      invariant 0 <= i <= |list| && |list| == |assignments|
      invariant forall k :: 0 <= k < i ==>
                  list[k] == assignments[k].(daysRemaining := DayDifference(assignments[k].dueDate, today))
      invariant forall k :: i <= k < |list| ==> list[k] == assignments[k]
    {
      list := list[i := list[i].(daysRemaining := DayDifference(list[i].dueDate, today))];
      i := i + 1;
    }
  }

  // ---------------------------------------------------------------------------
  // The course screen.
  // ---------------------------------------------------------------------------

  /** The grade of the course screen: the grade attached to the enrollment when there is
      one; otherwise the first stored grade of the pair; otherwise `new GradeDetails()`. */
  function CourseGrade(e: Option<Enrollment>, gs: seq<Grade>, sid: int, cid: int): Grade {
    if e.Some? && e.value.grade.Some? then e.value.grade.value
    else
      var stored := GradesFor(gs, sid, cid);
      if |stored| > 0 then stored[0] else EmptyGrade
  }

  /** Without an attached grade, the screen shows a stored grade of the pair, and shows
      the empty grade exactly when the pair has no stored grade. */
  lemma CourseGradeIs(e: Option<Enrollment>, gs: seq<Grade>, next: int, sid: int, cid: int)
    requires KeysOk(gs, GradeKey, next)
    ensures e.Some? && e.value.grade.Some? ==> CourseGrade(e, gs, sid, cid) == e.value.grade.value
    ensures !(e.Some? && e.value.grade.Some?) ==>
              (CourseGrade(e, gs, sid, cid) == EmptyGrade <==> GradesFor(gs, sid, cid) == [])
    ensures !(e.Some? && e.value.grade.Some?) && GradesFor(gs, sid, cid) != [] ==>
              CourseGrade(e, gs, sid, cid) in gs &&
              GradeOfPair(sid, cid)(CourseGrade(e, gs, sid, cid))
  {
    FilterMembers(gs, GradeOfPair(sid, cid));
    var stored := GradesFor(gs, sid, cid);
    if |stored| > 0 {
      assert stored[0] in gs;
      var m :| 0 <= m < |gs| && gs[m] == stored[0];
      assert stored[0].id > 0;
    }
  }

  /** showStudentCourse: the course's assignments with their days remaining, and the
      course grade. The student is dereferenced, so it must exist. The enrollment is
      loaded by findByStudentAndCourseId and so carries no grade object: the grade
      shown is the pair's first stored grade, or the empty grade when it has none. */
  method ShowStudentCourse(db: Database, sid: int, cid: int, today: int)
    returns (assignments: seq<Assignment>, grade: Grade)
    requires Lookup(db.students, StudentKey, sid).Some?
    ensures var own := Filter(db.assignments, TeacherController.OfCourse(cid));
            |assignments| == |own| &&
            forall k :: 0 <= k < |own| ==>
              assignments[k] == own[k].(daysRemaining := DayDifference(own[k].dueDate, today))
    ensures grade == CourseGrade(EnrollmentService.FindByStudentAndCourseId(db, sid, cid), db.grades, sid, cid)
    ensures First(db.grades, GradeOfPair(sid, cid)).None? ==> grade == EmptyGrade
    ensures First(db.grades, GradeOfPair(sid, cid)).Some? ==> grade == First(db.grades, GradeOfPair(sid, cid)).value
  {
    FirstIsFilterHead(db.grades, GradeOfPair(sid, cid));
    var enrollment := EnrollmentService.FindByStudentAndCourseId(db, sid, cid);
    assignments := SetDaysRemaining(Filter(db.assignments, TeacherController.OfCourse(cid)), today);
    var attached := if enrollment.Some? then enrollment.value.grade else None;
    match attached {
      case Some(g) =>
        grade := g;
      case None =>
        var allGrades := GradesFor(db.grades, sid, cid);
        if |allGrades| > 0 {
          grade := allGrades[0];
        } else {
          grade := EmptyGrade;
        }
    }
  }

  // ---------------------------------------------------------------------------
  // The assignment screen.
  // ---------------------------------------------------------------------------

  /** What showStudentAssignment displays. */
  datatype AssignmentPage = AssignmentPage(assignment: Assignment, completion: Completion,
                                           grade: Option<Grade>)

  /** The completion record shown: the stored record of the student's enrollment, or an
      unsaved record for the assignment with isDone 0. */
  function ShownCompletion(ds: seq<Completion>, e: Option<Enrollment>, aid: int): Completion {
    var found := if e.Some? then CompletionFor(ds, aid, e.value.id) else None;
    if found.Some? then found.value else Completion(0, aid, 0, 0)
  }

  /** The shown record always concerns the assignment; it is the stored record when one
      exists, and otherwise reads as not done. */
  lemma ShownCompletionIs(ds: seq<Completion>, e: Option<Enrollment>, aid: int)
    ensures ShownCompletion(ds, e, aid).assignmentId == aid
    ensures e.Some? && CompletionFor(ds, aid, e.value.id).Some? ==>
              ShownCompletion(ds, e, aid) == CompletionFor(ds, aid, e.value.id).value
    ensures e.None? || CompletionFor(ds, aid, e.value.id).None? ==> ShownCompletion(ds, e, aid).isDone == 0
  {
  }

  /** showStudentAssignment: nothing (a redirect) when the assignment does not exist;
      otherwise the assignment with its days remaining, the shown completion record, and
      the first grade of the pair whose assignment name is the assignment's title. The
      student is dereferenced before the comparison, so it must exist. */
  method ShowStudentAssignment(db: Database, sid: int, cid: int, aid: int, today: int)
    returns (page: Option<AssignmentPage>)
    requires Lookup(db.students, StudentKey, sid).Some?
    ensures var a := Lookup(db.assignments, AssignmentKey, aid);
            (page.None? <==> a.None?) &&
            (page.Some? ==> (page.value.assignment == a.value.(daysRemaining := DayDifference(a.value.dueDate, today)) &&
                             page.value.completion == ShownCompletion(db.completions, EnrollmentOf(db.enrollments, sid, cid), aid) &&
                             page.value.grade == First(GradesFor(db.grades, sid, cid), TeacherController.TitleIs(a.value.title))))
  {
    var enrollment := EnrollmentOf(db.enrollments, sid, cid);
    var assignment := Lookup(db.assignments, AssignmentKey, aid);
    if assignment.None? {
      return None;
    }
    var shown := assignment.value.(daysRemaining := DayDifference(assignment.value.dueDate, today));
    var details := None;
    if enrollment.Some? {
      details := CompletionFor(db.completions, aid, enrollment.value.id);
    }
    var completion := if details.Some? then details.value else Completion(0, aid, 0, 0);
    var grade := TeacherController.FindGradeForTitle(GradesFor(db.grades, sid, cid), assignment.value.title);
    page := Some(AssignmentPage(shown, completion, grade));
  }

  // ---------------------------------------------------------------------------
  // Marking an assignment as done.
  // ---------------------------------------------------------------------------

  /** The completion table and the id counter after markAsCompleted for enrollment `eid`:
      the first record of the (assignment, enrollment) pair, or a new unsaved one, gets
      isDone 1 and is saved. */
  function MarkCompleted(ds: seq<Completion>, next: int, aid: int, eid: int): (seq<Completion>, int) {
    var found := CompletionFor(ds, aid, eid);
    var d := (if found.Some? then found.value else Completion(0, aid, eid, 0)).(isDone := 1);
    if d.id == 0 then (ds + [d.(id := next)], next + 1)
    else (Replace(ds, CompletionKey, d), next)
  }

  /** Afterwards the pair's record exists with isDone 1, exactly one record was added
      when there was none, no record is added otherwise, every other position is
      unchanged, and the ids stay distinct. */
  lemma {:induction false} MarkCompletedDone(ds: seq<Completion>, next: int, aid: int, eid: int)
    requires KeysOk(ds, CompletionKey, next) && 0 < next
    ensures var (after, next') := MarkCompleted(ds, next, aid, eid);
            KeysOk(after, CompletionKey, next') &&
            CompletionFor(after, aid, eid).Some? && CompletionFor(after, aid, eid).value.isDone == 1 &&
            Count(after, CompletionOf(aid, eid)) ==
              (if Count(ds, CompletionOf(aid, eid)) == 0 then 1 else Count(ds, CompletionOf(aid, eid))) &&
            |after| == |ds| + (if CompletionFor(ds, aid, eid).None? then 1 else 0) &&
            forall i :: 0 <= i < |ds| && i != FirstIndex(ds, CompletionOf(aid, eid)) ==> after[i] == ds[i]
  {
    var p := CompletionOf(aid, eid);
    var found := CompletionFor(ds, aid, eid);
    var k := FirstIndex(ds, p);
    CountZero(ds, p);
    if found.Some? {
      var d := ds[k].(isDone := 1);
      assert d.id > 0;
      var after := Replace(ds, CompletionKey, d);
      KeysOkReplace(ds, CompletionKey, next, d);
      forall i | 0 <= i < |ds| && i != k
        ensures after[i] == ds[i]
      {
        assert CompletionKey(ds[i]) != CompletionKey(ds[k]);
      }
      assert after[k] == d;
      assert FirstIndex(after, p) == k by {
        FirstIndexAt(after, p, k);
      }
      ReplaceCount(ds, CompletionKey, d, p);
    } else {
      var d := Completion(next, aid, eid, 1);
      KeysOkInsert(ds, CompletionKey, next, d);
      FirstIndexAt(ds + [d], p, |ds|);
      CountSnoc(ds, d, p);
    }
  }

  /** The first match is at k when it matches and nothing before it does. */
  lemma {:induction false} FirstIndexAt<T>(s: seq<T>, p: T -> bool, k: int)
    requires 0 <= k < |s| && p(s[k])
    requires forall j :: 0 <= j < k ==> !p(s[j])
    ensures FirstIndex(s, p) == k
  {
    if k > 0 {
      assert forall j :: 0 <= j < k - 1 ==> s[1..][j] == s[j + 1];
      FirstIndexAt(s[1..], p, k - 1);
    }
  }

  /** Marking the same assignment done twice leaves the table and the counter as marking
      it once does. */
  lemma MarkCompletedIdempotent(ds: seq<Completion>, next: int, aid: int, eid: int)
    requires KeysOk(ds, CompletionKey, next) && 0 < next
    ensures var (after, next') := MarkCompleted(ds, next, aid, eid);
            MarkCompleted(after, next', aid, eid) == (after, next')
  {
    MarkCompletedDone(ds, next, aid, eid);
    var (after, next') := MarkCompleted(ds, next, aid, eid);
    var p := CompletionOf(aid, eid);
    var k := FirstIndex(after, p);
    var d := after[k];
    assert d.(isDone := 1) == d;
    assert d.id > 0;
    ReplaceSame(after, CompletionKey, next', k);
  }

  /** After the student marks the assignment done, the teacher's status screen shows the
      student's assignment as completed. */
  lemma MarkedIsCompleted(es: seq<Enrollment>, ds: seq<Completion>, next: int, aid: int, sid: int, cid: int)
    requires KeysOk(ds, CompletionKey, next) && 0 < next
    requires EnrollmentOf(es, sid, cid).Some?
    ensures TeacherController.Status(es, MarkCompleted(ds, next, aid, EnrollmentOf(es, sid, cid).value.id).0, aid, sid, cid)
            == TeacherController.Completed
  {
    MarkCompletedDone(ds, next, aid, EnrollmentOf(es, sid, cid).value.id);
  }

  /** After marking, the student's assignment screen shows the record as done. */
  lemma MarkedShowsDone(es: seq<Enrollment>, ds: seq<Completion>, next: int, aid: int, sid: int, cid: int)
    requires KeysOk(ds, CompletionKey, next) && 0 < next
    requires EnrollmentOf(es, sid, cid).Some?
    ensures ShownCompletion(MarkCompleted(ds, next, aid, EnrollmentOf(es, sid, cid).value.id).0,
                            EnrollmentOf(es, sid, cid), aid).isDone == 1
  {
    MarkCompletedDone(ds, next, aid, EnrollmentOf(es, sid, cid).value.id);
  }

  /** markAsCompleted: when the student is enrolled in the course, the (assignment,
      enrollment) record is created if missing, set to done and saved; otherwise nothing
      changes. */
  method MarkAsCompleted(db: Database, sid: int, cid: int, aid: int)
    requires db.Valid()
    modifies db`completions, db`nextId
    ensures db.Valid()
    ensures var e := EnrollmentOf(old(db.enrollments), sid, cid);
            (e.None? ==> db.completions == old(db.completions) && db.nextId == old(db.nextId)) &&
            (e.Some? ==> (db.completions, db.nextId) == MarkCompleted(old(db.completions), old(db.nextId), aid, e.value.id))
  {
    var enrollment := EnrollmentOf(db.enrollments, sid, cid);
    if enrollment.Some? {
      var details := CompletionFor(db.completions, aid, enrollment.value.id);
      var record := if details.Some? then details.value else Completion(0, aid, enrollment.value.id, 0);
      record := record.(isDone := 1);
      var saved := db.SaveCompletion(record);
    }
  }
}
