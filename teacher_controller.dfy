/** TeacherController: grading, creating and deleting assignments, the completion
    status screen, and the days-remaining figure of the course screen. The current
    date is a parameter: `today` as a day number, `todayText` as the text
    LocalDate.now().toString() gives. */
module TeacherController {
  import opened Wrappers
  import opened Seqs
  import opened Tables
  import opened Dates
  import opened Entities
  import opened Store
  import EnrollmentService

  // ---------------------------------------------------------------------------
  // Days remaining.
  // ---------------------------------------------------------------------------

  /** findDayDifference: the days from today to the due date, cast to int; -1 when the
      date is null or does not parse (the exception is caught). -1 is also the value
      for a date one day overdue, so the caller cannot tell the two apart. */
  function DayDifference(due: DueDate, today: int): (r: int)
    ensures INT_MIN <= r <= INT_MAX
    ensures due.OnDay? && INT_MIN <= due.day - today <= INT_MAX ==> r == DaysBetween(today, due.day)
    ensures r == -1 <==> !due.OnDay? || ToJavaInt(due.day - today) == -1
  {
    match due
    case OnDay(d) => ToJavaInt(DaysBetween(today, d))
    case _ => -1
  }

  /** The assignments of a course (assignmentService.findByCourseId). */
  function OfCourse(cid: int): Assignment -> bool {
    (a: Assignment) => a.courseId == cid
  }

  /** The loop of showTeacherCourseDetails over the course's assignments: each gets its
      days remaining; an empty list becomes null. */
  method WithDaysRemaining(assignments: seq<Assignment>, today: int) returns (r: Option<seq<Assignment>>)
    ensures r.None? <==> |assignments| == 0
    ensures r.Some? ==> (|r.value| == |assignments| &&
                         forall k :: 0 <= k < |assignments| ==>
                           r.value[k] == assignments[k].(daysRemaining := DayDifference(assignments[k].dueDate, today)))
  {
    if |assignments| == 0 {
      return None;
    }
    var list := assignments;
    var i := 0;
    while i < |list|
      invariant 0 <= i <= |list| && |list| == |assignments|
      invariant forall k :: 0 <= k < i ==>
                  list[k] == assignments[k].(daysRemaining := DayDifference(assignments[k].dueDate, today))
      invariant forall k :: i <= k < |list| ==> list[k] == assignments[k]
    {
      list := list[i := list[i].(daysRemaining := DayDifference(list[i].dueDate, today))];
      i := i + 1;
    }
    r := Some(list);
  }

  // ---------------------------------------------------------------------------
  // The grade list of the course screens.
  // ---------------------------------------------------------------------------

  /** The grade shown for a student without one: `new GradeDetails()` with the pair's
      ids, score 0 and maximum score 100. */
  function Placeholder(sid: int, cid: int): Grade {
    Grade(0, sid, cid, None, 0.0, 100.0, None, None, None, 0)
  }

  /** The first grade of the pair, or the placeholder. */
  function GradeOrPlaceholder(gs: seq<Grade>, sid: int, cid: int): Grade {
    var found := GradesFor(gs, sid, cid);
    if |found| > 0 then found[0] else Placeholder(sid, cid)
  }

  /** The shown grade belongs to the pair; it is a stored grade of the pair, or, exactly
      when the pair has none, the unsaved placeholder. */
  lemma GradeOrPlaceholderIs(gs: seq<Grade>, next: int, sid: int, cid: int)
    requires KeysOk(gs, GradeKey, next)
    ensures var g := GradeOrPlaceholder(gs, sid, cid);
            g.studentId == sid && g.courseId == cid &&
            (g == Placeholder(sid, cid) <==> GradesFor(gs, sid, cid) == []) &&
            (g != Placeholder(sid, cid) ==> g in gs)
  {
    FilterMembers(gs, GradeOfPair(sid, cid));
    var found := GradesFor(gs, sid, cid);
    if |found| > 0 {
      assert found[0] in gs;
      var m :| 0 <= m < |gs| && gs[m] == found[0];
      assert found[0].id > 0;
    }
  }

  /** The loop of showTeacherCourseDetails and editGradesForm: one grade per student of
      the course, in student order. */
  method PairGrades(gs: seq<Grade>, sids: seq<int>, cid: int) returns (list: seq<Grade>)
    ensures |list| == |sids|
    ensures forall k :: 0 <= k < |sids| ==> list[k] == GradeOrPlaceholder(gs, sids[k], cid)
  {
    list := [];
    var i := 0;
    while i < |sids|
      invariant 0 <= i <= |sids| && |list| == i
      invariant forall k :: 0 <= k < i ==> list[k] == GradeOrPlaceholder(gs, sids[k], cid)
    {
      var studentGrades := GradesFor(gs, sids[i], cid);
      if |studentGrades| > 0 {
        list := list + [studentGrades[0]];
      } else {
        list := list + [Placeholder(sids[i], cid)];
      }
      i := i + 1;
    }
  }

  /** showTeacherCourseDetails: the course's assignments with their days remaining
      (null when there are none) and, when the course has students, their grades. The
      teacher and the course are dereferenced, so both must exist. */
  method ShowTeacherCourseDetails(db: Database, tid: int, cid: int, today: int)
    returns (assignments: Option<seq<Assignment>>, grades: Option<seq<Grade>>)
    requires db.FindTeacher(tid).Some? && Lookup(db.courses, CourseKey, cid).Some?
    ensures var own := Filter(db.assignments, OfCourse(cid));
            (assignments.None? <==> |own| == 0) &&
            (assignments.Some? ==> (|assignments.value| == |own| &&
                                    forall k :: 0 <= k < |own| ==>
                                      assignments.value[k] == own[k].(daysRemaining := DayDifference(own[k].dueDate, today))))
    ensures var sids := CourseStudentIds(db.enrollments, db.students, cid);
            (grades.None? <==> |sids| == 0) &&
            (grades.Some? ==> (|grades.value| == |sids| &&
                               forall k :: 0 <= k < |sids| ==> grades.value[k] == GradeOrPlaceholder(db.grades, sids[k], cid)))
  {
    assignments := WithDaysRemaining(Filter(db.assignments, OfCourse(cid)), today);
    var students := CourseStudentIds(db.enrollments, db.students, cid);
    if |students| != 0 {
      var list := PairGrades(db.grades, students, cid);
      grades := Some(list);
    } else {
      grades := None;
    }
  }

  /** editGradesForm: the grade list for every student of the course. */
  method EditGradesForm(db: Database, tid: int, cid: int) returns (grades: seq<Grade>)
    requires db.FindTeacher(tid).Some? && Lookup(db.courses, CourseKey, cid).Some?
    ensures var sids := CourseStudentIds(db.enrollments, db.students, cid);
            |grades| == |sids| &&
            forall k :: 0 <= k < |sids| ==> grades[k] == GradeOrPlaceholder(db.grades, sids[k], cid)
  {
    grades := PairGrades(db.grades, CourseStudentIds(db.enrollments, db.students, cid), cid);
  }

  // ---------------------------------------------------------------------------
  // Grading an assignment.
  // ---------------------------------------------------------------------------

  /** The grades recorded for the assignment titled `title`. */
  function TitleIs(title: string): Grade -> bool {
    (g: Grade) => g.assignmentName == Some(title)
  }

  /** The grades of the pair recorded for the assignment titled `title`. */
  function GradeOfTitle(sid: int, cid: int, title: string): Grade -> bool {
    (g: Grade) => g.studentId == sid && g.courseId == cid && g.assignmentName == Some(title)
  }

  /** The search loop over the pair's grades: the first whose assignment name equals
      the title, or null. */
  method FindGradeForTitle(gs: seq<Grade>, title: string) returns (found: Option<Grade>)
    ensures found == First(gs, TitleIs(title))
  {
    var i := 0;
    while i < |gs|
      invariant 0 <= i <= |gs|
      invariant forall j :: 0 <= j < i ==> !TitleIs(title)(gs[j])
    {
      if gs[i].assignmentName.Some? && gs[i].assignmentName.value == title {
        return Some(gs[i]);
      }
      i := i + 1;
    }
    return None;
  }

  /** Searching the pair's grades by title is searching the table for a grade of the
      pair with that title. */
  lemma GradeForTitleOfPair(gs: seq<Grade>, sid: int, cid: int, title: string)
    ensures First(GradesFor(gs, sid, cid), TitleIs(title)) == First(gs, GradeOfTitle(sid, cid, title))
  {
    FirstFilter(gs, GradeOfPair(sid, cid), TitleIs(title), GradeOfTitle(sid, cid, title));
  }

  /** The form's grade as gradeAssignmentForStudent completes it: the id of the existing
      grade for the title, if any; the path's student, course and teacher; the
      assignment's title when the assignment exists; today's date. Score, maximum,
      letter and feedback stay as submitted. */
  function PreparedGrade(form: Grade, tid: int, cid: int, sid: int, assignment: Option<Assignment>,
                         existing: Option<Grade>, todayText: string): (r: Grade)
    ensures r.studentId == sid && r.courseId == cid && r.gradedByTeacherId == tid
    ensures r.gradedDate == Some(todayText)
    ensures r.id == (if existing.Some? then existing.value.id else form.id)
    ensures r.assignmentName == (if assignment.Some? then Some(assignment.value.title) else form.assignmentName)
    ensures r.score == form.score && r.maxScore == form.maxScore
    ensures r.letter == form.letter && r.feedback == form.feedback
  {
    var g := if existing.Some? then form.(id := existing.value.id) else form;
    var g := g.(studentId := sid, courseId := cid);
    var g := if assignment.Some? then g.(assignmentName := Some(assignment.value.title)) else g;
    g.(gradedByTeacherId := tid, gradedDate := Some(todayText))
  }

  /** gradeAssignmentForStudent: saves the completed form, which updates the pair's
      grade for the assignment's title when there is one and inserts otherwise. */
  method GradeAssignmentForStudent(db: Database, tid: int, cid: int, aid: int, sid: int,
                                   form: Grade, todayText: string) returns (saved: Grade)
    requires db.Valid()
    modifies db`grades, db`nextId
    ensures db.Valid()
    ensures var a := Lookup(db.assignments, AssignmentKey, aid);
            var existing := if a.Some? then First(GradesFor(old(db.grades), sid, cid), TitleIs(a.value.title)) else None;
            var g := PreparedGrade(form, tid, cid, sid, a, existing, todayText);
            (g.id == 0 ==> saved == g.(id := old(db.nextId)) && db.grades == old(db.grades) + [saved]) &&
            (g.id != 0 ==> saved == g && db.grades == Replace(old(db.grades), GradeKey, g))
  {
    var assignment := Lookup(db.assignments, AssignmentKey, aid);
    var existingGrades := GradesFor(db.grades, sid, cid);
    var existing := None;
    if assignment.Some? {
      existing := FindGradeForTitle(existingGrades, assignment.value.title);
    }
    saved := db.SaveGrade(PreparedGrade(form, tid, cid, sid, assignment, existing, todayText));
  }

  /** Grading a new form for an existing assignment leaves exactly one grade of the pair
      for the title when there was at most one: the existing grade is updated in place,
      and otherwise one grade is inserted. Afterwards the search by title finds the
      grade just saved. */
  lemma {:induction false} GradingUpserts(gs: seq<Grade>, next: int, form: Grade, tid: int, cid: int, sid: int,
                                         a: Assignment, todayText: string)
    requires KeysOk(gs, GradeKey, next) && 0 < next
    requires form.id == 0
    ensures var existing := First(GradesFor(gs, sid, cid), TitleIs(a.title));
            var g := PreparedGrade(form, tid, cid, sid, Some(a), existing, todayText);
            var saved := if g.id == 0 then g.(id := next) else g;
            var after := if g.id == 0 then gs + [saved] else Replace(gs, GradeKey, g);
            First(GradesFor(after, sid, cid), TitleIs(a.title)) == Some(saved) &&
            Count(after, GradeOfTitle(sid, cid, a.title)) ==
              (if existing.Some? then Count(gs, GradeOfTitle(sid, cid, a.title)) else 1)
  {
    var p := GradeOfTitle(sid, cid, a.title);
    var existing := First(GradesFor(gs, sid, cid), TitleIs(a.title));
    GradeForTitleOfPair(gs, sid, cid, a.title);
    var g := PreparedGrade(form, tid, cid, sid, Some(a), existing, todayText);
    assert p(g);
    if existing.Some? {
      var k := FirstIndex(gs, p);
      assert existing.value == gs[k];
      assert g.id != 0;
      var after := Replace(gs, GradeKey, g);
      forall j | 0 <= j < k
        ensures !p(after[j])
      {
        assert after[j] == gs[j];
      }
      assert after[k] == g;
      assert FirstIndex(after, p) == k;
      GradeForTitleOfPair(after, sid, cid, a.title);
      ReplaceCount(gs, GradeKey, g, p);
    } else {
      var saved := g.(id := next);
      var after := gs + [saved];
      assert after[|gs|] == saved;
      assert FirstIndex(after, p) == |gs|;
      GradeForTitleOfPair(after, sid, cid, a.title);
      CountSnoc(gs, saved, p);
      CountZero(gs, p);
    }
  }

  // ---------------------------------------------------------------------------
  // Creating and deleting assignments.
  // ---------------------------------------------------------------------------

  /** The submitted assignment as saveAssignment completes it: the path's course and
      teacher, today's date, and status "active" when none or an empty one was given. */
  function PreparedAssignment(form: Assignment, tid: int, cid: int, todayText: string): (r: Assignment)
    ensures r.courseId == cid && r.createdByTeacherId == tid && r.createdDate == Some(todayText)
    ensures form.status.None? || form.status == Some("") ==> r.status == Some("active")
    ensures form.status.Some? && form.status != Some("") ==> r.status == form.status
    ensures r.id == form.id && r.title == form.title && r.description == form.description
    ensures r.dueDate == form.dueDate && r.daysRemaining == form.daysRemaining
  {
    var a := form.(courseId := cid, createdByTeacherId := tid, createdDate := Some(todayText));
    if a.status.None? || |a.status.value| == 0 then a.(status := Some("active")) else a
  }

  /** The id of the pair's first enrollment (0 when it has none). */
  function EnrollmentIdOf(es: seq<Enrollment>, sid: int, cid: int): int {
    match EnrollmentOf(es, sid, cid)
    case Some(e) => e.id
    case None => 0
  }

  /** The completion records saveAssignment inserts: one per student entry of the
      course, not done, pointing at the assignment and at the student's enrollment,
      with consecutive ids from `first`. */
  function FanOut(es: seq<Enrollment>, sids: seq<int>, cid: int, aid: int, first: int): (r: seq<Completion>)
    ensures |r| == |sids|
  {
    seq(|sids|, k requires 0 <= k < |sids| => Completion(first + k, aid, EnrollmentIdOf(es, sids[k], cid), 0))
  }

  /** The bean validation of the submitted assignment: a non-empty title and a due
      date (any text, whether or not it parses). */
  predicate ValidForm(form: Assignment) {
    |form.title| > 0 && !form.dueDate.NoDueDate?
  }

  /** saveAssignment: a form that fails validation goes back to the form page and
      changes nothing (None). Otherwise saves the completed assignment, then inserts a
      completion record with isDone 0 for every student of the course. The teacher is
      dereferenced before validation, so it must exist; the course is dereferenced only
      after the save. */
  method SaveAssignment(db: Database, tid: int, cid: int, form: Assignment, todayText: string)
    returns (saved: Option<Assignment>)
    requires db.Valid()
    requires db.FindTeacher(tid).Some?
    requires ValidForm(form) ==> Lookup(db.courses, CourseKey, cid).Some?
    modifies db`assignments, db`completions, db`nextId
    ensures db.Valid()
    ensures saved.None? <==> !ValidForm(form)
    ensures saved.None? ==> db.assignments == old(db.assignments) && db.completions == old(db.completions) &&
                            db.nextId == old(db.nextId)
    ensures saved.Some? ==>
              var a := PreparedAssignment(form, tid, cid, todayText);
              (a.id == 0 ==> saved.value == a.(id := old(db.nextId)) && db.assignments == old(db.assignments) + [saved.value]) &&
              (a.id != 0 ==> saved.value == a && db.assignments == Replace(old(db.assignments), AssignmentKey, a))
    ensures saved.Some? ==>
              var first := if form.id == 0 then old(db.nextId) + 1 else old(db.nextId);
              db.completions == old(db.completions) +
                FanOut(db.enrollments, CourseStudentIds(db.enrollments, db.students, cid), cid, saved.value.id, first)
  {
    if !ValidForm(form) {
      return None;
    }
    var prepared := PreparedAssignment(form, tid, cid, todayText);
    assert prepared.id == form.id;
    var a := db.SaveAssignment(prepared);
    assert db.nextId == if form.id == 0 then old(db.nextId) + 1 else old(db.nextId);
    var students := CourseStudentIds(db.enrollments, db.students, cid);
    RosterEnrolled(db.enrollments, db.students, cid);
    InsertCompletions(db, students, cid, a.id);
    saved := Some(a);
  }

  /** The loop of saveAssignment: one new completion record per student entry, pointing
      at the student's enrollment in the course, which each of them has. */
  method InsertCompletions(db: Database, students: seq<int>, cid: int, aid: int)
    requires db.Valid()
    requires forall k :: 0 <= k < |students| ==> EnrollmentOf(db.enrollments, students[k], cid).Some?
    modifies db`completions, db`nextId
    ensures db.Valid()
    ensures db.nextId == old(db.nextId) + |students|
    ensures db.completions == old(db.completions) + FanOut(db.enrollments, students, cid, aid, old(db.nextId))
  {
    ghost var d0, first := db.completions, db.nextId;
    var i := 0;
    while i < |students|
      invariant 0 <= i <= |students|
      invariant db.Valid() && db.nextId == first + i
      invariant db.completions == d0 + FanOut(db.enrollments, students[..i], cid, aid, first)
    {
      FanOutSnoc(db.enrollments, students, cid, aid, first, i);
      InsertCompletion(db, students[i], cid, aid);
      i := i + 1;
    }
    assert students[..i] == students;
  }

  /** One turn of the loop of saveAssignment: a new completion record, not done, for the
      assignment and the student's enrollment in the course. */
  method InsertCompletion(db: Database, sid: int, cid: int, aid: int)
    requires db.Valid()
    requires EnrollmentOf(db.enrollments, sid, cid).Some?
    modifies db`completions, db`nextId
    ensures db.Valid()
    ensures db.nextId == old(db.nextId) + 1
    ensures db.completions == old(db.completions) + [Completion(old(db.nextId), aid, EnrollmentIdOf(db.enrollments, sid, cid), 0)]
  {
    var scd := EnrollmentService.FindByStudentAndCourseId(db, sid, cid);
    var detail := Completion(0, aid, scd.value.id, 0);
    var _ := db.SaveCompletion(detail);
  }

  lemma FanOutSnoc(es: seq<Enrollment>, sids: seq<int>, cid: int, aid: int, first: int, i: int)
    requires 0 <= i < |sids|
    ensures FanOut(es, sids[..i + 1], cid, aid, first) ==
            FanOut(es, sids[..i], cid, aid, first) + [Completion(first + i, aid, EnrollmentIdOf(es, sids[i], cid), 0)]
  {
  }

  /** Every inserted record is not done and points at the assignment and at an
      enrollment of its student in the course. */
  lemma FanOutPointsAtEnrollments(es: seq<Enrollment>, ss: seq<Student>, cid: int, aid: int, first: int)
    ensures var sids := CourseStudentIds(es, ss, cid);
            var ds := FanOut(es, sids, cid, aid, first);
            forall k :: 0 <= k < |ds| ==>
              ds[k].isDone == 0 && ds[k].assignmentId == aid &&
              exists e :: e in es && e.id == ds[k].enrollmentId && e.studentId == sids[k] && e.courseId == cid
  {
    var sids := CourseStudentIds(es, ss, cid);
    RosterEnrolled(es, ss, cid);
    var ds := FanOut(es, sids, cid, aid, first);
    forall k | 0 <= k < |ds|
      ensures ds[k].isDone == 0 && ds[k].assignmentId == aid
      ensures exists e :: e in es && e.id == ds[k].enrollmentId && e.studentId == sids[k] && e.courseId == cid
    {
      var e := EnrollmentOf(es, sids[k], cid).value;
      assert e in es && e.id == ds[k].enrollmentId && e.studentId == sids[k] && e.courseId == cid;
    }
  }

  /** deleteAssignment: removes the assignment row only; its completion records and
      grades stay. */
  method DeleteAssignment(db: Database, tid: int, cid: int, aid: int)
    requires db.Valid()
    modifies db`assignments
    ensures db.Valid()
    ensures db.assignments == Without(old(db.assignments), AssignmentKey, aid)
  {
    db.DeleteAssignment(aid);
  }

  /** After the delete no assignment has the id, and every other assignment is kept. */
  lemma DeleteAssignmentEffect(rows: seq<Assignment>, aid: int)
    ensures Lookup(Without(rows, AssignmentKey, aid), AssignmentKey, aid).None?
    ensures forall i :: 0 <= i < |rows| && rows[i].id != aid ==> rows[i] in Without(rows, AssignmentKey, aid)
  {
    FilterMembers(rows, KeyNotIn(AssignmentKey, {aid}));
  }

  // ---------------------------------------------------------------------------
  // The completion status screen.
  // ---------------------------------------------------------------------------

  /** The four statuses of the completion screen. */
  datatype AssignmentStatus = NotEnrolled | NotAssigned | Incomplete | Completed

  /** The text the screen shows for a status. */
  function Label(st: AssignmentStatus): string {
    match st
    case NotEnrolled => "not enrolled"
    case NotAssigned => "not assigned"
    case Incomplete => "incomplete"
    case Completed => "completed"
  }

  /** The status of one student for an assignment: not enrolled without an enrollment
      in the course, not assigned without a completion record for that enrollment,
      incomplete when the record's isDone is 0, completed otherwise. */
  function Status(es: seq<Enrollment>, ds: seq<Completion>, aid: int, sid: int, cid: int): AssignmentStatus {
    match EnrollmentOf(es, sid, cid)
    case None => NotEnrolled
    case Some(e) =>
      match CompletionFor(ds, aid, e.id)
      case None => NotAssigned
      case Some(d) => if d.isDone == 0 then Incomplete else Completed
  }

  /** The grade shown for one student: none without an enrollment or without the
      assignment; otherwise the first of the pair's grades with the assignment's title. */
  function AssignmentGrade(es: seq<Enrollment>, gs: seq<Grade>, assignment: Option<Assignment>,
                           sid: int, cid: int): Option<Grade> {
    if EnrollmentOf(es, sid, cid).None? || assignment.None? then None
    else First(GradesFor(gs, sid, cid), TitleIs(assignment.value.title))
  }

  /** The four statuses, each characterised by the records behind it. */
  lemma StatusCases(es: seq<Enrollment>, ds: seq<Completion>, aid: int, sid: int, cid: int)
    ensures var st := Status(es, ds, aid, sid, cid);
            var e := EnrollmentOf(es, sid, cid);
            (st == NotEnrolled <==> e.None?) &&
            (st == NotAssigned <==> e.Some? && CompletionFor(ds, aid, e.value.id).None?) &&
            (st == Incomplete <==> e.Some? && CompletionFor(ds, aid, e.value.id).Some? &&
                                   CompletionFor(ds, aid, e.value.id).value.isDone == 0) &&
            (st == Completed <==> e.Some? && CompletionFor(ds, aid, e.value.id).Some? &&
                                  CompletionFor(ds, aid, e.value.id).value.isDone != 0)
  {
  }

  /** The four labels are distinct, so the screen tells the statuses apart. */
  lemma LabelsDistinct(a: AssignmentStatus, b: AssignmentStatus)
    ensures Label(a) == Label(b) <==> a == b
  {
    if a != b {
      assert Label(a)[..2] != Label(b)[..2] || Label(a)[4] != Label(b)[4];
    }
  }

  /** The students listed by the course always have an enrollment, so the screen never
      shows "not enrolled" for them. */
  lemma RosterNeverNotEnrolled(es: seq<Enrollment>, ss: seq<Student>, ds: seq<Completion>, aid: int, cid: int)
    ensures var sids := CourseStudentIds(es, ss, cid);
            forall k :: 0 <= k < |sids| ==> Status(es, ds, aid, sids[k], cid) != NotEnrolled
  {
    RosterEnrolled(es, ss, cid);
  }

  /** Right after saveAssignment, every student of the course is "incomplete" for the
      new assignment, provided no earlier completion record pointed at its id. */
  lemma FanOutMakesIncomplete(es: seq<Enrollment>, ss: seq<Student>, ds: seq<Completion>, cid: int, aid: int, first: int)
    requires forall i :: 0 <= i < |ds| ==> ds[i].assignmentId != aid
    ensures var sids := CourseStudentIds(es, ss, cid);
            var after := ds + FanOut(es, sids, cid, aid, first);
            forall k :: 0 <= k < |sids| ==> Status(es, after, aid, sids[k], cid) == Incomplete
  {
    var sids := CourseStudentIds(es, ss, cid);
    var fan := FanOut(es, sids, cid, aid, first);
    var after := ds + fan;
    RosterEnrolled(es, ss, cid);
    forall k | 0 <= k < |sids|
      ensures Status(es, after, aid, sids[k], cid) == Incomplete
    {
      var e := EnrollmentOf(es, sids[k], cid).value;
      assert after[|ds| + k] == fan[k];
      assert CompletionOf(aid, e.id)(after[|ds| + k]);
      var d := CompletionFor(after, aid, e.id).value;
      assert d in after && d.assignmentId == aid;
      assert forall i :: 0 <= i < |ds| ==> after[i] == ds[i];
      var m :| 0 <= m < |after| && after[m] == d;
      assert m >= |ds|;
      assert d == fan[m - |ds|];
    }
  }

  /** The status labels of a list of students, in order. */
  function StatusLabels(es: seq<Enrollment>, ds: seq<Completion>, aid: int, sids: seq<int>, cid: int): (r: seq<string>)
    ensures |r| == |sids|
  {
    if |sids| == 0 then []
    else StatusLabels(es, ds, aid, sids[..|sids| - 1], cid) + [Label(Status(es, ds, aid, sids[|sids| - 1], cid))]
  }

  /** The grades shown for a list of students, in order. */
  function AssignmentGrades(es: seq<Enrollment>, gs: seq<Grade>, assignment: Option<Assignment>,
                            sids: seq<int>, cid: int): (r: seq<Option<Grade>>)
    ensures |r| == |sids|
  {
    if |sids| == 0 then []
    else AssignmentGrades(es, gs, assignment, sids[..|sids| - 1], cid) + [AssignmentGrade(es, gs, assignment, sids[|sids| - 1], cid)]
  }

  lemma {:induction false} StatusLabelsAt(es: seq<Enrollment>, ds: seq<Completion>, aid: int, sids: seq<int>, cid: int, k: int)
    requires 0 <= k < |sids|
    ensures StatusLabels(es, ds, aid, sids, cid)[k] == Label(Status(es, ds, aid, sids[k], cid))
  {
    if k < |sids| - 1 {
      StatusLabelsAt(es, ds, aid, sids[..|sids| - 1], cid, k);
    }
  }

  lemma {:induction false} AssignmentGradesAt(es: seq<Enrollment>, gs: seq<Grade>, assignment: Option<Assignment>,
                                              sids: seq<int>, cid: int, k: int)
    requires 0 <= k < |sids|
    ensures AssignmentGrades(es, gs, assignment, sids, cid)[k] == AssignmentGrade(es, gs, assignment, sids[k], cid)
  {
    if k < |sids| - 1 {
      AssignmentGradesAt(es, gs, assignment, sids[..|sids| - 1], cid, k);
    }
  }

  /** showAssignmentDetails: for each student of the course, in order, the student's
      status for the assignment and the grade recorded for its title. The teacher and the
      course are dereferenced, so both must exist. */
  method ShowAssignmentDetails(db: Database, tid: int, cid: int, aid: int)
    returns (statuses: seq<string>, grades: seq<Option<Grade>>)
    requires db.FindTeacher(tid).Some? && Lookup(db.courses, CourseKey, cid).Some?
    ensures var sids := CourseStudentIds(db.enrollments, db.students, cid);
            |statuses| == |sids| && |grades| == |sids| &&
            (forall k :: 0 <= k < |sids| ==> statuses[k] == Label(Status(db.enrollments, db.completions, aid, sids[k], cid))) &&
            (forall k :: 0 <= k < |sids| ==>
               grades[k] == AssignmentGrade(db.enrollments, db.grades, Lookup(db.assignments, AssignmentKey, aid), sids[k], cid))
  {
    var students := CourseStudentIds(db.enrollments, db.students, cid);
    var assignment := Lookup(db.assignments, AssignmentKey, aid);
    statuses, grades := StatusRows(db.enrollments, db.completions, db.grades, students, cid, aid, assignment);
    forall k | 0 <= k < |students|
      ensures statuses[k] == Label(Status(db.enrollments, db.completions, aid, students[k], cid))
      ensures grades[k] == AssignmentGrade(db.enrollments, db.grades, assignment, students[k], cid)
    {
      StatusLabelsAt(db.enrollments, db.completions, aid, students, cid, k);
      AssignmentGradesAt(db.enrollments, db.grades, assignment, students, cid, k);
    }
  }

  /** The loop of showAssignmentDetails over the course's students. */
  method StatusRows(es: seq<Enrollment>, ds: seq<Completion>, gs: seq<Grade>, students: seq<int>,
                    cid: int, aid: int, assignment: Option<Assignment>)
    returns (statuses: seq<string>, grades: seq<Option<Grade>>)
    ensures statuses == StatusLabels(es, ds, aid, students, cid)
    ensures grades == AssignmentGrades(es, gs, assignment, students, cid)
  {
    statuses, grades := [], [];
    var i := 0;
    while i < |students|
      invariant 0 <= i <= |students|
      invariant statuses == StatusLabels(es, ds, aid, students[..i], cid)
      invariant grades == AssignmentGrades(es, gs, assignment, students[..i], cid)
    {
      var status, grade := StudentRow(es, ds, gs, students[i], cid, aid, assignment);
      ghost var next := students[..i + 1];
      assert next[..|next| - 1] == students[..i] && next[|next| - 1] == students[i];
      statuses, grades := statuses + [Label(status)], grades + [grade];
      i := i + 1;
    }
    assert students[..i] == students;
  }

  /** The body of the loop of showAssignmentDetails for one student. */
  method StudentRow(es: seq<Enrollment>, ds: seq<Completion>, gs: seq<Grade>, sid: int, cid: int, aid: int,
                    assignment: Option<Assignment>)
    returns (status: AssignmentStatus, grade: Option<Grade>)
    ensures status == Status(es, ds, aid, sid, cid)
    ensures grade == AssignmentGrade(es, gs, assignment, sid, cid)
  {
    var scd := EnrollmentOf(es, sid, cid);
    if scd.Some? {
      var detail := CompletionFor(ds, aid, scd.value.id);
      if detail.Some? && detail.value.isDone == 0 {
        status := Incomplete;
      } else if detail.Some? {
        status := Completed;
      } else {
        status := NotAssigned;
      }
      grade := None;
      var studentGrades := GradesFor(gs, sid, cid);
      if assignment.Some? {
        grade := FindGradeForTitle(studentGrades, assignment.value.title);
      }
    } else {
      status, grade := NotEnrolled, None;
    }
  }
}
