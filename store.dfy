/** The relational store behind the DAOs: one table per entity, rows in insertion
    order, one auto-increment counter handing out ids. `save` inserts a row with a
    fresh id when the given id is 0 and otherwise updates the row with that id (a
    missing id changes nothing); `deleteById` of a missing id changes nothing. */
module Store {
  import opened Wrappers
  import opened Seqs
  import opened Tables
  import opened Entities

  /** The enrollment rows of student `sid` in course `cid`. */
  function IsPair(sid: int, cid: int): Enrollment -> bool {
    (e: Enrollment) => e.studentId == sid && e.courseId == cid
  }

  /** The enrollment rows of student `sid`. */
  function OfStudent(sid: int): Enrollment -> bool {
    (e: Enrollment) => e.studentId == sid
  }

  /** The grade rows of student `sid` in course `cid`. */
  function GradeOfPair(sid: int, cid: int): Grade -> bool {
    (g: Grade) => g.studentId == sid && g.courseId == cid
  }

  /** The completion rows of assignment `aid` for enrollment `eid`. */
  function CompletionOf(aid: int, eid: int): Completion -> bool {
    (d: Completion) => d.assignmentId == aid && d.enrollmentId == eid
  }

  /** The course rows whose teacher is `tid`. */
  function TaughtBy(tid: int): Course -> bool {
    (c: Course) => c.teacher.Some? && c.teacher.value.id == tid
  }

  /** The enrollment rows in course `cid` of a student whose id is in `known`. */
  function EnrolledKnown(cid: int, known: set<int>): Enrollment -> bool {
    (e: Enrollment) => e.courseId == cid && e.studentId in known
  }

  /** findByStudentAndCourseId: the first enrollment of the pair, or null. */
  function EnrollmentOf(es: seq<Enrollment>, sid: int, cid: int): Option<Enrollment> {
    First(es, IsPair(sid, cid))
  }

  /** findByStudentId: the enrollments of a student. */
  function EnrollmentsOf(es: seq<Enrollment>, sid: int): seq<Enrollment> {
    Filter(es, OfStudent(sid))
  }

  /** findByStudentIdAndCourseId on grades: every grade of the pair. */
  function GradesFor(gs: seq<Grade>, sid: int, cid: int): seq<Grade> {
    Filter(gs, GradeOfPair(sid, cid))
  }

  /** findByAssignmentIdAndStudentCourseDetailsId: the first completion record, or null. */
  function CompletionFor(ds: seq<Completion>, aid: int, eid: int): Option<Completion> {
    First(ds, CompletionOf(aid, eid))
  }

  /** The courses a teacher teaches (SELECT ... FROM courses WHERE teacher_id = ?). */
  function OwnedCourses(cs: seq<Course>, tid: int): seq<Course> {
    Filter(cs, TaughtBy(tid))
  }

  /** A student as the students table holds it, and as studentDAO.findById rebuilds
      it: the table has no course column, so there is no course list. */
  function StudentColumns(s: Student): Student {
    s.(courses := None)
  }

  /** An enrollment as the enrollment table holds it (id, student_id, course_id), and
      as the DAO's result-set mapping rebuilds it: with no grade object. */
  function EnrollmentColumns(e: Enrollment): Enrollment {
    e.(grade := None)
  }

  /** The enrollments as a DAO query returns them: each row rebuilt from its columns. */
  function LoadedEnrollments(es: seq<Enrollment>): (r: seq<Enrollment>)
    ensures |r| == |es|
    ensures forall i :: 0 <= i < |es| ==> r[i] == EnrollmentColumns(es[i]) && r[i].grade.None?
  {
    seq(|es|, i requires 0 <= i < |es| => EnrollmentColumns(es[i]))
  }

  /** The student ids of a list of enrollments, in order. */
  function StudentIds(es: seq<Enrollment>): (r: seq<int>)
    ensures |r| == |es|
    ensures forall k :: 0 <= k < |es| ==> r[k] == es[k].studentId
  {
    seq(|es|, k requires 0 <= k < |es| => es[k].studentId)
  }

  /** The enrollments that the join behind course.getStudents() passes: those in
      course `cid` whose student row exists. */
  function CourseRoster(es: seq<Enrollment>, ss: seq<Student>, cid: int): seq<Enrollment> {
    Filter(es, EnrolledKnown(cid, KeySet(ss, StudentKey)))
  }

  /** course.getStudents(): students JOIN student_course_details on the course, one
      entry per enrollment row, in enrollment order. */
  function CourseStudentIds(es: seq<Enrollment>, ss: seq<Student>, cid: int): seq<int> {
    StudentIds(CourseRoster(es, ss, cid))
  }

  /** Every student of a course roster has an enrollment in that course. */
  lemma RosterEnrolled(es: seq<Enrollment>, ss: seq<Student>, cid: int)
    ensures forall k :: 0 <= k < |CourseStudentIds(es, ss, cid)| ==>
              EnrollmentOf(es, CourseStudentIds(es, ss, cid)[k], cid).Some?
  {
    var roster := CourseRoster(es, ss, cid);
    FilterMembers(es, EnrolledKnown(cid, KeySet(ss, StudentKey)));
    forall k | 0 <= k < |roster|
      ensures EnrollmentOf(es, roster[k].studentId, cid).Some?
    {
      var i :| 0 <= i < |es| && es[i] == roster[k];
      assert IsPair(roster[k].studentId, cid)(es[i]);
    }
  }

  class Database {
    var students: seq<Student>
    var teachers: seq<Teacher>
    var courses: seq<Course>
    var assignments: seq<Assignment>
    var enrollments: seq<Enrollment>
    var completions: seq<Completion>
    var grades: seq<Grade>
    /** The id the next insert receives. */
    var nextId: int

    /** Every table has positive, distinct ids below the counter. */
    ghost predicate Valid()
      reads this
    {
      0 < nextId &&
      KeysOk(students, StudentKey, nextId) &&
      KeysOk(teachers, TeacherKey, nextId) &&
      KeysOk(courses, CourseKey, nextId) &&
      KeysOk(assignments, AssignmentKey, nextId) &&
      KeysOk(enrollments, EnrollmentKey, nextId) &&
      KeysOk(completions, CompletionKey, nextId) &&
      KeysOk(grades, GradeKey, nextId)
    }

    constructor ()
      ensures Valid()
      ensures students == [] && teachers == [] && courses == [] && assignments == []
      ensures enrollments == [] && completions == [] && grades == []
    {
      students, teachers, courses, assignments := [], [], [], [];
      enrollments, completions, grades := [], [], [];
      nextId := 1;
    }

    /** teacherDAO.findById: the teacher row, with its course list loaded from the
        course table. */
    function FindTeacher(id: int): (r: Option<Teacher>)
      reads this
      ensures r.Some? ==> r.value.id == id && r.value.courses == Some(OwnedCourses(courses, id))
      ensures r.None? <==> Lookup(teachers, TeacherKey, id).None?
    {
      var found := Lookup(teachers, TeacherKey, id);
      if found.None? then None else Some(found.value.(courses := Some(OwnedCourses(courses, id))))
    }

    /** studentDAO.findById: the student row rebuilt from its columns, with no course
        list. */
    function FindStudent(id: int): (r: Option<Student>)
      reads this
      ensures r.None? <==> Lookup(students, StudentKey, id).None?
      ensures r.Some? ==> r.value.id == id && r.value.courses.None? &&
                          r.value == StudentColumns(Lookup(students, StudentKey, id).value)
    {
      var found := Lookup(students, StudentKey, id);
      if found.None? then None else Some(StudentColumns(found.value))
    }

    /** studentDAO.save: writes the student's columns; `saved` is the caller's object
        afterwards, which keeps its course list and gets the new id on an insert. */
    method SaveStudent(s: Student) returns (saved: Student)
      requires Valid()
      modifies this`students, this`nextId
      ensures Valid()
      ensures s.id == 0 ==> saved == s.(id := old(nextId)) && students == old(students) + [StudentColumns(saved)]
      ensures s.id == 0 ==> nextId == old(nextId) + 1
      ensures s.id != 0 ==> saved == s && students == Replace(old(students), StudentKey, StudentColumns(s)) &&
                            nextId == old(nextId)
    {
      if s.id == 0 {
        saved := s.(id := nextId);
        KeysOkInsert(students, StudentKey, nextId, StudentColumns(saved));
        students := students + [StudentColumns(saved)];
        nextId := nextId + 1;
      } else {
        saved := s;
        KeysOkReplace(students, StudentKey, nextId, StudentColumns(s));
        students := Replace(students, StudentKey, StudentColumns(s));
      }
    }

    method SaveTeacher(t: Teacher) returns (saved: Teacher)
      requires Valid()
      modifies this`teachers, this`nextId
      ensures Valid()
      ensures t.id == 0 ==> saved == t.(id := old(nextId)) && teachers == old(teachers) + [saved]
      ensures t.id == 0 ==> nextId == old(nextId) + 1
      ensures t.id != 0 ==> saved == t && teachers == Replace(old(teachers), TeacherKey, t) && nextId == old(nextId)
    {
      if t.id == 0 {
        saved := t.(id := nextId);
        KeysOkInsert(teachers, TeacherKey, nextId, saved);
        teachers := teachers + [saved];
        nextId := nextId + 1;
      } else {
        saved := t;
        KeysOkReplace(teachers, TeacherKey, nextId, t);
        teachers := Replace(teachers, TeacherKey, t);
      }
    }

    method SaveCourse(c: Course) returns (saved: Course)
      requires Valid()
      modifies this`courses, this`nextId
      ensures Valid()
      ensures c.id == 0 ==> saved == c.(id := old(nextId)) && courses == old(courses) + [saved]
      ensures c.id == 0 ==> nextId == old(nextId) + 1
      ensures c.id != 0 ==> saved == c && courses == Replace(old(courses), CourseKey, c) && nextId == old(nextId)
    {
      if c.id == 0 {
        saved := c.(id := nextId);
        KeysOkInsert(courses, CourseKey, nextId, saved);
        courses := courses + [saved];
        nextId := nextId + 1;
      } else {
        saved := c;
        KeysOkReplace(courses, CourseKey, nextId, c);
        courses := Replace(courses, CourseKey, c);
      }
    }

    method SaveAssignment(a: Assignment) returns (saved: Assignment)
      requires Valid()
      modifies this`assignments, this`nextId
      ensures Valid()
      ensures a.id == 0 ==> saved == a.(id := old(nextId)) && assignments == old(assignments) + [saved]
      ensures a.id == 0 ==> nextId == old(nextId) + 1
      ensures a.id != 0 ==> saved == a && assignments == Replace(old(assignments), AssignmentKey, a) && nextId == old(nextId)
    {
      if a.id == 0 {
        saved := a.(id := nextId);
        KeysOkInsert(assignments, AssignmentKey, nextId, saved);
        assignments := assignments + [saved];
        nextId := nextId + 1;
      } else {
        saved := a;
        KeysOkReplace(assignments, AssignmentKey, nextId, a);
        assignments := Replace(assignments, AssignmentKey, a);
      }
    }

    /** studentCourseDetailsDAO.save: writes the student and course ids only; the
        grade object of `e` is not stored. */
    method SaveEnrollment(e: Enrollment) returns (saved: Enrollment)
      requires Valid()
      modifies this`enrollments, this`nextId
      ensures Valid()
      ensures e.id == 0 ==> saved == e.(id := old(nextId)) && enrollments == old(enrollments) + [EnrollmentColumns(saved)]
      ensures e.id == 0 ==> nextId == old(nextId) + 1
      ensures e.id != 0 ==> saved == e && enrollments == Replace(old(enrollments), EnrollmentKey, EnrollmentColumns(e)) &&
                            nextId == old(nextId)
    {
      if e.id == 0 {
        saved := e.(id := nextId);
        KeysOkInsert(enrollments, EnrollmentKey, nextId, EnrollmentColumns(saved));
        enrollments := enrollments + [EnrollmentColumns(saved)];
        nextId := nextId + 1;
      } else {
        saved := e;
        KeysOkReplace(enrollments, EnrollmentKey, nextId, EnrollmentColumns(e));
        enrollments := Replace(enrollments, EnrollmentKey, EnrollmentColumns(e));
      }
    }

    method SaveCompletion(d: Completion) returns (saved: Completion)
      requires Valid()
      modifies this`completions, this`nextId
      ensures Valid()
      ensures d.id == 0 ==> saved == d.(id := old(nextId)) && completions == old(completions) + [saved]
      ensures d.id == 0 ==> nextId == old(nextId) + 1
      ensures d.id != 0 ==> saved == d && completions == Replace(old(completions), CompletionKey, d) && nextId == old(nextId)
    {
      if d.id == 0 {
        saved := d.(id := nextId);
        KeysOkInsert(completions, CompletionKey, nextId, saved);
        completions := completions + [saved];
        nextId := nextId + 1;
      } else {
        saved := d;
        KeysOkReplace(completions, CompletionKey, nextId, d);
        completions := Replace(completions, CompletionKey, d);
      }
    }

    method SaveGrade(g: Grade) returns (saved: Grade)
      requires Valid()
      modifies this`grades, this`nextId
      ensures Valid()
      ensures g.id == 0 ==> saved == g.(id := old(nextId)) && grades == old(grades) + [saved]
      ensures g.id == 0 ==> nextId == old(nextId) + 1
      ensures g.id != 0 ==> saved == g && grades == Replace(old(grades), GradeKey, g) && nextId == old(nextId)
    {
      if g.id == 0 {
        saved := g.(id := nextId);
        KeysOkInsert(grades, GradeKey, nextId, saved);
        grades := grades + [saved];
        nextId := nextId + 1;
      } else {
        saved := g;
        KeysOkReplace(grades, GradeKey, nextId, g);
        grades := Replace(grades, GradeKey, g);
      }
    }

    method DeleteStudent(id: int)
      requires Valid()
      modifies this`students
      ensures Valid()
      ensures students == Without(old(students), StudentKey, id)
    {
      KeysOkFilter(students, StudentKey, nextId, KeyNotIn(StudentKey, {id}));
      students := Without(students, StudentKey, id);
    }

    method DeleteTeacher(id: int)
      requires Valid()
      modifies this`teachers
      ensures Valid()
      ensures teachers == Without(old(teachers), TeacherKey, id)
    {
      KeysOkFilter(teachers, TeacherKey, nextId, KeyNotIn(TeacherKey, {id}));
      teachers := Without(teachers, TeacherKey, id);
    }

    method DeleteCourse(id: int)
      requires Valid()
      modifies this`courses
      ensures Valid()
      ensures courses == Without(old(courses), CourseKey, id)
    {
      KeysOkFilter(courses, CourseKey, nextId, KeyNotIn(CourseKey, {id}));
      courses := Without(courses, CourseKey, id);
    }

    method DeleteAssignment(id: int)
      requires Valid()
      modifies this`assignments
      ensures Valid()
      ensures assignments == Without(old(assignments), AssignmentKey, id)
    {
      KeysOkFilter(assignments, AssignmentKey, nextId, KeyNotIn(AssignmentKey, {id}));
      assignments := Without(assignments, AssignmentKey, id);
    }

    method DeleteEnrollment(id: int)
      requires Valid()
      modifies this`enrollments
      ensures Valid()
      ensures enrollments == Without(old(enrollments), EnrollmentKey, id)
    {
      KeysOkFilter(enrollments, EnrollmentKey, nextId, KeyNotIn(EnrollmentKey, {id}));
      enrollments := Without(enrollments, EnrollmentKey, id);
    }

    method DeleteGrade(id: int)
      requires Valid()
      modifies this`grades
      ensures Valid()
      ensures grades == Without(old(grades), GradeKey, id)
    {
      KeysOkFilter(grades, GradeKey, nextId, KeyNotIn(GradeKey, {id}));
      grades := Without(grades, GradeKey, id);
    }
  }
}
