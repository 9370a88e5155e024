/** AdminService: creating and updating students and teachers, and deleting a
    student together with its enrollments and their grades. */
module AdminService {
  import opened Wrappers
  import opened Seqs
  import opened Tables
  import opened Entities
  import opened Store
  import EnrollmentService

  /** The student object as createStudent leaves it before saving: a null course
      list becomes an empty list, and nothing else changes. */
  function PrepareStudentForCreate(s: Student): (r: Student)
    ensures r.courses.Some?
    ensures s.courses.Some? ==> r == s
    ensures s.courses.None? ==> r == s.(courses := Some([]))
  {
    if s.courses.None? then s.(courses := Some([])) else s
  }

  /** The teacher object as createTeacher leaves it before saving. */
  function PrepareTeacherForCreate(t: Teacher): (r: Teacher)
    ensures r.courses.Some?
    ensures t.courses.Some? ==> r == t
    ensures t.courses.None? ==> r == t.(courses := Some([]))
  {
    if t.courses.None? then t.(courses := Some([])) else t
  }

  /** The student object as updateStudent leaves it before saving: a null course list
      is replaced by the stored student's list when that student exists; a given list
      is kept. */
  function PrepareStudentForUpdate(s: Student, existing: Option<Student>): (r: Student)
    ensures r.(courses := s.courses) == s
    ensures s.courses.Some? ==> r == s
    ensures s.courses.None? && existing.Some? ==> r.courses == existing.value.courses
    ensures existing.None? ==> r == s
  {
    if existing.Some? && s.courses.None? then s.(courses := existing.value.courses) else s
  }

  /** The teacher object as updateTeacher leaves it before saving. */
  function PrepareTeacherForUpdate(t: Teacher, existing: Option<Teacher>): (r: Teacher)
    ensures r.(courses := t.courses) == t
    ensures t.courses.Some? ==> r == t
    ensures t.courses.None? && existing.Some? ==> r.courses == existing.value.courses
    ensures existing.None? ==> r == t
  {
    if existing.Some? && t.courses.None? then t.(courses := existing.value.courses) else t
  }

  /** createStudent; `saved` is the caller's object after the call (with its new id). */
  method CreateStudent(db: Database, student: Student) returns (saved: Student)
    requires db.Valid()
    modifies db`students, db`nextId
    ensures db.Valid()
    ensures saved.courses.Some?
    ensures student.id == 0 ==> saved == PrepareStudentForCreate(student).(id := old(db.nextId))
                                 && db.students == old(db.students) + [StudentColumns(saved)]
    ensures student.id != 0 ==> saved == PrepareStudentForCreate(student)
                                 && db.students == Replace(old(db.students), StudentKey, StudentColumns(saved))
  {
    saved := db.SaveStudent(PrepareStudentForCreate(student));
  }

  /** updateStudent: the existing student is loaded with studentDAO.findById, which
      rebuilds it from its columns and so carries no course list; a null course list
      therefore stays null. */
  method UpdateStudent(db: Database, student: Student) returns (saved: Student)
    requires db.Valid()
    modifies db`students, db`nextId
    ensures db.Valid()
    ensures var prepared := PrepareStudentForUpdate(student, old(db.FindStudent(student.id)));
            (student.id == 0 ==> saved == prepared.(id := old(db.nextId)) &&
                                 db.students == old(db.students) + [StudentColumns(saved)]) &&
            (student.id != 0 ==> saved == prepared && db.students == Replace(old(db.students), StudentKey, StudentColumns(saved)))
    ensures saved.courses == student.courses
  {
    var existing := db.FindStudent(student.id);
    saved := db.SaveStudent(PrepareStudentForUpdate(student, existing));
  }

  /** createTeacher. */
  method CreateTeacher(db: Database, teacher: Teacher) returns (saved: Teacher)
    requires db.Valid()
    modifies db`teachers, db`nextId
    ensures db.Valid()
    ensures saved.courses.Some?
    ensures teacher.id == 0 ==> saved == PrepareTeacherForCreate(teacher).(id := old(db.nextId))
                                 && db.teachers == old(db.teachers) + [saved]
    ensures teacher.id != 0 ==> saved == PrepareTeacherForCreate(teacher)
                                 && db.teachers == Replace(old(db.teachers), TeacherKey, saved)
  {
    saved := db.SaveTeacher(PrepareTeacherForCreate(teacher));
  }

  /** updateTeacher: the stored teacher's courses are those of the course table. */
  method UpdateTeacher(db: Database, teacher: Teacher) returns (saved: Teacher)
    requires db.Valid()
    modifies db`teachers, db`nextId
    ensures db.Valid()
    ensures var prepared := PrepareTeacherForUpdate(teacher, old(db.FindTeacher(teacher.id)));
            (teacher.id == 0 ==> saved == prepared.(id := old(db.nextId)) && db.teachers == old(db.teachers) + [saved]) &&
            (teacher.id != 0 ==> saved == prepared && db.teachers == Replace(old(db.teachers), TeacherKey, saved))
  {
    var existing := db.FindTeacher(teacher.id);
    saved := db.SaveTeacher(PrepareTeacherForUpdate(teacher, existing));
  }

  /** Every enrollment of the list carries an attached grade. */
  predicate AllGraded(es: seq<Enrollment>) {
    forall i :: 0 <= i < |es| ==> es[i].grade.Some?
  }

  /** Rows loaded from the enrollment table carry no grade object, so all of them
      carry one only when there are none. */
  lemma LoadedUngraded(es: seq<Enrollment>)
    ensures AllGraded(LoadedEnrollments(es)) <==> es == []
  {
    if es != [] {
      assert LoadedEnrollments(es)[0].grade.None?;
    }
  }

  /** deleteStudentWithRelatedData: for each enrollment of the student, deletes all the
      student's enrollments and the grade attached to that enrollment; then deletes the
      student. The enrollments come from findByStudentId, which rebuilds each row from
      the enrollment table's columns with no grade object; the loop dereferences that
      grade, so the source gets past its loop only for a student with no enrollment,
      whose loop runs no turn, and then deletes the student row alone. */
  method DeleteStudentWithRelatedData(db: Database, sid: int)
    requires db.Valid()
    requires AllGraded(LoadedEnrollments(EnrollmentsOf(db.enrollments, sid)))
    modifies db`students
    ensures db.Valid()
    ensures EnrollmentsOf(db.enrollments, sid) == []
    ensures db.students == Without(old(db.students), StudentKey, sid)
  {
    var enrollments := LoadedEnrollments(EnrollmentsOf(db.enrollments, sid));
    LoadedUngraded(EnrollmentsOf(db.enrollments, sid));
    db.DeleteStudent(sid);
  }
}
