/** The rows the data-access layer reads and writes, as values. A field that
    the program may leave null is an Option; `id` 0 marks a row not yet saved. */
module Entities {
  import opened Wrappers
  import opened Dates

  /** The teacher a course row points at (teacher_id, with the teacher's name). */
  datatype TeacherRef = TeacherRef(id: int, fullName: string)

  /** A course; `teacher` is None when no teacher is assigned. */
  datatype Course = Course(id: int, code: string, name: string, schedule: Option<string>,
                           teacher: Option<TeacherRef>)

  /** A student; `courses` is the list the admin screens attach to the object
      (None when it was never loaded). */
  datatype Student = Student(id: int, userName: string, fullName: string,
                             courses: Option<seq<Course>>)

  /** A teacher; `courses` is the list of courses the teacher teaches, when loaded. */
  datatype Teacher = Teacher(id: int, userName: string, fullName: string,
                             courses: Option<seq<Course>>)

  /** An assignment of a course; `daysRemaining` is computed for display only. */
  datatype Assignment = Assignment(id: int, courseId: int, title: string,
                                   description: Option<string>, dueDate: DueDate,
                                   status: Option<string>, createdByTeacherId: int,
                                   createdDate: Option<string>, daysRemaining: int)

  /** A grade record (GradeDetails). `assignmentName` ties it to an assignment by title;
      scores are modelled as reals. */
  datatype Grade = Grade(id: int, studentId: int, courseId: int,
                         assignmentName: Option<string>, score: real, maxScore: real,
                         letter: Option<string>, feedback: Option<string>,
                         gradedDate: Option<string>, gradedByTeacherId: int)

  /** An enrollment (StudentCourseDetails): a student in a course. `grade` is the
      GradeDetails object attached to it in memory, which the enrollment table does
      not store. */
  datatype Enrollment = Enrollment(id: int, studentId: int, courseId: int, grade: Option<Grade>)

  /** A completion record (AssignmentDetails): whether the student of an enrollment
      has done an assignment (isDone 0 or 1). */
  datatype Completion = Completion(id: int, assignmentId: int, enrollmentId: int, isDone: int)

  /** `new GradeDetails()`: every field at its Java default. */
  const EmptyGrade := Grade(0, 0, 0, None, 0.0, 0.0, None, None, None, 0)

  function StudentKey(s: Student): int { s.id }
  function TeacherKey(t: Teacher): int { t.id }
  function CourseKey(c: Course): int { c.id }
  function AssignmentKey(a: Assignment): int { a.id }
  function GradeKey(g: Grade): int { g.id }
  function EnrollmentKey(e: Enrollment): int { e.id }
  function CompletionKey(d: Completion): int { d.id }
}
