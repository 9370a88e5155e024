# Student management: enrollments, completions and grades

A Dafny model of the core of a Spring student-management application. Admins
create students and teachers, enroll students in courses and delete them.
Teachers create assignments, see who has completed them and grade them. Students
mark assignments as done and browse their courses.

The JDBC data-access objects become one abstract in-memory store,
`Store.Database`. It holds one id-keyed table per entity: students, teachers,
courses, assignments, enrollments (StudentCourseDetails), completion records
(AssignmentDetails) and grades (GradeDetails). Rows are kept in insertion order,
and one auto-increment counter hands out ids. The store keeps the DAO contract:
- `save` inserts with a fresh id when the id is 0, and otherwise updates every
  row with that id (a missing id changes nothing).
- `deleteById` of a missing id changes nothing.
- Only a table's columns are stored and loaded. A student row has no course list
  and an enrollment row has no grade object, whatever the saved object carried.
- `Valid()` says that every table's ids are positive, below the counter and
  distinct. Every state-changing handler preserves it.

The modules follow the program:

| module | models |
|---|---|
| `Store`, `Tables`, `Seqs` | the DAO layer: tables, lookups, filters, deletes by key |
| `EnrollmentService` | StudentCourseDetailsServiceImpl |
| `AdminService` | AdminServiceImpl |
| `AdminController` | the enrollment, course and teacher handlers of AdminController |
| `TeacherController` | grading, assignment creation and deletion, the completion status screen, days remaining |
| `StudentController` | the student's course and assignment screens, markAsCompleted, days remaining |
| `GradeDetails` | GradeDetails.getPercentage and equals |
| `CourseService` | the filter / sort / view pipeline of the student course list |
| `StudentCourses` | the course-list methods of the Student entity |
| `StudentAssignments` | StudentAssignmentServiceImpl |
| `AuthRedirect` | CustomAuthenticationSuccessHandler's choice of landing page |
| `AdminDao` | AdminDAOImpl, the in-memory admin list, as a class |
| `Dates`, `Text`, `Sorting` | the Java `(int)` cast, the String operations used, and the stable stream sort |

Three copies of the days-remaining calculation are modelled, each with its own
fallback:
- The teacher screen gives -1 for an unparsable date.
- The student screen gives 0 for a null or unparsable date.
- The assignment service gives -1 for a null date.

`StudentController.DayDifferencesCompared` relates the first two.

Paths in the table below are relative to the repository root.

## Model

| member | source | states |
|---|---|---|
| Store.RosterEnrolled | src/main/java/org/example/studentmanagement/dao/CourseDAOImpl.java:147-162 | every student that course.getStudents() lists (the join of students with the course's enrollments) has an enrollment in that course |
| Store.Database.FindTeacher | src/main/java/org/example/studentmanagement/dao/TeacherDAOImpl.java:110-153 | the teacher with the id, whose course list is the course rows naming it as teacher; none exactly when no teacher row has the id |
| Store.Database.SaveStudent | src/main/java/org/example/studentmanagement/dao/StudentDAOImpl.java:23-60 | writes the student's columns only, so the stored row has no course list: id 0 appends it with the next id and the counter advances; otherwise every row with that id is overwritten; ids stay distinct; the caller's object keeps its list |
| Store.Database.FindStudent | src/main/java/org/example/studentmanagement/dao/StudentDAOImpl.java:90-118 | the row with the id, rebuilt from its columns with no course list; none exactly when no row has the id |
| Store.Database.SaveTeacher | src/main/java/org/example/studentmanagement/dao/TeacherDAOImpl.java:25-62 | the same insert-or-update contract for teachers |
| Store.Database.SaveCourse | src/main/java/org/example/studentmanagement/dao/CourseDAOImpl.java:26-66 | the same insert-or-update contract for courses |
| Store.Database.SaveAssignment | src/main/java/org/example/studentmanagement/dao/AssignmentDAOImpl.java:23-63 | the same insert-or-update contract for assignments |
| Store.Database.SaveEnrollment | src/main/java/org/example/studentmanagement/dao/StudentCourseDetailsDAOImpl.java:25-59 | the same insert-or-update contract for enrollments; only the student and course ids are stored, never the grade object |
| Store.LoadedEnrollments | src/main/java/org/example/studentmanagement/dao/StudentCourseDetailsDAOImpl.java:192-200 | a loaded list has one row per stored row, each rebuilt from its columns with no grade object |
| Store.Database.SaveCompletion | src/main/java/org/example/studentmanagement/dao/AssignmentDetailsDAOImpl.java:23-55 | the same insert-or-update contract for completion records |
| Store.Database.SaveGrade | src/main/java/org/example/studentmanagement/dao/GradeDetailsDAOImpl.java:23-64 | the same insert-or-update contract for grades |
| Store.Database.DeleteStudent | src/main/java/org/example/studentmanagement/dao/StudentDAOImpl.java:121-133 | removes the row with the id, if any, and nothing else |
| Store.Database.DeleteTeacher | src/main/java/org/example/studentmanagement/dao/TeacherDAOImpl.java:156-168 | removes the row with the id, if any, and nothing else |
| Store.Database.DeleteCourse | src/main/java/org/example/studentmanagement/dao/CourseDAOImpl.java:174-186 | removes the row with the id, if any, and nothing else |
| Store.Database.DeleteAssignment | src/main/java/org/example/studentmanagement/dao/AssignmentDAOImpl.java:110-122 | removes the row with the id, if any, and nothing else |
| Store.Database.DeleteEnrollment | src/main/java/org/example/studentmanagement/dao/StudentCourseDetailsDAOImpl.java:106-118 | removes the row with the id, if any, and nothing else |
| Store.Database.DeleteGrade | src/main/java/org/example/studentmanagement/dao/GradeDetailsDAOImpl.java:111-123 | removes the row with the id, if any, and nothing else |
| Dates.ToJavaInt | src/main/java/org/example/studentmanagement/controller/TeacherController.java:373-375 | the `(int)` cast of a long lies in the int range and agrees with its argument modulo 2^32 |
| Dates.ToJavaIntExact | src/main/java/org/example/studentmanagement/controller/TeacherController.java:373-375 | a value that fits in an int is unchanged by the cast |
| Sorting.SortByCorrect | src/main/java/org/example/studentmanagement/service/CourseService.java:88-105 | the stream sort returns a permutation of its input in the comparator's order |
| Sorting.SortByStable | src/main/java/org/example/studentmanagement/service/CourseService.java:88-105 | the sort is stable: rows with equal keys keep their relative order |
| EnrollmentService.FindByStudentAndCourseId | src/main/java/org/example/studentmanagement/dao/StudentCourseDetailsDAOImpl.java:169-200 | the pair's first stored enrollment rebuilt from its columns, with no grade object; none exactly when the pair has no enrollment |
| EnrollmentService.DeleteById | src/main/java/org/example/studentmanagement/service/StudentCourseDetailsServiceImpl.java:41-43 | removes exactly the enrollment with the id |
| EnrollmentService.DeleteByStudentId | src/main/java/org/example/studentmanagement/service/StudentCourseDetailsServiceImpl.java:46-51 | the loop of deletes by id removes exactly the student's enrollments |
| EnrollmentService.DeleteByStudentIdEffect | src/main/java/org/example/studentmanagement/service/StudentCourseDetailsServiceImpl.java:46-51 | afterwards the student has no enrollment, and every other student keeps exactly its enrollments |
| EnrollmentService.DeleteByStudentAndCourseId | src/main/java/org/example/studentmanagement/service/StudentCourseDetailsServiceImpl.java:54-59 | removes the pair's first enrollment when it has one; changes nothing otherwise |
| EnrollmentService.UnenrollEffect | src/main/java/org/example/studentmanagement/service/StudentCourseDetailsServiceImpl.java:54-59 | no enrollment means no change; otherwise the pair loses exactly one enrollment, and a pair with at most one has none left |
| EnrollmentService.DuplicateEnrollmentSurvives | src/main/java/org/example/studentmanagement/service/StudentCourseDetailsServiceImpl.java:54-59 | a pair enrolled two or more times (enrolling does not check) loses one enrollment per unenroll, and its second enrollment becomes its first |
| AdminService.PrepareStudentForCreate | src/main/java/org/example/studentmanagement/service/AdminServiceImpl.java:60-67 | a null course list becomes empty; a given list and every other field are kept |
| AdminService.CreateStudent | src/main/java/org/example/studentmanagement/service/AdminServiceImpl.java:60-67 | the caller's student always ends with a course list, and the student table changes by the store's save of its columns |
| AdminService.PrepareStudentForUpdate | src/main/java/org/example/studentmanagement/service/AdminServiceImpl.java:70-81 | a null list is replaced by the stored student's list when that student exists; a given list is kept; no other field changes |
| AdminService.UpdateStudent | src/main/java/org/example/studentmanagement/service/AdminServiceImpl.java:70-81 | saves the student prepared against the stored one loaded by findById; as that one has no course list, a null list stays null |
| AdminService.PrepareTeacherForCreate | src/main/java/org/example/studentmanagement/service/AdminServiceImpl.java:101-108 | a null course list becomes empty; a given list and every other field are kept |
| AdminService.CreateTeacher | src/main/java/org/example/studentmanagement/service/AdminServiceImpl.java:101-108 | the saved teacher always has a course list, and the teacher table changes by the store's save |
| AdminService.PrepareTeacherForUpdate | src/main/java/org/example/studentmanagement/service/AdminServiceImpl.java:111-122 | a null list inherits the stored teacher's courses when the teacher exists; a given list is not overridden |
| AdminService.UpdateTeacher | src/main/java/org/example/studentmanagement/service/AdminServiceImpl.java:111-122 | saves the prepared teacher, whose stored courses are loaded from the course table |
| AdminService.LoadedUngraded | src/main/java/org/example/studentmanagement/service/AdminServiceImpl.java:86-90 | the loaded enrollments all carry a grade object only when there are none, so the loop's `getGradeDetails().getId()` fails on the first enrollment |
| AdminService.DeleteStudentWithRelatedData | src/main/java/org/example/studentmanagement/service/AdminServiceImpl.java:84-96 | reached only for a student with no enrollment (the loop dereferences the missing grade otherwise); then removes the student row alone |
| AdminController.OfferCourses | src/main/java/org/example/studentmanagement/controller/AdminController.java:152-159 | the in-place `remove(i); i--` loop leaves exactly the courses not in the student's list, in order |
| AdminController.OfferedCourses | src/main/java/org/example/studentmanagement/controller/AdminController.java:152-159 | a course is offered iff it is in the course list and not in the student's list; the order is kept |
| AdminController.NothingEnrolledOffersAll | src/main/java/org/example/studentmanagement/controller/AdminController.java:149-159 | a student whose course list is missing is offered every course |
| AdminController.AddCourseToStudent | src/main/java/org/example/studentmanagement/controller/AdminController.java:143-164 | none for an unknown student (the redirect); otherwise every course, as the loaded student has no course list |
| AdminController.OfferStudents | src/main/java/org/example/studentmanagement/controller/AdminController.java:345-352 | the removal loop leaves exactly the students the course does not list, in order |
| AdminController.OfferedStudents | src/main/java/org/example/studentmanagement/controller/AdminController.java:345-352 | a student is offered iff it is in the student list and the course does not list its id |
| AdminController.AddStudentToCourse | src/main/java/org/example/studentmanagement/controller/AdminController.java:343-358 | the students of the table that course.getStudents() does not contain |
| AdminController.SaveCourseToStudent | src/main/java/org/example/studentmanagement/controller/AdminController.java:166-173 | always appends a new enrollment of the pair, with no duplicate check; the empty grade object it builds is not stored |
| AdminController.SaveStudentToCourse | src/main/java/org/example/studentmanagement/controller/AdminController.java:360-367 | always appends a new enrollment of the pair, without a grade object |
| AdminController.EnrollAddsOne | src/main/java/org/example/studentmanagement/controller/AdminController.java:166-173 | enrolling adds one enrollment of the pair to those already there, and leaves every other pair's enrollments alone |
| AdminController.DeleteGradesOfPair | src/main/java/org/example/studentmanagement/controller/AdminController.java:180-183 | the delete loop removes exactly the grades of the pair |
| AdminController.DeleteCourseFromStudent | src/main/java/org/example/studentmanagement/controller/AdminController.java:176-186 | removes the pair's first enrollment and every grade of the pair |
| AdminController.DeleteStudentFromCourse | src/main/java/org/example/studentmanagement/controller/AdminController.java:330-340 | the same effect as deleteCourseFromStudent |
| AdminController.UnenrollKeepsOthers | src/main/java/org/example/studentmanagement/controller/AdminController.java:176-186 | afterwards the pair has no grade, and every other pair keeps exactly its grades and enrollments |
| AdminController.DetachTeacherEffect | src/main/java/org/example/studentmanagement/controller/AdminController.java:204-216 | after the detach no course names the teacher; courses keep every other field; courses of other teachers are unchanged |
| AdminController.DeleteTeacher | src/main/java/org/example/studentmanagement/controller/AdminController.java:198-219 | an unknown id changes nothing; otherwise each of the teacher's courses loses its teacher, no course is deleted, and the teacher row is deleted |
| AdminController.DeletePairs | src/main/java/org/example/studentmanagement/controller/AdminController.java:302-311 | the loop over the course's students unenrolls each one and deletes the grades of each pair |
| AdminController.DeleteCourse | src/main/java/org/example/studentmanagement/controller/AdminController.java:297-315 | removes the enrollments of the course's listed students, all grades of those pairs, and then the course |
| AdminController.DeleteCourseEffect | src/main/java/org/example/studentmanagement/controller/AdminController.java:297-315 | afterwards an enrolled student has no enrollment and no grade in the course; other courses are untouched |
| TeacherController.DayDifference | src/main/java/org/example/studentmanagement/controller/TeacherController.java:367-382 | due date minus today when it fits an int; -1 exactly when the date does not parse or the cast gives -1 |
| TeacherController.WithDaysRemaining | src/main/java/org/example/studentmanagement/controller/TeacherController.java:89-97 | an empty list becomes null; otherwise each assignment gets its days remaining and nothing else changes |
| TeacherController.GradeOrPlaceholderIs | src/main/java/org/example/studentmanagement/controller/TeacherController.java:103-115 | the shown grade belongs to the pair; it is a stored grade, or the 0/100 placeholder exactly when the pair has none |
| TeacherController.PairGrades | src/main/java/org/example/studentmanagement/controller/TeacherController.java:139-155 | one grade per student, in student order, each the pair's first grade or the placeholder |
| TeacherController.ShowTeacherCourseDetails | src/main/java/org/example/studentmanagement/controller/TeacherController.java:82-129 | the course's assignments with days remaining (null if none), and the grade list when the course has students |
| TeacherController.EditGradesForm | src/main/java/org/example/studentmanagement/controller/TeacherController.java:133-168 | one grade or placeholder per student of the course |
| TeacherController.FindGradeForTitle | src/main/java/org/example/studentmanagement/controller/TeacherController.java:278-287 | the search loop returns the first grade whose assignment name is the title, or null |
| TeacherController.GradeForTitleOfPair | src/main/java/org/example/studentmanagement/controller/TeacherController.java:278-287 | searching the pair's grades by title is searching the table for a grade of the pair with the title |
| TeacherController.PreparedGrade | src/main/java/org/example/studentmanagement/controller/TeacherController.java:289-299 | the saved grade has the existing grade's id if there is one, the path's student, course and teacher, the assignment's title and today's date; score and feedback are as submitted |
| TeacherController.GradeAssignmentForStudent | src/main/java/org/example/studentmanagement/controller/TeacherController.java:268-305 | updates the pair's grade for the title when one exists, and inserts otherwise |
| TeacherController.GradingUpserts | src/main/java/org/example/studentmanagement/controller/TeacherController.java:277-302 | after grading, the title search finds the saved grade; the number of the pair's grades for the title stays the same when one existed, and is 1 otherwise |
| TeacherController.PreparedAssignment | src/main/java/org/example/studentmanagement/controller/TeacherController.java:335-341 | the path's course and teacher, today's date, and status "active" exactly when none or an empty one was given |
| TeacherController.SaveAssignment | src/main/java/org/example/studentmanagement/controller/TeacherController.java:322-362 | a form with an empty title or no due date changes nothing; otherwise saves the prepared assignment, then appends one not-done completion record per student of the course |
| TeacherController.InsertCompletions | src/main/java/org/example/studentmanagement/controller/TeacherController.java:349-356 | the loop appends the fan-out records with consecutive ids, and the counter advances by the number of students |
| TeacherController.FanOutPointsAtEnrollments | src/main/java/org/example/studentmanagement/controller/TeacherController.java:349-356 | every inserted record is not done, names the assignment, and points at an enrollment of its student in the course |
| TeacherController.FanOutMakesIncomplete | src/main/java/org/example/studentmanagement/controller/TeacherController.java:349-356 | right after the fan-out, every student of the course has status "incomplete" for the new assignment |
| TeacherController.DeleteAssignment | src/main/java/org/example/studentmanagement/controller/TeacherController.java:259-265 | removes only the assignment row; completion records and grades are untouched |
| TeacherController.DeleteAssignmentEffect | src/main/java/org/example/studentmanagement/controller/TeacherController.java:259-265 | afterwards no assignment has the id, and every other assignment remains |
| TeacherController.StatusCases | src/main/java/org/example/studentmanagement/controller/TeacherController.java:210-223 | not enrolled iff no enrollment; not assigned iff no completion record; incomplete iff isDone is 0; completed otherwise |
| TeacherController.LabelsDistinct | src/main/java/org/example/studentmanagement/controller/TeacherController.java:216-237 | the four status texts are pairwise distinct |
| TeacherController.RosterNeverNotEnrolled | src/main/java/org/example/studentmanagement/controller/TeacherController.java:210-240 | students listed by the course never show "not enrolled" |
| TeacherController.StudentRow | src/main/java/org/example/studentmanagement/controller/TeacherController.java:211-238 | one student's status, and the grade recorded for the title when the student is enrolled |
| TeacherController.StatusRows | src/main/java/org/example/studentmanagement/controller/TeacherController.java:210-240 | the loop builds the status list and the grade list, one entry per student |
| TeacherController.ShowAssignmentDetails | src/main/java/org/example/studentmanagement/controller/TeacherController.java:196-255 | as many statuses and grades as students, in student order, each as characterised above |
| StudentController.DayDifference | src/main/java/org/example/studentmanagement/controller/StudentController.java:211-229 | due date minus today when it fits an int; 0 for a null or unparsable date |
| StudentController.DayDifferenceSign | src/main/java/org/example/studentmanagement/controller/StudentController.java:219-223 | negative exactly when overdue; 0 exactly when due today or without a usable date |
| StudentController.DayDifferencesCompared | src/main/java/org/example/studentmanagement/controller/StudentController.java:212-229 | agrees with the teacher screen's figure on every parsed date; gives 0 where the teacher screen gives -1 |
| StudentController.SetDaysRemaining | src/main/java/org/example/studentmanagement/controller/StudentController.java:98-101 | each assignment gets its days remaining, and nothing else changes |
| StudentController.CourseGradeIs | src/main/java/org/example/studentmanagement/controller/StudentController.java:103-117 | the attached grade if any; otherwise a stored grade of the pair, or the empty grade exactly when the pair has none |
| StudentController.ShowStudentCourse | src/main/java/org/example/studentmanagement/controller/StudentController.java:79-127 | the course's assignments with days remaining; the loaded enrollment has no grade object, so the grade is the pair's first stored grade, or the empty grade when it has none |
| StudentController.ShownCompletionIs | src/main/java/org/example/studentmanagement/controller/StudentController.java:149-160 | the shown record concerns the assignment; it is the stored record if one exists, and otherwise reads as not done |
| StudentController.ShowStudentAssignment | src/main/java/org/example/studentmanagement/controller/StudentController.java:129-184 | nothing (the redirect) exactly when the assignment is missing; otherwise the assignment, the shown record, and the first grade of the pair for the title |
| StudentController.MarkCompletedDone | src/main/java/org/example/studentmanagement/controller/StudentController.java:194-206 | afterwards the pair's record exists with isDone 1; one record is added exactly when there was none; other rows are unchanged; ids stay distinct |
| StudentController.MarkCompletedIdempotent | src/main/java/org/example/studentmanagement/controller/StudentController.java:195-205 | marking twice leaves the table and the counter as marking once |
| StudentController.MarkedIsCompleted | src/main/java/org/example/studentmanagement/controller/StudentController.java:194-206 | after marking, the teacher's status screen shows the student as completed |
| StudentController.MarkedShowsDone | src/main/java/org/example/studentmanagement/controller/StudentController.java:194-206 | after marking, the student's assignment screen shows the record as done |
| StudentController.MarkAsCompleted | src/main/java/org/example/studentmanagement/controller/StudentController.java:186-209 | without an enrollment nothing changes; otherwise the record is created if missing, set done and saved |
| GradeDetails.Percentage | src/main/java/org/example/studentmanagement/entity/GradeDetails.java:113-118 | with a positive maximum, percentage times maximum is score times 100; otherwise 0 |
| GradeDetails.PercentageEnds | src/test/java/org/example/studentmanagement/entity/GradeDetailsTest.java:99-115 | score 0 gives 0 and a full score gives 100 |
| GradeDetails.PercentageBounds | src/main/java/org/example/studentmanagement/entity/GradeDetails.java:113-118 | a score within 0..max gives 0..100, and a higher score never gives a lower percentage |
| GradeDetails.GradeEquals | src/main/java/org/example/studentmanagement/entity/GradeDetails.java:120-132 | true exactly for another grade with the same id |
| GradeDetails.GradeEqualsEquivalence | src/main/java/org/example/studentmanagement/entity/GradeDetails.java:120-132 | reflexive, symmetric and transitive; ignores every field but the id; false for null and other classes |
| CourseService.FilterCourses | src/main/java/org/example/studentmanagement/service/CourseService.java:55-71 | a null or blank keyword returns the list unchanged; the result is never longer |
| CourseService.FilterCoursesKeeps | src/main/java/org/example/studentmanagement/service/CourseService.java:60-70 | keeps a course iff the lower-cased, trimmed keyword occurs in its code, name or teacher's name; order is kept |
| CourseService.ParseSortOption | src/main/java/org/example/studentmanagement/service/CourseService.java:88-111 | each of the four options is chosen iff the lower-cased option equals its name |
| CourseService.SortCourses | src/main/java/org/example/studentmanagement/service/CourseService.java:81-112 | a null, blank or unknown option returns the list unchanged |
| CourseService.KnownOptionIsNotBlank | src/main/java/org/example/studentmanagement/service/CourseService.java:81-88 | a recognised option is never blank, so it always sorts |
| CourseService.SortCoursesPermutes | src/main/java/org/example/studentmanagement/service/CourseService.java:81-112 | sorting returns a permutation of the list |
| CourseService.SortCoursesOrders | src/main/java/org/example/studentmanagement/service/CourseService.java:88-105 | ordered by the chosen key ("" for no teacher, a null schedule last), equal keys in original order |
| CourseService.ConvertToViews | src/main/java/org/example/studentmanagement/service/CourseService.java:120-131 | one view per course, in order, each carrying the list size |
| CourseService.GetStudentCourses | src/main/java/org/example/studentmanagement/service/CourseService.java:142-158 | none (the exception) exactly when the student does not exist |
| CourseService.StudentCoursesOrdered | src/main/java/org/example/studentmanagement/service/CourseService.java:142-158 | row i is the view of the i-th course of the sorted list, which holds the courses the keyword finds, in the chosen key's order with ties in filtered order, or in filtered order when no known option is given |
| CourseService.StudentCoursesRows | src/main/java/org/example/studentmanagement/service/CourseService.java:142-158 | exactly one row per course the keyword finds; every row's total is the number of rows |
| StudentCourses.ViewMyCourses | src/main/java/org/example/studentmanagement/entity/Student.java:44-49 | as many courses as "ACTIVE" enrollments |
| StudentCourses.ViewMyCoursesActive | src/main/java/org/example/studentmanagement/entity/Student.java:44-49 | a course is listed iff it is the course of an enrollment whose status is exactly "ACTIVE" |
| StudentCourses.FilterCourses | src/main/java/org/example/studentmanagement/entity/Student.java:51-56 | never more courses than the active ones |
| StudentCourses.FilterCoursesKeeps | src/main/java/org/example/studentmanagement/entity/Student.java:51-56 | keeps an active course iff the lower-cased keyword occurs in its name or code; order kept; an empty keyword keeps all |
| StudentCourses.SortFieldOf | src/main/java/org/example/studentmanagement/entity/Student.java:58-70 | only "name" and "code" choose a sort field |
| StudentCourses.SortCourses | src/main/java/org/example/studentmanagement/entity/Student.java:58-70 | any other option returns the active courses unchanged |
| StudentCourses.SortCoursesSorts | src/main/java/org/example/studentmanagement/entity/Student.java:58-70 | a permutation of the active courses, ordered by the chosen key, with equal keys in original order |
| StudentCourses.SortOptionIgnoresCase | src/main/java/org/example/studentmanagement/entity/Student.java:60-64 | "NAME" sorts by name and "Code" by code; "teacher" and null do not sort |
| StudentAssignments.DaysRemaining | src/main/java/org/example/studentmanagement/service/StudentAssignmentServiceImpl.java:45-51 | -1 for a null date; otherwise due date minus today when it fits an int |
| StudentAssignments.DaysRemainingExamples | src/main/java/org/example/studentmanagement/service/StudentAssignmentServiceImpl.java:45-51 | today+5 gives 5; a null date and yesterday both give -1 |
| StudentAssignments.StatusOf | src/main/java/org/example/studentmanagement/service/StudentAssignmentServiceImpl.java:40 | "COMPLETED" iff done, "PENDING" iff not |
| StudentAssignments.ToResponseCopies | src/main/java/org/example/studentmanagement/service/StudentAssignmentServiceImpl.java:33-43 | id, title, description, due date and course name are copied; the status and days remaining derive from the row |
| StudentAssignments.RepositoryFilter | src/main/java/org/example/studentmanagement/service/StudentAssignmentServiceImpl.java:25-26 | null exactly when the filter is absent or blank; otherwise the filter itself |
| StudentAssignments.GetAssignmentsForStudent | src/main/java/org/example/studentmanagement/service/StudentAssignmentServiceImpl.java:24-31 | exactly one response per repository row, in row order |
| StudentAssignments.BlankFilterIsNoFilter | src/main/java/org/example/studentmanagement/service/StudentAssignmentServiceImpl.java:24-31 | a blank filter lists what no filter lists |
| AuthRedirect.ResolveUrlByRole | src/main/java/org/example/studentmanagement/security/CustomAuthenticationSuccessHandler.java:32-39 | each role maps to its page iff it is that role; any other authority maps to "/login?error" |
| AuthRedirect.RedirectUrl | src/main/java/org/example/studentmanagement/security/CustomAuthenticationSuccessHandler.java:21-25 | no authorities give "/login?error"; otherwise the first authority's page; always one of the four pages |
| AuthRedirect.FirstAuthorityDecides | src/main/java/org/example/studentmanagement/security/CustomAuthenticationSuccessHandler.java:21-25 | authorities after the first never change the redirect |
| AdminDao.AdminStore.constructor | src/main/java/org/example/studentmanagement/dao/AdminDAOImpl.java:16-19 | the list starts with exactly the built-in admin, id 1000 and user name "admin" |
| AdminDao.AdminStore.Save | src/main/java/org/example/studentmanagement/dao/AdminDAOImpl.java:22-25 | removes every admin with the entity's id, then appends the entity; ids stay distinct |
| AdminDao.SaveReplaces | src/main/java/org/example/studentmanagement/dao/AdminDAOImpl.java:22-25 | afterwards exactly one admin has the id and findById finds the entity; a new id grows the list by one, keeping the others in order |
| AdminDao.AdminStore.FindById | src/main/java/org/example/studentmanagement/dao/AdminDAOImpl.java:28-33 | the first admin with the id; null exactly when none has it |
| AdminDao.AdminStore.FindAll | src/main/java/org/example/studentmanagement/dao/AdminDAOImpl.java:36-38 | a copy equal to the current list |
| AdminDao.AdminStore.DeleteById | src/main/java/org/example/studentmanagement/dao/AdminDAOImpl.java:41-43 | removes every admin with the id |
| AdminDao.DeleteByIdRemoves | src/main/java/org/example/studentmanagement/dao/AdminDAOImpl.java:41-43 | afterwards no admin has the id; a missing id leaves the list unchanged |
| AdminDao.AdminStore.Delete | src/main/java/org/example/studentmanagement/dao/AdminDAOImpl.java:46-48 | removes the first admin equal to the entity, if any |
| AdminDao.DeleteRemovesEntity | src/main/java/org/example/studentmanagement/dao/AdminDAOImpl.java:46-48 | deleting a stored admin removes exactly one entry, and no admin then has its id |
| AdminDao.AdminStore.FindByUserName | src/main/java/org/example/studentmanagement/dao/AdminDAOImpl.java:51-55 | the first admin whose user name matches ignoring case; empty exactly when none matches |
| AdminDao.UserNameIgnoresCase | src/main/java/org/example/studentmanagement/dao/AdminDAOImpl.java:51-55 | "ADMIN", "Admin" and "aDmIn" all match "admin"; a different name does not |

## Left out

- The JDBC plumbing (connections, SQL text, result-set mapping), the Spring Data
  repositories and their JPQL query. The store stands in for them.
  `findAssignmentsForStudent` is the `fetch` parameter of
  `StudentAssignments.GetAssignmentsForStudent`.
- Model attributes, redirect strings and the `HashMap<List, List>` shaping of the
  controllers. Each handler returns the lists it puts on the page, or it changes
  the store.
- `LocalDate.now()` and `LocalDate.parse`. Dates are day numbers. `today`, and the
  text `todayText` that `toString()` gives, are parameters. A due date is null,
  unparsable, or a day (`Dates.DueDate`).
- The password encoder. Its output is the constructor's `encodedPassword`
  parameter. Authentication, the session and `sendRedirect` are also left out.
- Floating point: scores and percentages are reals, with no rounding.
- Case mapping is ASCII only. `String.compareTo` is modelled as the order of
  characters, not of UTF-16 code units.
- The duplicated entity classes (JPA versus DAO versions of Course, Teacher and
  AssignmentDetails) are merged into one value per entity. They carry only the
  fields the modelled operations use. Students are compared by id where the source
  relies on `equals`.
- Admin.java and StudentAssignmentResponse.java are not part of this model.
  Their fields are taken from their uses.
- AdminDao.AdminStore.Delete: removes the first admin equal by value. Without
  Admin.java the source's `equals` is unknown; with identity equality,
  `List.remove` removes only that very object.
- Null dereferences are preconditions instead of exceptions:
  - a missing teacher or course in the teacher screens;
  - a missing student in the student screens;
  - a missing course in `deleteCourse`;
  - a missing course in `addStudentToCourse`, but only when there are students.
  `CourseService.GetStudentCourses` models the exception of `getEnrolledCourses`
  as `None`.
- AdminService.DeleteStudentWithRelatedData: the null dereference of
  `getGradeDetails()` is a precondition. `findByStudentId` never loads a grade, so
  the precondition holds only for a student with no enrollment
  (`AdminService.LoadedUngraded`); the exception for any other student is not
  modelled.
- `showStudentCourse` attaches the grade to the loaded enrollment object and the
  assignment list to it, in memory only. Those writes are not saved and are not
  modelled.
- The teacher's course list is loaded with only id, code and name. The course
  update writes only code, name and teacher. The model keeps every other course
  field unchanged, which is the effect on the stored row.
- `addCourseToStudent` compares courses by value. The student DAO never loads a
  student's course list, so every course is offered
  (`AdminController.NothingEnrolledOffersAll`); the removal loop is modelled for
  any list all the same (`AdminController.OfferCourses`).
- TeacherController.SaveAssignment: bean validation is modelled only for its two
  constraints on fields the model has (a non-empty title, a non-null due date).
  A null title cannot be told from an empty one, and binding errors on other
  fields are not modelled.
- Concurrency and transactions: every handler runs alone, and each DAO call
  succeeds.
