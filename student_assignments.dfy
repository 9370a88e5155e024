/** StudentAssignmentService: a student's assignments across courses, as response rows
    with a status text and the days remaining. The repository query that produces the
    rows is a parameter (`fetch`), and so is the current date (`today`). */
module StudentAssignments {
  import opened Wrappers
  import opened Text
  import opened Dates

  /** A row of the repository query (StudentAssignmentRow); the due date is a day
      number, or None for a null date. */
  datatype AssignmentRow = AssignmentRow(assignmentId: int, title: string, description: Option<string>,
                                         dueDate: Option<int>, courseName: string, done: bool)

  /** A response row (StudentAssignmentResponse). */
  datatype AssignmentResponse = AssignmentResponse(assignmentId: int, title: string, description: Option<string>,
                                                   dueDate: Option<int>, courseName: string,
                                                   status: string, daysRemaining: int)

  /** calculateDaysRemaining: the whole days from today to the due date, cast to int;
      -1 for a null date. */
  function DaysRemaining(dueDate: Option<int>, today: int): (r: int)
    ensures INT_MIN <= r <= INT_MAX
    ensures dueDate.None? ==> r == -1
    ensures dueDate.Some? && INT_MIN <= dueDate.value - today <= INT_MAX ==> r == DaysBetween(today, dueDate.value)
  {
    match dueDate
    case None => -1
    case Some(d) => ToJavaInt(DaysBetween(today, d))
  }

  /** A date five days ahead leaves 5 days; a null date and a date one day overdue both
      show -1. */
  lemma DaysRemainingExamples(today: int)
    requires INT_MIN + 1 <= today <= INT_MAX - 5
    ensures DaysRemaining(Some(today + 5), today) == 5
    ensures DaysRemaining(None, today) == DaysRemaining(Some(today - 1), today) == -1
  {
  }

  /** The status text of a row. */
  function StatusOf(done: bool): (s: string)
    ensures s == "COMPLETED" <==> done
    ensures s == "PENDING" <==> !done
  {
    if done then "COMPLETED" else "PENDING"
  }

  /** toResponse: the row's id, title, description, due date and course name, its
      status, and its days remaining. */
  function ToResponse(row: AssignmentRow, today: int): AssignmentResponse {
    AssignmentResponse(row.assignmentId, row.title, row.description, row.dueDate, row.courseName,
                       StatusOf(row.done), DaysRemaining(row.dueDate, today))
  }

  /** A response keeps every field of its row and derives the other two from it. */
  lemma ToResponseCopies(row: AssignmentRow, today: int)
    ensures var r := ToResponse(row, today);
            r.assignmentId == row.assignmentId && r.title == row.title && r.description == row.description &&
            r.dueDate == row.dueDate && r.courseName == row.courseName &&
            (r.status == "COMPLETED" <==> row.done) &&
            (r.daysRemaining == -1 <==> row.dueDate.None? || ToJavaInt(row.dueDate.value - today) == -1)
  {
  }

  /** The course-name filter handed to the repository: null when absent or blank. */
  function RepositoryFilter(courseNameFilter: Option<string>): (r: Option<string>)
    ensures r.None? <==> courseNameFilter.None? || IsBlank(courseNameFilter.value)
    ensures r.Some? ==> r == courseNameFilter
  {
    if courseNameFilter.Some? && !IsBlank(courseNameFilter.value) then courseNameFilter else None
  }

  /** getAssignmentsForStudent: the rows the repository returns for the student and the
      filter, each turned into a response, in row order. */
  function GetAssignmentsForStudent(fetch: (int, Option<string>) -> seq<AssignmentRow>, studentId: int,
                                    courseNameFilter: Option<string>, today: int): (r: seq<AssignmentResponse>)
    ensures var rows := fetch(studentId, RepositoryFilter(courseNameFilter));
            |r| == |rows| && forall i :: 0 <= i < |rows| ==> r[i] == ToResponse(rows[i], today)
  {
    var rows := fetch(studentId, RepositoryFilter(courseNameFilter));
    seq(|rows|, i requires 0 <= i < |rows| => ToResponse(rows[i], today))
  }

  /** A blank filter lists the same responses as no filter at all. */
  lemma BlankFilterIsNoFilter(fetch: (int, Option<string>) -> seq<AssignmentRow>, studentId: int,
                              filter: string, today: int)
    requires IsBlank(filter)
    ensures GetAssignmentsForStudent(fetch, studentId, Some(filter), today) ==
            GetAssignmentsForStudent(fetch, studentId, None, today)
  {
  }
}
