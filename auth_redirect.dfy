/** The page a user is sent to after logging in, chosen from the authorities (role
    names) of the authenticated user. Storing the result in the session and sending the
    redirect are not modelled. */
module AuthRedirect {

  const ADMIN_URL := "/admin/adminPanel"
  const TEACHER_URL := "/teacher/dashboard"
  const STUDENT_URL := "/student/dashboard"
  const ERROR_URL := "/login?error"

  /** resolveUrlByRole: the landing page of each of the three roles; the error page for
      any other authority. */
  function ResolveUrlByRole(authority: string): (url: string)
    ensures authority == "ROLE_ADMIN" <==> url == ADMIN_URL
    ensures authority == "ROLE_TEACHER" <==> url == TEACHER_URL
    ensures authority == "ROLE_STUDENT" <==> url == STUDENT_URL
    ensures authority !in {"ROLE_ADMIN", "ROLE_TEACHER", "ROLE_STUDENT"} <==> url == ERROR_URL
  {
    if authority == "ROLE_ADMIN" then ADMIN_URL
    else if authority == "ROLE_TEACHER" then TEACHER_URL
    else if authority == "ROLE_STUDENT" then STUDENT_URL
    else ERROR_URL
  }

  /** The redirect of onAuthenticationSuccess: the page of the first authority (findFirst
      of the mapped stream), or the error page when there is none. */
  function RedirectUrl(authorities: seq<string>): (url: string)
    ensures |authorities| == 0 ==> url == ERROR_URL
    ensures |authorities| > 0 ==> url == ResolveUrlByRole(authorities[0])
    ensures url in {ADMIN_URL, TEACHER_URL, STUDENT_URL, ERROR_URL}
  {
    if |authorities| == 0 then ERROR_URL else ResolveUrlByRole(authorities[0])
  }

  /** Only the first authority decides: a user whose first authority is a student role
      lands on the student page whatever roles follow, and one whose first authority is
      unknown lands on the error page even when a known role follows. */
  lemma FirstAuthorityDecides(first: string, rest: seq<string>, other: seq<string>)
    ensures RedirectUrl([first] + rest) == RedirectUrl([first] + other)
    ensures RedirectUrl(["ROLE_STUDENT", "ROLE_ADMIN"]) == STUDENT_URL
    ensures RedirectUrl(["ROLE_USER", "ROLE_ADMIN"]) == ERROR_URL
  {
  }
}
