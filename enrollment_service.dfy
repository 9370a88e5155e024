/** StudentCourseDetailsService: lookups and deletes of enrollments. */
module EnrollmentService {
  import opened Wrappers
  import opened Seqs
  import opened Tables
  import opened Entities
  import opened Store

  /** findByStudentAndCourseId: an enrollment of the student in the course, the
      first in table order, rebuilt from its columns (so with no grade object), or
      null when the pair has none. */
  function FindByStudentAndCourseId(db: Database, sid: int, cid: int): (r: Option<Enrollment>)
    reads db
    ensures r.Some? ==> r.value.studentId == sid && r.value.courseId == cid && r.value.grade.None?
    ensures r.Some? ==> EnrollmentOf(db.enrollments, sid, cid).Some? &&
                        r.value == EnrollmentColumns(EnrollmentOf(db.enrollments, sid, cid).value)
    ensures r.None? <==> forall i :: 0 <= i < |db.enrollments| ==>
                           !(db.enrollments[i].studentId == sid && db.enrollments[i].courseId == cid)
  {
    var e := EnrollmentOf(db.enrollments, sid, cid);
    if e.None? then None else Some(EnrollmentColumns(e.value))
  }

  /** deleteById: removes the enrollment with that id; a missing id changes nothing. */
  method DeleteById(db: Database, id: int)
    requires db.Valid()
    modifies db`enrollments
    ensures db.Valid()
    ensures db.enrollments == Without(old(db.enrollments), EnrollmentKey, id)
  {
    db.DeleteEnrollment(id);
  }

  /** deleteByStudentId: one deleteById per enrollment of the student found beforehand. */
  method DeleteByStudentId(db: Database, sid: int)
    requires db.Valid()
    modifies db`enrollments
    ensures db.Valid()
    ensures db.enrollments == Filter(old(db.enrollments), Not(OfStudent(sid)))
  {
    ghost var e0 := db.enrollments;
    var details := EnrollmentsOf(db.enrollments, sid);
    DeleteNone(e0, EnrollmentKey, details);
    var i := 0;
    while i < |details|
      invariant 0 <= i <= |details|
      invariant db.Valid()
      invariant db.enrollments == Filter(e0, KeyNotIn(EnrollmentKey, KeySet(details[..i], EnrollmentKey)))
    {
      DeleteNext(e0, EnrollmentKey, details, i);
      DeleteById(db, details[i].id);
      i := i + 1;
    }
    assert details[..i] == details;
    DeleteSelected(e0, EnrollmentKey, db.nextId, OfStudent(sid));
  }

  /** After deleteByStudentId, findByStudentId of that student is empty and every
      other student keeps exactly the enrollments it had. */
  lemma DeleteByStudentIdEffect(es: seq<Enrollment>, sid: int, other: int)
    requires other != sid
    ensures EnrollmentsOf(Filter(es, Not(OfStudent(sid))), sid) == []
    ensures EnrollmentsOf(Filter(es, Not(OfStudent(sid))), other) == EnrollmentsOf(es, other)
  {
    var rest := Filter(es, Not(OfStudent(sid)));
    FilterMembers(es, Not(OfStudent(sid)));
    FilterNone(rest, OfStudent(sid));
    FilterFilter(es, Not(OfStudent(sid)), OfStudent(other), OfStudent(other));
  }

  /** deleteByStudentAndCourseId: deletes the first enrollment of the pair, if any. */
  method DeleteByStudentAndCourseId(db: Database, sid: int, cid: int)
    requires db.Valid()
    modifies db`enrollments
    ensures db.Valid()
    ensures db.enrollments == RemoveFirst(old(db.enrollments), IsPair(sid, cid))
  {
    var detail := FindByStudentAndCourseId(db, sid, cid);
    if detail.Some? {
      WithoutFirst(db.enrollments, EnrollmentKey, db.nextId, IsPair(sid, cid));
      DeleteById(db, detail.value.id);
    }
  }

  /** Unenrolling removes one enrollment of the pair when there is one, and so leaves
      the pair without enrollment when it had at most one; with none it changes nothing. */
  lemma UnenrollEffect(es: seq<Enrollment>, sid: int, cid: int)
    ensures EnrollmentOf(es, sid, cid).None? ==> RemoveFirst(es, IsPair(sid, cid)) == es
    ensures EnrollmentOf(es, sid, cid).Some? ==>
              Count(RemoveFirst(es, IsPair(sid, cid)), IsPair(sid, cid)) == Count(es, IsPair(sid, cid)) - 1
    ensures Count(es, IsPair(sid, cid)) <= 1 ==> EnrollmentOf(RemoveFirst(es, IsPair(sid, cid)), sid, cid).None?
  {
    var p := IsPair(sid, cid);
    RemoveFirstCount(es, p);
    CountZero(es, p);
    CountZero(RemoveFirst(es, p), p);
  }

  /** Enrolling does not check for an existing pair, and unenrolling deletes only the
      first enrollment of the pair: a pair enrolled more than once stays enrolled after
      one unenroll, and its second enrollment becomes its first. */
  lemma DuplicateEnrollmentSurvives(es: seq<Enrollment>, sid: int, cid: int)
    requires Count(es, IsPair(sid, cid)) >= 2
    ensures EnrollmentOf(RemoveFirst(es, IsPair(sid, cid)), sid, cid) == Some(Filter(es, IsPair(sid, cid))[1])
    ensures Count(RemoveFirst(es, IsPair(sid, cid)), IsPair(sid, cid)) == Count(es, IsPair(sid, cid)) - 1
  {
    var p := IsPair(sid, cid);
    CountZero(es, p);
    FilterRemoveFirst(es, p);
    FirstIsFilterHead(RemoveFirst(es, p), p);
  }
}
