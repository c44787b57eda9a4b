/**
 * The read-only facts the classroom consults: which course a session belongs to,
 * who teaches it, and the course and session enrollment tables.
 */
module Courses {
  import opened Common

  /** A session's course, and that course's teacher. */
  datatype SessionInfo = SessionInfo(course: nat, teacher: UserId)

  /** An enrollment row: `target` is a course id in the course table and a session id in the session table. */
  datatype Enrollment = Enrollment(student: UserId, target: nat, status: string)

  datatype Directory = Directory(
    sessions: map<nat, SessionInfo>,
    courseEnrollments: seq<Enrollment>,
    sessionEnrollments: seq<Enrollment>)

  function TeacherOf(dir: Directory, session: nat): Option<UserId> {
    if session in dir.sessions then Some(dir.sessions[session].teacher) else None
  }

  /** `user == session.course.teacher`. */
  predicate IsCourseTeacher(dir: Directory, session: nat, user: UserId) {
    TeacherOf(dir, session) == Some(user)
  }

  /**
   * `Model.objects.filter(student=user, <target>=target[, status=status]).exists()`,
   * evaluated as a scan of the table; `status == None` means any status.
   */
  function HasEnrollment(table: seq<Enrollment>, user: UserId, target: nat, status: Option<string>): (b: bool)
    ensures b <==> exists i :: 0 <= i < |table| && table[i].student == user && table[i].target == target
                              && (status.None? || table[i].status == status.value)
  {
    if table == [] then false
    else
      var last := table[|table| - 1];
      var rest := table[..|table| - 1];
      assert forall i :: 0 <= i < |rest| ==> rest[i] == table[i];
      if last.student == user && last.target == target && (status.None? || last.status == status.value) then true
      else HasEnrollment(rest, user, target, status)
  }

  /**
   * The views' access rule: the course teacher, or anyone with a course enrollment or a
   * session enrollment of any status.
   */
  function ViewAccess(dir: Directory, session: nat, user: UserId): (b: bool)
    ensures b <==> (
      && session in dir.sessions
      && (|| TeacherOf(dir, session) == Some(user)
          || (exists i :: 0 <= i < |dir.courseEnrollments| && dir.courseEnrollments[i].student == user
                          && dir.courseEnrollments[i].target == dir.sessions[session].course)
          || (exists j :: 0 <= j < |dir.sessionEnrollments| && dir.sessionEnrollments[j].student == user
                          && dir.sessionEnrollments[j].target == session)))
  {
    session in dir.sessions &&
    (IsCourseTeacher(dir, session, user)
     || HasEnrollment(dir.courseEnrollments, user, dir.sessions[session].course, None)
     || HasEnrollment(dir.sessionEnrollments, user, session, None))
  }

  /**
   * The live channel's access rule: the course teacher, or a user with an active course
   * enrollment and a confirmed session enrollment.
   */
  function LiveAccess(dir: Directory, session: nat, user: UserId): (b: bool)
    ensures b <==> (
      && session in dir.sessions
      && (|| TeacherOf(dir, session) == Some(user)
          || ((exists i :: 0 <= i < |dir.courseEnrollments| && dir.courseEnrollments[i].student == user
                           && dir.courseEnrollments[i].target == dir.sessions[session].course
                           && dir.courseEnrollments[i].status == "active")
              && (exists j :: 0 <= j < |dir.sessionEnrollments| && dir.sessionEnrollments[j].student == user
                              && dir.sessionEnrollments[j].target == session
                              && dir.sessionEnrollments[j].status == "confirmed"))))
  {
    session in dir.sessions &&
    (IsCourseTeacher(dir, session, user)
     || (HasEnrollment(dir.courseEnrollments, user, dir.sessions[session].course, Some("active"))
         && HasEnrollment(dir.sessionEnrollments, user, session, Some("confirmed"))))
  }

  /** Whoever may join the live channel may also use the request handlers. */
  lemma LiveAccessImpliesViewAccess(dir: Directory, session: nat, user: UserId)
    requires LiveAccess(dir, session, user)
    ensures ViewAccess(dir, session, user)
  {
    if !IsCourseTeacher(dir, session, user) {
      var course := dir.sessions[session].course;
      var i :| 0 <= i < |dir.courseEnrollments| && dir.courseEnrollments[i].student == user
               && dir.courseEnrollments[i].target == course && dir.courseEnrollments[i].status == "active";
      assert HasEnrollment(dir.courseEnrollments, user, course, None);
    }
  }

  /** The converse fails: a bare pending session enrollment opens the views but not the live channel. */
  lemma ViewAccessIsWider()
    ensures exists dir: Directory, session: nat, user: UserId ::
              ViewAccess(dir, session, user) && !LiveAccess(dir, session, user)
  {
    var dir := Directory(map[1 := SessionInfo(7, 100)], [], [Enrollment(5, 1, "pending")]);
    assert dir.sessionEnrollments[0].student == 5 && dir.sessionEnrollments[0].target == 1;
    assert HasEnrollment(dir.sessionEnrollments, 5, 1, None);
    assert !HasEnrollment(dir.courseEnrollments, 5, 7, Some("active"));
    assert ViewAccess(dir, 1, 5) && !LiveAccess(dir, 1, 5);
  }
}
