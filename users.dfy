/**
 * A user's course memberships and the four role-guarded operations on them
 * (app/models.py, class User). A teacher has a set of courses taught and a
 * student a set of courses enrolled in; each operation acts only when the
 * user has the matching role and the course is respectively absent or
 * present, and otherwise leaves the user as it was. Courses are identified
 * by their ids.
 */
module Users {

  const TeacherRole := "teacher"
  const StudentRole := "student"

  /** The part of a user the four operations read and write. */
  datatype Membership = Membership(role: string, teaching: set<int>, enrolled: set<int>)

  /** A user as created: role 'student' by default and no memberships. */
  const NewUser := Membership(StudentRole, {}, {})

  /** add_teaching_course */
  function AddTeaching(m: Membership, course: int): (r: Membership)
    ensures r.role == m.role && r.enrolled == m.enrolled
    ensures course in r.teaching <==> course in m.teaching || m.role == TeacherRole
    ensures forall c :: c != course ==> (c in r.teaching <==> c in m.teaching)
    ensures r != m <==> m.role == TeacherRole && course !in m.teaching
  {
    if m.role == TeacherRole && course !in m.teaching then m.(teaching := m.teaching + {course}) else m
  }

  /** remove_teaching_course */
  function RemoveTeaching(m: Membership, course: int): (r: Membership)
    ensures r.role == m.role && r.enrolled == m.enrolled
    ensures course in r.teaching <==> course in m.teaching && m.role != TeacherRole
    ensures forall c :: c != course ==> (c in r.teaching <==> c in m.teaching)
    ensures r != m <==> m.role == TeacherRole && course in m.teaching
  {
    if m.role == TeacherRole && course in m.teaching then m.(teaching := m.teaching - {course}) else m
  }

  /** enroll_in_course */
  function Enroll(m: Membership, course: int): (r: Membership)
    ensures r.role == m.role && r.teaching == m.teaching
    ensures course in r.enrolled <==> course in m.enrolled || m.role == StudentRole
    ensures forall c :: c != course ==> (c in r.enrolled <==> c in m.enrolled)
    ensures r != m <==> m.role == StudentRole && course !in m.enrolled
  {
    if m.role == StudentRole && course !in m.enrolled then m.(enrolled := m.enrolled + {course}) else m
  }

  /** unenroll_from_course */
  function Unenroll(m: Membership, course: int): (r: Membership)
    ensures r.role == m.role && r.teaching == m.teaching
    ensures course in r.enrolled <==> course in m.enrolled && m.role != StudentRole
    ensures forall c :: c != course ==> (c in r.enrolled <==> c in m.enrolled)
    ensures r != m <==> m.role == StudentRole && course in m.enrolled
  {
    if m.role == StudentRole && course in m.enrolled then m.(enrolled := m.enrolled - {course}) else m
  }

  /** The user record; its other columns (name, e-mail, password, ...) are not modelled. */
  class User {
    var role: string
    var teachingCourses: set<int>
    var enrolledCourses: set<int>

    function State(): Membership
      reads this
    {
      Membership(role, teachingCourses, enrolledCourses)
    }

    constructor ()
      ensures State() == NewUser
    {
      role := StudentRole;
      teachingCourses := {};
      enrolledCourses := {};
    }

    method AddTeachingCourse(course: int)
      modifies this
      ensures State() == AddTeaching(old(State()), course)
    {
      if role == TeacherRole && course !in teachingCourses {
        teachingCourses := teachingCourses + {course};
      }
    }

    method RemoveTeachingCourse(course: int)
      modifies this
      ensures State() == RemoveTeaching(old(State()), course)
    {
      if role == TeacherRole && course in teachingCourses {
        teachingCourses := teachingCourses - {course};
      }
    }

    method EnrollInCourse(course: int)
      modifies this
      ensures State() == Enroll(old(State()), course)
    {
      if role == StudentRole && course !in enrolledCourses {
        enrolledCourses := enrolledCourses + {course};
      }
    }

    method UnenrollFromCourse(course: int)
      modifies this
      ensures State() == Unenroll(old(State()), course)
    {
      if role == StudentRole && course in enrolledCourses {
        enrolledCourses := enrolledCourses - {course};
      }
    }
  }

  /** Adding a course to teach twice is the same as adding it once. */
  lemma AddTeachingIdempotent(m: Membership, course: int)
    ensures AddTeaching(AddTeaching(m, course), course) == AddTeaching(m, course)
  {
  }

  /** For a teacher, adding a course not yet taught and removing it again restores the user. */
  lemma AddThenRemoveRestores(m: Membership, course: int)
    requires m.role == TeacherRole && course !in m.teaching
    ensures RemoveTeaching(AddTeaching(m, course), course) == m
  {
    assert AddTeaching(m, course).teaching - {course} == m.teaching;
  }

  /** For a student, enrolling in a new course and leaving it again restores the user. */
  lemma EnrollThenUnenrollRestores(m: Membership, course: int)
    requires m.role == StudentRole && course !in m.enrolled
    ensures Unenroll(Enroll(m, course), course) == m
  {
    assert Enroll(m, course).enrolled - {course} == m.enrolled;
  }

  /** A new user is a student, so the teacher operations leave it unchanged. */
  lemma NewUserIgnoresTeacherOperations(course: int)
    ensures AddTeaching(NewUser, course) == NewUser
    ensures RemoveTeaching(NewUser, course) == NewUser
  {
    assert NewUser.role[0] != TeacherRole[0];
  }

  /**
   * No user is both: when a teacher operation changes a user, every student
   * operation leaves that user unchanged, and the other way round.
   */
  lemma RolesAreExclusive(m: Membership, course: int, other: int)
    ensures (AddTeaching(m, course) != m || RemoveTeaching(m, course) != m) ==>
      Enroll(m, other) == m && Unenroll(m, other) == m
    ensures (Enroll(m, course) != m || Unenroll(m, course) != m) ==>
      AddTeaching(m, other) == m && RemoveTeaching(m, other) == m
  {
    assert StudentRole[0] != TeacherRole[0];
  }
}
