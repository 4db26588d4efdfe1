/**
 * The math game's participants: a role, a player record, and the teacher and student
 * constructors. The student's random waiting time is drawn outside the model and passed in.
 */
module Players {
  /** Role is a Go `int`; the three named roles are 0, 1 and 2 (iota). */
  type Role = int

  const RoleUnknown: Role := 0
  const RoleTeacher: Role := 1
  const RoleStudent: Role := 2

  /** time.Second in time.Duration's unit, the nanosecond. */
  const Second: int := 1_000_000_000

  /** Role.String: the teacher's and the student's names, "unknown" for every other value. */
  function RoleString(r: Role): (s: string)
    ensures s == "teacher" || s == "student" || s == "unknown"
  {
    if r == RoleTeacher then "teacher"
    else if r == RoleStudent then "student"
    else "unknown"
  }

  /** Each name belongs to exactly the roles Role.String gives it, so distinct names mean distinct roles. */
  lemma RoleStringCases(r: Role)
    ensures RoleString(r) == "teacher" <==> r == RoleTeacher
    ensures RoleString(r) == "student" <==> r == RoleStudent
    ensures RoleString(r) == "unknown" <==> r != RoleTeacher && r != RoleStudent
  {
  }

  /** The fields every participant has; waitTime in nanoseconds. */
  datatype Player = Player(name: string, role: Role, waitTime: int)

  datatype Teacher = Teacher(player: Player)

  /** A student without its answer channel. */
  datatype Student = Student(player: Player, studentId: int)

  /** NewTeacher(name): a teacher of that name who does not wait. */
  function NewTeacher(name: string): (t: Teacher)
    ensures t.player.name == name && t.player.role == RoleTeacher && t.player.waitTime == 0
    ensures RoleString(t.player.role) == "teacher"
  {
    Teacher(Player(name, RoleTeacher, 0))
  }

  /**
   * NewStudent(name, id) with rand.Intn(3) passed in as draw: a student of that name and id
   * whose waiting time is a whole number of seconds between one and three.
   */
  function NewStudent(name: string, id: int, draw: int): (s: Student)
    requires 0 <= draw < 3
    ensures s.player.name == name && s.player.role == RoleStudent && s.studentId == id
    ensures RoleString(s.player.role) == "student"
    ensures Second <= s.player.waitTime <= 3 * Second && s.player.waitTime % Second == 0
  {
    Student(Player(name, RoleStudent, (draw + 1) * Second), id)
  }

  /** The waiting times a student can get are exactly one, two and three seconds, one per draw. */
  lemma StudentWaits(name: string, id: int, w: int)
    ensures (exists draw :: 0 <= draw < 3 && NewStudent(name, id, draw).player.waitTime == w)
      <==> w == Second || w == 2 * Second || w == 3 * Second
  {
    if w == Second {
      assert NewStudent(name, id, 0).player.waitTime == w;
    } else if w == 2 * Second {
      assert NewStudent(name, id, 1).player.waitTime == w;
    } else if w == 3 * Second {
      assert NewStudent(name, id, 2).player.waitTime == w;
    }
  }

  /** Different draws give different waiting times. */
  lemma StudentWaitsDistinct(name: string, id: int, d: int, e: int)
    requires 0 <= d < 3 && 0 <= e < 3 && d != e
    ensures NewStudent(name, id, d).player.waitTime != NewStudent(name, id, e).player.waitTime
  {
  }
}
