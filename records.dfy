/** Rows of the academic ledger's tables, as plain values.
    Decimal amounts with two places are integer cents; calendar dates are day numbers;
    a row's primary key is its position in the table that holds it, or a map key. */
module Records {

  datatype Option<T> = None | Some(value: T)

  /** A `DecimalField(decimal_places=2)` amount, scaled by 100. */
  type Cents = int

  /** A calendar date, only ever compared or shifted by whole days. */
  type Day = int

  /** A program's duration (in semesters), credit target, activity flag and fee fields. */
  datatype Program = Program(
    code: string,
    duration: int,
    totalCredits: int,
    active: bool,
    tuitionFee: Cents,
    registrationFee: Cents,
    examFee: Cents,
    otherFees: Cents)

  datatype Course = Course(code: string, credits: int)

  /** An edge "course requires prerequisite"; `minimumGrade` is a nullable grade string. */
  datatype Prerequisite = Prerequisite(
    course: nat,
    prerequisite: nat,
    mandatory: bool,
    minimumGrade: Option<string>)

  datatype CurriculumEntry = CurriculumEntry(
    program: nat,
    course: nat,
    semester: int,
    required: bool,
    creditsContribution: int)

  datatype Semester = Semester(
    code: string,
    startDate: Day,
    endDate: Day,
    isCurrent: bool,
    registrationStart: Day,
    registrationEnd: Day,
    addDropDeadline: Day)

  /** A section of a course in a semester; `enrolled` is the cached seat counter. */
  datatype Offering = Offering(
    course: nat,
    semester: nat,
    section: string,
    capacity: int,
    enrolled: int,
    active: bool)

  datatype Status = Registered | Completed | Withdrawn | Failed

  /** A student's row against one offering; the empty grade means "no grade yet". */
  datatype Enrollment = Enrollment(
    student: nat,
    offering: nat,
    grade: string,
    active: bool,
    status: Status,
    creditsEarned: Option<int>)

  datatype ProgramEnrollment = ProgramEnrollment(
    student: nat,
    program: nat,
    enrollmentDate: Day,
    expectedGraduation: Day,
    active: bool)

  /** Every enrollment refers to an existing offering (the `course_offering` foreign key). */
  predicate Linked(es: seq<Enrollment>, offerings: map<nat, Offering>)
  {
    forall i :: 0 <= i < |es| ==> es[i].offering in offerings
  }

  /** The enrollment as `drop_course` leaves it. */
  function AsWithdrawn(e: Enrollment): (w: Enrollment)
    ensures !w.active && w.status == Status.Withdrawn
    ensures w.student == e.student && w.offering == e.offering
    ensures w.grade == e.grade && w.creditsEarned == e.creditsEarned
  {
    e.(active := false, status := Status.Withdrawn)
  }
}
