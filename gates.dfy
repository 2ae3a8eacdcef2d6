/** The date-window and duplicate checks of the registration views. */
module Gates {
  import opened Records
  import opened Capacity
  import Semesters

  /** `register_course` accepts dates from the registration start up to the
      add/drop deadline (not the registration end). */
  predicate InRegisterWindow(sem: Semester, today: Day)
  {
    sem.registrationStart <= today <= sem.addDropDeadline
  }

  /** `drop_course` accepts dates up to the add/drop deadline. */
  predicate InDropWindow(sem: Semester, today: Day)
  {
    today <= sem.addDropDeadline
  }

  datatype Refusal = NotStarted | AddDropEnded | Full | AlreadyEnrolled

  /** The checks `register_course` makes before the prerequisites, in their order:
      not yet open, add/drop ended, offering full, already actively enrolled. */
  function Screen(sem: Semester, o: Offering, today: Day, alreadyActive: bool): (r: Option<Refusal>)
    ensures r == Some(NotStarted) <==> today < sem.registrationStart
    ensures r == Some(AddDropEnded) <==> sem.registrationStart <= today && sem.addDropDeadline < today
    ensures r == Some(Full) <==> InRegisterWindow(sem, today) && IsFull(o)
    ensures r == Some(AlreadyEnrolled) <==> InRegisterWindow(sem, today) && !IsFull(o) && alreadyActive
    ensures r.None? <==> InRegisterWindow(sem, today) && !IsFull(o) && !alreadyActive
  {
    if today < sem.registrationStart then Some(NotStarted)
    else if today > sem.addDropDeadline then Some(AddDropEnded)
    else if IsFull(o) then Some(Full)
    else if alreadyActive then Some(AlreadyEnrolled)
    else None
  }

  /** Whether `student` has an active program enrollment. */
  predicate InSomeProgram(pes: seq<ProgramEnrollment>, student: nat)
  {
    exists k :: 0 <= k < |pes| && pes[k].student == student && pes[k].active
  }

  datatype PageOutcome = NoCurrentSemester | NotOpenYet(opens: Day) | RegistrationEnded | NotInProgram | Open(semester: nat)

  /** `course_registration`: the page opens only for the current semester, between
      its registration start and registration end, for a student in some program;
      otherwise it names the first of these checks that fails. */
  function RegistrationPage(semesters: seq<Semester>, pes: seq<ProgramEnrollment>, student: nat, today: Day): (r: PageOutcome)
    ensures r.Open? <==>
      var cur := Semesters.CurrentSemester(semesters);
      cur.Some? && semesters[cur.value].registrationStart <= today <= semesters[cur.value].registrationEnd &&
      InSomeProgram(pes, student)
    ensures r.Open? ==> Semesters.CurrentSemester(semesters) == Some(r.semester)
    ensures r == NoCurrentSemester <==> Semesters.CurrentSemester(semesters).None?
    ensures r.NotOpenYet? <==>
      var cur := Semesters.CurrentSemester(semesters);
      cur.Some? && today < semesters[cur.value].registrationStart
    ensures r.NotOpenYet? ==> r.opens == semesters[Semesters.CurrentSemester(semesters).value].registrationStart
    ensures r == RegistrationEnded <==>
      var cur := Semesters.CurrentSemester(semesters);
      cur.Some? && semesters[cur.value].registrationStart <= today && semesters[cur.value].registrationEnd < today
    ensures r == NotInProgram <==>
      var cur := Semesters.CurrentSemester(semesters);
      cur.Some? && semesters[cur.value].registrationStart <= today <= semesters[cur.value].registrationEnd &&
      !InSomeProgram(pes, student)
  {
    var cur := Semesters.CurrentSemester(semesters);
    if cur.None? then NoCurrentSemester
    else
      var sem := semesters[cur.value];
      if today < sem.registrationStart then NotOpenYet(sem.registrationStart)
      else if today > sem.registrationEnd then RegistrationEnded
      else if !InSomeProgram(pes, student) then NotInProgram
      else Open(cur.value)
  }

  /** Between the registration end and the add/drop deadline the registration page
      turns the student away while `register_course` itself still accepts the date. */
  lemma LateAddStillAccepted(semesters: seq<Semester>, pes: seq<ProgramEnrollment>, student: nat, today: Day)
    requires Semesters.CurrentSemester(semesters).Some?
    requires var sem := semesters[Semesters.CurrentSemester(semesters).value];
      sem.registrationStart <= today && sem.registrationEnd < today <= sem.addDropDeadline
    ensures RegistrationPage(semesters, pes, student, today) == RegistrationEnded
    ensures InRegisterWindow(semesters[Semesters.CurrentSemester(semesters).value], today)
  {
  }
}
