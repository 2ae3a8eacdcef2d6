/** The academic tables and the operations that change them: `Semester.save`,
    `Enrollment.save`, `register_course`, `drop_course` and `program_enrollment_view`. */
module Registrar {
  import opened Records
  import opened Capacity
  import opened Gates
  import Semesters
  import Prerequisites

  datatype RegisterOutcome =
    | OfferingNotFound
    | Refused(why: Refusal)
    | MissingPrerequisite(code: string)
    | IntegrityError              // the insert hit `unique_together` after the counter was bumped
    | Enrolled(id: nat)

  datatype DropOutcome = EnrollmentNotFound | DropDeadlinePassed | Dropped

  datatype ProgramOutcome =
    | ProgramNotFound
    | AlreadyInProgram
    | ProgramIntegrityError       // an inactive row for the same (student, program) blocks the insert
    | EnrolledInProgram(expectedGraduation: Day)

  /** Days a program semester adds to the expected graduation date (6 months of 30 days). */
  const DaysPerSemester := 6 * 30

  /** The foreign keys of the modelled tables resolve. */
  predicate KeysResolve(semesters: seq<Semester>, courses: map<nat, Course>, prerequisites: seq<Prerequisite>,
                        offerings: map<nat, Offering>, enrollments: seq<Enrollment>, programs: map<nat, Program>,
                        curriculum: seq<CurriculumEntry>, programEnrollments: seq<ProgramEnrollment>)
  {
    && (forall o :: o in offerings ==> offerings[o].semester < |semesters| && offerings[o].course in courses)
    && Linked(enrollments, offerings)
    && (forall k :: 0 <= k < |prerequisites| ==> prerequisites[k].course in courses && prerequisites[k].prerequisite in courses)
    && (forall k :: 0 <= k < |curriculum| ==> curriculum[k].program in programs && curriculum[k].course in courses)
    && (forall k :: 0 <= k < |programEnrollments| ==> programEnrollments[k].program in programs)
  }

  /** `unique_together ['course', 'semester', 'section']` of course offerings. */
  predicate OfferingsUnique(offerings: map<nat, Offering>)
  {
    forall o, q :: o in offerings && q in offerings && o != q ==>
      offerings[o].course != offerings[q].course || offerings[o].semester != offerings[q].semester ||
      offerings[o].section != offerings[q].section
  }

  /** `unique_together ['student', 'course_offering']` of enrollments. */
  predicate PairsUnique(es: seq<Enrollment>)
  {
    forall i, j :: 0 <= i < j < |es| ==> es[i].student != es[j].student || es[i].offering != es[j].offering
  }

  /** Moving a seat counter changes no offering's key or foreign keys. */
  lemma BumpKeepsOfferingKeys(semesters: seq<Semester>, courses: map<nat, Course>, offerings: map<nat, Offering>,
                              es: seq<Enrollment>, o: nat, delta: int)
    requires o in offerings && OfferingsUnique(offerings) && Linked(es, offerings)
    requires forall p :: p in offerings ==> offerings[p].semester < |semesters| && offerings[p].course in courses
    ensures OfferingsUnique(Bump(offerings, o, delta)) && Linked(es, Bump(offerings, o, delta))
    ensures forall p :: p in Bump(offerings, o, delta) ==>
      Bump(offerings, o, delta)[p].semester < |semesters| && Bump(offerings, o, delta)[p].course in courses
  {
  }

  /** Writing a row whose (student, offering) pair no other row has keeps the pairs unique. */
  lemma WriteKeepsPairsUnique(es: seq<Enrollment>, e: Enrollment, pk: Option<nat>)
    requires PairsUnique(es) && (pk.Some? ==> pk.value < |es|)
    requires !PairTaken(es, e.student, e.offering, pk)
    ensures pk.None? ==> PairsUnique(es + [e])
    ensures pk.Some? ==> PairsUnique(es[pk.value := e])
  {
  }

  /** The uniqueness constraints of the modelled tables: semester codes, and the
      `unique_together` keys of offerings, prerequisites, curriculum entries,
      enrollments and program enrollments. */
  predicate Unique(semesters: seq<Semester>, prerequisites: seq<Prerequisite>, offerings: map<nat, Offering>,
                   enrollments: seq<Enrollment>, curriculum: seq<CurriculumEntry>,
                   programEnrollments: seq<ProgramEnrollment>)
  {
    && Semesters.CodesUnique(semesters)
    && OfferingsUnique(offerings)
    && (forall i, j :: 0 <= i < j < |prerequisites| ==>
          prerequisites[i].course != prerequisites[j].course || prerequisites[i].prerequisite != prerequisites[j].prerequisite)
    && (forall i, j :: 0 <= i < j < |curriculum| ==>
          curriculum[i].program != curriculum[j].program || curriculum[i].course != curriculum[j].course)
    && PairsUnique(enrollments)
    && (forall i, j :: 0 <= i < j < |programEnrollments| ==>
          programEnrollments[i].student != programEnrollments[j].student ||
          programEnrollments[i].program != programEnrollments[j].program)
  }

  predicate WellFormed(semesters: seq<Semester>, courses: map<nat, Course>, prerequisites: seq<Prerequisite>,
                       offerings: map<nat, Offering>, enrollments: seq<Enrollment>, programs: map<nat, Program>,
                       curriculum: seq<CurriculumEntry>, programEnrollments: seq<ProgramEnrollment>)
  {
    && KeysResolve(semesters, courses, prerequisites, offerings, enrollments, programs, curriculum, programEnrollments)
    && Unique(semesters, prerequisites, offerings, enrollments, curriculum, programEnrollments)
  }

  class Registry {
    var semesters: seq<Semester>
    var courses: map<nat, Course>
    var prerequisites: seq<Prerequisite>
    var offerings: map<nat, Offering>
    var enrollments: seq<Enrollment>
    var programs: map<nat, Program>
    var curriculum: seq<CurriculumEntry>
    var programEnrollments: seq<ProgramEnrollment>

    predicate Valid()
      reads this
    {
      WellFormed(semesters, courses, prerequisites, offerings, enrollments, programs, curriculum, programEnrollments)
    }

    /** The cached seat counters agree with the active enrollment rows. */
    predicate Consistent()
      reads this
    {
      CounterInvariant(offerings, enrollments)
    }

    constructor (semesters: seq<Semester>, courses: map<nat, Course>, prerequisites: seq<Prerequisite>,
                 offerings: map<nat, Offering>, enrollments: seq<Enrollment>, programs: map<nat, Program>,
                 curriculum: seq<CurriculumEntry>, programEnrollments: seq<ProgramEnrollment>)
      requires WellFormed(semesters, courses, prerequisites, offerings, enrollments, programs, curriculum, programEnrollments)
      ensures Valid()
      ensures this.semesters == semesters && this.courses == courses && this.prerequisites == prerequisites
      ensures this.offerings == offerings && this.enrollments == enrollments && this.programs == programs
      ensures this.curriculum == curriculum && this.programEnrollments == programEnrollments
    {
      this.semesters := semesters;
      this.courses := courses;
      this.prerequisites := prerequisites;
      this.offerings := offerings;
      this.enrollments := enrollments;
      this.programs := programs;
      this.curriculum := curriculum;
      this.programEnrollments := programEnrollments;
    }

    /** `Semester.save`: clear every current flag first when the semester is current,
        then insert it (`pk` None) or rewrite row `pk`, unless its code is taken. */
    method SaveSemester(s: Semester, pk: Option<nat>) returns (ok: bool)
      requires Valid() && (pk.Some? ==> pk.value < |semesters|)
      modifies this
      ensures Valid()
      ensures ok == !Semesters.CodeTaken(old(semesters), s, pk)
      ensures semesters == Semesters.SaveSemester(old(semesters), s, pk)
      ensures courses == old(courses) && prerequisites == old(prerequisites) && offerings == old(offerings)
      ensures enrollments == old(enrollments) && programs == old(programs) && curriculum == old(curriculum)
      ensures programEnrollments == old(programEnrollments)
    {
      ok := !Semesters.CodeTaken(semesters, s, pk);
      var before := semesters;
      if s.isCurrent {
        semesters := Semesters.ClearedCurrent(semesters);
      }
      if ok {
        if pk.None? {
          semesters := semesters + [s];
        } else {
          semesters := semesters[pk.value := s];
        }
      }
      assert |before| <= |Semesters.SaveSemester(before, s, pk)|;
      Semesters.SaveKeepsCodesUnique(before, s, pk);
    }

    /** `Enrollment.save`: an active row saved for the first time (`pk` None) bumps its
        offering's counter, and that happens before the row is written, so a write that
        breaks `unique_together ['student', 'course_offering']` keeps the bump. */
    method SaveEnrollment(e: Enrollment, pk: Option<nat>) returns (ok: bool)
      requires Valid() && e.offering in offerings && (pk.Some? ==> pk.value < |enrollments|)
      modifies this
      ensures Valid()
      ensures offerings == if e.active && pk.None? then Bump(old(offerings), e.offering, 1) else old(offerings)
      ensures ok == !PairTaken(old(enrollments), e.student, e.offering, pk)
      ensures enrollments ==
        if !ok then old(enrollments)
        else if pk.None? then old(enrollments) + [e]
        else old(enrollments)[pk.value := e]
      ensures semesters == old(semesters) && courses == old(courses) && prerequisites == old(prerequisites)
      ensures programs == old(programs) && curriculum == old(curriculum) && programEnrollments == old(programEnrollments)
    {
      if e.active && pk.None? {
        BumpKeepsOfferingKeys(semesters, courses, offerings, enrollments, e.offering, 1);
        offerings := Bump(offerings, e.offering, 1);
      }
      ok := !PairTaken(enrollments, e.student, e.offering, pk);
      if ok {
        WriteKeepsPairsUnique(enrollments, e, pk);
        if pk.None? {
          enrollments := enrollments + [e];
        } else {
          enrollments := enrollments[pk.value := e];
        }
      }
    }

    /** The prerequisite loop of `register_course`: walks the prerequisite rows in order
        and stops at the first mandatory prerequisite of `course` that the student has
        no qualifying enrollment for. */
    method CheckPrerequisites(student: nat, course: nat) returns (blocking: Option<nat>)
      requires Valid()
      ensures blocking.None? <==>
        forall k :: 0 <= k < |prerequisites| ==> !Prerequisites.Blocks(enrollments, offerings, prerequisites, student, course, k)
      ensures blocking.Some? ==> Prerequisites.FirstBlocking(enrollments, offerings, prerequisites, student, course, blocking.value)
    {
      var k := 0;
      while k < |prerequisites|
        invariant k <= |prerequisites|
        invariant forall j :: 0 <= j < k ==> !Prerequisites.Blocks(enrollments, offerings, prerequisites, student, course, j)
      {
        var p := prerequisites[k];
        if p.course == course {
          var completed := Prerequisites.Satisfied(enrollments, offerings, student, p);
          if !completed && p.mandatory {
            assert Prerequisites.Blocks(enrollments, offerings, prerequisites, student, course, k);
            return Some(k);
          }
        }
        k := k + 1;
      }
      return None;
    }

    /** The offering exists and is active (`get_object_or_404(..., is_active=True)`). */
    predicate Bookable(offeringId: nat)
      reads this
    {
      offeringId in offerings && offerings[offeringId].active
    }

    function ScreenFor(student: nat, offeringId: nat, today: Day): Option<Refusal>
      reads this
      requires Valid() && Bookable(offeringId)
    {
      var o := offerings[offeringId];
      Screen(semesters[o.semester], o, today, HasActive(enrollments, student, offeringId))
    }

    predicate PrerequisitesMet(student: nat, offeringId: nat)
      reads this
      requires Valid() && Bookable(offeringId)
    {
      forall k :: 0 <= k < |prerequisites| ==>
        !Prerequisites.Blocks(enrollments, offerings, prerequisites, student, offerings[offeringId].course, k)
    }

    /** `register_course`. */
    method Register(student: nat, offeringId: nat, today: Day) returns (r: RegisterOutcome)
      requires Valid()
      modifies this
      ensures Valid()
      ensures semesters == old(semesters) && courses == old(courses) && prerequisites == old(prerequisites)
      ensures programs == old(programs) && curriculum == old(curriculum) && programEnrollments == old(programEnrollments)
      ensures r == OfferingNotFound <==> !old(Bookable(offeringId))
      ensures old(Bookable(offeringId)) ==> (r.Refused? <==> old(ScreenFor(student, offeringId, today)).Some?)
      ensures r.Refused? ==> old(Bookable(offeringId)) && old(ScreenFor(student, offeringId, today)) == Some(r.why)
      ensures old(Bookable(offeringId)) && old(ScreenFor(student, offeringId, today)).None? ==>
        (r.MissingPrerequisite? <==> !old(PrerequisitesMet(student, offeringId)))
      ensures r.MissingPrerequisite? ==> exists k: nat ::
        old(Prerequisites.FirstBlocking(enrollments, offerings, prerequisites, student, offerings[offeringId].course, k)) &&
        r.code == courses[prerequisites[k].prerequisite].code
      ensures r.OfferingNotFound? || r.Refused? || r.MissingPrerequisite? ==>
        offerings == old(offerings) && enrollments == old(enrollments)
      ensures r.Enrolled? || r.IntegrityError? ==>
        offeringId in old(offerings) && offerings == Bump(old(offerings), offeringId, 1)
      ensures r.Enrolled? || r.IntegrityError? ==>
        offeringId in old(offerings) && AvailableSeats(offerings[offeringId]) == AvailableSeats(old(offerings)[offeringId]) - 1
      ensures r.Enrolled? ==>
        r.id == |old(enrollments)| &&
        enrollments == old(enrollments) + [Enrollment(student, offeringId, "", true, Status.Registered, None)]
      ensures r.IntegrityError? ==> enrollments == old(enrollments) && PairTaken(old(enrollments), student, offeringId, None)
      ensures r.Enrolled? || r.IntegrityError? || r.MissingPrerequisite? || r.Refused? || r.OfferingNotFound?
      ensures old(Consistent()) ==> (Consistent() <==> !r.IntegrityError?)
    {
      if offeringId !in offerings || !offerings[offeringId].active {
        return OfferingNotFound;
      }
      var o := offerings[offeringId];
      var refusal := Screen(semesters[o.semester], o, today, HasActive(enrollments, student, offeringId));
      if refusal.Some? {
        return Refused(refusal.value);
      }
      var blocking := CheckPrerequisites(student, o.course);
      if blocking.Some? {
        return MissingPrerequisite(courses[prerequisites[blocking.value].prerequisite].code);
      }
      ghost var before := enrollments;
      ghost var counters := offerings;
      ghost var wasConsistent := Consistent();
      var e := Enrollment(student, offeringId, "", true, Status.Registered, None);
      var ok := SaveEnrollment(e, None);
      if ok {
        if wasConsistent {
          InsertActiveKeepsInvariant(counters, before, e);
        }
        r := Enrolled(|enrollments| - 1);
      } else {
        if wasConsistent {
          FailedInsertBreaksInvariant(counters, before, offeringId);
        }
        r := IntegrityError;
      }
    }

    /** `drop_course`: the enrollment is found by key and student only; its prior
        `is_active` is never checked. */
    method Drop(student: nat, enrollmentId: nat, today: Day) returns (r: DropOutcome)
      requires Valid()
      modifies this
      ensures Valid()
      ensures semesters == old(semesters) && courses == old(courses) && prerequisites == old(prerequisites)
      ensures programs == old(programs) && curriculum == old(curriculum) && programEnrollments == old(programEnrollments)
      ensures r == EnrollmentNotFound <==>
        !(enrollmentId < |old(enrollments)| && old(enrollments)[enrollmentId].student == student)
      ensures r == DropDeadlinePassed <==>
        enrollmentId < |old(enrollments)| && old(enrollments)[enrollmentId].student == student &&
        !InDropWindow(old(semesters[offerings[enrollments[enrollmentId].offering].semester]), today)
      ensures r != Dropped ==> offerings == old(offerings) && enrollments == old(enrollments)
      ensures r == Dropped ==>
        enrollmentId < |old(enrollments)| &&
        enrollments == old(enrollments)[enrollmentId := AsWithdrawn(old(enrollments)[enrollmentId])] &&
        offerings == Bump(old(offerings), old(enrollments)[enrollmentId].offering, -1)
      ensures r == Dropped ==>
        enrollmentId < |old(enrollments)| && old(enrollments)[enrollmentId].offering in offerings &&
        AvailableSeats(offerings[old(enrollments)[enrollmentId].offering]) ==
          AvailableSeats(old(offerings)[old(enrollments)[enrollmentId].offering]) + 1
      ensures r == Dropped && old(Consistent()) ==> (Consistent() <==> old(enrollments)[enrollmentId].active)
    {
      if enrollmentId >= |enrollments| || enrollments[enrollmentId].student != student {
        return EnrollmentNotFound;
      }
      var e := enrollments[enrollmentId];
      if today > semesters[offerings[e.offering].semester].addDropDeadline {
        return DropDeadlinePassed;
      }
      ghost var before := enrollments;
      ghost var counters := offerings;
      ghost var wasConsistent := Consistent();
      var ok := SaveEnrollment(AsWithdrawn(e), Some(enrollmentId));
      assert ok;
      offerings := Bump(offerings, e.offering, -1);
      if wasConsistent {
        if e.active {
          DropActiveKeepsInvariant(counters, before, enrollmentId);
        } else {
          DoubleDropBreaksInvariant(counters, before, enrollmentId);
        }
      }
      r := Dropped;
    }

    /** Whether `student` has a row for `programId`, active or (when `activeOnly` is false) any. */
    predicate InProgram(student: nat, programId: nat, activeOnly: bool)
      reads this
    {
      exists k :: 0 <= k < |programEnrollments| && programEnrollments[k].student == student &&
        programEnrollments[k].program == programId && (activeOnly ==> programEnrollments[k].active)
    }

    /** The POST branch of `program_enrollment_view`. */
    method EnrollInProgram(student: nat, programId: nat, today: Day) returns (r: ProgramOutcome)
      requires Valid()
      modifies this
      ensures Valid()
      ensures semesters == old(semesters) && courses == old(courses) && prerequisites == old(prerequisites)
      ensures offerings == old(offerings) && enrollments == old(enrollments)
      ensures programs == old(programs) && curriculum == old(curriculum)
      ensures r == ProgramNotFound <==> !(programId in programs && programs[programId].active)
      ensures r == AlreadyInProgram <==>
        programId in programs && programs[programId].active && old(InProgram(student, programId, true))
      ensures r == ProgramIntegrityError <==>
        programId in programs && programs[programId].active &&
        !old(InProgram(student, programId, true)) && old(InProgram(student, programId, false))
      ensures !r.EnrolledInProgram? ==> programEnrollments == old(programEnrollments)
      ensures r.EnrolledInProgram? ==>
        programId in programs &&
        r.expectedGraduation == today + programs[programId].duration * DaysPerSemester &&
        programEnrollments == old(programEnrollments) + [ProgramEnrollment(student, programId, today, r.expectedGraduation, true)]
      ensures r.EnrolledInProgram? ==> InProgram(student, programId, true)
    {
      if programId !in programs || !programs[programId].active {
        return ProgramNotFound;
      }
      if InProgram(student, programId, true) {
        return AlreadyInProgram;
      }
      var expectedGraduation := today + programs[programId].duration * DaysPerSemester;
      if InProgram(student, programId, false) {
        return ProgramIntegrityError;
      }
      var pe := ProgramEnrollment(student, programId, today, expectedGraduation, true);
      programEnrollments := programEnrollments + [pe];
      assert programEnrollments[|programEnrollments| - 1] == pe;
      r := EnrolledInProgram(expectedGraduation);
    }
  }

  /** A client of the specifications: right after a successful registration, the same
      student registering again for the same offering on the same day is refused, as a
      duplicate unless the first registration took the last seat. */
  method RegisterTwice(reg: Registry, student: nat, offeringId: nat, today: Day)
    returns (first: RegisterOutcome, second: RegisterOutcome)
    requires reg.Valid()
    modifies reg
    ensures first.Enrolled? ==> second == Refused(AlreadyEnrolled) || second == Refused(Full)
    ensures first.Enrolled? && offeringId in reg.offerings && !IsFull(reg.offerings[offeringId]) ==> second == Refused(AlreadyEnrolled)
  {
    first := reg.Register(student, offeringId, today);
    if first.Enrolled? {
      assert reg.enrollments[first.id] == Enrollment(student, offeringId, "", true, Status.Registered, None);
      assert HasActive(reg.enrollments, student, offeringId);
    }
    ghost var between := reg.offerings;
    second := reg.Register(student, offeringId, today);
    assert first.Enrolled? ==> reg.offerings[offeringId] == between[offeringId];
  }
}
