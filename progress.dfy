/** `ProgramEnrollment.credits_completed` and `progress_percentage`. */
module Progress {
  import opened Records

  /** Every enrollment's offering exists and so does that offering's course. */
  predicate Resolved(es: seq<Enrollment>, offerings: map<nat, Offering>, courses: map<nat, Course>)
  {
    Linked(es, offerings) && forall i :: 0 <= i < |es| ==> offerings[es[i].offering].course in courses
  }

  /** The courses listed in a program's curriculum. */
  function CurriculumCourses(curriculum: seq<CurriculumEntry>, program: nat): set<nat>
  {
    set k | 0 <= k < |curriculum| && curriculum[k].program == program :: curriculum[k].course
  }

  /** A row that `credits_completed` sums: the student's, completed, in a curriculum
      course. Neither `is_active` nor duplicates are filtered. */
  predicate Counted(e: Enrollment, offerings: map<nat, Offering>, student: nat, inCurriculum: set<nat>)
    requires e.offering in offerings
  {
    e.student == student && e.status == Completed && offerings[e.offering].course in inCurriculum
  }

  /** `enrollment.credits_earned or course.credits`: a null or zero `credits_earned`
      falls back to the course's credits. */
  function Contribution(e: Enrollment, offerings: map<nat, Offering>, courses: map<nat, Course>): int
    requires e.offering in offerings && offerings[e.offering].course in courses
  {
    if e.creditsEarned.Some? && e.creditsEarned.value != 0 then e.creditsEarned.value
    else courses[offerings[e.offering].course].credits
  }

  function CreditsOf(es: seq<Enrollment>, offerings: map<nat, Offering>, courses: map<nat, Course>,
                     student: nat, inCurriculum: set<nat>): int
    requires Resolved(es, offerings, courses)
  {
    if es == [] then 0
    else
      (if Counted(es[0], offerings, student, inCurriculum) then Contribution(es[0], offerings, courses) else 0) +
      CreditsOf(es[1..], offerings, courses, student, inCurriculum)
  }

  function CreditsCompleted(es: seq<Enrollment>, offerings: map<nat, Offering>, courses: map<nat, Course>,
                            curriculum: seq<CurriculumEntry>, pe: ProgramEnrollment): int
    requires Resolved(es, offerings, courses)
  {
    CreditsOf(es, offerings, courses, pe.student, CurriculumCourses(curriculum, pe.program))
  }

  /** The number of rows `credits_completed` sums over. */
  function CountedRows(es: seq<Enrollment>, offerings: map<nat, Offering>, student: nat, inCurriculum: set<nat>): nat
    requires Linked(es, offerings)
  {
    if es == [] then 0
    else (if Counted(es[0], offerings, student, inCurriculum) then 1 else 0) + CountedRows(es[1..], offerings, student, inCurriculum)
  }

  /** A null or zero `credits_earned` counts the course's credits instead. */
  lemma FallbackToCourseCredits(e: Enrollment, offerings: map<nat, Offering>, courses: map<nat, Course>)
    requires e.offering in offerings && offerings[e.offering].course in courses
    requires e.creditsEarned == None || e.creditsEarned == Some(0)
    ensures Contribution(e, offerings, courses) == courses[offerings[e.offering].course].credits
  {
  }

  /** A new enrollment row adds its contribution when it is counted and nothing otherwise. */
  lemma {:induction false} CreditsAppend(es: seq<Enrollment>, e: Enrollment, offerings: map<nat, Offering>,
                                         courses: map<nat, Course>, student: nat, inCurriculum: set<nat>)
    requires Resolved(es, offerings, courses)
    requires e.offering in offerings && offerings[e.offering].course in courses
    ensures Resolved(es + [e], offerings, courses)
    ensures CreditsOf(es + [e], offerings, courses, student, inCurriculum) ==
            CreditsOf(es, offerings, courses, student, inCurriculum) +
            (if Counted(e, offerings, student, inCurriculum) then Contribution(e, offerings, courses) else 0)
  {
    assert forall i :: 0 <= i < |es| ==> es[i] == (es + [e])[i];
    if es != [] {
      assert (es + [e])[1..] == es[1..] + [e];
      CreditsAppend(es[1..], e, offerings, courses, student, inCurriculum);
    }
  }

  /** The active flag plays no part: deactivating or reactivating a row leaves the credits as they were. */
  lemma {:induction false} CreditsIgnoreActiveFlag(es: seq<Enrollment>, i: nat, b: bool, offerings: map<nat, Offering>,
                                                   courses: map<nat, Course>, student: nat, inCurriculum: set<nat>)
    requires Resolved(es, offerings, courses) && i < |es|
    ensures Resolved(es[i := es[i].(active := b)], offerings, courses)
    ensures CreditsOf(es[i := es[i].(active := b)], offerings, courses, student, inCurriculum) ==
            CreditsOf(es, offerings, courses, student, inCurriculum)
  {
    var es' := es[i := es[i].(active := b)];
    assert forall j :: 0 <= j < |es| ==> es'[j].offering == es[j].offering;
    if i > 0 {
      assert es'[1..] == es[1..][i - 1 := es[i].(active := b)];
      CreditsIgnoreActiveFlag(es[1..], i - 1, b, offerings, courses, student, inCurriculum);
    } else {
      assert es'[1..] == es[1..];
    }
  }

  /** With course credits of at least 1 (the model's validator) and no negative
      `credits_earned`, every counted row adds at least one credit. */
  lemma {:induction false} CreditsAtLeastRows(es: seq<Enrollment>, offerings: map<nat, Offering>,
                                              courses: map<nat, Course>, student: nat, inCurriculum: set<nat>)
    requires Resolved(es, offerings, courses)
    requires forall c :: c in courses ==> courses[c].credits >= 1
    requires forall i :: 0 <= i < |es| && es[i].creditsEarned.Some? ==> es[i].creditsEarned.value >= 0
    ensures CreditsOf(es, offerings, courses, student, inCurriculum) >= CountedRows(es, offerings, student, inCurriculum)
  {
    if es != [] {
      assert forall i :: 0 <= i < |es[1..]| ==> es[1..][i] == es[i + 1];
      CreditsAtLeastRows(es[1..], offerings, courses, student, inCurriculum);
    }
  }

  /** `progress_percentage`, on exact reals: 0 unless the credit target is positive,
      otherwise the completed share of the target as a percentage. */
  function ProgressPercentage(credits: int, totalCredits: int): (r: real)
    ensures totalCredits <= 0 ==> r == 0.0
    ensures totalCredits > 0 ==> r * (totalCredits as real) == 100.0 * (credits as real)
  {
    if totalCredits > 0 then (credits as real / totalCredits as real) * 100.0 else 0.0
  }

  /** Meeting the credit target exactly is 100 percent; no credits is 0 percent. */
  lemma ProgressEndpoints(totalCredits: int)
    requires totalCredits > 0
    ensures ProgressPercentage(totalCredits, totalCredits) == 100.0
    ensures ProgressPercentage(0, totalCredits) == 0.0
  {
    var t := totalCredits as real;
    assert ProgressPercentage(totalCredits, totalCredits) * t == 100.0 * t;
  }

  /** Completed credits within the target give a percentage between 0 and 100. */
  lemma ProgressBounded(credits: int, totalCredits: int)
    requires 0 <= credits <= totalCredits
    ensures 0.0 <= ProgressPercentage(credits, totalCredits) <= 100.0
  {
    if totalCredits > 0 {
      var t := totalCredits as real;
      assert ProgressPercentage(credits, totalCredits) * t <= 100.0 * t;
    }
  }

  /** The percentage is not capped: credits beyond the target give more than 100. */
  lemma ProgressNotCapped(credits: int, totalCredits: int)
    requires 0 < totalCredits < credits
    ensures ProgressPercentage(credits, totalCredits) > 100.0
  {
    var t := totalCredits as real;
    assert ProgressPercentage(credits, totalCredits) * t > 100.0 * t;
  }

  /** More completed credits never lower the percentage. */
  lemma ProgressMonotone(c1: int, c2: int, totalCredits: int)
    requires c1 <= c2
    ensures ProgressPercentage(c1, totalCredits) <= ProgressPercentage(c2, totalCredits)
  {
    if totalCredits > 0 {
      var t := totalCredits as real;
      assert ProgressPercentage(c1, totalCredits) * t <= ProgressPercentage(c2, totalCredits) * t;
    }
  }
}
