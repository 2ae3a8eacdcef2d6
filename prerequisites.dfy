/** What the prerequisite gate of `register_course` asks of a student's history. */
module Prerequisites {
  import opened Records
  import opened Grades

  /** `if prereq.minimum_grade:` is false for a null and for an empty threshold. */
  predicate HasThreshold(p: Prerequisite)
  {
    p.minimumGrade.Some? && p.minimumGrade.value != ""
  }

  /** Row `i` is a completed, active enrollment of `student` in the prerequisite course
      whose grade passes the threshold, if there is one. */
  predicate Qualifies(es: seq<Enrollment>, offerings: map<nat, Offering>, student: nat, p: Prerequisite, i: nat)
    requires Linked(es, offerings) && i < |es|
  {
    var e := es[i];
    && e.student == student
    && offerings[e.offering].course == p.prerequisite
    && e.status == Completed
    && e.active
    && (HasThreshold(p) ==> AtMost(e.grade, p.minimumGrade.value))
  }

  predicate Satisfied(es: seq<Enrollment>, offerings: map<nat, Offering>, student: nat, p: Prerequisite)
    requires Linked(es, offerings)
  {
    exists i :: 0 <= i < |es| && Qualifies(es, offerings, student, p, i)
  }

  /** Prerequisite row `k` stops `student` registering for `course`: it is a mandatory
      prerequisite of that course and no enrollment qualifies for it. */
  predicate Blocks(es: seq<Enrollment>, offerings: map<nat, Offering>, prereqs: seq<Prerequisite>,
                   student: nat, course: nat, k: nat)
    requires Linked(es, offerings) && k < |prereqs|
  {
    prereqs[k].course == course && prereqs[k].mandatory && !Satisfied(es, offerings, student, prereqs[k])
  }

  /** Row `k` is the first blocking prerequisite in iteration order, the one reported. */
  predicate FirstBlocking(es: seq<Enrollment>, offerings: map<nat, Offering>, prereqs: seq<Prerequisite>,
                          student: nat, course: nat, k: nat)
    requires Linked(es, offerings)
  {
    k < |prereqs| && Blocks(es, offerings, prereqs, student, course, k) &&
    forall j :: 0 <= j < k ==> !Blocks(es, offerings, prereqs, student, course, j)
  }

  /** A non-mandatory prerequisite never blocks, whatever the student's history. */
  lemma OptionalNeverBlocks(es: seq<Enrollment>, offerings: map<nat, Offering>, prereqs: seq<Prerequisite>,
                            student: nat, course: nat, k: nat)
    requires Linked(es, offerings) && k < |prereqs| && !prereqs[k].mandatory
    ensures !Blocks(es, offerings, prereqs, student, course, k)
  {
  }

  /** A completed, active enrollment with the blank grade satisfies any threshold. */
  lemma BlankGradeSatisfies(es: seq<Enrollment>, offerings: map<nat, Offering>, student: nat, p: Prerequisite, i: nat)
    requires Linked(es, offerings) && i < |es|
    requires es[i].student == student && offerings[es[i].offering].course == p.prerequisite
    requires es[i].status == Completed && es[i].active && es[i].grade == ""
    ensures Satisfied(es, offerings, student, p)
  {
    assert Qualifies(es, offerings, student, p, i);
  }

  /** Whenever some prerequisite blocks, a first blocking one exists at or before it. */
  lemma {:induction false} FirstBlockingExists(es: seq<Enrollment>, offerings: map<nat, Offering>,
                                               prereqs: seq<Prerequisite>, student: nat, course: nat, k: nat)
    requires Linked(es, offerings) && k < |prereqs| && Blocks(es, offerings, prereqs, student, course, k)
    ensures exists f :: 0 <= f <= k && FirstBlocking(es, offerings, prereqs, student, course, f)
  {
    if !FirstBlocking(es, offerings, prereqs, student, course, k) {
      var j :| 0 <= j < k && Blocks(es, offerings, prereqs, student, course, j);
      FirstBlockingExists(es, offerings, prereqs, student, course, j);
    }
  }

  lemma FirstBlockingUnique(es: seq<Enrollment>, offerings: map<nat, Offering>, prereqs: seq<Prerequisite>,
                            student: nat, course: nat, k1: nat, k2: nat)
    requires Linked(es, offerings)
    requires FirstBlocking(es, offerings, prereqs, student, course, k1)
    requires FirstBlocking(es, offerings, prereqs, student, course, k2)
    ensures k1 == k2
  {
  }
}
