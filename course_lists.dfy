/** `student_courses`: a student's active enrollments split into the current
    semester's and the rest. */
module CourseLists {
  import opened Records
  import Semesters

  /** Row `i` is an active enrollment of `student`. */
  predicate Listed(es: seq<Enrollment>, student: nat, i: nat)
    requires i < |es|
  {
    es[i].student == student && es[i].active
  }

  /** Row `i` belongs to the current semester; with no current semester none does
      (a foreign key is never null). */
  predicate InCurrent(es: seq<Enrollment>, offerings: map<nat, Offering>, current: Option<nat>, i: nat)
    requires Linked(es, offerings) && i < |es|
  {
    current.Some? && offerings[es[i].offering].semester == current.value
  }

  predicate Increasing(s: seq<nat>)
  {
    forall a, b :: 0 <= a < b < |s| ==> s[a] < s[b]
  }

  /** The keys of the first `n` rows shown as current and as past enrollments. */
  function Split(es: seq<Enrollment>, offerings: map<nat, Offering>, student: nat, current: Option<nat>, n: nat)
    : (r: (seq<nat>, seq<nat>))
    requires Linked(es, offerings) && n <= |es|
    ensures forall i :: i in r.0 ==> i < n && Listed(es, student, i) && InCurrent(es, offerings, current, i)
    ensures forall i :: i in r.1 ==> i < n && Listed(es, student, i) && !InCurrent(es, offerings, current, i)
    ensures forall i :: 0 <= i < n && Listed(es, student, i) ==> i in r.0 || i in r.1
    ensures Increasing(r.0) && Increasing(r.1)
    ensures current.None? ==> r.0 == []
  {
    if n == 0 then ([], [])
    else
      var (cur, past) := Split(es, offerings, student, current, n - 1);
      assert forall a :: 0 <= a < |cur| ==> cur[a] in cur;
      assert forall a :: 0 <= a < |past| ==> past[a] in past;
      if !Listed(es, student, n - 1) then (cur, past)
      else if InCurrent(es, offerings, current, n - 1) then (cur + [n - 1], past)
      else (cur, past + [n - 1])
  }

  /** The view's two lists, against the semester the current-semester lookup finds. */
  function StudentCourses(es: seq<Enrollment>, offerings: map<nat, Offering>, semesters: seq<Semester>, student: nat)
    : (r: (seq<nat>, seq<nat>))
    requires Linked(es, offerings)
  {
    Split(es, offerings, student, Semesters.CurrentSemester(semesters), |es|)
  }

  /** The two lists are disjoint, and together they hold every active enrollment
      of the student exactly once. */
  lemma SplitIsPartition(es: seq<Enrollment>, offerings: map<nat, Offering>, semesters: seq<Semester>, student: nat)
    requires Linked(es, offerings)
    ensures var (cur, past) := StudentCourses(es, offerings, semesters, student);
      (forall i :: i in cur ==> i !in past) &&
      (forall i :: 0 <= i < |es| ==> (i in cur || i in past <==> Listed(es, student, i))) &&
      Increasing(cur) && Increasing(past)
  {
  }
}
