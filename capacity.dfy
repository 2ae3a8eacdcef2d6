/** Seat capacity of an offering and the cached `enrolled` counter. */
module Capacity {
  import opened Records

  /** `CourseOffering.available_seats`: seats left; negative when over-enrolled. */
  function AvailableSeats(o: Offering): (r: int)
    ensures r + o.enrolled == o.capacity
  {
    o.capacity - o.enrolled
  }

  /** `CourseOffering.is_full`. */
  predicate IsFull(o: Offering)
  {
    o.enrolled >= o.capacity
  }

  /** An offering is full exactly when it has no seat left. */
  lemma FullIffNoSeats(o: Offering)
    ensures IsFull(o) <==> AvailableSeats(o) <= 0
  {
  }

  /** 1 when `e` is an active enrollment in offering `o`, else 0. */
  function ActiveIn(e: Enrollment, o: nat): nat
  {
    if e.active && e.offering == o then 1 else 0
  }

  /** The number of active enrollments in offering `o`: what `enrolled` caches. */
  function ActiveCount(es: seq<Enrollment>, o: nat): nat
  {
    if es == [] then 0 else ActiveIn(es[0], o) + ActiveCount(es[1..], o)
  }

  /** The counter invariant: every offering's `enrolled` is its number of active enrollments. */
  predicate CounterInvariant(offerings: map<nat, Offering>, es: seq<Enrollment>)
  {
    forall o :: o in offerings ==> offerings[o].enrolled == ActiveCount(es, o)
  }

  /** `enrolled` of offering `o` moved by `delta`, every other offering as it was. */
  function Bump(offerings: map<nat, Offering>, o: nat, delta: int): (r: map<nat, Offering>)
    requires o in offerings
    ensures r.Keys == offerings.Keys
    ensures r[o] == offerings[o].(enrolled := offerings[o].enrolled + delta)
    ensures forall p :: p in offerings && p != o ==> r[p] == offerings[p]
  {
    offerings[o := offerings[o].(enrolled := offerings[o].enrolled + delta)]
  }

  /** Whether some row other than `skip` already pairs `student` with offering `o`
      (the `unique_together ['student', 'course_offering']` constraint). */
  predicate PairTaken(es: seq<Enrollment>, student: nat, o: nat, skip: Option<nat>)
  {
    exists j :: 0 <= j < |es| && (skip.None? || j != skip.value) && es[j].student == student && es[j].offering == o
  }

  /** Whether `student` has an active enrollment in offering `o`. */
  predicate HasActive(es: seq<Enrollment>, student: nat, o: nat)
  {
    exists j :: 0 <= j < |es| && es[j].student == student && es[j].offering == o && es[j].active
  }

  lemma {:induction false} ActiveCountAppend(es: seq<Enrollment>, e: Enrollment, o: nat)
    ensures ActiveCount(es + [e], o) == ActiveCount(es, o) + ActiveIn(e, o)
  {
    if es != [] {
      assert (es + [e])[1..] == es[1..] + [e];
      ActiveCountAppend(es[1..], e, o);
    }
  }

  lemma {:induction false} ActiveCountUpdate(es: seq<Enrollment>, i: nat, e: Enrollment, o: nat)
    requires i < |es|
    ensures ActiveCount(es[i := e], o) == ActiveCount(es, o) - ActiveIn(es[i], o) + ActiveIn(e, o)
  {
    if i > 0 {
      assert es[i := e][1..] == es[1..][i - 1 := e];
      ActiveCountUpdate(es[1..], i - 1, e, o);
    } else {
      assert es[i := e][1..] == es[1..];
    }
  }

  /** Inserting an active enrollment together with one bump of its offering's counter
      keeps the counter invariant. */
  lemma InsertActiveKeepsInvariant(offerings: map<nat, Offering>, es: seq<Enrollment>, e: Enrollment)
    requires CounterInvariant(offerings, es)
    requires e.offering in offerings && e.active
    ensures CounterInvariant(Bump(offerings, e.offering, 1), es + [e])
  {
    forall o | o in offerings
      ensures Bump(offerings, e.offering, 1)[o].enrolled == ActiveCount(es + [e], o)
    {
      ActiveCountAppend(es, e, o);
    }
  }

  /** Inserting an inactive enrollment, which `Enrollment.save` does not count, keeps the invariant. */
  lemma InsertInactiveKeepsInvariant(offerings: map<nat, Offering>, es: seq<Enrollment>, e: Enrollment)
    requires CounterInvariant(offerings, es)
    requires !e.active
    ensures CounterInvariant(offerings, es + [e])
  {
    forall o | o in offerings
      ensures offerings[o].enrolled == ActiveCount(es + [e], o)
    {
      ActiveCountAppend(es, e, o);
    }
  }

  /** Dropping an active enrollment (withdraw it, one decrement) keeps the invariant. */
  lemma DropActiveKeepsInvariant(offerings: map<nat, Offering>, es: seq<Enrollment>, i: nat)
    requires CounterInvariant(offerings, es)
    requires i < |es| && es[i].offering in offerings && es[i].active
    ensures CounterInvariant(Bump(offerings, es[i].offering, -1), es[i := AsWithdrawn(es[i])])
  {
    forall o | o in offerings
      ensures Bump(offerings, es[i].offering, -1)[o].enrolled == ActiveCount(es[i := AsWithdrawn(es[i])], o)
    {
      ActiveCountUpdate(es, i, AsWithdrawn(es[i]), o);
    }
  }

  /** Dropping an enrollment that is already inactive (a second drop) still decrements
      the counter, so the invariant no longer holds afterwards. */
  lemma DoubleDropBreaksInvariant(offerings: map<nat, Offering>, es: seq<Enrollment>, i: nat)
    requires CounterInvariant(offerings, es)
    requires i < |es| && es[i].offering in offerings && !es[i].active
    ensures !CounterInvariant(Bump(offerings, es[i].offering, -1), es[i := AsWithdrawn(es[i])])
  {
    var o := es[i].offering;
    ActiveCountUpdate(es, i, AsWithdrawn(es[i]), o);
    assert Bump(offerings, o, -1)[o].enrolled != ActiveCount(es[i := AsWithdrawn(es[i])], o);
  }

  /** A counter bump whose row insert then fails (re-registering after a drop hits the
      uniqueness constraint) leaves `enrolled` one above the active count. */
  lemma FailedInsertBreaksInvariant(offerings: map<nat, Offering>, es: seq<Enrollment>, o: nat)
    requires CounterInvariant(offerings, es)
    requires o in offerings
    ensures !CounterInvariant(Bump(offerings, o, 1), es)
  {
    assert Bump(offerings, o, 1)[o].enrolled != ActiveCount(es, o);
  }

  /** While the counters agree with the rows, the seats left are the capacity minus
      the active enrollments, and an offering is full exactly when its active
      enrollments reach the capacity. */
  lemma SeatsUnderInvariant(offerings: map<nat, Offering>, es: seq<Enrollment>, o: nat)
    requires CounterInvariant(offerings, es) && o in offerings
    ensures AvailableSeats(offerings[o]) == offerings[o].capacity - ActiveCount(es, o)
    ensures IsFull(offerings[o]) <==> ActiveCount(es, o) >= offerings[o].capacity
  {
  }

  /** One bump of an offering's counter by `delta` moves its seats left by `-delta`
      and leaves every other offering's seats as they were. */
  lemma BumpMovesSeats(offerings: map<nat, Offering>, o: nat, delta: int)
    requires o in offerings
    ensures AvailableSeats(Bump(offerings, o, delta)[o]) == AvailableSeats(offerings[o]) - delta
    ensures forall p :: p in offerings && p != o ==> AvailableSeats(Bump(offerings, o, delta)[p]) == AvailableSeats(offerings[p])
  {
  }
}
