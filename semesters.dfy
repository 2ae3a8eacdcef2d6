/** `Semester.save`, which keeps a single current semester, and the
    "current semester" lookup the views use. */
module Semesters {
  import opened Records

  /** The table after the bulk update that clears `is_current` on every row. */
  function ClearedCurrent(rows: seq<Semester>): (r: seq<Semester>)
    ensures |r| == |rows|
    ensures forall i :: 0 <= i < |rows| ==> r[i] == rows[i].(isCurrent := false)
  {
    seq(|rows|, i requires 0 <= i < |rows| => rows[i].(isCurrent := false))
  }

  /** Whether writing `s` (inserted when `pk` is None, else over row `pk`) would
      break the uniqueness of semester codes. */
  predicate CodeTaken(rows: seq<Semester>, s: Semester, pk: Option<nat>)
  {
    exists j :: 0 <= j < |rows| && (pk.None? || j != pk.value) && rows[j].code == s.code
  }

  /** `code = CharField(unique=True)`: no two rows share a code. */
  predicate CodesUnique(rows: seq<Semester>)
  {
    forall i, j :: 0 <= i < j < |rows| ==> rows[i].code != rows[j].code
  }

  /** The key the saved row gets: a fresh key on insert, its own key on update. */
  function SavedKey(rows: seq<Semester>, pk: Option<nat>): nat
  {
    if pk.None? then |rows| else pk.value
  }

  /** The table after `Semester.save`: when the semester is current every row is
      first made non-current, then the row is inserted or updated unless its code
      is taken, in which case the write fails and the bulk update stays. */
  function SaveSemester(rows: seq<Semester>, s: Semester, pk: Option<nat>): (r: seq<Semester>)
    requires pk.Some? ==> pk.value < |rows|
    ensures |rows| <= |r|
  {
    var cleared := if s.isCurrent then ClearedCurrent(rows) else rows;
    if CodeTaken(rows, s, pk) then cleared
    else if pk.None? then cleared + [s]
    else cleared[pk.value := s]
  }

  /** A save keeps the semester codes unique: the write happens only when no other
      row has the code, and clearing the current flags changes no code. */
  lemma SaveKeepsCodesUnique(rows: seq<Semester>, s: Semester, pk: Option<nat>)
    requires pk.Some? ==> pk.value < |rows|
    requires CodesUnique(rows)
    ensures CodesUnique(SaveSemester(rows, s, pk))
  {
    var cleared := if s.isCurrent then ClearedCurrent(rows) else rows;
    assert forall i :: 0 <= i < |rows| ==> cleared[i].code == rows[i].code;
  }

  /** After a successful save of a current semester it is the only current one. */
  lemma CurrentSaveIsSole(rows: seq<Semester>, s: Semester, pk: Option<nat>)
    requires pk.Some? ==> pk.value < |rows|
    requires s.isCurrent && !CodeTaken(rows, s, pk)
    ensures var r := SaveSemester(rows, s, pk);
      SavedKey(rows, pk) < |r| && r[SavedKey(rows, pk)] == s &&
      forall i :: 0 <= i < |r| ==> (r[i].isCurrent <==> i == SavedKey(rows, pk))
  {
  }

  /** Saving a current semester touches no other row's data besides its flag. */
  lemma CurrentSaveOnlyClearsFlags(rows: seq<Semester>, s: Semester, pk: Option<nat>)
    requires pk.Some? ==> pk.value < |rows|
    requires s.isCurrent
    ensures var r := SaveSemester(rows, s, pk);
      |rows| <= |r| &&
      forall i :: 0 <= i < |rows| && i != SavedKey(rows, pk) ==> r[i] == rows[i].(isCurrent := false)
  {
  }

  /** Saving a non-current semester leaves every other row as it was. */
  lemma NonCurrentSaveLeavesOthers(rows: seq<Semester>, s: Semester, pk: Option<nat>)
    requires pk.Some? ==> pk.value < |rows|
    requires !s.isCurrent
    ensures var r := SaveSemester(rows, s, pk);
      |rows| <= |r| &&
      (forall i :: 0 <= i < |rows| && i != SavedKey(rows, pk) ==> r[i] == rows[i]) &&
      (!CodeTaken(rows, s, pk) ==> SavedKey(rows, pk) < |r| && r[SavedKey(rows, pk)] == s)
  {
  }

  /** Because the bulk update runs before the write, a current semester whose code
      is taken leaves the table with no current semester at all. */
  lemma FailedCurrentSaveLeavesNoneCurrent(rows: seq<Semester>, s: Semester, pk: Option<nat>)
    requires pk.Some? ==> pk.value < |rows|
    requires s.isCurrent && CodeTaken(rows, s, pk)
    ensures var r := SaveSemester(rows, s, pk);
      |r| == |rows| && forall i :: 0 <= i < |r| ==> !r[i].isCurrent
  {
  }

  /** `Semester.objects.filter(is_current=True).first()` under the ordering by
      descending start date, among the first `n` rows: a current row with the
      latest start date (the lowest key among equal dates), or None. */
  function LatestCurrent(rows: seq<Semester>, n: nat): (r: Option<nat>)
    requires n <= |rows|
    ensures r.None? <==> forall j :: 0 <= j < n ==> !rows[j].isCurrent
    ensures r.Some? ==> r.value < n && rows[r.value].isCurrent
    ensures r.Some? ==> forall j :: 0 <= j < n && rows[j].isCurrent ==> rows[j].startDate <= rows[r.value].startDate
  {
    if n == 0 then None
    else
      var earlier := LatestCurrent(rows, n - 1);
      if !rows[n - 1].isCurrent then earlier
      else if earlier.Some? && rows[n - 1].startDate <= rows[earlier.value].startDate then earlier
      else Some(n - 1)
  }

  function CurrentSemester(rows: seq<Semester>): Option<nat>
  {
    LatestCurrent(rows, |rows|)
  }

  /** After a successful save of a current semester, the views find exactly that semester. */
  lemma SavedCurrentIsFound(rows: seq<Semester>, s: Semester, pk: Option<nat>)
    requires pk.Some? ==> pk.value < |rows|
    requires s.isCurrent && !CodeTaken(rows, s, pk)
    ensures CurrentSemester(SaveSemester(rows, s, pk)) == Some(SavedKey(rows, pk))
  {
    CurrentSaveIsSole(rows, s, pk);
  }
}
