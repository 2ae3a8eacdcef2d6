/** Program fees: `Program.total_fee_per_semester` and `Program.total_program_fee`. */
module Fees {
  import opened Records

  /** Tuition, exam and other fees charged for one semester. */
  function FeePerSemester(p: Program): Cents
  {
    p.tuitionFee + p.examFee + p.otherFees
  }

  /** The whole program's fee: the per-semester fees for every semester of the
      duration plus the one-time registration fee, exact in cents. */
  function TotalProgramFee(p: Program): Cents
  {
    FeePerSemester(p) * p.duration + p.registrationFee
  }

  /** An independent billing schedule: the registration fee once, then the
      per-semester fee added semester by semester for `n` semesters. */
  function BilledOver(p: Program, n: nat): Cents
  {
    if n == 0 then p.registrationFee else BilledOver(p, n - 1) + FeePerSemester(p)
  }

  /** After `n` semesters the schedule has billed `n` semester fees and one registration fee. */
  lemma {:induction false} BilledOverClosedForm(p: Program, n: nat)
    ensures BilledOver(p, n) == n * FeePerSemester(p) + p.registrationFee
  {
    if n > 0 {
      BilledOverClosedForm(p, n - 1);
      assert n * FeePerSemester(p) == (n - 1) * FeePerSemester(p) + FeePerSemester(p);
    }
  }

  /** For a program of non-negative duration, the total program fee is exactly what
      the semester-by-semester schedule bills over the whole duration. */
  lemma TotalFeeMatchesSchedule(p: Program)
    requires p.duration >= 0
    ensures TotalProgramFee(p) == BilledOver(p, p.duration)
  {
    BilledOverClosedForm(p, p.duration);
  }

  /** One more semester of duration raises the total fee by exactly one semester's fees. */
  lemma OneMoreSemester(p: Program)
    ensures TotalProgramFee(p.(duration := p.duration + 1)) == TotalProgramFee(p) + FeePerSemester(p)
  {
    var q := p.(duration := p.duration + 1);
    assert FeePerSemester(q) == FeePerSemester(p);
    assert FeePerSemester(p) * (p.duration + 1) == FeePerSemester(p) * p.duration + FeePerSemester(p);
  }

  /** Tuition 1000.00, exam 100.00, other 0.00, registration 50.00 over two semesters: 2250.00. */
  lemma WorkedExampleFee()
    ensures TotalProgramFee(Program("BSC", 2, 120, true, 100000, 5000, 10000, 0)) == 225000
  {
  }
}
