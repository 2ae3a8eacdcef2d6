/** The finance ledger: `FinanceRecord.save` and the running balance it snapshots. */
module Finance {
  import opened Records
  import opened Fees

  /** The four listed transaction types, and any other text, which `save` does not reject. */
  datatype TxType = Fee | Payment | Refund | Adjustment | Unlisted(name: string)

  datatype FinanceRecord = FinanceRecord(
    student: nat,
    program: Option<nat>,
    txType: TxType,
    description: string,
    amount: Cents,
    balanceAfter: Cents,
    date: Day)

  datatype SaveOutcome =
    | NameError            // the `program is None` branch names `Decimal`, which is never imported
    | Saved(balance: Cents)

  predicate IsCredit(t: TxType)
  {
    t == Payment || t == Refund
  }

  /** How an earlier record counts toward "paid": +amount for a payment or refund,
      -amount for every other type. */
  function HistorySign(r: FinanceRecord): int
  {
    if IsCredit(r.txType) then r.amount else -r.amount
  }

  /** How the record being saved counts toward "paid": +amount for a payment or refund,
      -amount for a fee or adjustment, nothing for an unlisted type. */
  function OwnSign(r: FinanceRecord): int
  {
    if IsCredit(r.txType) then r.amount
    else if r.txType == Fee || r.txType == Adjustment then -r.amount
    else 0
  }

  predicate SameKey(r: FinanceRecord, student: nat, program: Option<nat>)
  {
    r.student == student && r.program == program
  }

  /** "Paid" over the first `n` records: the history signs of the records of the given
      (student, program) key, leaving out record `skip`. */
  function Paid(rs: seq<FinanceRecord>, n: nat, student: nat, program: Option<nat>, skip: Option<nat>): int
    requires n <= |rs|
  {
    if n == 0 then 0
    else
      Paid(rs, n - 1, student, program, skip) +
      (if SameKey(rs[n - 1], student, program) && skip != Some(n - 1) then HistorySign(rs[n - 1]) else 0)
  }

  /** The `balance_after` that `save` computes for `rec` against the stored records `rs`. */
  function BalanceAfter(fee: Cents, rs: seq<FinanceRecord>, rec: FinanceRecord, skip: Option<nat>): Cents
  {
    fee - (Paid(rs, |rs|, rec.student, rec.program, skip) + OwnSign(rec))
  }

  function ProgramFee(r: FinanceRecord, programs: map<nat, Program>): Cents
    requires r.program.Some? && r.program.value in programs
  {
    TotalProgramFee(programs[r.program.value])
  }

  /** Every stored record's balance is the one `save` computed when it was appended:
      its program's total fee minus what was paid before it and its own amount. */
  predicate Chained(rs: seq<FinanceRecord>, programs: map<nat, Program>)
  {
    forall i :: 0 <= i < |rs| ==>
      rs[i].program.Some? && rs[i].program.value in programs &&
      rs[i].balanceAfter == BalanceAfter(ProgramFee(rs[i], programs), rs[..i], rs[i], None)
  }

  /** "Paid" over `n` records only reads those records. */
  lemma {:induction false} PaidPrefix(rs: seq<FinanceRecord>, m: nat, n: nat, student: nat, program: Option<nat>, skip: Option<nat>)
    requires n <= m <= |rs|
    ensures Paid(rs[..m], n, student, program, skip) == Paid(rs, n, student, program, skip)
  {
    if n > 0 {
      assert rs[..m][n - 1] == rs[n - 1];
      PaidPrefix(rs, m, n - 1, student, program, skip);
    }
  }

  /** Records of other keys between `a` and `b` add nothing to "paid". */
  lemma {:induction false} PaidSkipsOtherKeys(rs: seq<FinanceRecord>, a: nat, b: nat, student: nat, program: Option<nat>)
    requires a <= b <= |rs|
    requires forall j :: a <= j < b ==> !SameKey(rs[j], student, program)
    ensures Paid(rs, b, student, program, None) == Paid(rs, a, student, program, None)
  {
    if a < b {
      PaidSkipsOtherKeys(rs, a, b - 1, student, program);
    }
  }

  /** Appending a record computed by `save` keeps every balance of the ledger chained. */
  lemma ChainedAppend(rs: seq<FinanceRecord>, rec: FinanceRecord, programs: map<nat, Program>)
    requires Chained(rs, programs)
    requires rec.program.Some? && rec.program.value in programs
    ensures Chained(rs + [rec.(balanceAfter := BalanceAfter(ProgramFee(rec, programs), rs, rec, None))], programs)
  {
    var saved := rec.(balanceAfter := BalanceAfter(ProgramFee(rec, programs), rs, rec, None));
    var rs' := rs + [saved];
    forall i | 0 <= i < |rs'|
      ensures rs'[i].program.Some? && rs'[i].program.value in programs &&
              rs'[i].balanceAfter == BalanceAfter(ProgramFee(rs'[i], programs), rs'[..i], rs'[i], None)
    {
      if i < |rs| {
        assert rs'[..i] == rs[..i] && rs'[i] == rs[i];
      } else {
        assert rs'[..i] == rs;
      }
    }
  }

  /** In a chained ledger whose record `k` has a listed type, its balance is the
      program fee minus the signed amounts of all same-key records up to and including it. */
  lemma ChainIsPrefixSum(rs: seq<FinanceRecord>, programs: map<nat, Program>, k: nat)
    requires Chained(rs, programs) && k < |rs| && !rs[k].txType.Unlisted?
    ensures rs[k].balanceAfter == ProgramFee(rs[k], programs) - Paid(rs, k + 1, rs[k].student, rs[k].program, None)
  {
    PaidPrefix(rs, k, k, rs[k].student, rs[k].program, None);
    assert |rs[..k]| == k;
  }

  /** Appending to a chained ledger moves the key's balance from the last same-key record's:
      a payment or refund of x lowers it by x, a fee or adjustment raises it by x, an
      unlisted type leaves it. With no earlier record of the key it starts from the program fee. */
  lemma AppendStep(rs: seq<FinanceRecord>, programs: map<nat, Program>, rec: FinanceRecord, last: Option<nat>)
    requires Chained(rs, programs)
    requires rec.program.Some? && rec.program.value in programs
    requires last.Some? ==> last.value < |rs| && SameKey(rs[last.value], rec.student, rec.program) &&
                            !rs[last.value].txType.Unlisted?
    requires forall j :: (if last.Some? then last.value + 1 else 0) <= j < |rs| ==> !SameKey(rs[j], rec.student, rec.program)
    ensures var before := if last.Some? then rs[last.value].balanceAfter else ProgramFee(rec, programs);
      var b := BalanceAfter(ProgramFee(rec, programs), rs, rec, None);
      (IsCredit(rec.txType) ==> b == before - rec.amount) &&
      (rec.txType == Fee || rec.txType == Adjustment ==> b == before + rec.amount) &&
      (rec.txType.Unlisted? ==> b == before)
  {
    if last.Some? {
      PaidSkipsOtherKeys(rs, last.value + 1, |rs|, rec.student, rec.program);
      ChainIsPrefixSum(rs, programs, last.value);
    } else {
      PaidSkipsOtherKeys(rs, 0, |rs|, rec.student, rec.program);
    }
  }

  /** Fee 2250.00; a payment of 500.00 leaves 1750.00, then a fee of 200.00 gives 1950.00. */
  lemma WorkedExampleLedger()
    ensures var p := Program("BSC", 2, 120, true, 100000, 5000, 10000, 0);
      var first := FinanceRecord(1, Some(7), Payment, "deposit", 50000, 0, 0);
      var second := FinanceRecord(1, Some(7), Fee, "library", 20000, 0, 1);
      BalanceAfter(TotalProgramFee(p), [], first, None) == 175000 &&
      BalanceAfter(TotalProgramFee(p), [first.(balanceAfter := 175000)], second, None) == 195000
  {
    var first := FinanceRecord(1, Some(7), Payment, "deposit", 50000, 175000, 0);
    assert Paid([first], 1, 1, Some(7), None) == 50000;
  }

  /** The `FinanceRecord` table; a record's primary key is its position. */
  class FinanceLedger {
    var records: seq<FinanceRecord>

    constructor (initial: seq<FinanceRecord>)
      ensures records == initial
    {
      records := initial;
    }

    /** The running total of "paid" over the other records of a key, summed record by record. */
    method PaidSoFar(student: nat, program: Option<nat>, skip: Option<nat>) returns (total: int)
      ensures total == Paid(records, |records|, student, program, skip)
    {
      total := 0;
      var i := 0;
      while i < |records|
        invariant i <= |records|
        invariant total == Paid(records, i, student, program, skip)
      {
        var r := records[i];
        if r.student == student && r.program == program && skip != Some(i) {
          total := total + (if r.txType == Payment || r.txType == Refund then r.amount else -r.amount);
        }
        i := i + 1;
      }
    }

    /** `FinanceRecord.save`: inserts `rec` when `pk` is None, otherwise rewrites record `pk`,
        with `balance_after` recomputed from every other record of its key. */
    method Save(rec: FinanceRecord, pk: Option<nat>, programs: map<nat, Program>) returns (r: SaveOutcome)
      requires pk.Some? ==> pk.value < |records|
      requires rec.program.Some? ==> rec.program.value in programs
      modifies this
      ensures rec.program.None? ==> r == NameError && records == old(records)
      ensures rec.program.Some? ==> r == Saved(BalanceAfter(ProgramFee(rec, programs), old(records), rec, pk))
      ensures r.Saved? && pk.None? ==> records == old(records) + [rec.(balanceAfter := r.balance)]
      ensures r.Saved? && pk.Some? ==> records == old(records)[pk.value := rec.(balanceAfter := r.balance)]
      ensures pk.None? && old(Chained(records, programs)) ==> Chained(records, programs)
    {
      if rec.program.None? {
        return NameError;
      }
      var fee := TotalProgramFee(programs[rec.program.value]);
      var totalPaid := PaidSoFar(rec.student, rec.program, pk);
      if rec.txType == Payment || rec.txType == Refund {
        totalPaid := totalPaid + rec.amount;
      } else if rec.txType == Fee || rec.txType == Adjustment {
        totalPaid := totalPaid - rec.amount;
      }
      var saved := rec.(balanceAfter := fee - totalPaid);
      if pk.None? {
        if Chained(records, programs) {
          ChainedAppend(records, rec, programs);
        }
        records := records + [saved];
      } else {
        records := records[pk.value := saved];
      }
      r := Saved(saved.balanceAfter);
    }
  }
}
