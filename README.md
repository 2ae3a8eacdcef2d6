# Academic ledger of a university-administration app

This project models the bookkeeping rules of a Django university-administration
application and proves properties of them in Dafny. The rules cover:

- **seat capacity**: the cached `CourseOffering.enrolled` counter. `Enrollment.save`
  bumps it and `drop_course` lowers it. `available_seats` and `is_full` are derived from it.
- **the registration gate** of `register_course`. It checks, in this order: the date
  window, capacity, a duplicate active enrollment, then the prerequisites. Prerequisite
  grades are compared as text.
- **the finance ledger**: `FinanceRecord.save` recomputes `balance_after` from the
  history of the same (student, program) pair, against `Program.total_program_fee`.
- **program progress**: `credits_completed` and `progress_percentage`.
- **the single current semester** kept by `Semester.save`, and the views that look
  the current semester up (`course_registration`, `student_courses`).
- **program enrollment** in `program_enrollment_view`.

Representation:

- Money (`DecimalField(decimal_places=2)`) is integer cents. Dates are integer day
  numbers. "Today" is a parameter.
- A table whose keys are handed out by the database is a `seq`, and a row's key is its
  position. A table looked up by a given id is a `map`.
- The tables that the registration views change live in the class `Registrar.Registry`.
  Its state-changing methods are `SaveSemester`, `SaveEnrollment`, `Register`, `Drop`
  and `EnrollInProgram`. Its read-only method `CheckPrerequisites` is the prerequisite
  loop of `register_course`.
- `Valid()` holds the foreign keys of the modelled tables: offering to course and
  semester, enrollment to offering, both ends of a prerequisite, both ends of a
  curriculum entry, and program enrollment to program. It also holds their uniqueness
  constraints: `Semester.code` (core/models.py:237) and the `unique_together` keys of
  offerings, prerequisites, curriculum entries, enrollments and program enrollments
  (core/models.py:277, :212, :227, :319 and :361).
- `Consistent()` is the counter invariant "`enrolled` = number of active enrollments in
  the offering".
- The finance table is the class `Finance.FinanceLedger`.
- Pure rules are functions in the modules `Fees`, `Capacity`, `Grades`, `Semesters`,
  `Prerequisites`, `Gates`, `Progress` and `CourseLists`, with lemmas about them.

Behaviour of the code that the model keeps as written:

- **Non-atomic writes.** Autocommit is assumed, so a write that fails at the database
  keeps the earlier writes of the same request. `Enrollment.save` bumps the counter
  before it inserts the row. `Semester.save` clears every current flag before it writes.
- **Re-registering after a drop.** The duplicate check only looks at active rows, but
  `unique_together ['student', 'course_offering']` covers all rows. So re-registering
  after a drop ends in `IntegrityError` with the counter already bumped, and
  `Registry.Register` then breaks `Consistent()`.
- **Double drop.** `drop_course` never checks `is_active`. A second drop lowers the
  counter again, and `Registry.Drop` keeps `Consistent()` exactly when the dropped
  enrollment was active.
- **Missing `Decimal` import.** `Decimal` is never imported into `core/models.py`, so
  saving a finance record without a program fails (`NameError`) and writes nothing.
- **Unlisted transaction types.** A type outside the four choices is not rejected by
  `save`. Earlier records count it as −amount, but its own save adds nothing for it.
- **Re-saving a finance record.** The balance of a re-saved record (`pk` set) is
  computed from every other record of its pair, later ones included. `Chained`, the
  "balance = fee − prefix sum" invariant, is therefore proved only for appends.

In these places the model follows the code where a reader might expect otherwise:

- `register_course` accepts dates up to `add_drop_deadline` (core/views.py:116), not
  only up to `registration_end`.
- Nothing keeps `enrolled` at or below `capacity`. `Enrollment.save` bumps the counter
  without checking it (core/models.py:325-330), and only `register_course` looks at
  `is_full` (core/views.py:120).
- The duplicate check of `register_course` looks only at active rows (core/views.py:124),
  but the uniqueness constraint covers every row (core/models.py:319).
- `progress_percentage` is 0 whenever `total_credits` is not positive (core/models.py:379).
- The history sum gives −amount to every type other than payment and refund
  (core/models.py:439).
- A failed write does not undo the writes made before it in the same request
  (core/models.py:253-255, core/models.py:327-330).

## Model

| member | source | states |
|---|---|---|
| Fees.FeePerSemester | core/models.py:152-154 | definition |
| Fees.TotalProgramFee | core/models.py:156-158 | definition |
| Fees.TotalFeeMatchesSchedule | core/models.py:152-158 | for a non-negative duration, the total program fee equals a semester-by-semester billing schedule: the registration fee once plus one per-semester fee (tuition + exam + other) for each semester |
| Fees.OneMoreSemester | core/models.py:156-158 | one more semester of duration raises the total fee by exactly one per-semester fee |
| Fees.WorkedExampleFee | core/models.py:152-158 | tuition 1000.00, exam 100.00, other 0, registration 50.00, duration 2 gives 2250.00 |
| Capacity.AvailableSeats | core/models.py:283-284 | definition: seats left, negative when over-enrolled |
| Capacity.IsFull | core/models.py:286-287 | definition |
| Capacity.SeatsUnderInvariant | core/models.py:283-287 | while the counters agree with the rows, the seats left are the capacity minus the active enrollments, and an offering is full exactly when its active enrollments reach the capacity |
| Capacity.BumpMovesSeats | core/models.py:283-284 | moving an offering's counter by d moves its seats left by −d and leaves every other offering's seats unchanged |
| Capacity.FullIffNoSeats | core/models.py:283-287 | an offering is full exactly when no seat is available |
| Capacity.InsertActiveKeepsInvariant | core/models.py:325-330 | inserting an active enrollment together with one bump of its offering's counter keeps every counter equal to its active count |
| Capacity.InsertInactiveKeepsInvariant | core/models.py:327 | an inactive insert, which is not counted, keeps the invariant |
| Capacity.DropActiveKeepsInvariant | core/views.py:159-165 | withdrawing an active enrollment and decrementing its counter keeps the invariant |
| Capacity.DoubleDropBreaksInvariant | core/views.py:151-165 | dropping an already inactive enrollment still decrements, so the invariant fails afterwards |
| Capacity.FailedInsertBreaksInvariant | core/models.py:328-330 | a counter bump whose insert then fails leaves the invariant broken |
| Records.AsWithdrawn | core/views.py:159-160 | a dropped enrollment is inactive and withdrawn, with student, offering, grade and credits kept |
| Grades.AtMostReflexive | core/views.py:137 | every grade passes a threshold equal to itself |
| Grades.AtMostTotal | core/views.py:137 | any two grade strings are ordered one way or the other |
| Grades.AtMostAntisymmetric | core/views.py:137 | two grades each at most the other are equal |
| Grades.AtMostTransitive | core/views.py:137 | the text order on grades is transitive |
| Grades.BlankGradePasses | core/views.py:137 | the blank grade passes every threshold |
| Grades.LetterOrderIsAcademic | core/views.py:136-137 | on the letters A, B, C, D, F a grade passes a threshold exactly when it ranks at least as well |
| Grades.SingleLetterThreshold | core/views.py:137 | a one-letter threshold admits the blank grade, grades whose first letter sorts earlier, and the letter alone, so "IP" fails "I" |
| Semesters.SaveSemester | core/models.py:251-255 | definition: the bulk update of current flags, then the insert or update unless the code is taken; the table never shrinks |
| Semesters.SaveKeepsCodesUnique | core/models.py:237 | a save keeps the semester codes unique, because the write happens only when no other row has the code |
| Semesters.CurrentSaveIsSole | core/models.py:251-255 | after a successful save of a current semester, it is stored under its key and it is the only current row |
| Semesters.CurrentSaveOnlyClearsFlags | core/models.py:253-254 | saving a current semester changes the other rows only by clearing their current flag |
| Semesters.NonCurrentSaveLeavesOthers | core/models.py:251-255 | saving a non-current semester leaves every other row untouched and stores the row unless its code is taken |
| Semesters.FailedCurrentSaveLeavesNoneCurrent | core/models.py:253-255 | a current semester whose code is taken fails to save but has already cleared every current flag |
| Semesters.LatestCurrent | core/views.py:69 | the lookup is None exactly when no row is current, and otherwise gives a current row with the latest start date |
| Semesters.CurrentSemester | core/views.py:52 | definition: the latest current semester among all rows |
| Semesters.SavedCurrentIsFound | core/models.py:251-255 | after a successful save of a current semester the current-semester lookup finds exactly that semester |
| Prerequisites.OptionalNeverBlocks | core/views.py:139 | a non-mandatory prerequisite never blocks registration |
| Prerequisites.BlankGradeSatisfies | core/views.py:130-137 | a completed, active enrollment with the blank grade satisfies a prerequisite whatever its threshold |
| Prerequisites.FirstBlockingExists | core/views.py:129-141 | whenever some prerequisite blocks, a first blocking one exists at or before it |
| Prerequisites.FirstBlockingUnique | core/views.py:129-141 | the first blocking prerequisite is unique |
| Gates.InRegisterWindow | core/views.py:113-118 | definition |
| Gates.InDropWindow | core/views.py:155 | definition |
| Gates.Screen | core/views.py:113-126 | not started exactly when today < registration start; add/drop ended exactly when today is past the add/drop deadline and registration has started; full and duplicate only inside the window and in that order; no refusal exactly when inside the window, not full and not already active |
| Gates.RegistrationPage | core/views.py:69-87 | no current semester, not open yet (with the opening date), registration ended, and not in a program are each given exactly when that check is the first to fail; the page opens exactly when a current semester exists, today is between its registration start and end, and the student has an active program enrollment, and it opens for the semester the lookup finds |
| Gates.LateAddStillAccepted | core/views.py:113-118 | between the registration end and the add/drop deadline the page refuses while the date window of `register_course` still accepts |
| Progress.Contribution | core/models.py:374 | definition |
| Progress.CreditsOf | core/models.py:368-376 | definition |
| Progress.CreditsCompleted | core/models.py:367-376 | definition |
| Progress.FallbackToCourseCredits | core/models.py:374 | a null or zero `credits_earned` counts the course's credits |
| Progress.CreditsAppend | core/models.py:367-376 | a new enrollment row adds its contribution when it is the student's, completed and in a curriculum course, and nothing otherwise |
| Progress.CreditsIgnoreActiveFlag | core/models.py:368-372 | changing an enrollment's active flag never changes the completed credits |
| Progress.CreditsAtLeastRows | core/models.py:373-376 | with course credits of at least 1 and no negative earned credits, every counted row adds at least one credit |
| Progress.ProgressPercentage | core/models.py:378-381 | definition, on exact reals |
| Progress.ProgressBounded | core/models.py:378-381 | completed credits between 0 and the target give a percentage between 0 and 100 |
| Progress.ProgressNotCapped | core/models.py:378-381 | credits beyond a positive target give more than 100 percent, since nothing caps the value |
| Progress.ProgressEndpoints | core/models.py:378-381 | meeting the target exactly gives 100 and no credits gives 0 |
| Progress.ProgressMonotone | core/models.py:378-381 | more completed credits never lower the percentage |
| CourseLists.Split | core/views.py:53-60 | the current list holds only active enrollments of the student in the current semester, the past list only those in other semesters, every such enrollment is in one of them, both lists are in key order, and with no current semester the current list is empty |
| CourseLists.StudentCourses | core/views.py:52-60 | definition: the split against the semester the current-semester lookup finds |
| CourseLists.SplitIsPartition | core/views.py:52-60 | against the current semester the lookup finds, the two lists are disjoint and together hold exactly the student's active enrollments |
| Finance.Paid | core/models.py:433-441 | definition |
| Finance.BalanceAfter | core/models.py:443-449 | definition |
| Finance.ChainedAppend | core/models.py:428-451 | appending a record with the balance `save` computes keeps every stored balance equal to fee − (earlier same-pair history + own amount) |
| Finance.ChainIsPrefixSum | core/models.py:433-449 | in a chained ledger, the balance of a listed-type record is the program fee minus the signed amounts of all same-pair records up to and including it |
| Finance.AppendStep | core/models.py:438-449 | against the last same-pair record, a payment or refund of x lowers the balance by x, a fee or adjustment raises it by x, an unlisted type leaves it; the first record of a pair starts from the program fee |
| Finance.WorkedExampleLedger | core/models.py:428-451 | fee 2250.00, a payment of 500.00 leaves 1750.00, then a fee of 200.00 gives 1950.00 |
| Finance.FinanceLedger.PaidSoFar | core/models.py:433-441 | the record-by-record sum equals "paid": +amount for payments and refunds and −amount otherwise, over the pair's records other than the excluded one |
| Finance.FinanceLedger.Save | core/models.py:428-451 | no program gives NameError and no change; otherwise the balance is fee − (paid by the other records + own signed amount), the record is appended or rewritten with it, and appends keep the ledger chained |
| Registrar.Registry.SaveSemester | core/models.py:251-255 | the semester table becomes `Semesters.SaveSemester` of the old one, the write succeeds exactly when the code is free, and no other table changes |
| Registrar.Registry.SaveEnrollment | core/models.py:325-330 | the counter rises by exactly 1 only for an active first save, and does so even when the write then fails; the write fails exactly when another row has the same (student, offering) |
| Registrar.Registry.CheckPrerequisites | core/views.py:129-141 | None exactly when no mandatory prerequisite of the course lacks a qualifying completed, active enrollment; otherwise the first such prerequisite in iteration order |
| Registrar.Registry.Register | core/views.py:106-145 | not found, then the window, capacity and duplicate refusals, then the first missing prerequisite, each changing nothing; success appends one active registered enrollment and raises `enrolled` by 1, so the offering has one seat fewer; an inactive row for the same pair gives IntegrityError after the bump; `Consistent()` survives exactly when there is no IntegrityError |
| Registrar.Registry.Drop | core/views.py:148-168 | not found unless the key exists and belongs to the student; after the add/drop deadline nothing changes; otherwise the enrollment is withdrawn and inactive and `enrolled` drops by 1, giving the offering one seat more, and `Consistent()` survives exactly when the enrollment was active |
| Registrar.Registry.EnrollInProgram | core/views.py:351-362 | an inactive or missing program is refused, an existing active enrollment in the program is refused, an inactive one fails on uniqueness, otherwise one active row is added with expected graduation = today + 180 days per semester of duration |
| Registrar.RegisterTwice | core/views.py:120-126 | right after a successful registration the same request is refused as a duplicate, or as full when the first took the last seat |

## Left out

- The AI wrappers (`core/ai_service.py`, `core/ai_assignment.py`, `core/ai_care.py`, `core/ai_timetable_creater.py`, `core/ai_quetions_gen.py`) are calls to an outside text-generation service; they are not part of this model.
- The admin configuration (`core/admin.py`), the accounts app and the URL routing are framework glue; they are not part of this model.
- The ORM itself is not modelled. Querysets are sequences and maps. `get_object_or_404` becomes a not-found outcome. Messages, redirects and templates become outcome values.
- Concurrency is not modelled. Every request runs alone, so the race between the `is_full` check and the increment is out of scope.
- Transactions are not modelled: autocommit is assumed, as described above.
- Progress.ProgressPercentage: computed on exact reals, without the rounding of Python floats.
- Money is unbounded integer cents. The `max_digits=10` limit of the decimal columns is not enforced.
- Grades.AtMost: compares by code point, as SQLite's default binary collation does. A database with another text collation may order grades differently.
- Semesters.LatestCurrent: among current semesters with equal start dates it picks the lowest key. The database leaves that choice open.
- Registrar.Registry.CheckPrerequisites: walks the prerequisite rows in table order. `required_prerequisites.all()` has no declared ordering, so the database may return them in another order, and then report a different first missing prerequisite.
- CourseLists.Split: keeps table order. The descending `enrollment_date` display order is not modelled.
- `course_registration`'s listing of offerings and of the student's enrolled offerings is page content and is not modelled.
- `Program.current_students_count` and `Course.enrolled_students_count` are display counts and are not modelled.
- Columns that no rule reads are not modelled: timestamps, `enrollment_date` of an enrollment, and a program enrollment's `status` and `current_semester`.
- `Program.code` uniqueness (core/models.py:86-88) and `unique_together ['department', 'code']` of courses (core/models.py:195) are not modelled: no modelled rule looks a program or a course up by its code, and departments are not modelled.
- Deleting rows is not modelled (cascades, and `SET_NULL` on a finance record's program). A program-less finance record can still be saved, and it fails with `NameError`.
- Changing a program's fees after records were saved is not modelled. The finance lemmas take the program table as fixed.
