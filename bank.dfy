/**
 * The derived ledger (src/server/bank.ts). Nothing stores a balance: it is
 * recomputed on every read from the kid's approved chores, the approved jobs
 * the kid claimed and three kinds of ledger row. The rows the three parent
 * actions append are built here; module Server appends them.
 */
module Bank {
  import opened Wrappers
  import opened Schema
  import Tables
  import Chores
  import Jobs
  import Auth

  // ------------------------------------------------------------ the scans behind the balance

  /** A row of the join of an approved chore instance with its template. */
  datatype ChoreCredit = ChoreCredit(instance: ChoreInstance, template: ChoreTemplate)

  /** The join condition and WHERE of the approved-chores scan, for one kid. */
  function ChoreJoin(templates: seq<ChoreTemplate>, kidId: Id): ChoreInstance -> Option<ChoreCredit> {
    (i: ChoreInstance) =>
      if i.assignedToId == kidId && i.status.Approved? then
        var t := FindTemplate(templates, i.templateId);
        if t.Some? then Some(ChoreCredit(i, t.value)) else None
      else None
  }

  /** The kid's approved chore instances joined with their templates. */
  function ApprovedChores(instances: seq<ChoreInstance>, templates: seq<ChoreTemplate>, kidId: Id): (r: seq<ChoreCredit>)
    ensures forall c :: c in r ==>
      && c.instance in instances && c.instance.assignedToId == kidId && c.instance.status.Approved?
      && FindTemplate(templates, c.instance.templateId) == Some(c.template)
    ensures forall i ::
      (i in instances && i.assignedToId == kidId && i.status.Approved? && FindTemplate(templates, i.templateId).Some?) ==>
      ChoreCredit(i, FindTemplate(templates, i.templateId).value) in r
  {
    var r := Tables.FilterMap(instances, ChoreJoin(templates, kidId));
    assert forall i ::
      (i in instances && i.assignedToId == kidId && i.status.Approved? && FindTemplate(templates, i.templateId).Some?) ==>
      ChoreJoin(templates, kidId)(i) == Some(ChoreCredit(i, FindTemplate(templates, i.templateId).value));
    r
  }

  function CreditValue(c: ChoreCredit): real {
    c.template.value
  }

  /** choreEarnings: the template values of the kid's approved chores. */
  function ChoreEarnings(instances: seq<ChoreInstance>, templates: seq<ChoreTemplate>, kidId: Id): real {
    Tables.SumOf(ApprovedChores(instances, templates, kidId), CreditValue)
  }

  /** The WHERE of the approved-jobs scan: claimed by the kid and approved. */
  function JobCredit(kidId: Id): Job -> bool {
    (j: Job) => j.claimedById == Some(kidId) && j.status.Approved?
  }

  function ApprovedJobs(jobs: seq<Job>, kidId: Id): (r: seq<Job>)
    ensures forall j :: j in r <==> j in jobs && j.claimedById == Some(kidId) && j.status.Approved?
  {
    Tables.Filter(jobs, JobCredit(kidId))
  }

  function Payment(j: Job): real {
    j.paymentAmount
  }

  /** jobEarnings: the payment amounts of the approved jobs the kid claimed. */
  function JobEarnings(jobs: seq<Job>, kidId: Id): real {
    Tables.SumOf(ApprovedJobs(jobs, kidId), Payment)
  }

  /** The WHERE of a ledger scan: the kid's rows of one type. */
  function OfKind(kidId: Id, kind: TransactionType): Transaction -> bool {
    (t: Transaction) => t.userId == kidId && t.kind == kind
  }

  function KindRows(transactions: seq<Transaction>, kidId: Id, kind: TransactionType): (r: seq<Transaction>)
    ensures forall t :: t in r <==> t in transactions && t.userId == kidId && t.kind == kind
  {
    Tables.Filter(transactions, OfKind(kidId, kind))
  }

  function Amount(t: Transaction): real {
    t.amount
  }

  /** Math.abs(amount). */
  function Magnitude(t: Transaction): (m: real)
    ensures m >= 0.0 && (m == t.amount || m == -t.amount)
  {
    if t.amount < 0.0 then -t.amount else t.amount
  }

  function AllowanceEarnings(transactions: seq<Transaction>, kidId: Id): real {
    Tables.SumOf(KindRows(transactions, kidId, WeeklyAllowance), Amount)
  }

  function Adjustments(transactions: seq<Transaction>, kidId: Id): real {
    Tables.SumOf(KindRows(transactions, kidId, Adjustment), Amount)
  }

  /** totalPayouts: the magnitudes of the kid's payout rows, whatever sign they were stored with. */
  function TotalPayouts(transactions: seq<Transaction>, kidId: Id): (r: real)
    ensures r >= 0.0
  {
    var rows := KindRows(transactions, kidId, Payout);
    Tables.SumOfNonNegative(rows, Magnitude);
    Tables.SumOf(rows, Magnitude)
  }

  // ------------------------------------------------------------ getBalance

  /** The object getBalance returns (it computes the adjustments but does not return them). */
  datatype BalanceReport = BalanceReport(
    balance: real,
    choreEarnings: real,
    jobEarnings: real,
    allowanceEarnings: real,
    totalPayouts: real)

  function GetBalance(instances: seq<ChoreInstance>, templates: seq<ChoreTemplate>, jobs: seq<Job>,
                      transactions: seq<Transaction>, kidId: Id): (r: BalanceReport)
    ensures r.choreEarnings == ChoreEarnings(instances, templates, kidId)
    ensures r.jobEarnings == JobEarnings(jobs, kidId)
    ensures r.allowanceEarnings == AllowanceEarnings(transactions, kidId)
    ensures r.totalPayouts == TotalPayouts(transactions, kidId) && r.totalPayouts >= 0.0
    ensures r.balance == r.choreEarnings + r.jobEarnings + r.allowanceEarnings
                         + Adjustments(transactions, kidId) - r.totalPayouts
  {
    var chores := ChoreEarnings(instances, templates, kidId);
    var jobsEarned := JobEarnings(jobs, kidId);
    var allowance := AllowanceEarnings(transactions, kidId);
    var adjustments := Adjustments(transactions, kidId);
    var payouts := TotalPayouts(transactions, kidId);
    BalanceReport(chores + jobsEarned + allowance + adjustments - payouts, chores, jobsEarned, allowance, payouts)
  }

  // ------------------------------------------------------------ row by row

  /** What one chore instance adds to the kid's chore earnings. */
  function ChoreContribution(templates: seq<ChoreTemplate>, kidId: Id): ChoreInstance -> real {
    (i: ChoreInstance) =>
      if i.assignedToId == kidId && i.status.Approved? && FindTemplate(templates, i.templateId).Some?
      then FindTemplate(templates, i.templateId).value.value
      else 0.0
  }

  /** What one job adds to the kid's job earnings. */
  function JobContribution(kidId: Id): Job -> real {
    (j: Job) => if j.claimedById == Some(kidId) && j.status.Approved? then j.paymentAmount else 0.0
  }

  /**
   * The chore earnings are the sum over all instances of each one's
   * contribution: pending, awaiting, rejected and other kids' instances,
   * and instances whose template is gone, contribute 0.
   */
  lemma ChoreEarningsPerInstance(instances: seq<ChoreInstance>, templates: seq<ChoreTemplate>, kidId: Id)
    ensures ChoreEarnings(instances, templates, kidId) == Tables.SumOf(instances, ChoreContribution(templates, kidId))
  {
    Tables.SumOfFilterMap(instances, ChoreJoin(templates, kidId), CreditValue, ChoreContribution(templates, kidId));
  }

  /** The job earnings are the sum over all jobs of each one's contribution. */
  lemma JobEarningsPerJob(jobs: seq<Job>, kidId: Id)
    ensures JobEarnings(jobs, kidId) == Tables.SumOf(jobs, JobContribution(kidId))
  {
    Tables.SumOfFilter(jobs, JobCredit(kidId), Payment, JobContribution(kidId));
  }

  /** With unique ids, an update of one id rewrites that row only. */
  lemma OnlyRowChanged<T>(s: seq<T>, s': seq<T>, k: nat, key: T -> Id)
    requires Tables.Unique(s, key) && k < |s| && |s'| == |s|
    requires forall j :: 0 <= j < |s| && key(s[j]) != key(s[k]) ==> s'[j] == s[j]
    ensures forall j :: 0 <= j < |s| && j != k ==> s'[j] == s[j]
  {
  }

  /**
   * approveChore credits the template value to the assignee, rejectChore
   * credits nothing; either way the instance's earlier credit (if it was
   * already approved) is replaced, so a double approval does not pay twice.
   */
  lemma DecideChoreEffect(instances: seq<ChoreInstance>, templates: seq<ChoreTemplate>, k: nat, kidId: Id,
                          approved: bool, approver: Id, now: int)
    requires Tables.Unique(instances, InstanceKey) && k < |instances|
    ensures var i := instances[k];
      var after := Chores.Decide(instances, i.id, approved, approver, now);
      ChoreEarnings(after, templates, kidId)
        == ChoreEarnings(instances, templates, kidId) - ChoreContribution(templates, kidId)(i)
           + (if approved && i.assignedToId == kidId && FindTemplate(templates, i.templateId).Some?
              then FindTemplate(templates, i.templateId).value.value else 0.0)
  {
    var i := instances[k];
    var after := Chores.Decide(instances, i.id, approved, approver, now);
    OnlyRowChanged(instances, after, k, InstanceKey);
    ChoreEarningsPerInstance(instances, templates, kidId);
    ChoreEarningsPerInstance(after, templates, kidId);
    Tables.SumOfReplaceOne(instances, after, k, ChoreContribution(templates, kidId));
  }

  /**
   * markChoreComplete has no guard on the prior status, so completing an
   * already approved instance again withdraws its credit.
   */
  lemma CompleteChoreEffect(instances: seq<ChoreInstance>, templates: seq<ChoreTemplate>, k: nat, kidId: Id, now: int)
    requires Tables.Unique(instances, InstanceKey) && k < |instances|
    ensures var i := instances[k];
      ChoreEarnings(Chores.MarkComplete(instances, i.id, now), templates, kidId)
        == ChoreEarnings(instances, templates, kidId) - ChoreContribution(templates, kidId)(i)
  {
    var i := instances[k];
    var after := Chores.MarkComplete(instances, i.id, now);
    OnlyRowChanged(instances, after, k, InstanceKey);
    ChoreEarningsPerInstance(instances, templates, kidId);
    ChoreEarningsPerInstance(after, templates, kidId);
    Tables.SumOfReplaceOne(instances, after, k, ChoreContribution(templates, kidId));
  }

  /** approveJob pays the claimant the job's amount once; rejectJob pays nothing. */
  lemma DecideJobEffect(jobs: seq<Job>, k: nat, kidId: Id, approved: bool, approver: Id, now: int)
    requires Tables.Unique(jobs, JobKey) && k < |jobs|
    ensures var j := jobs[k];
      JobEarnings(Jobs.Decide(jobs, j.id, approved, approver, now), kidId)
        == JobEarnings(jobs, kidId) - JobContribution(kidId)(j)
           + (if approved && j.claimedById == Some(kidId) then j.paymentAmount else 0.0)
  {
    var j := jobs[k];
    var after := Jobs.Decide(jobs, j.id, approved, approver, now);
    OnlyRowChanged(jobs, after, k, JobKey);
    JobEarningsPerJob(jobs, kidId);
    JobEarningsPerJob(after, kidId);
    Tables.SumOfReplaceOne(jobs, after, k, JobContribution(kidId));
  }

  /** Claiming a job or marking it complete never changes anybody's job earnings unless it was approved. */
  lemma ClaimAndCompleteJobEffect(jobs: seq<Job>, k: nat, kidId: Id, claimant: Id, now: int)
    requires Tables.Unique(jobs, JobKey) && k < |jobs|
    ensures JobEarnings(Jobs.ClaimWhere(jobs, jobs[k].id, claimant, now), kidId) == JobEarnings(jobs, kidId)
    ensures JobEarnings(Jobs.MarkComplete(jobs, jobs[k].id, now), kidId)
         == JobEarnings(jobs, kidId) - JobContribution(kidId)(jobs[k])
  {
    var claimed := Jobs.ClaimWhere(jobs, jobs[k].id, claimant, now);
    var done := Jobs.MarkComplete(jobs, jobs[k].id, now);
    OnlyRowChanged(jobs, claimed, k, JobKey);
    OnlyRowChanged(jobs, done, k, JobKey);
    JobEarningsPerJob(jobs, kidId);
    JobEarningsPerJob(claimed, kidId);
    JobEarningsPerJob(done, kidId);
    Tables.SumOfReplaceOne(jobs, claimed, k, JobContribution(kidId));
    Tables.SumOfReplaceOne(jobs, done, k, JobContribution(kidId));
  }

  // ------------------------------------------------------------ appending a ledger row

  /**
   * What one ledger row does to a kid's balance: nothing to other kids,
   * nothing when it is a job_payment row (the balance never reads those),
   * minus its magnitude when it is a payout, plus its amount otherwise.
   */
  function Effect(t: Transaction, kidId: Id): real {
    if t.userId != kidId then 0.0
    else match t.kind
      case WeeklyAllowance => t.amount
      case Adjustment => t.amount
      case Payout => -Magnitude(t)
      case JobPayment => 0.0
  }

  lemma KindRowsSnoc(transactions: seq<Transaction>, t: Transaction, kidId: Id, kind: TransactionType)
    ensures KindRows(transactions + [t], kidId, kind)
         == KindRows(transactions, kidId, kind) + (if t.userId == kidId && t.kind == kind then [t] else [])
  {
    Tables.FilterSnoc(transactions, t, OfKind(kidId, kind));
  }

  /** A scan of one kind over a table with one more row sums that row too when it is the kid's and of that kind. */
  lemma KindSumSnoc(transactions: seq<Transaction>, t: Transaction, kidId: Id, kind: TransactionType, v: Transaction -> real)
    ensures Tables.SumOf(KindRows(transactions + [t], kidId, kind), v)
         == Tables.SumOf(KindRows(transactions, kidId, kind), v) + (if t.userId == kidId && t.kind == kind then v(t) else 0.0)
  {
    KindRowsSnoc(transactions, t, kidId, kind);
    Tables.SumOfSnoc(KindRows(transactions, kidId, kind), t, v);
  }

  /** Appending one ledger row moves the balance by exactly that row's effect and leaves the earnings alone. */
  lemma AppendEffect(instances: seq<ChoreInstance>, templates: seq<ChoreTemplate>, jobs: seq<Job>,
                     transactions: seq<Transaction>, t: Transaction, kidId: Id)
    ensures var before := GetBalance(instances, templates, jobs, transactions, kidId);
      var after := GetBalance(instances, templates, jobs, transactions + [t], kidId);
      && after.balance == before.balance + Effect(t, kidId)
      && after.choreEarnings == before.choreEarnings && after.jobEarnings == before.jobEarnings
      && after.allowanceEarnings == before.allowanceEarnings + (if t.userId == kidId && t.kind.WeeklyAllowance? then t.amount else 0.0)
      && after.totalPayouts == before.totalPayouts + (if t.userId == kidId && t.kind.Payout? then Magnitude(t) else 0.0)
  {
    KindSumSnoc(transactions, t, kidId, WeeklyAllowance, Amount);
    KindSumSnoc(transactions, t, kidId, Adjustment, Amount);
    KindSumSnoc(transactions, t, kidId, Payout, Magnitude);
  }

  // ------------------------------------------------------------ the three parent actions

  /** The input of recordPayout. */
  datatype PayoutInput = PayoutInput(kidId: Id, amount: real, description: Option<string>)

  predicate ValidPayout(input: PayoutInput) {
    input.amount >= 0.01
  }

  /** The payout row: the negated magnitude, paid now, described as a cash payout unless a description is given. */
  function PayoutRow(input: PayoutInput, id: Id, now: int): (t: Transaction)
    ensures t.id == id && t.userId == input.kidId && t.kind == Payout
    ensures t.amount <= 0.0 && Magnitude(t) == (if input.amount < 0.0 then -input.amount else input.amount)
    ensures t.description == Some(if input.description.Some? then input.description.value else "Cash payout")
    ensures t.isPaid && t.paidAt == Some(now) && t.createdAt == now
  {
    var magnitude := if input.amount < 0.0 then -input.amount else input.amount;
    Transaction(id, input.kidId, -magnitude, Payout, Some(input.description.GetOr("Cash payout")),
                None, None, true, Some(now), now)
  }

  /** A payout of x lowers the kid's balance by exactly x, whatever the balance was, and no other kid's. */
  lemma PayoutEffect(instances: seq<ChoreInstance>, templates: seq<ChoreTemplate>, jobs: seq<Job>,
                     transactions: seq<Transaction>, input: PayoutInput, id: Id, now: int, other: Id)
    requires ValidPayout(input)
    ensures GetBalance(instances, templates, jobs, transactions + [PayoutRow(input, id, now)], input.kidId).balance
         == GetBalance(instances, templates, jobs, transactions, input.kidId).balance - input.amount
    ensures other != input.kidId ==>
      GetBalance(instances, templates, jobs, transactions + [PayoutRow(input, id, now)], other)
        == GetBalance(instances, templates, jobs, transactions, other)
  {
    AppendEffect(instances, templates, jobs, transactions, PayoutRow(input, id, now), input.kidId);
    AppendEffect(instances, templates, jobs, transactions, PayoutRow(input, id, now), other);
  }

  /**
   * The amount approveWeeklyAllowance credits: the override when one is
   * given (and non-zero), otherwise the user's configured allowance, 0 when
   * unset. "Kid not found" only arises without an override; a non-positive
   * amount is refused.
   */
  function AllowanceAmount(users: seq<User>, kidId: Id, override: Option<real>): (r: Result<real>)
    ensures r.Ok? ==> r.value > 0.0
    ensures override.Some? && override.value > 0.0 ==> r == Ok(override.value)
    ensures (override.None? || override.value == 0.0) && FindUser(users, kidId).None? ==> r == Err(KidNotFound)
    ensures (override.None? || override.value == 0.0) && FindUser(users, kidId).Some? ==>
      var configured := FindUser(users, kidId).value.weeklyAllowance;
      r == if configured.Some? && configured.value > 0.0 then Ok(configured.value) else Err(NoAllowanceConfigured)
    ensures r.Err? ==> r.error == KidNotFound || r.error == NoAllowanceConfigured
  {
    var amount :=
      if override.Some? && override.value != 0.0 then Ok(override.value)
      else match FindUser(users, kidId)
        case None => Err(KidNotFound)
        case Some(kid) => Ok(kid.weeklyAllowance.GetOr(0.0));
    if amount.Err? then amount
    else if amount.value <= 0.0 then Err(NoAllowanceConfigured)
    else amount
  }

  /** The allowance row: unpaid, described as the weekly allowance. */
  function AllowanceRow(kidId: Id, amount: real, id: Id, now: int): (t: Transaction)
    ensures t.id == id && t.userId == kidId && t.kind == WeeklyAllowance && t.amount == amount
    ensures t.description == Some("Weekly Allowance") && !t.isPaid && t.paidAt.None? && t.createdAt == now
  {
    Transaction(id, kidId, amount, WeeklyAllowance, Some("Weekly Allowance"), None, None, false, None, now)
  }

  /** An approved allowance raises the kid's balance and allowance earnings by the amount credited. */
  lemma AllowanceEffect(instances: seq<ChoreInstance>, templates: seq<ChoreTemplate>, jobs: seq<Job>,
                        transactions: seq<Transaction>, kidId: Id, amount: real, id: Id, now: int)
    ensures var before := GetBalance(instances, templates, jobs, transactions, kidId);
      var after := GetBalance(instances, templates, jobs, transactions + [AllowanceRow(kidId, amount, id, now)], kidId);
      after.balance == before.balance + amount && after.allowanceEarnings == before.allowanceEarnings + amount
      && after.totalPayouts == before.totalPayouts
  {
    AppendEffect(instances, templates, jobs, transactions, AllowanceRow(kidId, amount, id, now), kidId);
  }

  /** The input of adjustBalance: a signed amount and a non-empty reason. */
  datatype AdjustmentInput = AdjustmentInput(kidId: Id, amount: real, description: string)

  predicate ValidAdjustment(input: AdjustmentInput) {
    |input.description| >= 1
  }

  function AdjustmentRow(input: AdjustmentInput, id: Id, now: int): (t: Transaction)
    ensures t.id == id && t.userId == input.kidId && t.kind == Adjustment && t.amount == input.amount
    ensures t.description == Some(input.description) && !t.isPaid && t.createdAt == now
  {
    Transaction(id, input.kidId, input.amount, Adjustment, Some(input.description), None, None, false, None, now)
  }

  /** An adjustment moves the kid's balance by exactly its signed amount, and nothing else of the report. */
  lemma AdjustmentEffect(instances: seq<ChoreInstance>, templates: seq<ChoreTemplate>, jobs: seq<Job>,
                         transactions: seq<Transaction>, input: AdjustmentInput, id: Id, now: int)
    ensures var before := GetBalance(instances, templates, jobs, transactions, input.kidId);
      var after := GetBalance(instances, templates, jobs, transactions + [AdjustmentRow(input, id, now)], input.kidId);
      after == before.(balance := before.balance + input.amount)
  {
    AppendEffect(instances, templates, jobs, transactions, AdjustmentRow(input, id, now), input.kidId);
  }

  /** A job_payment row, which nothing here writes, would not move any balance. */
  lemma JobPaymentIgnored(instances: seq<ChoreInstance>, templates: seq<ChoreTemplate>, jobs: seq<Job>,
                          transactions: seq<Transaction>, t: Transaction, kidId: Id)
    requires t.kind.JobPayment?
    ensures GetBalance(instances, templates, jobs, transactions + [t], kidId)
         == GetBalance(instances, templates, jobs, transactions, kidId)
  {
    AppendEffect(instances, templates, jobs, transactions, t, kidId);
  }

  // ------------------------------------------------------------ getTransactions

  datatype EntryKind = ChoreEntry | JobEntry | AllowanceEntry | AdjustmentEntry | PayoutEntry

  /** One line of the history. */
  datatype Entry = Entry(id: string, kind: EntryKind, description: string, amount: real, date: Option<int>)

  function ChoreLine(c: ChoreCredit): Entry {
    Entry("chore-" + c.instance.id, ChoreEntry, c.template.name, c.template.value, c.instance.approvedAt)
  }

  function JobLine(j: Job): Entry {
    Entry("job-" + j.id, JobEntry, j.name, j.paymentAmount, j.approvedAt)
  }

  function AllowanceLine(t: Transaction): Entry {
    Entry("allowance-" + t.id, AllowanceEntry, t.description.GetOr("Weekly Allowance"), t.amount, Some(t.createdAt))
  }

  function AdjustmentLine(t: Transaction): Entry {
    Entry("adjustment-" + t.id, AdjustmentEntry, t.description.GetOr("Adjustment"), t.amount, Some(t.createdAt))
  }

  function PayoutLine(t: Transaction): Entry {
    Entry("payout-" + t.id, PayoutEntry, t.description.GetOr("Payout"), t.amount, Some(t.createdAt))
  }

  /** The five lists, concatenated in the order the history builds them. */
  function AllEntries(instances: seq<ChoreInstance>, templates: seq<ChoreTemplate>, jobs: seq<Job>,
                      transactions: seq<Transaction>, kidId: Id): seq<Entry> {
    Tables.Map(ApprovedChores(instances, templates, kidId), ChoreLine)
    + Tables.Map(ApprovedJobs(jobs, kidId), JobLine)
    + Tables.Map(KindRows(transactions, kidId, WeeklyAllowance), AllowanceLine)
    + Tables.Map(KindRows(transactions, kidId, Adjustment), AdjustmentLine)
    + Tables.Map(KindRows(transactions, kidId, Payout), PayoutLine)
  }

  /** The sort key: the date's timestamp, 0 when there is none. */
  function DateKey(e: Entry): int {
    if e.date.Some? then e.date.value else 0
  }

  /** The comparator `bTime - aTime`: newest first. */
  predicate NewestFirst(a: Entry, b: Entry) {
    DateKey(b) <= DateKey(a)
  }

  /**
   * getTransactions: a permutation of the five lists, as many lines as they
   * have together, with dates that never increase.
   */
  function History(instances: seq<ChoreInstance>, templates: seq<ChoreTemplate>, jobs: seq<Job>,
                   transactions: seq<Transaction>, kidId: Id): (r: seq<Entry>)
    ensures Tables.Sorted(r, NewestFirst)
    ensures forall i, j :: 0 <= i < j < |r| ==> DateKey(r[j]) <= DateKey(r[i])
    ensures multiset(r) == multiset(AllEntries(instances, templates, jobs, transactions, kidId))
    ensures |r| == |ApprovedChores(instances, templates, kidId)| + |ApprovedJobs(jobs, kidId)|
                 + |KindRows(transactions, kidId, WeeklyAllowance)| + |KindRows(transactions, kidId, Adjustment)|
                 + |KindRows(transactions, kidId, Payout)|
  {
    assert Tables.TotalPreorder(NewestFirst);
    Tables.SortBy(AllEntries(instances, templates, jobs, transactions, kidId), NewestFirst)
  }

  function EntryAmount(e: Entry): real {
    e.amount
  }

  /**
   * The history adds up to the balance, provided every payout row is stored
   * with a non-positive amount (recordPayout writes only such rows): its
   * lines are the balance's credits and debits, one for one.
   */
  lemma HistoryAddsUpToBalance(instances: seq<ChoreInstance>, templates: seq<ChoreTemplate>, jobs: seq<Job>,
                               transactions: seq<Transaction>, kidId: Id)
    requires forall t :: t in transactions && t.kind.Payout? ==> t.amount <= 0.0
    ensures Tables.SumOf(History(instances, templates, jobs, transactions, kidId), EntryAmount)
         == GetBalance(instances, templates, jobs, transactions, kidId).balance
  {
    var all := AllEntries(instances, templates, jobs, transactions, kidId);
    var history := History(instances, templates, jobs, transactions, kidId);
    Tables.SumOfPermutation(history, all, EntryAmount);
    AllEntriesSum(instances, templates, jobs, transactions, kidId);
    PayoutsStoredNegative(transactions, kidId);
  }

  /** When payouts are stored negative, their stored amounts add up to minus totalPayouts. */
  lemma PayoutsStoredNegative(transactions: seq<Transaction>, kidId: Id)
    requires forall t :: t in transactions && t.kind.Payout? ==> t.amount <= 0.0
    ensures Tables.SumOf(KindRows(transactions, kidId, Payout), Amount) == -TotalPayouts(transactions, kidId)
  {
    Tables.SumOfNegated(KindRows(transactions, kidId, Payout), Magnitude, Amount);
  }

  /** The five lists add up to the five sums of the balance, payouts with their stored sign. */
  lemma AllEntriesSum(instances: seq<ChoreInstance>, templates: seq<ChoreTemplate>, jobs: seq<Job>,
                      transactions: seq<Transaction>, kidId: Id)
    ensures Tables.SumOf(AllEntries(instances, templates, jobs, transactions, kidId), EntryAmount)
         == ChoreEarnings(instances, templates, kidId) + JobEarnings(jobs, kidId)
            + AllowanceEarnings(transactions, kidId) + Adjustments(transactions, kidId)
            + Tables.SumOf(KindRows(transactions, kidId, Payout), Amount)
  {
    var credits := ApprovedChores(instances, templates, kidId);
    var earned := ApprovedJobs(jobs, kidId);
    var allowances := KindRows(transactions, kidId, WeeklyAllowance);
    var adjustments := KindRows(transactions, kidId, Adjustment);
    var payouts := KindRows(transactions, kidId, Payout);
    var a := Tables.Map(credits, ChoreLine);
    var b := Tables.Map(earned, JobLine);
    var c := Tables.Map(allowances, AllowanceLine);
    var d := Tables.Map(adjustments, AdjustmentLine);
    var e := Tables.Map(payouts, PayoutLine);
    Tables.SumOfConcat(a + b + c + d, e, EntryAmount);
    Tables.SumOfConcat(a + b + c, d, EntryAmount);
    Tables.SumOfConcat(a + b, c, EntryAmount);
    Tables.SumOfConcat(a, b, EntryAmount);
    Tables.SumOfMap(credits, ChoreLine, EntryAmount, CreditValue);
    Tables.SumOfMap(earned, JobLine, EntryAmount, Payment);
    Tables.SumOfMap(allowances, AllowanceLine, EntryAmount, Amount);
    Tables.SumOfMap(adjustments, AdjustmentLine, EntryAmount, Amount);
    Tables.SumOfMap(payouts, PayoutLine, EntryAmount, Amount);
  }

  // ------------------------------------------------------------ getAllKidsBalances

  /** A kid with the kid's balance report. */
  datatype KidBalance = KidBalance(kid: User, report: BalanceReport)

  /** getAllKidsBalances: getKids, each kid paired with that kid's balance, in the same order. */
  function AllKidsBalances(users: seq<User>, instances: seq<ChoreInstance>, templates: seq<ChoreTemplate>,
                           jobs: seq<Job>, transactions: seq<Transaction>): (r: seq<KidBalance>)
    ensures |r| == |Auth.Kids(users)|
    ensures forall k :: 0 <= k < |r| ==>
      && r[k].kid == Auth.Kids(users)[k] && r[k].kid in users && Auth.IsKid(r[k].kid)
      && r[k].report == GetBalance(instances, templates, jobs, transactions, r[k].kid.id)
  {
    var kids := Auth.Kids(users);
    assert forall k :: 0 <= k < |kids| ==> kids[k] in kids;
    seq(|kids|, k requires 0 <= k < |kids| => KidBalance(kids[k], GetBalance(instances, templates, jobs, transactions, kids[k].id)))
  }
}
