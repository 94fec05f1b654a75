/**
 * The records of the store (src/db/schema.ts) and the row shapes the server
 * functions return. Timestamps are milliseconds since the epoch; money is an
 * exact real number.
 */
module Schema {
  import opened Wrappers
  import Tables

  type Id = string

  // ------------------------------------------------------------ families and users

  datatype Family = Family(id: Id, name: string)

  datatype Role = Parent | Child

  /** A user row. `role` and `weeklyAllowance` are nullable columns. */
  datatype User = User(
    id: Id,
    name: string,
    email: string,
    emailVerified: bool,
    role: Option<Role>,
    familyId: Option<Id>,
    weeklyAllowance: Option<real>,
    createdAt: int,
    updatedAt: int)

  /** The column default of user.weekly_allowance. */
  const DefaultWeeklyAllowance: real := 0.0

  /** A family reference counts only when it is present and not the empty string (JavaScript truthiness). */
  predicate HasFamily(familyId: Option<Id>) {
    familyId.Some? && familyId.value != ""
  }

  // ------------------------------------------------------------ chores

  /** A recurring chore. `daysOfWeek` holds weekday indices 0..6 when present. */
  datatype ChoreTemplate = ChoreTemplate(
    id: Id,
    familyId: Id,
    name: string,
    description: Option<string>,
    value: real,
    daysOfWeek: Option<seq<int>>,
    assignedToId: Id,
    createdById: Id,
    isActive: bool)

  datatype ChoreStatus = Pending | AwaitingApproval | Approved | Rejected

  /** One week's occurrence of a template. */
  datatype ChoreInstance = ChoreInstance(
    id: Id,
    templateId: Id,
    assignedToId: Id,
    weekStart: int,
    status: ChoreStatus,
    completedAt: Option<int>,
    approvedAt: Option<int>,
    approvedById: Option<Id>,
    rejectionReason: Option<string>)

  // ------------------------------------------------------------ jobs

  datatype JobStatus = Available | Claimed | AwaitingApproval | Approved | Rejected

  /** A one-off paid job. `familyId` is optional here only so that an insert that leaves it out can be written down. */
  datatype Job = Job(
    id: Id,
    familyId: Option<Id>,
    name: string,
    description: Option<string>,
    paymentAmount: real,
    createdById: Id,
    claimedById: Option<Id>,
    claimedAt: Option<int>,
    status: JobStatus,
    completedAt: Option<int>,
    approvedAt: Option<int>,
    approvedById: Option<Id>,
    createdAt: int)

  /** jobs.family_id is NOT NULL without a default: a row without it is refused by the store. */
  predicate JobRowStorable(j: Job) {
    j.familyId.Some?
  }

  // ------------------------------------------------------------ ledger

  datatype TransactionType = WeeklyAllowance | JobPayment | Payout | Adjustment

  /** A ledger row; payouts are stored with a negative amount. */
  datatype Transaction = Transaction(
    id: Id,
    userId: Id,
    amount: real,
    kind: TransactionType,
    description: Option<string>,
    relatedJobId: Option<Id>,
    relatedWeekStart: Option<int>,
    isPaid: bool,
    paidAt: Option<int>,
    createdAt: int)

  // ------------------------------------------------------------ primary keys

  function FamilyKey(f: Family): Id { f.id }
  function UserKey(u: User): Id { u.id }
  function TemplateKey(t: ChoreTemplate): Id { t.id }
  function InstanceKey(i: ChoreInstance): Id { i.id }
  function JobKey(j: Job): Id { j.id }
  function TransactionKey(t: Transaction): Id { t.id }

  // ------------------------------------------------------------ lookups by primary key

  /** The user row with this id (`select().from(user).where(eq(user.id, id)).get()`). */
  function FindUser(users: seq<User>, id: Id): (r: Option<User>)
    ensures r.Some? ==> r.value in users && r.value.id == id
    ensures r.None? <==> forall u :: u in users ==> u.id != id
  {
    Tables.Lookup(users, (u: User) => u.id == id)
  }

  /** The template row with this id. */
  function FindTemplate(templates: seq<ChoreTemplate>, id: Id): (r: Option<ChoreTemplate>)
    ensures r.Some? ==> r.value in templates && r.value.id == id
    ensures r.None? <==> forall t :: t in templates ==> t.id != id
  {
    Tables.Lookup(templates, (t: ChoreTemplate) => t.id == id)
  }

  /** The job row with this id. */
  function FindJob(jobs: seq<Job>, id: Id): (r: Option<Job>)
    ensures r.Some? ==> r.value in jobs && r.value.id == id
    ensures r.None? <==> forall j :: j in jobs ==> j.id != id
  {
    Tables.Lookup(jobs, (j: Job) => j.id == id)
  }

  /** Under a primary key, the row found is the only row with that id. */
  lemma FindUserUnique(users: seq<User>, id: Id, u: User)
    requires Tables.Unique(users, UserKey)
    requires u in users && u.id == id
    ensures FindUser(users, id) == Some(u)
  {
    var r := FindUser(users, id);
    var k :| 0 <= k < |users| && users[k] == r.value;
    var m :| 0 <= m < |users| && users[m] == u;
    if k != m {
      assert false;
    }
  }

  lemma FindTemplateUnique(templates: seq<ChoreTemplate>, id: Id, t: ChoreTemplate)
    requires Tables.Unique(templates, TemplateKey)
    requires t in templates && t.id == id
    ensures FindTemplate(templates, id) == Some(t)
  {
    var r := FindTemplate(templates, id);
    var k :| 0 <= k < |templates| && templates[k] == r.value;
    var m :| 0 <= m < |templates| && templates[m] == t;
    if k != m {
      assert false;
    }
  }

  lemma FindJobUnique(jobs: seq<Job>, id: Id, j: Job)
    requires Tables.Unique(jobs, JobKey)
    requires j in jobs && j.id == id
    ensures FindJob(jobs, id) == Some(j)
  {
    var r := FindJob(jobs, id);
    var k :| 0 <= k < |jobs| && jobs[k] == r.value;
    var m :| 0 <= m < |jobs| && jobs[m] == j;
    if k != m {
      assert false;
    }
  }

  // ------------------------------------------------------------ returned rows

  datatype ApprovalKind = ChoreItem | JobItem

  /** An entry of the approvals queue (a chore or a job awaiting a parent's decision). */
  datatype Approval = Approval(
    id: Id,
    name: string,
    description: Option<string>,
    value: real,
    completedAt: Option<int>,
    kidId: Id,
    kidName: string,
    kind: ApprovalKind)

  /** ORDER BY completed_at, the order of both approval queues. */
  predicate CompletedFirst(a: Approval, b: Approval) {
    Tables.OptLeq(a.completedAt, b.completedAt)
  }

  lemma CompletedFirstOrder()
    ensures Tables.TotalPreorder(CompletedFirst)
  {
    forall a: Approval, b: Approval ensures CompletedFirst(a, b) || CompletedFirst(b, a) {
      Tables.OptLeqTotal(a.completedAt, b.completedAt, b.completedAt);
    }
    forall a: Approval, b: Approval, c: Approval | CompletedFirst(a, b) && CompletedFirst(b, c)
      ensures CompletedFirst(a, c)
    {
      Tables.OptLeqTotal(a.completedAt, b.completedAt, c.completedAt);
    }
  }

  /** A chore of the week as the chore pages show it; the kid fields are filled only in the family view. */
  datatype WeeklyChore = WeeklyChore(
    id: Id,
    name: string,
    description: Option<string>,
    value: real,
    status: ChoreStatus,
    daysOfWeek: Option<seq<int>>,
    completedAt: Option<int>,
    approvedAt: Option<int>,
    kidId: Option<Id>,
    kidName: Option<string>)

  /** A job on the board, with its creator's name. */
  datatype BoardJob = BoardJob(job: Job, createdByName: string)
}
