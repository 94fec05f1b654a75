/**
 * The store the server functions share (the database of src/db), as one
 * object whose tables are sequences of rows, and every server function
 * that writes to it as a method. The caller's session is an optional user
 * id; fresh ids and the clock are parameters. Each method states its
 * result and the store it leaves, and keeps the store's invariant.
 */
module Server {
  import opened Wrappers
  import opened Schema
  import Tables
  import Chores
  import Jobs
  import Bank
  import Auth

  /** The six tables. */
  datatype Db = Db(
    families: seq<Family>,
    users: seq<User>,
    templates: seq<ChoreTemplate>,
    instances: seq<ChoreInstance>,
    jobs: seq<Job>,
    transactions: seq<Transaction>)

  /**
   * Every primary key is unique, every job row is one the store accepts
   * and agrees with its claimant, and every payout row is stored with a
   * non-positive amount.
   */
  predicate Invariant(db: Db) {
    && Tables.Unique(db.families, FamilyKey)
    && Tables.Unique(db.users, UserKey)
    && Tables.Unique(db.templates, TemplateKey)
    && Tables.Unique(db.instances, InstanceKey)
    && Tables.Unique(db.jobs, JobKey)
    && Tables.Unique(db.transactions, TransactionKey)
    && (forall j :: j in db.jobs ==> Jobs.Sound(j))
    && (forall t :: t in db.transactions && t.kind.Payout? ==> t.amount <= 0.0)
  }

  /** The family of the signed-in parent's own row, when it has one (`parentUser?.familyId`). */
  function ParentFamily(users: seq<User>, session: Option<Id>): (r: Option<Id>)
    ensures r.Some? ==> session.Some? && FindUser(users, session.value).Some?
                        && FindUser(users, session.value).value.familyId == r && r.value != ""
    ensures r.None? ==> session.None? || FindUser(users, session.value).None?
                        || !HasFamily(FindUser(users, session.value).value.familyId)
  {
    if session.None? then None
    else
      match FindUser(users, session.value)
      case None => None
      case Some(u) => if HasFamily(u.familyId) then u.familyId else None
  }

  /** The ids newId hands out are distinct and none of them is taken. */
  ghost predicate FreshIds(newId: nat -> Id, taken: set<Id>) {
    (forall j: nat, k: nat :: j < k ==> newId(j) != newId(k)) && forall k: nat :: newId(k) !in taken
  }

  /** Materialisation with fresh ids keeps the instance ids unique. */
  lemma MaterialiseKeepsKeys(templates: seq<ChoreTemplate>, instances: seq<ChoreInstance>, weekStart: int,
                             newId: nat -> Id)
    requires Tables.Unique(instances, InstanceKey)
    requires FreshIds(newId, Tables.Keys(instances, InstanceKey))
    ensures Tables.Unique(instances + Chores.NewInstances(templates, instances, weekStart, newId), InstanceKey)
  {
    var added := Chores.NewInstances(templates, instances, weekStart, newId);
    forall y | y in Tables.Keys(added, InstanceKey) ensures y !in Tables.Keys(instances, InstanceKey) {
      var x :| x in added && x.id == y;
      var k :| 0 <= k < |added| && added[k] == x;
    }
    Tables.UniqueAppend(instances, added, InstanceKey);
  }

  // Writing one table keeps the invariant when the new table keeps its own part of it.

  lemma WithUsers(db: Db, users: seq<User>)
    requires Invariant(db) && Tables.Unique(users, UserKey)
    ensures Invariant(db.(users := users))
  {
  }

  lemma WithTemplates(db: Db, templates: seq<ChoreTemplate>)
    requires Invariant(db) && Tables.Unique(templates, TemplateKey)
    ensures Invariant(db.(templates := templates))
  {
  }

  lemma WithJobs(db: Db, jobs: seq<Job>)
    requires Invariant(db) && Tables.Unique(jobs, JobKey) && forall j :: j in jobs ==> Jobs.Sound(j)
    ensures Invariant(db.(jobs := jobs))
  {
  }

  /** Appending a ledger row with a fresh id that is not a positive payout. */
  lemma WithTransaction(db: Db, t: Transaction)
    requires Invariant(db) && t.id !in Tables.Keys(db.transactions, TransactionKey)
    requires t.kind.Payout? ==> t.amount <= 0.0
    ensures Invariant(db.(transactions := db.transactions + [t]))
  {
    Tables.UniqueSnoc(db.transactions, t, TransactionKey);
  }

  /** The kid's balance as getBalance reports it. */
  function Balance(db: Db, kidId: Id): real {
    Bank.GetBalance(db.instances, db.templates, db.jobs, db.transactions, kidId).balance
  }

  lemma PayoutMoves(db: Db, input: Bank.PayoutInput, id: Id, now: int)
    requires Bank.ValidPayout(input)
    ensures Balance(db.(transactions := db.transactions + [Bank.PayoutRow(input, id, now)]), input.kidId)
         == Balance(db, input.kidId) - input.amount
  {
    Bank.PayoutEffect(db.instances, db.templates, db.jobs, db.transactions, input, id, now, input.kidId);
  }

  lemma AllowanceMoves(db: Db, kidId: Id, amount: real, id: Id, now: int)
    ensures Balance(db.(transactions := db.transactions + [Bank.AllowanceRow(kidId, amount, id, now)]), kidId)
         == Balance(db, kidId) + amount
  {
    Bank.AllowanceEffect(db.instances, db.templates, db.jobs, db.transactions, kidId, amount, id, now);
  }

  lemma AdjustmentMoves(db: Db, input: Bank.AdjustmentInput, id: Id, now: int)
    ensures Balance(db.(transactions := db.transactions + [Bank.AdjustmentRow(input, id, now)]), input.kidId)
         == Balance(db, input.kidId) + input.amount
  {
    Bank.AdjustmentEffect(db.instances, db.templates, db.jobs, db.transactions, input, id, now);
  }

  class Store {
    var families: seq<Family>
    var users: seq<User>
    var templates: seq<ChoreTemplate>
    var instances: seq<ChoreInstance>
    var jobs: seq<Job>
    var transactions: seq<Transaction>

    function Contents(): Db
      reads this
    {
      Db(families, users, templates, instances, jobs, transactions)
    }

    predicate Valid()
      reads this
    {
      Invariant(Contents())
    }

    /** An empty database. */
    constructor ()
      ensures Valid()
      ensures Contents() == Db([], [], [], [], [], [])
    {
      families, users, templates, instances, jobs, transactions := [], [], [], [], [], [];
    }

    // ---------------------------------------------------------- chore templates

    /**
     * createChoreTemplate: the input is validated, the caller must be signed
     * in, and the caller's row must name a family; the template is inserted
     * into that family, active, created by the caller.
     */
    method CreateChoreTemplate(session: Option<Id>, input: Chores.TemplateInput, id: Id) returns (r: Result<ChoreTemplate>)
      requires Valid()
      requires id !in Tables.Keys(templates, TemplateKey)
      modifies this
      ensures Valid()
      ensures !Chores.ValidTemplateInput(input) ==> r == Err(InvalidInput)
      ensures Chores.ValidTemplateInput(input) && session.None? ==> r == Err(NotAuthenticated)
      ensures Chores.ValidTemplateInput(input) && session.Some? && ParentFamily(old(users), session).None? ==> r == Err(NoFamily)
      ensures Chores.ValidTemplateInput(input) && ParentFamily(old(users), session).Some? ==>
        r == Ok(Chores.NewTemplate(input, id, ParentFamily(old(users), session).value, session.value))
      ensures r.Ok? ==> Contents() == old(Contents()).(templates := old(templates) + [r.value])
      ensures r.Err? ==> Contents() == old(Contents())
    {
      if !Chores.ValidTemplateInput(input) {
        return Err(InvalidInput);
      }
      if session.None? {
        return Err(NotAuthenticated);
      }
      var familyId := ParentFamily(users, session);
      if familyId.None? {
        return Err(NoFamily);
      }
      var t := Chores.NewTemplate(input, id, familyId.value, session.value);
      Tables.UniqueSnoc(templates, t, TemplateKey);
      templates := templates + [t];
      r := Ok(t);
    }

    /**
     * updateChoreTemplate: only the supplied fields change. An update with
     * no field at all is refused by the query builder, and an id that
     * matches no row fails when the missing result is read.
     */
    method UpdateChoreTemplate(session: Option<Id>, id: Id, p: Chores.TemplatePatch) returns (r: Result<ChoreTemplate>)
      requires Valid()
      modifies this
      ensures Valid()
      ensures !Chores.ValidTemplatePatch(p) ==> r == Err(InvalidInput)
      ensures Chores.ValidTemplatePatch(p) && session.None? ==> r == Err(NotAuthenticated)
      ensures Chores.ValidTemplatePatch(p) && session.Some? && Chores.IsEmptyPatch(p) ==> r == Err(EmptyUpdate)
      ensures Chores.ValidTemplatePatch(p) && session.Some? && !Chores.IsEmptyPatch(p) ==>
        && templates == Chores.PatchTemplates(old(templates), id, p)
        && (FindTemplate(old(templates), id).None? ==> r == Err(NoSuchRow))
        && (FindTemplate(old(templates), id).Some? ==>
              r == Ok(Chores.ApplyTemplatePatch(FindTemplate(old(templates), id).value, p)))
      ensures Contents() == old(Contents()).(templates := templates)
      ensures r.Err? ==> templates == old(templates)
    {
      if !Chores.ValidTemplatePatch(p) {
        return Err(InvalidInput);
      }
      if session.None? {
        return Err(NotAuthenticated);
      }
      if Chores.IsEmptyPatch(p) {
        return Err(EmptyUpdate);
      }
      Chores.PatchedTemplateFound(templates, id, p);
      WithTemplates(Contents(), Chores.PatchTemplates(templates, id, p));
      templates := Chores.PatchTemplates(templates, id, p);
      var updated := FindTemplate(templates, id);
      if updated.None? {
        return Err(NoSuchRow);
      }
      r := Ok(updated.value);
    }

    /** deleteChoreTemplate: the row with that id goes; everything else stays. */
    method DeleteChoreTemplate(session: Option<Id>, id: Id) returns (r: Result<bool>)
      requires Valid()
      modifies this
      ensures Valid()
      ensures session.None? ==> r == Err(NotAuthenticated) && Contents() == old(Contents())
      ensures session.Some? ==>
        r == Ok(true) && Contents() == old(Contents()).(templates := Chores.DeleteTemplate(old(templates), id))
    {
      if session.None? {
        return Err(NotAuthenticated);
      }
      templates := Chores.DeleteTemplate(templates, id);
      r := Ok(true);
    }

    // ---------------------------------------------------------- weekly chores

    /**
     * ensureWeeklyChoresExist: one pending instance is appended for every
     * active template without an instance in the week; `created` is their
     * number. Nothing else changes.
     */
    method EnsureWeeklyChoresExist(weekStart: int, newId: nat -> Id) returns (created: nat)
      requires Valid()
      requires FreshIds(newId, Tables.Keys(instances, InstanceKey))
      modifies this
      ensures Valid()
      ensures instances == old(instances) + Chores.NewInstances(old(templates), old(instances), weekStart, newId)
      ensures created == |instances| - |old(instances)|
      ensures Contents() == old(Contents()).(instances := instances)
    {
      var added := Chores.NewInstances(templates, instances, weekStart, newId);
      MaterialiseKeepsKeys(templates, instances, weekStart, newId);
      if |added| > 0 {
        instances := instances + added;
      } else {
        assert instances + added == instances;
      }
      created := |added|;
    }

    /** getWeeklyChoresForKid: materialise the week, then list the kid's chores of it. */
    method GetWeeklyChoresForKid(kidId: Id, weekStart: int, newId: nat -> Id) returns (r: seq<WeeklyChore>)
      requires Valid()
      requires FreshIds(newId, Tables.Keys(instances, InstanceKey))
      modifies this
      ensures Valid()
      ensures instances == old(instances) + Chores.NewInstances(old(templates), old(instances), weekStart, newId)
      ensures Contents() == old(Contents()).(instances := instances)
      ensures r == Chores.KidWeek(instances, templates, kidId, weekStart)
    {
      var _ := EnsureWeeklyChoresExist(weekStart, newId);
      r := Chores.KidWeek(instances, templates, kidId, weekStart);
    }

    /** getAllWeeklyChores: materialise the week, then list every family's chores of it (no session, no family filter). */
    method GetAllWeeklyChores(weekStart: int, newId: nat -> Id) returns (r: seq<WeeklyChore>)
      requires Valid()
      requires FreshIds(newId, Tables.Keys(instances, InstanceKey))
      modifies this
      ensures Valid()
      ensures instances == old(instances) + Chores.NewInstances(old(templates), old(instances), weekStart, newId)
      ensures Contents() == old(Contents()).(instances := instances)
      ensures r == Chores.FamilyWeek(instances, templates, users, weekStart)
    {
      var _ := EnsureWeeklyChoresExist(weekStart, newId);
      r := Chores.FamilyWeek(instances, templates, users, weekStart);
    }

    /** markChoreComplete: no session is needed; the updated row, or nothing when no row has the id. */
    method MarkChoreComplete(instanceId: Id, now: int) returns (r: Option<ChoreInstance>)
      requires Valid()
      modifies this
      ensures Valid()
      ensures Contents() == old(Contents()).(instances := Chores.MarkComplete(old(instances), instanceId, now))
      ensures r == Chores.FindInstance(instances, instanceId)
      ensures r.Some? <==> Chores.FindInstance(old(instances), instanceId).Some?
      ensures r.Some? ==> r.value.status.AwaitingApproval? && r.value.completedAt == Some(now)
    {
      Chores.CompletedInstanceFound(instances, instanceId, now);
      instances := Chores.MarkComplete(instances, instanceId, now);
      r := Chores.FindInstance(instances, instanceId);
    }

    /** approveChore (approved = true) and rejectChore (approved = false), stamped with the caller as approver. */
    method DecideChore(session: Option<Id>, instanceId: Id, approved: bool, now: int) returns (r: Result<Option<ChoreInstance>>)
      requires Valid()
      modifies this
      ensures Valid()
      ensures session.None? ==> r == Err(NotAuthenticated) && Contents() == old(Contents())
      ensures session.Some? ==>
        && Contents() == old(Contents()).(instances := Chores.Decide(old(instances), instanceId, approved, session.value, now))
        && r == Ok(Chores.FindInstance(instances, instanceId))
      ensures r.Ok? && r.value.Some? ==>
        && (if approved then r.value.value.status.Approved? else r.value.value.status.Rejected?)
        && r.value.value.approvedById == session && r.value.value.approvedAt == Some(now)
    {
      if session.None? {
        return Err(NotAuthenticated);
      }
      instances := Chores.Decide(instances, instanceId, approved, session.value, now);
      var found := Chores.FindInstance(instances, instanceId);
      if found.Some? {
        var k :| 0 <= k < |instances| && instances[k] == found.value;
      }
      r := Ok(found);
    }

    method ApproveChore(session: Option<Id>, instanceId: Id, now: int) returns (r: Result<Option<ChoreInstance>>)
      requires Valid()
      modifies this
      ensures Valid()
      ensures session.None? ==> r == Err(NotAuthenticated) && Contents() == old(Contents())
      ensures session.Some? ==>
        && Contents() == old(Contents()).(instances := Chores.Decide(old(instances), instanceId, true, session.value, now))
        && r == Ok(Chores.FindInstance(instances, instanceId))
    {
      r := DecideChore(session, instanceId, true, now);
    }

    method RejectChore(session: Option<Id>, instanceId: Id, now: int) returns (r: Result<Option<ChoreInstance>>)
      requires Valid()
      modifies this
      ensures Valid()
      ensures session.None? ==> r == Err(NotAuthenticated) && Contents() == old(Contents())
      ensures session.Some? ==>
        && Contents() == old(Contents()).(instances := Chores.Decide(old(instances), instanceId, false, session.value, now))
        && r == Ok(Chores.FindInstance(instances, instanceId))
    {
      r := DecideChore(session, instanceId, false, now);
    }

    // ---------------------------------------------------------- jobs

    /**
     * createJob, corrected to insert the job into the caller's family (the
     * column is required); without one it fails as createChoreTemplate does.
     */
    method CreateJob(session: Option<Id>, input: Jobs.JobInput, id: Id, now: int) returns (r: Result<Job>)
      requires Valid()
      requires id !in Tables.Keys(jobs, JobKey)
      modifies this
      ensures Valid()
      ensures !Jobs.ValidJobInput(input) ==> r == Err(InvalidInput)
      ensures Jobs.ValidJobInput(input) && session.None? ==> r == Err(NotAuthenticated)
      ensures Jobs.ValidJobInput(input) && session.Some? && ParentFamily(old(users), session).None? ==> r == Err(NoFamily)
      ensures Jobs.ValidJobInput(input) && ParentFamily(old(users), session).Some? ==>
        r == Ok(Jobs.NewJob(input, id, ParentFamily(old(users), session).value, session.value, now))
      ensures r.Ok? ==> r.value.status.Available? && Some(r.value.createdById) == session
      ensures r.Ok? ==> Contents() == old(Contents()).(jobs := old(jobs) + [r.value])
      ensures r.Err? ==> Contents() == old(Contents())
    {
      if !Jobs.ValidJobInput(input) {
        return Err(InvalidInput);
      }
      if session.None? {
        return Err(NotAuthenticated);
      }
      var familyId := ParentFamily(users, session);
      if familyId.None? {
        return Err(NoFamily);
      }
      var j := Jobs.NewJob(input, id, familyId.value, session.value, now);
      Jobs.WritesKeepSound(jobs, id, session.value, true, session.value, now, Jobs.JobPatch(None, None, None),
                           input, id, familyId.value);
      Tables.UniqueSnoc(jobs, j, JobKey);
      jobs := jobs + [j];
      r := Ok(j);
    }

    /** updateJob: only the supplied fields change; an update with no field is refused; the row, if any. */
    method UpdateJob(session: Option<Id>, id: Id, p: Jobs.JobPatch) returns (r: Result<Option<Job>>)
      requires Valid()
      modifies this
      ensures Valid()
      ensures !Jobs.ValidJobPatch(p) ==> r == Err(InvalidInput)
      ensures Jobs.ValidJobPatch(p) && session.None? ==> r == Err(NotAuthenticated)
      ensures Jobs.ValidJobPatch(p) && session.Some? && Jobs.IsEmptyJobPatch(p) ==> r == Err(EmptyUpdate)
      ensures Jobs.ValidJobPatch(p) && session.Some? && !Jobs.IsEmptyJobPatch(p) ==>
        && jobs == Jobs.PatchJobs(old(jobs), id, p)
        && r == Ok(if FindJob(old(jobs), id).Some? then Some(Jobs.ApplyJobPatch(FindJob(old(jobs), id).value, p)) else None)
      ensures Contents() == old(Contents()).(jobs := jobs)
      ensures r.Err? ==> jobs == old(jobs)
    {
      if !Jobs.ValidJobPatch(p) {
        return Err(InvalidInput);
      }
      if session.None? {
        return Err(NotAuthenticated);
      }
      if Jobs.IsEmptyJobPatch(p) {
        return Err(EmptyUpdate);
      }
      Jobs.WritesKeepSound(jobs, id, session.value, true, session.value, 0, p,
                           Jobs.JobInput("", None, 0.0), id, "");
      Jobs.PatchedJobFound(jobs, id, p);
      WithJobs(Contents(), Jobs.PatchJobs(jobs, id, p));
      jobs := Jobs.PatchJobs(jobs, id, p);
      r := Ok(FindJob(jobs, id));
    }

    /** deleteJob: the row with that id goes; everything else stays. */
    method DeleteJob(session: Option<Id>, id: Id) returns (r: Result<bool>)
      requires Valid()
      modifies this
      ensures Valid()
      ensures session.None? ==> r == Err(NotAuthenticated) && Contents() == old(Contents())
      ensures session.Some? ==> r == Ok(true) && Contents() == old(Contents()).(jobs := Jobs.DeleteJob(old(jobs), id))
    {
      if session.None? {
        return Err(NotAuthenticated);
      }
      Jobs.WritesKeepSound(jobs, id, session.value, true, session.value, 0, Jobs.JobPatch(None, None, None),
                           Jobs.JobInput("", None, 0.0), id, "");
      jobs := Jobs.DeleteJob(jobs, id);
      r := Ok(true);
    }

    /**
     * claimJob: read the job, check it is still available, then claim it
     * with an update conditioned on its still being available. Calls being
     * sequential, the read and the update see the same table, so the last
     * check never fires.
     */
    method ClaimJob(jobId: Id, kidId: Id, now: int) returns (r: Result<Job>)
      requires Valid()
      modifies this
      ensures Valid()
      ensures (r, jobs) == Jobs.Claim(old(jobs), old(jobs), jobId, kidId, now)
      ensures Contents() == old(Contents()).(jobs := jobs)
    {
      var job := FindJob(jobs, jobId);
      if job.None? {
        return Err(JobNotFound);
      }
      if !job.value.status.Available? {
        return Err(JobNoLongerAvailable);
      }
      Jobs.ClaimOutcomes(jobs, jobId, kidId, now);
      var updated := Jobs.ClaimReturning(jobs, jobId, kidId, now);
      Jobs.WritesKeepSound(jobs, jobId, kidId, true, kidId, now, Jobs.JobPatch(None, None, None),
                           Jobs.JobInput("", None, 0.0), jobId, "");
      jobs := Jobs.ClaimWhere(jobs, jobId, kidId, now);
      r := Ok(updated.value);
    }

    /** markJobComplete: no session and no status guard; the row, if any. */
    method MarkJobComplete(jobId: Id, now: int) returns (r: Option<Job>)
      requires Valid()
      modifies this
      ensures Valid()
      ensures Contents() == old(Contents()).(jobs := Jobs.MarkComplete(old(jobs), jobId, now))
      ensures r == FindJob(jobs, jobId)
      ensures r.Some? ==> r.value.status.AwaitingApproval? && r.value.completedAt == Some(now)
    {
      Jobs.WritesKeepSound(jobs, jobId, jobId, true, jobId, now, Jobs.JobPatch(None, None, None),
                           Jobs.JobInput("", None, 0.0), jobId, "");
      jobs := Jobs.MarkComplete(jobs, jobId, now);
      r := FindJob(jobs, jobId);
      if r.Some? {
        var k :| 0 <= k < |jobs| && jobs[k] == r.value;
      }
    }

    /** approveJob (approved = true) and rejectJob (approved = false), stamped with the caller as approver. */
    method DecideJob(session: Option<Id>, jobId: Id, approved: bool, now: int) returns (r: Result<Option<Job>>)
      requires Valid()
      modifies this
      ensures Valid()
      ensures session.None? ==> r == Err(NotAuthenticated) && Contents() == old(Contents())
      ensures session.Some? ==>
        && Contents() == old(Contents()).(jobs := Jobs.Decide(old(jobs), jobId, approved, session.value, now))
        && r == Ok(FindJob(jobs, jobId))
      ensures r.Ok? && r.value.Some? ==>
        && (if approved then r.value.value.status.Approved? else r.value.value.status.Rejected?)
        && r.value.value.approvedById == session && r.value.value.approvedAt == Some(now)
    {
      if session.None? {
        return Err(NotAuthenticated);
      }
      Jobs.WritesKeepSound(jobs, jobId, jobId, approved, session.value, now, Jobs.JobPatch(None, None, None),
                           Jobs.JobInput("", None, 0.0), jobId, "");
      jobs := Jobs.Decide(jobs, jobId, approved, session.value, now);
      var found := FindJob(jobs, jobId);
      if found.Some? {
        var k :| 0 <= k < |jobs| && jobs[k] == found.value;
      }
      r := Ok(found);
    }

    method ApproveJob(session: Option<Id>, jobId: Id, now: int) returns (r: Result<Option<Job>>)
      requires Valid()
      modifies this
      ensures Valid()
      ensures session.None? ==> r == Err(NotAuthenticated) && Contents() == old(Contents())
      ensures session.Some? ==>
        && Contents() == old(Contents()).(jobs := Jobs.Decide(old(jobs), jobId, true, session.value, now))
        && r == Ok(FindJob(jobs, jobId))
    {
      r := DecideJob(session, jobId, true, now);
    }

    method RejectJob(session: Option<Id>, jobId: Id, now: int) returns (r: Result<Option<Job>>)
      requires Valid()
      modifies this
      ensures Valid()
      ensures session.None? ==> r == Err(NotAuthenticated) && Contents() == old(Contents())
      ensures session.Some? ==>
        && Contents() == old(Contents()).(jobs := Jobs.Decide(old(jobs), jobId, false, session.value, now))
        && r == Ok(FindJob(jobs, jobId))
    {
      r := DecideJob(session, jobId, false, now);
    }

    // ---------------------------------------------------------- the ledger

    /** INSERT INTO transactions: one row with a fresh id that is not a positive payout. */
    method Append(t: Transaction)
      requires Valid()
      requires t.id !in Tables.Keys(transactions, TransactionKey)
      requires t.kind.Payout? ==> t.amount <= 0.0
      modifies this
      ensures Valid()
      ensures Contents() == old(Contents()).(transactions := old(transactions) + [t])
    {
      WithTransaction(Contents(), t);
      transactions := transactions + [t];
    }

    /**
     * recordPayout: one paid payout row is appended, and the kid's balance
     * drops by exactly the amount; the balance is not checked first.
     */
    method RecordPayout(session: Option<Id>, input: Bank.PayoutInput, id: Id, now: int) returns (r: Result<Transaction>)
      requires Valid()
      requires id !in Tables.Keys(transactions, TransactionKey)
      modifies this
      ensures Valid()
      ensures !Bank.ValidPayout(input) ==> r == Err(InvalidInput)
      ensures Bank.ValidPayout(input) && session.None? ==> r == Err(NotAuthenticated)
      ensures Bank.ValidPayout(input) && session.Some? ==> r == Ok(Bank.PayoutRow(input, id, now))
      ensures r.Ok? ==> Contents() == old(Contents()).(transactions := old(transactions) + [r.value])
      ensures r.Ok? ==> Balance(Contents(), input.kidId) == Balance(old(Contents()), input.kidId) - input.amount
      ensures r.Err? ==> Contents() == old(Contents())
    {
      if !Bank.ValidPayout(input) {
        return Err(InvalidInput);
      }
      if session.None? {
        return Err(NotAuthenticated);
      }
      var t := Bank.PayoutRow(input, id, now);
      PayoutMoves(Contents(), input, id, now);
      Append(t);
      r := Ok(t);
    }

    /**
     * approveWeeklyAllowance: the override, or else the kid's configured
     * allowance, is credited as one weekly_allowance row.
     */
    method ApproveWeeklyAllowance(session: Option<Id>, kidId: Id, override: Option<real>, id: Id, now: int)
      returns (r: Result<Transaction>)
      requires Valid()
      requires id !in Tables.Keys(transactions, TransactionKey)
      modifies this
      ensures Valid()
      ensures override.Some? && override.value < 0.01 ==> r == Err(InvalidInput)
      ensures !(override.Some? && override.value < 0.01) && session.None? ==> r == Err(NotAuthenticated)
      ensures !(override.Some? && override.value < 0.01) && session.Some? ==>
        match Bank.AllowanceAmount(old(users), kidId, override)
        case Err(e) => r == Err(e)
        case Ok(amount) => r == Ok(Bank.AllowanceRow(kidId, amount, id, now))
      ensures r.Ok? ==> Contents() == old(Contents()).(transactions := old(transactions) + [r.value])
      ensures r.Ok? ==> Balance(Contents(), kidId) == Balance(old(Contents()), kidId) + r.value.amount
      ensures r.Err? ==> Contents() == old(Contents())
    {
      if override.Some? && override.value < 0.01 {
        return Err(InvalidInput);
      }
      if session.None? {
        return Err(NotAuthenticated);
      }
      var amount := Bank.AllowanceAmount(users, kidId, override);
      if amount.Err? {
        return Err(amount.error);
      }
      var t := Bank.AllowanceRow(kidId, amount.value, id, now);
      AllowanceMoves(Contents(), kidId, amount.value, id, now);
      Append(t);
      r := Ok(t);
    }

    /** adjustBalance: one adjustment row with the signed amount and the reason given. */
    method AdjustBalance(session: Option<Id>, input: Bank.AdjustmentInput, id: Id, now: int) returns (r: Result<Transaction>)
      requires Valid()
      requires id !in Tables.Keys(transactions, TransactionKey)
      modifies this
      ensures Valid()
      ensures !Bank.ValidAdjustment(input) ==> r == Err(InvalidInput)
      ensures Bank.ValidAdjustment(input) && session.None? ==> r == Err(NotAuthenticated)
      ensures Bank.ValidAdjustment(input) && session.Some? ==> r == Ok(Bank.AdjustmentRow(input, id, now))
      ensures r.Ok? ==> Contents() == old(Contents()).(transactions := old(transactions) + [r.value])
      ensures r.Ok? ==> Balance(Contents(), input.kidId) == Balance(old(Contents()), input.kidId) + input.amount
      ensures r.Err? ==> Contents() == old(Contents())
    {
      if !Bank.ValidAdjustment(input) {
        return Err(InvalidInput);
      }
      if session.None? {
        return Err(NotAuthenticated);
      }
      var t := Bank.AdjustmentRow(input, id, now);
      AdjustmentMoves(Contents(), input, id, now);
      Append(t);
      r := Ok(t);
    }

    // ---------------------------------------------------------- kids and families

    /**
     * createKid: a signed-in parent without a family first gets one, named
     * after them, and is linked to it; the kid is then inserted into the
     * parent's family as a verified child account.
     */
    method CreateKid(session: Option<Id>, input: Auth.KidInput, familyId: Id, kidId: Id, now: int)
      returns (r: Result<User>)
      requires Valid()
      requires familyId !in Tables.Keys(families, FamilyKey)
      requires kidId !in Tables.Keys(users, UserKey)
      modifies this
      ensures Valid()
      ensures !Auth.ValidKidInput(input) ==> r == Err(InvalidInput)
      ensures Auth.ValidKidInput(input) && Auth.CurrentUser(session, old(users)).None? ==> r == Err(NotAuthenticated)
      ensures r.Err? ==> Contents() == old(Contents())
      ensures Auth.ValidKidInput(input) && Auth.CurrentUser(session, old(users)).Some? ==>
        var parent := Auth.CurrentUser(session, old(users)).value;
        var kid := Auth.NewKid(input, kidId, Auth.KidFamily(parent, familyId), now);
        && r == Ok(kid)
        && (HasFamily(parent.familyId) ==>
              Contents() == old(Contents()).(users := old(users) + [kid]))
        && (!HasFamily(parent.familyId) ==>
              Contents() == old(Contents()).(
                families := old(families) + [Family(familyId, Auth.FamilyName(parent.name))],
                users := Auth.SetFamily(old(users), parent.id, familyId) + [kid]))
    {
      if !Auth.ValidKidInput(input) {
        return Err(InvalidInput);
      }
      var current := Auth.CurrentUser(session, users);
      if current.None? {
        return Err(NotAuthenticated);
      }
      var parent := current.value;
      var family := parent.familyId;
      if !HasFamily(family) {
        var f := Family(familyId, Auth.FamilyName(parent.name));
        Tables.UniqueSnoc(families, f, FamilyKey);
        families := families + [f];
        var linked := Auth.SetFamily(users, parent.id, familyId);
        Tables.KeysKept(users, linked, UserKey);
        users := linked;
        family := Some(familyId);
      }
      var kid := Auth.NewKid(input, kidId, family.value, now);
      Tables.UniqueSnoc(users, kid, UserKey);
      users := users + [kid];
      r := Ok(kid);
    }

    /** updateKid: the name when a non-empty one is given, the allowance when given, and the update time; the row, if any. */
    method UpdateKid(session: Option<Id>, kidId: Id, p: Auth.KidPatch, now: int) returns (r: Result<Option<User>>)
      requires Valid()
      modifies this
      ensures Valid()
      ensures !Auth.ValidKidPatch(p) ==> r == Err(InvalidInput)
      ensures Auth.ValidKidPatch(p) && session.None? ==> r == Err(NotAuthenticated)
      ensures r.Err? ==> Contents() == old(Contents())
      ensures Auth.ValidKidPatch(p) && session.Some? ==>
        && Contents() == old(Contents()).(users := Auth.PatchUsers(old(users), kidId, p, now))
        && r == Ok(if FindUser(old(users), kidId).Some? then Some(Auth.ApplyKidPatch(FindUser(old(users), kidId).value, p, now)) else None)
    {
      if !Auth.ValidKidPatch(p) {
        return Err(InvalidInput);
      }
      if session.None? {
        return Err(NotAuthenticated);
      }
      Auth.PatchedUserFound(users, kidId, p, now);
      WithUsers(Contents(), Auth.PatchUsers(users, kidId, p, now));
      users := Auth.PatchUsers(users, kidId, p, now);
      r := Ok(FindUser(users, kidId));
    }

    /** deleteKid: the user row with that id goes, whatever its role; everything else stays. */
    method DeleteKid(session: Option<Id>, kidId: Id) returns (r: Result<bool>)
      requires Valid()
      modifies this
      ensures Valid()
      ensures session.None? ==> r == Err(NotAuthenticated) && Contents() == old(Contents())
      ensures session.Some? ==> r == Ok(true) && Contents() == old(Contents()).(users := Auth.DeleteUser(old(users), kidId))
    {
      if session.None? {
        return Err(NotAuthenticated);
      }
      users := Auth.DeleteUser(users, kidId);
      r := Ok(true);
    }
  }
}
