/**
 * The pure part of the job board (src/server/jobs.ts): the new row, patches,
 * the claim with its read, check and conditional update, the status
 * transitions, and the board queries. Module Server applies them to the store.
 */
module Jobs {
  import opened Wrappers
  import opened Schema
  import Tables

  // ------------------------------------------------------------ new jobs

  /** The input of createJob. */
  datatype JobInput = JobInput(name: string, description: Option<string>, paymentAmount: real)

  predicate ValidJobInput(input: JobInput) {
    |input.name| >= 1 && input.paymentAmount >= 0.0
  }

  /**
   * The row createJob inserts, AS WRITTEN: the insert names no family, so
   * the row has none.
   */
  function NewJobAsWritten(input: JobInput, id: Id, creator: Id, now: int): Job {
    Job(id, None, input.name, input.description, input.paymentAmount, creator,
        None, None, JobStatus.Available, None, None, None, now)
  }

  /** The row createJob is meant to insert: the same, in the creator's family. */
  function NewJob(input: JobInput, id: Id, familyId: Id, creator: Id, now: int): Job {
    NewJobAsWritten(input, id, creator, now).(familyId := Some(familyId))
  }

  /**
   * jobs.family_id is NOT NULL with no default, so the store refuses the
   * row createJob builds, whatever the input; the corrected row is stored.
   */
  lemma CreateJobAsWrittenIsRefused(input: JobInput, id: Id, familyId: Id, creator: Id, now: int)
    ensures !JobRowStorable(NewJobAsWritten(input, id, creator, now))
    ensures JobRowStorable(NewJob(input, id, familyId, creator, now))
    ensures NewJob(input, id, familyId, creator, now).(familyId := None) == NewJobAsWritten(input, id, creator, now)
  {
  }

  // ------------------------------------------------------------ the status invariant

  /**
   * A job with a claimant is never available again, and a claimed job has a
   * claimant: only claimJob sets `claimed`, and it sets the claimant with it.
   */
  predicate Consistent(j: Job) {
    (j.claimedById.Some? ==> !j.status.Available?) && (j.status.Claimed? ==> j.claimedById.Some?)
  }

  /** The fields no status transition touches. */
  predicate SameListing(a: Job, b: Job) {
    && a.id == b.id && a.familyId == b.familyId && a.name == b.name && a.description == b.description
    && a.paymentAmount == b.paymentAmount && a.createdById == b.createdById && a.createdAt == b.createdAt
  }

  // ------------------------------------------------------------ patches

  /** The input of updateJob without its id; None leaves a field out of the update. */
  datatype JobPatch = JobPatch(name: Option<string>, description: Option<string>, paymentAmount: Option<real>)

  predicate ValidJobPatch(p: JobPatch) {
    (p.name.Some? ==> |p.name.value| >= 1) && (p.paymentAmount.Some? ==> p.paymentAmount.value >= 0.0)
  }

  predicate IsEmptyJobPatch(p: JobPatch) {
    p.name.None? && p.description.None? && p.paymentAmount.None?
  }

  /** The job after the patch: the supplied fields replaced, everything else, the id and status included, kept. */
  function ApplyJobPatch(j: Job, p: JobPatch): (r: Job)
    ensures r.id == j.id && r.familyId == j.familyId && r.createdById == j.createdById && r.createdAt == j.createdAt
    ensures r.status == j.status && r.claimedById == j.claimedById && r.claimedAt == j.claimedAt
    ensures r.completedAt == j.completedAt && r.approvedAt == j.approvedAt && r.approvedById == j.approvedById
    ensures r.name == (if p.name.Some? then p.name.value else j.name)
    ensures r.description == (if p.description.Some? then p.description else j.description)
    ensures r.paymentAmount == (if p.paymentAmount.Some? then p.paymentAmount.value else j.paymentAmount)
  {
    j.(name := p.name.GetOr(j.name),
       description := if p.description.Some? then p.description else j.description,
       paymentAmount := p.paymentAmount.GetOr(j.paymentAmount))
  }

  /** UPDATE jobs SET ... WHERE id = id. */
  function PatchJobs(jobs: seq<Job>, id: Id, p: JobPatch): (r: seq<Job>)
    ensures |r| == |jobs|
    ensures forall k :: 0 <= k < |r| ==> r[k] == if jobs[k].id == id then ApplyJobPatch(jobs[k], p) else jobs[k]
    ensures Tables.Unique(jobs, JobKey) ==> Tables.Unique(r, JobKey)
  {
    var f := (j: Job) => ApplyJobPatch(j, p);
    var match_ := (j: Job) => j.id == id;
    Tables.UniqueUpdate(jobs, match_, f, JobKey);
    Tables.UpdateWhere(jobs, match_, f)
  }

  /** The row the update returns: the patched job when one has the id, none otherwise. */
  lemma PatchedJobFound(jobs: seq<Job>, id: Id, p: JobPatch)
    requires Tables.Unique(jobs, JobKey)
    ensures var found := FindJob(jobs, id);
      FindJob(PatchJobs(jobs, id, p), id) == if found.Some? then Some(ApplyJobPatch(found.value, p)) else None
  {
    var r := PatchJobs(jobs, id, p);
    var found := FindJob(jobs, id);
    if found.Some? {
      var k :| 0 <= k < |jobs| && jobs[k] == found.value;
      FindJobUnique(r, id, r[k]);
    } else {
      forall j | j in r ensures j.id != id {
        var k :| 0 <= k < |r| && r[k] == j;
      }
    }
  }

  /** DELETE FROM jobs WHERE id = id: that row goes, every other row stays. */
  function DeleteJob(jobs: seq<Job>, id: Id): (r: seq<Job>)
    ensures forall j :: j in r <==> j in jobs && j.id != id
    ensures forall j: Job :: j.id != id ==> multiset(r)[j] == multiset(jobs)[j]
    ensures Tables.Unique(jobs, JobKey) ==> Tables.Unique(r, JobKey)
  {
    var gone := (j: Job) => j.id == id;
    Tables.UniqueDelete(jobs, gone, JobKey);
    Tables.DeleteWhere(jobs, gone)
  }

  // ------------------------------------------------------------ claiming

  /** The SET of the claim. */
  function Claimed(j: Job, kidId: Id, now: int): Job {
    j.(claimedById := Some(kidId), claimedAt := Some(now), status := JobStatus.Claimed)
  }

  /** The WHERE of the claim: this id, and still available. */
  predicate ClaimMatches(j: Job, id: Id) {
    j.id == id && j.status.Available?
  }

  /**
   * UPDATE jobs SET claimed_by_id = kid, claimed_at = now, status = 'claimed'
   * WHERE id = id AND status = 'available'.
   */
  function ClaimWhere(jobs: seq<Job>, id: Id, kidId: Id, now: int): (r: seq<Job>)
    ensures |r| == |jobs|
    ensures forall k :: 0 <= k < |r| ==> SameListing(r[k], jobs[k])
    ensures forall k :: 0 <= k < |r| && !ClaimMatches(jobs[k], id) ==> r[k] == jobs[k]
    ensures forall k :: 0 <= k < |r| && ClaimMatches(jobs[k], id) ==>
      && r[k].status.Claimed? && r[k].claimedById == Some(kidId) && r[k].claimedAt == Some(now)
      && r[k].completedAt == jobs[k].completedAt && r[k].approvedAt == jobs[k].approvedAt
      && r[k].approvedById == jobs[k].approvedById
    ensures Tables.Unique(jobs, JobKey) ==> Tables.Unique(r, JobKey)
  {
    var f := (j: Job) => Claimed(j, kidId, now);
    var match_ := (j: Job) => ClaimMatches(j, id);
    Tables.UniqueUpdate(jobs, match_, f, JobKey);
    Tables.UpdateWhere(jobs, match_, f)
  }

  /** The `.returning().get()` of the claim: the first row the update rewrote, as rewritten. */
  function ClaimReturning(jobs: seq<Job>, id: Id, kidId: Id, now: int): (r: Option<Job>)
    ensures r.Some? <==> exists j :: j in jobs && ClaimMatches(j, id)
    ensures r.Some? ==>
      r.value in ClaimWhere(jobs, id, kidId, now) && r.value.id == id
      && r.value.status.Claimed? && r.value.claimedById == Some(kidId)
  {
    match Tables.Lookup(jobs, (j: Job) => ClaimMatches(j, id))
    case None => None
    case Some(j) =>
      var k :| 0 <= k < |jobs| && jobs[k] == j;
      assert ClaimWhere(jobs, id, kidId, now)[k] == Claimed(j, kidId, now);
      Some(Claimed(j, kidId, now))
  }

  /**
   * claimJob with its read done against `seen` and its conditional update
   * against `current`: the same table when calls follow one another, two
   * tables when another claim's update lands between this call's read and
   * its update. The result and the table the update leaves.
   */
  function Claim(seen: seq<Job>, current: seq<Job>, id: Id, kidId: Id, now: int): (Result<Job>, seq<Job>) {
    match FindJob(seen, id)
    case None => (Err(JobNotFound), current)
    case Some(job) =>
      if !job.status.Available? then (Err(JobNoLongerAvailable), current)
      else
        var after := ClaimWhere(current, id, kidId, now);
        match ClaimReturning(current, id, kidId, now)
        case None => (Err(ClaimedBySomeoneElse), after)
        case Some(updated) => (Ok(updated), after)
  }

  /**
   * A claim on an unchanged table fails with "Job not found" exactly when the
   * id is absent and with "no longer available" exactly when the job is not
   * available; otherwise it succeeds, and never reports a lost race.
   */
  lemma ClaimOutcomes(jobs: seq<Job>, id: Id, kidId: Id, now: int)
    requires Tables.Unique(jobs, JobKey)
    ensures var (r, after) := Claim(jobs, jobs, id, kidId, now);
      && (r == Err(JobNotFound) <==> FindJob(jobs, id).None?)
      && (r == Err(JobNoLongerAvailable) <==> FindJob(jobs, id).Some? && !FindJob(jobs, id).value.status.Available?)
      && r != Err(ClaimedBySomeoneElse)
      && (r.Ok? <==> FindJob(jobs, id).Some? && FindJob(jobs, id).value.status.Available?)
      && (r.Ok? ==> r.value == Claimed(FindJob(jobs, id).value, kidId, now))
      && (r.Err? ==> after == jobs)
  {
    var found := FindJob(jobs, id);
    if found.Some? && found.value.status.Available? {
      var job := found.value;
      assert ClaimMatches(job, id);
      var ret := Tables.Lookup(jobs, (j: Job) => ClaimMatches(j, id));
      assert ret.value.id == id;
      FindJobUnique(jobs, id, ret.value);
    }
  }

  /**
   * First come, first served: once a claim of a job has succeeded, a second
   * claim of it fails, whichever kid makes it, both when its read came after
   * the first update and when it raced the first update. Either way the first
   * claimant keeps the job.
   */
  lemma ClaimIsExclusive(jobs: seq<Job>, id: Id, kid1: Id, kid2: Id, t1: int, t2: int)
    requires Tables.Unique(jobs, JobKey)
    requires Claim(jobs, jobs, id, kid1, t1).0.Ok?
    ensures var after := Claim(jobs, jobs, id, kid1, t1).1;
      && Claim(after, after, id, kid2, t2).0 == Err(JobNoLongerAvailable)
      && Claim(jobs, after, id, kid2, t2).0 == Err(ClaimedBySomeoneElse)
      && Claim(jobs, after, id, kid2, t2).1 == after
      && FindJob(after, id).Some? && FindJob(after, id).value.claimedById == Some(kid1)
  {
    var after := ClaimWhere(jobs, id, kid1, t1);
    var job := FindJob(jobs, id).value;
    var k :| 0 <= k < |jobs| && jobs[k] == job;
    assert after[k] == Claimed(job, kid1, t1);
    FindJobUnique(after, id, after[k]);
    ClaimLeavesNoneAvailable(jobs, id, kid1, t1);
    ClaimWhereWithoutMatch(after, id, kid2, t2);
  }

  /** After a claim no row with that id is available, claimed or not. */
  lemma ClaimLeavesNoneAvailable(jobs: seq<Job>, id: Id, kidId: Id, now: int)
    ensures forall j :: j in ClaimWhere(jobs, id, kidId, now) ==> !ClaimMatches(j, id)
  {
    var after := ClaimWhere(jobs, id, kidId, now);
    forall j | j in after ensures !ClaimMatches(j, id) {
      var m :| 0 <= m < |after| && after[m] == j;
    }
  }

  /** A claim whose WHERE matches no row changes nothing. */
  lemma ClaimWhereWithoutMatch(jobs: seq<Job>, id: Id, kidId: Id, now: int)
    requires forall j :: j in jobs ==> !ClaimMatches(j, id)
    ensures ClaimWhere(jobs, id, kidId, now) == jobs
    ensures ClaimReturning(jobs, id, kidId, now).None?
  {
    var after := ClaimWhere(jobs, id, kidId, now);
    forall m | 0 <= m < |jobs| ensures after[m] == jobs[m] {
      assert jobs[m] in jobs;
    }
  }

  // ------------------------------------------------------------ status transitions

  /** markJobComplete on one row, whatever its status was. */
  function Completed(j: Job, now: int): Job {
    j.(status := JobStatus.AwaitingApproval, completedAt := Some(now))
  }

  /** approveJob (approved = true) or rejectJob (approved = false) on one row. */
  function Decided(j: Job, approved: bool, approver: Id, now: int): Job {
    j.(status := if approved then JobStatus.Approved else JobStatus.Rejected,
       approvedAt := Some(now), approvedById := Some(approver))
  }

  /**
   * UPDATE jobs SET status = 'awaiting_approval', completed_at = now WHERE
   * id = id: no guard on the status it had.
   */
  function MarkComplete(jobs: seq<Job>, id: Id, now: int): (r: seq<Job>)
    ensures |r| == |jobs|
    ensures forall k :: 0 <= k < |r| ==> SameListing(r[k], jobs[k]) && r[k].claimedById == jobs[k].claimedById
    ensures forall k :: 0 <= k < |r| && jobs[k].id != id ==> r[k] == jobs[k]
    ensures forall k :: 0 <= k < |r| && jobs[k].id == id ==>
      && r[k].status.AwaitingApproval? && r[k].completedAt == Some(now) && r[k].claimedAt == jobs[k].claimedAt
      && r[k].approvedAt == jobs[k].approvedAt && r[k].approvedById == jobs[k].approvedById
    ensures Tables.Unique(jobs, JobKey) ==> Tables.Unique(r, JobKey)
  {
    var f := (j: Job) => Completed(j, now);
    var match_ := (j: Job) => j.id == id;
    Tables.UniqueUpdate(jobs, match_, f, JobKey);
    Tables.UpdateWhere(jobs, match_, f)
  }

  /** UPDATE jobs SET status = 'approved' or 'rejected', approved_at = now, approved_by_id = approver WHERE id = id. */
  function Decide(jobs: seq<Job>, id: Id, approved: bool, approver: Id, now: int): (r: seq<Job>)
    ensures |r| == |jobs|
    ensures forall k :: 0 <= k < |r| ==> SameListing(r[k], jobs[k]) && r[k].claimedById == jobs[k].claimedById
    ensures forall k :: 0 <= k < |r| && jobs[k].id != id ==> r[k] == jobs[k]
    ensures forall k :: 0 <= k < |r| && jobs[k].id == id ==>
      && (if approved then r[k].status.Approved? else r[k].status.Rejected?)
      && r[k].approvedAt == Some(now) && r[k].approvedById == Some(approver)
      && r[k].completedAt == jobs[k].completedAt && r[k].claimedAt == jobs[k].claimedAt
    ensures Tables.Unique(jobs, JobKey) ==> Tables.Unique(r, JobKey)
  {
    var f := (j: Job) => Decided(j, approved, approver, now);
    var match_ := (j: Job) => j.id == id;
    Tables.UniqueUpdate(jobs, match_, f, JobKey);
    Tables.UpdateWhere(jobs, match_, f)
  }

  /** A row the store accepts (it has its family) whose status and claimant agree. */
  predicate Sound(j: Job) {
    JobRowStorable(j) && Consistent(j)
  }

  /** Every write on the job table keeps each row sound, and createJob's corrected row is sound. */
  lemma WritesKeepSound(jobs: seq<Job>, id: Id, kidId: Id, approved: bool, approver: Id, now: int, p: JobPatch,
                        input: JobInput, newId: Id, familyId: Id)
    requires forall j :: j in jobs ==> Sound(j)
    ensures forall j :: j in ClaimWhere(jobs, id, kidId, now) ==> Sound(j)
    ensures forall j :: j in MarkComplete(jobs, id, now) ==> Sound(j)
    ensures forall j :: j in Decide(jobs, id, approved, approver, now) ==> Sound(j)
    ensures forall j :: j in PatchJobs(jobs, id, p) ==> Sound(j)
    ensures forall j :: j in DeleteJob(jobs, id) ==> Sound(j)
    ensures Sound(NewJob(input, newId, familyId, approver, now))
  {
    forall j | j in ClaimWhere(jobs, id, kidId, now) ensures Sound(j) {
      var k :| 0 <= k < |jobs| && ClaimWhere(jobs, id, kidId, now)[k] == j;
      assert jobs[k] in jobs;
    }
    forall j | j in MarkComplete(jobs, id, now) ensures Sound(j) {
      var k :| 0 <= k < |jobs| && MarkComplete(jobs, id, now)[k] == j;
      assert jobs[k] in jobs;
    }
    forall j | j in Decide(jobs, id, approved, approver, now) ensures Sound(j) {
      var k :| 0 <= k < |jobs| && Decide(jobs, id, approved, approver, now)[k] == j;
      assert jobs[k] in jobs;
    }
    forall j | j in PatchJobs(jobs, id, p) ensures Sound(j) {
      var k :| 0 <= k < |jobs| && PatchJobs(jobs, id, p)[k] == j;
      assert jobs[k] in jobs;
    }
  }

  // ------------------------------------------------------------ queries

  /** ORDER BY jobs.created_at on board rows. */
  predicate OlderFirst(a: BoardJob, b: BoardJob) {
    a.job.createdAt <= b.job.createdAt
  }

  /** The board row of one job, when it is available and its creator exists. */
  function BoardRow(j: Job, users: seq<User>): Option<BoardJob> {
    if !j.status.Available? then None
    else
      match FindUser(users, j.createdById)
      case Some(u) => Some(BoardJob(j, u.name))
      case None => None
  }

  function BoardRows(jobs: seq<Job>, users: seq<User>): (r: seq<BoardJob>)
    ensures forall b :: b in r <==> exists j :: j in jobs && BoardRow(j, users) == Some(b)
  {
    Tables.FilterMap(jobs, (j: Job) => BoardRow(j, users))
  }

  /** getAvailableJobs: the joined rows, oldest first. */
  function AvailableJobs(jobs: seq<Job>, users: seq<User>): (r: seq<BoardJob>)
    ensures Tables.Sorted(r, OlderFirst)
    ensures multiset(r) == multiset(BoardRows(jobs, users))
  {
    assert Tables.TotalPreorder(OlderFirst);
    Tables.SortBy(BoardRows(jobs, users), OlderFirst)
  }

  /** The board shows exactly the available jobs whose creator exists, with the creator's name. */
  lemma AvailableJobsExact(jobs: seq<Job>, users: seq<User>)
    ensures forall b :: b in AvailableJobs(jobs, users) ==>
      b.job in jobs && b.job.status.Available? && FindUser(users, b.job.createdById).Some?
      && b.createdByName == FindUser(users, b.job.createdById).value.name
    ensures forall j :: j in jobs && j.status.Available? && FindUser(users, j.createdById).Some? ==>
      exists b :: b in AvailableJobs(jobs, users) && b.job == j
  {
    var rows := BoardRows(jobs, users);
    var r := AvailableJobs(jobs, users);
    forall b | b in r
      ensures b.job in jobs && b.job.status.Available? && FindUser(users, b.job.createdById).Some?
           && b.createdByName == FindUser(users, b.job.createdById).value.name
    {
      assert b in multiset(r);
      assert b in rows;
    }
    forall j | j in jobs && j.status.Available? && FindUser(users, j.createdById).Some?
      ensures exists b :: b in r && b.job == j
    {
      var b := BoardRow(j, users).value;
      assert b in rows;
      assert b in multiset(rows);
      assert b in r;
    }
  }

  /** ORDER BY jobs.claimed_at. */
  predicate ClaimedFirst(a: Job, b: Job) {
    Tables.OptLeq(a.claimedAt, b.claimedAt)
  }

  lemma ClaimedFirstOrder()
    ensures Tables.TotalPreorder(ClaimedFirst)
  {
    forall a: Job, b: Job ensures ClaimedFirst(a, b) || ClaimedFirst(b, a) {
      Tables.OptLeqTotal(a.claimedAt, b.claimedAt, b.claimedAt);
    }
    forall a: Job, b: Job, c: Job | ClaimedFirst(a, b) && ClaimedFirst(b, c) ensures ClaimedFirst(a, c) {
      Tables.OptLeqTotal(a.claimedAt, b.claimedAt, c.claimedAt);
    }
  }

  /** getMyJobs: exactly the jobs the kid has claimed, in any status, in the order they were claimed. */
  function MyJobs(jobs: seq<Job>, kidId: Id): (r: seq<Job>)
    ensures Tables.Sorted(r, ClaimedFirst)
    ensures forall j :: j in r <==> j in jobs && j.claimedById == Some(kidId)
    ensures forall j :: multiset(r)[j] == if j.claimedById == Some(kidId) then multiset(jobs)[j] else 0
    ensures |r| <= |jobs|
  {
    ClaimedFirstOrder();
    var mine := Tables.Filter(jobs, (j: Job) => j.claimedById == Some(kidId));
    var r := Tables.SortBy(mine, ClaimedFirst);
    assert forall j :: j in r <==> j in mine by {
      forall j ensures j in r <==> j in mine {
        assert j in r <==> j in multiset(r);
        assert j in mine <==> j in multiset(mine);
      }
    }
    r
  }

  /** The queue row of one job, when it awaits approval and has a claimant that exists. */
  function PendingRow(j: Job, users: seq<User>): Option<Approval> {
    if !j.status.AwaitingApproval? || j.claimedById.None? then None
    else
      match FindUser(users, j.claimedById.value)
      case Some(u) => Some(Approval(j.id, j.name, j.description, j.paymentAmount, j.completedAt, u.id, u.name, JobItem))
      case None => None
  }

  function PendingJobRows(jobs: seq<Job>, users: seq<User>): (r: seq<Approval>)
    ensures forall a :: a in r <==> exists j :: j in jobs && PendingRow(j, users) == Some(a)
  {
    Tables.FilterMap(jobs, (j: Job) => PendingRow(j, users))
  }

  /** getPendingJobApprovals: the joined rows, ordered by completion time. */
  function PendingJobApprovals(jobs: seq<Job>, users: seq<User>): (r: seq<Approval>)
    ensures Tables.Sorted(r, CompletedFirst)
    ensures multiset(r) == multiset(PendingJobRows(jobs, users))
  {
    CompletedFirstOrder();
    Tables.SortBy(PendingJobRows(jobs, users), CompletedFirst)
  }

  /**
   * The queue holds one job entry, paying the job's amount to its claimant,
   * for each job awaiting approval whose claimant exists; a job nobody
   * claimed never appears.
   */
  lemma PendingJobApprovalsExact(jobs: seq<Job>, users: seq<User>)
    ensures forall a :: a in PendingJobApprovals(jobs, users) ==>
      && a.kind.JobItem?
      && exists j :: j in jobs && j.status.AwaitingApproval? && j.claimedById == Some(a.kidId)
                  && j.id == a.id && j.paymentAmount == a.value
    ensures forall j ::
      (j in jobs && j.status.AwaitingApproval? && j.claimedById.Some?
       && FindUser(users, j.claimedById.value).Some?) ==>
      exists a :: a in PendingJobApprovals(jobs, users) && a.id == j.id
  {
    var rows := PendingJobRows(jobs, users);
    var r := PendingJobApprovals(jobs, users);
    forall a | a in r
      ensures && a.kind.JobItem?
              && exists j :: j in jobs && j.status.AwaitingApproval? && j.claimedById == Some(a.kidId)
                          && j.id == a.id && j.paymentAmount == a.value
    {
      assert a in multiset(r);
      assert a in rows;
      var j :| j in jobs && PendingRow(j, users) == Some(a);
      assert j.status.AwaitingApproval?;
    }
    forall j | j in jobs && j.status.AwaitingApproval? && j.claimedById.Some?
             && FindUser(users, j.claimedById.value).Some?
      ensures exists a :: a in r && a.id == j.id
    {
      var a := PendingRow(j, users).value;
      assert a in rows;
      assert a in multiset(rows);
      assert a in r;
    }
  }
}
