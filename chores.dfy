/**
 * The pure part of the chore server functions (src/server/chores.ts): which
 * instances a week is missing, the single-row status transitions, template
 * patches, and the chore queries. The store methods that apply them are in
 * module Server.
 */
module Chores {
  import opened Wrappers
  import opened Schema
  import Tables
  import Week

  // ------------------------------------------------------------ templates

  /** Every weekday index lies in 0..6, as the validator demands of `daysOfWeek`. */
  predicate ValidDays(days: Option<seq<int>>) {
    days.Some? ==> forall d :: d in days.value ==> 0 <= d <= 6
  }

  /** The input of createChoreTemplate; `value` defaults to 0 when left out. */
  datatype TemplateInput = TemplateInput(
    name: string,
    description: Option<string>,
    value: Option<real>,
    assignedToId: Id,
    daysOfWeek: Option<seq<int>>)

  predicate ValidTemplateInput(input: TemplateInput) {
    && |input.name| >= 1
    && (input.value.Some? ==> input.value.value >= 0.0)
    && ValidDays(input.daysOfWeek)
  }

  /** The row createChoreTemplate inserts; `isActive` takes its column default, true. */
  function NewTemplate(input: TemplateInput, id: Id, familyId: Id, creator: Id): ChoreTemplate {
    ChoreTemplate(id, familyId, input.name, input.description, input.value.GetOr(0.0),
      input.daysOfWeek, input.assignedToId, creator, true)
  }

  /**
   * The input of updateChoreTemplate without its id. A field that is None is
   * left out of the update; `daysOfWeek` is Some(None) when the caller sends
   * null, which clears the column.
   */
  datatype TemplatePatch = TemplatePatch(
    name: Option<string>,
    description: Option<string>,
    value: Option<real>,
    assignedToId: Option<Id>,
    daysOfWeek: Option<Option<seq<int>>>,
    isActive: Option<bool>)

  predicate ValidTemplatePatch(p: TemplatePatch) {
    && (p.name.Some? ==> |p.name.value| >= 1)
    && (p.value.Some? ==> p.value.value >= 0.0)
    && (p.daysOfWeek.Some? ==> ValidDays(p.daysOfWeek.value))
  }

  /** No field is supplied, so the UPDATE has nothing to set. */
  predicate IsEmptyPatch(p: TemplatePatch) {
    p.name.None? && p.description.None? && p.value.None? && p.assignedToId.None?
    && p.daysOfWeek.None? && p.isActive.None?
  }

  /** The template after the patch: every supplied field is replaced, every other field is kept. */
  function ApplyTemplatePatch(t: ChoreTemplate, p: TemplatePatch): (r: ChoreTemplate)
    ensures r.id == t.id && r.familyId == t.familyId && r.createdById == t.createdById
    ensures r.name == (if p.name.Some? then p.name.value else t.name)
    ensures r.description == (if p.description.Some? then p.description else t.description)
    ensures r.value == (if p.value.Some? then p.value.value else t.value)
    ensures r.assignedToId == (if p.assignedToId.Some? then p.assignedToId.value else t.assignedToId)
    ensures r.daysOfWeek == (if p.daysOfWeek.Some? then p.daysOfWeek.value else t.daysOfWeek)
    ensures r.isActive == (if p.isActive.Some? then p.isActive.value else t.isActive)
  {
    t.(name := p.name.GetOr(t.name),
       description := if p.description.Some? then p.description else t.description,
       value := p.value.GetOr(t.value),
       assignedToId := p.assignedToId.GetOr(t.assignedToId),
       daysOfWeek := p.daysOfWeek.GetOr(t.daysOfWeek),
       isActive := p.isActive.GetOr(t.isActive))
  }

  /** An empty patch changes nothing, and applying a patch twice is applying it once. */
  lemma PatchLaws(t: ChoreTemplate, p: TemplatePatch)
    ensures IsEmptyPatch(p) ==> ApplyTemplatePatch(t, p) == t
    ensures ApplyTemplatePatch(ApplyTemplatePatch(t, p), p) == ApplyTemplatePatch(t, p)
  {
  }

  /** UPDATE chore_templates SET ... WHERE id = id. */
  function PatchTemplates(templates: seq<ChoreTemplate>, id: Id, p: TemplatePatch): (r: seq<ChoreTemplate>)
    ensures |r| == |templates|
    ensures forall k :: 0 <= k < |r| ==>
      r[k] == if templates[k].id == id then ApplyTemplatePatch(templates[k], p) else templates[k]
    ensures Tables.Unique(templates, TemplateKey) ==> Tables.Unique(r, TemplateKey)
  {
    var f := (t: ChoreTemplate) => ApplyTemplatePatch(t, p);
    var match_ := (t: ChoreTemplate) => t.id == id;
    Tables.UniqueUpdate(templates, match_, f, TemplateKey);
    Tables.UpdateWhere(templates, match_, f)
  }

  /** The row the update returns: the patched template when one has the id, none otherwise. */
  lemma PatchedTemplateFound(templates: seq<ChoreTemplate>, id: Id, p: TemplatePatch)
    requires Tables.Unique(templates, TemplateKey)
    ensures var found := FindTemplate(templates, id);
      FindTemplate(PatchTemplates(templates, id, p), id)
        == if found.Some? then Some(ApplyTemplatePatch(found.value, p)) else None
  {
    var r := PatchTemplates(templates, id, p);
    var found := FindTemplate(templates, id);
    if found.Some? {
      var k :| 0 <= k < |templates| && templates[k] == found.value;
      FindTemplateUnique(r, id, r[k]);
    } else {
      forall t | t in r ensures t.id != id {
        var k :| 0 <= k < |r| && r[k] == t;
      }
    }
  }

  /** DELETE FROM chore_templates WHERE id = id: that row goes, every other row stays. */
  function DeleteTemplate(templates: seq<ChoreTemplate>, id: Id): (r: seq<ChoreTemplate>)
    ensures forall t :: t in r <==> t in templates && t.id != id
    ensures forall t: ChoreTemplate :: t.id != id ==> multiset(r)[t] == multiset(templates)[t]
    ensures Tables.Unique(templates, TemplateKey) ==> Tables.Unique(r, TemplateKey)
  {
    var gone := (t: ChoreTemplate) => t.id == id;
    Tables.UniqueDelete(templates, gone, TemplateKey);
    Tables.DeleteWhere(templates, gone)
  }

  // ------------------------------------------------------------ the week window

  /** getWeekEnd(new Date(weekStart)).getTime(): the last millisecond of the week `weekStart` falls in. */
  function WindowEnd(weekStart: int): (e: int)
    ensures weekStart <= e < weekStart + Week.MsPerWeek
  {
    Week.Time(Week.WeekEnd(Week.FromTime(weekStart)))
  }

  /** The instance's week start lies between weekStart and the end of that week. */
  predicate InWindow(i: ChoreInstance, weekStart: int) {
    weekStart <= i.weekStart <= WindowEnd(weekStart)
  }

  /** The template ids that already have an instance in the window. */
  function ExistingTemplateIds(instances: seq<ChoreInstance>, weekStart: int): set<Id> {
    set i | i in instances && InWindow(i, weekStart) :: i.templateId
  }

  // ------------------------------------------------------------ materialisation

  /** The active templates that have no instance in the window, in table order. */
  function MissingTemplates(templates: seq<ChoreTemplate>, instances: seq<ChoreInstance>, weekStart: int)
    : (r: seq<ChoreTemplate>)
    ensures forall t :: t in r <==>
      t in templates && t.isActive && t.id !in ExistingTemplateIds(instances, weekStart)
    ensures Tables.Unique(templates, TemplateKey) ==> Tables.Unique(r, TemplateKey)
  {
    var existing := ExistingTemplateIds(instances, weekStart);
    var missing := (t: ChoreTemplate) => t.isActive && t.id !in existing;
    Tables.UniqueFilter(templates, missing, TemplateKey);
    Tables.Filter(templates, missing)
  }

  /** The row inserted for a missing template: pending, for the template's kid, in this week. */
  function NewInstance(t: ChoreTemplate, id: Id, weekStart: int): ChoreInstance {
    ChoreInstance(id, t.id, t.assignedToId, weekStart, ChoreStatus.Pending, None, None, None, None)
  }

  /** One new instance per template of `m`, the k-th with id newId(k). */
  function Instantiate(m: seq<ChoreTemplate>, weekStart: int, newId: nat -> Id): (r: seq<ChoreInstance>)
    ensures |r| == |m|
    ensures forall k :: 0 <= k < |m| ==> r[k] == NewInstance(m[k], newId(k), weekStart)
  {
    seq(|m|, k requires 0 <= k < |m| => NewInstance(m[k], newId(k), weekStart))
  }

  /** The rows ensureWeeklyChoresExist inserts: one per missing template, the k-th with id newId(k). */
  function NewInstances(templates: seq<ChoreTemplate>, instances: seq<ChoreInstance>, weekStart: int, newId: nat -> Id)
    : (r: seq<ChoreInstance>)
    ensures |r| == |MissingTemplates(templates, instances, weekStart)|
    ensures forall k :: 0 <= k < |r| ==> r[k].id == newId(k)
  {
    Instantiate(MissingTemplates(templates, instances, weekStart), weekStart, newId)
  }

  /**
   * Each inserted row is a new pending instance, in the window, of an active
   * template that had none there, for that template's kid; every such
   * template gets one.
   */
  lemma NewInstancesShape(templates: seq<ChoreTemplate>, instances: seq<ChoreInstance>, weekStart: int, newId: nat -> Id)
    ensures forall i :: i in NewInstances(templates, instances, weekStart, newId) ==>
      && i.status.Pending? && i.weekStart == weekStart && InWindow(i, weekStart)
      && i.completedAt.None? && i.approvedAt.None? && i.approvedById.None?
      && exists t :: t in templates && t.isActive && t.id !in ExistingTemplateIds(instances, weekStart)
                  && i.templateId == t.id && i.assignedToId == t.assignedToId
    ensures forall t :: t in templates && t.isActive && t.id !in ExistingTemplateIds(instances, weekStart) ==>
      exists i :: i in NewInstances(templates, instances, weekStart, newId) && i.templateId == t.id
  {
    var m := MissingTemplates(templates, instances, weekStart);
    var r := NewInstances(templates, instances, weekStart, newId);
    forall i | i in r
      ensures && i.status.Pending? && i.weekStart == weekStart && InWindow(i, weekStart)
              && i.completedAt.None? && i.approvedAt.None? && i.approvedById.None?
              && exists t :: t in templates && t.isActive && t.id !in ExistingTemplateIds(instances, weekStart)
                          && i.templateId == t.id && i.assignedToId == t.assignedToId
    {
      var k :| 0 <= k < |r| && r[k] == i;
      assert m[k] in m;
    }
    forall t | t in templates && t.isActive && t.id !in ExistingTemplateIds(instances, weekStart)
      ensures exists i :: i in r && i.templateId == t.id
    {
      assert t in m;
      var k :| 0 <= k < |m| && m[k] == t;
      assert r[k] in r;
    }
  }

  /** After materialisation every active template has an instance in the window. */
  lemma MaterialiseCovers(templates: seq<ChoreTemplate>, instances: seq<ChoreInstance>, weekStart: int, newId: nat -> Id)
    ensures forall t :: t in templates && t.isActive ==>
      exists i :: i in instances + NewInstances(templates, instances, weekStart, newId)
               && i.templateId == t.id && InWindow(i, weekStart)
  {
    var after := instances + NewInstances(templates, instances, weekStart, newId);
    NewInstancesShape(templates, instances, weekStart, newId);
    forall t | t in templates && t.isActive
      ensures exists i :: i in after && i.templateId == t.id && InWindow(i, weekStart)
    {
      if t.id in ExistingTemplateIds(instances, weekStart) {
        var i :| i in instances && InWindow(i, weekStart) && i.templateId == t.id;
        assert i in after;
      } else {
        var i :| i in NewInstances(templates, instances, weekStart, newId) && i.templateId == t.id;
        assert i in after;
      }
    }
  }

  /** A template that is switched off never gets a new instance (template ids being a key). */
  lemma InactiveNotMaterialised(templates: seq<ChoreTemplate>, instances: seq<ChoreInstance>, weekStart: int,
                                newId: nat -> Id, t: ChoreTemplate)
    requires Tables.Unique(templates, TemplateKey)
    requires t in templates && !t.isActive
    ensures forall i :: i in NewInstances(templates, instances, weekStart, newId) ==> i.templateId != t.id
  {
    var m := MissingTemplates(templates, instances, weekStart);
    var r := NewInstances(templates, instances, weekStart, newId);
    var b :| 0 <= b < |templates| && templates[b] == t;
    forall i | i in r ensures i.templateId != t.id {
      var k :| 0 <= k < |r| && r[k] == i;
      assert m[k] in m;
      var a :| 0 <= a < |templates| && templates[a] == m[k];
      assert a != b;
    }
  }

  /** Materialising a second time for the same week, with nothing changed in between, inserts nothing. */
  lemma MaterialiseIdempotent(templates: seq<ChoreTemplate>, instances: seq<ChoreInstance>, weekStart: int,
                              newId: nat -> Id, newId': nat -> Id)
    ensures NewInstances(templates, instances + NewInstances(templates, instances, weekStart, newId), weekStart, newId') == []
  {
    var after := instances + NewInstances(templates, instances, weekStart, newId);
    MaterialiseCovers(templates, instances, weekStart, newId);
    var m := MissingTemplates(templates, after, weekStart);
    Tables.NoMemberEmpty(m);
  }

  /** No template has two instances in the same window. */
  predicate OnePerTemplate(instances: seq<ChoreInstance>, weekStart: int) {
    forall a, b :: 0 <= a < b < |instances| && InWindow(instances[a], weekStart) && InWindow(instances[b], weekStart)
      ==> instances[a].templateId != instances[b].templateId
  }

  /** Materialisation keeps each template to at most one instance per week. */
  lemma MaterialiseKeepsOnePerTemplate(templates: seq<ChoreTemplate>, instances: seq<ChoreInstance>, weekStart: int,
                                       newId: nat -> Id)
    requires Tables.Unique(templates, TemplateKey)
    requires OnePerTemplate(instances, weekStart)
    ensures OnePerTemplate(instances + NewInstances(templates, instances, weekStart, newId), weekStart)
  {
    var m := MissingTemplates(templates, instances, weekStart);
    var added := NewInstances(templates, instances, weekStart, newId);
    forall k | 0 <= k < |added|
      ensures added[k].templateId !in ExistingTemplateIds(instances, weekStart)
    {
      assert m[k] in m;
    }
    forall j, k | 0 <= j < k < |added|
      ensures added[j].templateId != added[k].templateId
    {
      assert TemplateKey(m[j]) != TemplateKey(m[k]);
    }
    OnePerTemplateAppend(instances, added, weekStart);
  }

  /** Appending rows for distinct templates that had no instance in the window keeps one per template. */
  lemma OnePerTemplateAppend(instances: seq<ChoreInstance>, added: seq<ChoreInstance>, weekStart: int)
    requires OnePerTemplate(instances, weekStart)
    requires forall k :: 0 <= k < |added| ==> added[k].templateId !in ExistingTemplateIds(instances, weekStart)
    requires forall j, k :: 0 <= j < k < |added| ==> added[j].templateId != added[k].templateId
    ensures OnePerTemplate(instances + added, weekStart)
  {
    var after := instances + added;
    var n := |instances|;
    forall a, b | 0 <= a < b < |after| && InWindow(after[a], weekStart) && InWindow(after[b], weekStart)
      ensures after[a].templateId != after[b].templateId
    {
      if b < n {
        assert after[a] == instances[a] && after[b] == instances[b];
      } else if a < n {
        assert after[a] == instances[a] && after[b] == added[b - n];
        assert instances[a] in instances;
      } else {
        assert after[a] == added[a - n] && after[b] == added[b - n];
      }
    }
  }

  // ------------------------------------------------------------ status transitions

  /** The fields that say which chore, for whom and for which week an instance is. */
  predicate SameOccurrence(a: ChoreInstance, b: ChoreInstance) {
    a.id == b.id && a.templateId == b.templateId && a.assignedToId == b.assignedToId && a.weekStart == b.weekStart
  }

  /** markChoreComplete on one row, whatever its status was. */
  function Completed(i: ChoreInstance, now: int): ChoreInstance {
    i.(status := ChoreStatus.AwaitingApproval, completedAt := Some(now))
  }

  /** approveChore (approved = true) or rejectChore (approved = false) on one row. */
  function Decided(i: ChoreInstance, approved: bool, approver: Id, now: int): ChoreInstance {
    i.(status := if approved then ChoreStatus.Approved else ChoreStatus.Rejected,
       approvedAt := Some(now), approvedById := Some(approver))
  }

  /**
   * UPDATE chore_instances SET status = 'awaiting_approval', completed_at = now
   * WHERE id = id: the matching row becomes awaiting approval from any status;
   * every other row is untouched.
   */
  function MarkComplete(instances: seq<ChoreInstance>, id: Id, now: int): (r: seq<ChoreInstance>)
    ensures |r| == |instances|
    ensures forall k :: 0 <= k < |r| ==> SameOccurrence(r[k], instances[k])
    ensures forall k :: 0 <= k < |r| && instances[k].id != id ==> r[k] == instances[k]
    ensures forall k :: 0 <= k < |r| && instances[k].id == id ==>
      && r[k].status.AwaitingApproval? && r[k].completedAt == Some(now)
      && r[k].approvedAt == instances[k].approvedAt && r[k].approvedById == instances[k].approvedById
      && r[k].rejectionReason == instances[k].rejectionReason
    ensures Tables.Unique(instances, InstanceKey) ==> Tables.Unique(r, InstanceKey)
  {
    var f := (i: ChoreInstance) => Completed(i, now);
    var match_ := (i: ChoreInstance) => i.id == id;
    Tables.UniqueUpdate(instances, match_, f, InstanceKey);
    Tables.UpdateWhere(instances, match_, f)
  }

  /**
   * UPDATE chore_instances SET status = 'approved' or 'rejected',
   * approved_at = now, approved_by_id = approver WHERE id = id.
   */
  function Decide(instances: seq<ChoreInstance>, id: Id, approved: bool, approver: Id, now: int)
    : (r: seq<ChoreInstance>)
    ensures |r| == |instances|
    ensures forall k :: 0 <= k < |r| ==> SameOccurrence(r[k], instances[k])
    ensures forall k :: 0 <= k < |r| && instances[k].id != id ==> r[k] == instances[k]
    ensures forall k :: 0 <= k < |r| && instances[k].id == id ==>
      && (if approved then r[k].status.Approved? else r[k].status.Rejected?)
      && r[k].approvedAt == Some(now) && r[k].approvedById == Some(approver)
      && r[k].completedAt == instances[k].completedAt
      && r[k].rejectionReason == instances[k].rejectionReason
    ensures Tables.Unique(instances, InstanceKey) ==> Tables.Unique(r, InstanceKey)
  {
    var f := (i: ChoreInstance) => Decided(i, approved, approver, now);
    var match_ := (i: ChoreInstance) => i.id == id;
    Tables.UniqueUpdate(instances, match_, f, InstanceKey);
    Tables.UpdateWhere(instances, match_, f)
  }

  /** The instance row with this id (the `.returning().get()` of the updates). */
  function FindInstance(instances: seq<ChoreInstance>, id: Id): (r: Option<ChoreInstance>)
    ensures r.Some? ==> r.value in instances && r.value.id == id
    ensures r.None? <==> forall i :: i in instances ==> i.id != id
  {
    Tables.Lookup(instances, (i: ChoreInstance) => i.id == id)
  }

  /**
   * The row markChoreComplete returns: there is one exactly when a row had the
   * id before the update, and it awaits approval with completedAt = now.
   */
  lemma CompletedInstanceFound(instances: seq<ChoreInstance>, id: Id, now: int)
    ensures var r := FindInstance(MarkComplete(instances, id, now), id);
      && (r.Some? <==> FindInstance(instances, id).Some?)
      && (r.Some? ==> r.value.status.AwaitingApproval? && r.value.completedAt == Some(now))
  {
    var after := MarkComplete(instances, id, now);
    var r := FindInstance(after, id);
    if r.Some? {
      var k :| 0 <= k < |after| && after[k] == r.value;
    }
    var was := FindInstance(instances, id);
    if was.Some? {
      var k :| 0 <= k < |instances| && instances[k] == was.value;
      assert after[k] in after && after[k].id == id;
    }
  }

  /** Rewriting rows without changing which occurrence they are keeps the templates each window has. */
  lemma SameOccurrencesSameWindows(s: seq<ChoreInstance>, s': seq<ChoreInstance>, weekStart: int)
    requires |s'| == |s|
    requires forall k :: 0 <= k < |s| ==> SameOccurrence(s'[k], s[k])
    ensures ExistingTemplateIds(s', weekStart) == ExistingTemplateIds(s, weekStart)
  {
    WindowsIncluded(s, s', weekStart);
    WindowsIncluded(s', s, weekStart);
  }

  lemma WindowsIncluded(s: seq<ChoreInstance>, s': seq<ChoreInstance>, weekStart: int)
    requires |s'| == |s|
    requires forall k :: 0 <= k < |s| ==> s'[k].templateId == s[k].templateId && s'[k].weekStart == s[k].weekStart
    ensures ExistingTemplateIds(s, weekStart) <= ExistingTemplateIds(s', weekStart)
  {
    forall x | x in ExistingTemplateIds(s, weekStart) ensures x in ExistingTemplateIds(s', weekStart) {
      var i :| i in s && InWindow(i, weekStart) && i.templateId == x;
      var k :| 0 <= k < |s| && s[k] == i;
      var i' := s'[k];
      assert i' in s' && InWindow(i', weekStart) && i'.templateId == x;
    }
  }

  /**
   * Completing, approving or rejecting a chore leaves every week's set of
   * covered templates as it was, so materialisation afterwards still inserts
   * nothing.
   */
  lemma TransitionsKeepWindows(instances: seq<ChoreInstance>, id: Id, approved: bool, approver: Id, now: int, weekStart: int)
    ensures ExistingTemplateIds(MarkComplete(instances, id, now), weekStart) == ExistingTemplateIds(instances, weekStart)
    ensures ExistingTemplateIds(Decide(instances, id, approved, approver, now), weekStart)
         == ExistingTemplateIds(instances, weekStart)
  {
    SameOccurrencesSameWindows(instances, MarkComplete(instances, id, now), weekStart);
    SameOccurrencesSameWindows(instances, Decide(instances, id, approved, approver, now), weekStart);
  }

  // ------------------------------------------------------------ queries

  /** The queue row of one instance, when it awaits approval and both joins find their row. */
  function PendingRow(i: ChoreInstance, templates: seq<ChoreTemplate>, users: seq<User>): Option<Approval> {
    if !i.status.AwaitingApproval? then None
    else
      match (FindTemplate(templates, i.templateId), FindUser(users, i.assignedToId))
      case (Some(t), Some(u)) => Some(Approval(i.id, t.name, t.description, t.value, i.completedAt, u.id, u.name, ChoreItem))
      case _ => None
  }

  /** The joined rows of the approval queue, before ordering. */
  function PendingChoreRows(instances: seq<ChoreInstance>, templates: seq<ChoreTemplate>, users: seq<User>)
    : (r: seq<Approval>)
    ensures forall a :: a in r <==> exists i :: i in instances && PendingRow(i, templates, users) == Some(a)
  {
    Tables.FilterMap(instances, (i: ChoreInstance) => PendingRow(i, templates, users))
  }

  /** getPendingChoreApprovals: the joined rows, ordered by completion time. */
  function PendingChoreApprovals(instances: seq<ChoreInstance>, templates: seq<ChoreTemplate>, users: seq<User>)
    : (r: seq<Approval>)
    ensures Tables.Sorted(r, CompletedFirst)
    ensures multiset(r) == multiset(PendingChoreRows(instances, templates, users))
  {
    CompletedFirstOrder();
    Tables.SortBy(PendingChoreRows(instances, templates, users), CompletedFirst)
  }

  /**
   * The queue holds one chore entry for each instance awaiting approval whose
   * template and kid exist, and nothing else.
   */
  lemma PendingChoreApprovalsExact(instances: seq<ChoreInstance>, templates: seq<ChoreTemplate>, users: seq<User>)
    ensures forall a :: a in PendingChoreApprovals(instances, templates, users) ==>
      && a.kind.ChoreItem?
      && exists i :: i in instances && i.status.AwaitingApproval? && i.id == a.id && i.completedAt == a.completedAt
                  && i.assignedToId == a.kidId
    ensures forall i ::
      (i in instances && i.status.AwaitingApproval?
       && FindTemplate(templates, i.templateId).Some? && FindUser(users, i.assignedToId).Some?) ==>
      exists a :: a in PendingChoreApprovals(instances, templates, users) && a.id == i.id
  {
    var rows := PendingChoreRows(instances, templates, users);
    var r := PendingChoreApprovals(instances, templates, users);
    forall a | a in r
      ensures && a.kind.ChoreItem?
              && exists i :: i in instances && i.status.AwaitingApproval? && i.id == a.id
                          && i.completedAt == a.completedAt && i.assignedToId == a.kidId
    {
      assert a in multiset(r);
      assert a in rows;
      var i :| i in instances && PendingRow(i, templates, users) == Some(a);
      assert i.status.AwaitingApproval?;
    }
    forall i | i in instances && i.status.AwaitingApproval?
             && FindTemplate(templates, i.templateId).Some? && FindUser(users, i.assignedToId).Some?
      ensures exists a :: a in r && a.id == i.id
    {
      var a := PendingRow(i, templates, users).value;
      assert a in rows;
      assert a in multiset(rows);
      assert a in r;
    }
  }

  /** The kid's view of one instance: it is theirs, in the window, and its template exists. */
  function KidWeekRow(i: ChoreInstance, templates: seq<ChoreTemplate>, kidId: Id, weekStart: int): Option<WeeklyChore> {
    if i.assignedToId != kidId || !InWindow(i, weekStart) then None
    else
      match FindTemplate(templates, i.templateId)
      case Some(t) => Some(WeeklyChore(i.id, t.name, t.description, t.value, i.status, t.daysOfWeek,
                                       i.completedAt, i.approvedAt, None, None))
      case None => None
  }

  /** ORDER BY chore_templates.name. */
  predicate ByName(a: WeeklyChore, b: WeeklyChore) {
    Tables.StrLeq(a.name, b.name)
  }

  lemma ByNameOrder()
    ensures Tables.TotalPreorder(ByName)
  {
    forall a: WeeklyChore, b: WeeklyChore ensures ByName(a, b) || ByName(b, a) {
      Tables.StrLeqTotal(a.name, b.name);
    }
    forall a: WeeklyChore, b: WeeklyChore, c: WeeklyChore | ByName(a, b) && ByName(b, c)
      ensures ByName(a, c)
    {
      Tables.StrLeqTransitive(a.name, b.name, c.name);
    }
  }

  /** The kid's rows of the week, before ordering. */
  function KidWeekRows(instances: seq<ChoreInstance>, templates: seq<ChoreTemplate>, kidId: Id, weekStart: int)
    : (r: seq<WeeklyChore>)
    ensures forall c :: c in r <==> exists i :: i in instances && KidWeekRow(i, templates, kidId, weekStart) == Some(c)
  {
    Tables.FilterMap(instances, (i: ChoreInstance) => KidWeekRow(i, templates, kidId, weekStart))
  }

  /** The query of getWeeklyChoresForKid: the kid's rows of the week, ordered by chore name. */
  function KidWeek(instances: seq<ChoreInstance>, templates: seq<ChoreTemplate>, kidId: Id, weekStart: int)
    : (r: seq<WeeklyChore>)
    ensures Tables.Sorted(r, ByName)
    ensures multiset(r) == multiset(KidWeekRows(instances, templates, kidId, weekStart))
  {
    ByNameOrder();
    Tables.SortBy(KidWeekRows(instances, templates, kidId, weekStart), ByName)
  }

  /**
   * The kid's week lists exactly the kid's instances in the window whose
   * template exists, each with its template's name and value.
   */
  lemma KidWeekExact(instances: seq<ChoreInstance>, templates: seq<ChoreTemplate>, kidId: Id, weekStart: int)
    ensures forall c :: c in KidWeek(instances, templates, kidId, weekStart) ==>
      && c.kidId.None?
      && exists i, t :: i in instances && t in templates && i.assignedToId == kidId && InWindow(i, weekStart)
                     && i.templateId == t.id && c.id == i.id && c.status == i.status
                     && c.name == t.name && c.value == t.value
    ensures forall i ::
      (i in instances && i.assignedToId == kidId && InWindow(i, weekStart)
       && FindTemplate(templates, i.templateId).Some?) ==>
      exists c :: c in KidWeek(instances, templates, kidId, weekStart) && c.id == i.id && c.status == i.status
  {
    var rows := KidWeekRows(instances, templates, kidId, weekStart);
    var r := KidWeek(instances, templates, kidId, weekStart);
    forall c | c in r
      ensures && c.kidId.None?
              && exists i, t :: i in instances && t in templates && i.assignedToId == kidId && InWindow(i, weekStart)
                             && i.templateId == t.id && c.id == i.id && c.status == i.status
                             && c.name == t.name && c.value == t.value
    {
      assert c in multiset(r);
      assert c in rows;
      var i :| i in instances && KidWeekRow(i, templates, kidId, weekStart) == Some(c);
      var t := FindTemplate(templates, i.templateId).value;
      assert i in instances && t in templates;
    }
    forall i | i in instances && i.assignedToId == kidId && InWindow(i, weekStart)
             && FindTemplate(templates, i.templateId).Some?
      ensures exists c :: c in r && c.id == i.id && c.status == i.status
    {
      var c := KidWeekRow(i, templates, kidId, weekStart).value;
      assert c in rows;
      assert c in multiset(rows);
      assert c in r;
    }
  }

  /** The parent view of one instance: in the window, with its template and its kid. */
  function FamilyWeekRow(i: ChoreInstance, templates: seq<ChoreTemplate>, users: seq<User>, weekStart: int)
    : Option<WeeklyChore>
  {
    if !InWindow(i, weekStart) then None
    else
      match (FindTemplate(templates, i.templateId), FindUser(users, i.assignedToId))
      case (Some(t), Some(u)) => Some(WeeklyChore(i.id, t.name, t.description, t.value, i.status, t.daysOfWeek,
                                                  i.completedAt, i.approvedAt, Some(u.id), Some(u.name)))
      case _ => None
  }

  /** ORDER BY user.name, chore_templates.name. */
  predicate ByKidThenName(a: WeeklyChore, b: WeeklyChore) {
    Tables.PairLeq(a.kidName.GetOr(""), a.name, b.kidName.GetOr(""), b.name)
  }

  lemma ByKidThenNameOrder()
    ensures Tables.TotalPreorder(ByKidThenName)
  {
    forall a: WeeklyChore, b: WeeklyChore ensures ByKidThenName(a, b) || ByKidThenName(b, a) {
      Tables.PairLeqTotal(a.kidName.GetOr(""), a.name, b.kidName.GetOr(""), b.name);
    }
    forall a: WeeklyChore, b: WeeklyChore, c: WeeklyChore | ByKidThenName(a, b) && ByKidThenName(b, c)
      ensures ByKidThenName(a, c)
    {
      Tables.PairLeqTransitive(a.kidName.GetOr(""), a.name, b.kidName.GetOr(""), b.name, c.kidName.GetOr(""), c.name);
    }
  }

  /** Every family's rows of the week, before ordering. */
  function FamilyWeekRows(instances: seq<ChoreInstance>, templates: seq<ChoreTemplate>, users: seq<User>, weekStart: int)
    : (r: seq<WeeklyChore>)
    ensures forall c :: c in r <==> exists i :: i in instances && FamilyWeekRow(i, templates, users, weekStart) == Some(c)
  {
    Tables.FilterMap(instances, (i: ChoreInstance) => FamilyWeekRow(i, templates, users, weekStart))
  }

  /**
   * The query of getAllWeeklyChores: every instance in the window, of every
   * family (there is no family filter), ordered by kid name, then chore name.
   */
  function FamilyWeek(instances: seq<ChoreInstance>, templates: seq<ChoreTemplate>, users: seq<User>, weekStart: int)
    : (r: seq<WeeklyChore>)
    ensures Tables.Sorted(r, ByKidThenName)
    ensures multiset(r) == multiset(FamilyWeekRows(instances, templates, users, weekStart))
  {
    ByKidThenNameOrder();
    Tables.SortBy(FamilyWeekRows(instances, templates, users, weekStart), ByKidThenName)
  }

  /**
   * The parent view lists exactly the instances in the window whose template
   * and kid exist, each with the kid's id and name.
   */
  lemma FamilyWeekExact(instances: seq<ChoreInstance>, templates: seq<ChoreTemplate>, users: seq<User>, weekStart: int)
    ensures forall c :: c in FamilyWeek(instances, templates, users, weekStart) ==>
      && c.kidId.Some? && c.kidName.Some?
      && exists i :: i in instances && InWindow(i, weekStart) && c.id == i.id && c.status == i.status
                  && c.kidId == Some(i.assignedToId)
    ensures forall i ::
      (i in instances && InWindow(i, weekStart)
       && FindTemplate(templates, i.templateId).Some? && FindUser(users, i.assignedToId).Some?) ==>
      exists c :: c in FamilyWeek(instances, templates, users, weekStart) && c.id == i.id && c.status == i.status
  {
    var rows := FamilyWeekRows(instances, templates, users, weekStart);
    var r := FamilyWeek(instances, templates, users, weekStart);
    forall c | c in r
      ensures && c.kidId.Some? && c.kidName.Some?
              && exists i :: i in instances && InWindow(i, weekStart) && c.id == i.id && c.status == i.status
                          && c.kidId == Some(i.assignedToId)
    {
      assert c in multiset(r);
      assert c in rows;
      var i :| i in instances && FamilyWeekRow(i, templates, users, weekStart) == Some(c);
    }
    forall i | i in instances && InWindow(i, weekStart)
             && FindTemplate(templates, i.templateId).Some? && FindUser(users, i.assignedToId).Some?
      ensures exists c :: c in r && c.id == i.id && c.status == i.status
    {
      var c := FamilyWeekRow(i, templates, users, weekStart).value;
      assert c in rows;
      assert c in multiset(rows);
      assert c in r;
    }
  }
}
