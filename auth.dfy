/**
 * The pure part of the kid and family records (src/server/auth.ts): the
 * current user, the kid queries, the rows createKid writes and the update
 * updateKid builds. Module Server applies them to the store.
 */
module Auth {
  import opened Wrappers
  import opened Schema
  import Tables

  // ------------------------------------------------------------ lookups

  /** getCurrentUser: no user without a session, otherwise the session's user. */
  function CurrentUser(session: Option<Id>, users: seq<User>): (r: Option<User>)
    ensures session.None? ==> r.None?
    ensures r.Some? ==> session.Some? && r.value.id == session.value && r.value in users
    ensures session.Some? && (exists u :: u in users && u.id == session.value) ==> r.Some?
  {
    match session
    case None => None
    case Some(id) => FindUser(users, id)
  }

  /** The user is a kid: role 'child'. */
  predicate IsKid(u: User) {
    u.role == Some(Child)
  }

  /** ORDER BY user.name. */
  predicate UserByName(a: User, b: User) {
    Tables.StrLeq(a.name, b.name)
  }

  lemma UserByNameOrder()
    ensures Tables.TotalPreorder(UserByName)
  {
    forall a: User, b: User ensures UserByName(a, b) || UserByName(b, a) {
      Tables.StrLeqTotal(a.name, b.name);
    }
    forall a: User, b: User, c: User | UserByName(a, b) && UserByName(b, c)
      ensures UserByName(a, c)
    {
      Tables.StrLeqTransitive(a.name, b.name, c.name);
    }
  }

  /** getKids: exactly the users whose role is 'child', each once per row, ordered by name. */
  function Kids(users: seq<User>): (r: seq<User>)
    ensures Tables.Sorted(r, UserByName)
    ensures forall u :: u in r <==> u in users && IsKid(u)
    ensures forall u :: multiset(r)[u] == if IsKid(u) then multiset(users)[u] else 0
  {
    UserByNameOrder();
    var kids := Tables.Filter(users, IsKid);
    var r := Tables.SortBy(kids, UserByName);
    assert forall u :: u in r <==> u in kids by {
      forall u ensures u in r <==> u in kids {
        assert u in r <==> u in multiset(r);
        assert u in kids <==> u in multiset(kids);
      }
    }
    r
  }

  /** getKidById: "Kid not found" when there is no user with the id and when that user is not a kid. */
  function KidById(users: seq<User>, kidId: Id): (r: Result<User>)
    ensures r.Ok? ==> r.value in users && r.value.id == kidId && IsKid(r.value)
    ensures r.Err? ==> r.error == KidNotFound
  {
    match FindUser(users, kidId)
    case Some(u) => if IsKid(u) then Ok(u) else Err(KidNotFound)
    case None => Err(KidNotFound)
  }

  /** Under a primary key getKidById fails exactly when no kid has that id. */
  lemma KidByIdExact(users: seq<User>, kidId: Id)
    requires Tables.Unique(users, UserKey)
    ensures KidById(users, kidId).Err? <==> forall u :: u in users && u.id == kidId ==> !IsKid(u)
  {
    if KidById(users, kidId).Err? {
      forall u | u in users && u.id == kidId ensures !IsKid(u) {
        FindUserUnique(users, kidId, u);
      }
    }
  }

  // ------------------------------------------------------------ createKid

  /** The input of createKid; an absent allowance defaults to 0. */
  datatype KidInput = KidInput(name: string, weeklyAllowance: Option<real>)

  predicate ValidKidInput(input: KidInput) {
    |input.name| >= 1 && (input.weeklyAllowance.Some? ==> input.weeklyAllowance.value >= 0.0)
  }

  /** The family a parent without one gets. */
  function FamilyName(parentName: string): (r: string)
    ensures |r| == |parentName| + 9
    ensures r[..|parentName|] == parentName && r[|parentName|..] == "'s Family"
  {
    parentName + "'s Family"
  }

  /** The placeholder email of a kid account. */
  function KidEmail(kidId: Id): (r: string)
    ensures |r| == |kidId| + 10
    ensures r[..|kidId|] == kidId && r[|kidId|..] == "@kid.local"
  {
    kidId + "@kid.local"
  }

  /** Distinct kid ids give distinct placeholder emails (user.email is unique). */
  lemma KidEmailInjective(a: Id, b: Id)
    ensures KidEmail(a) == KidEmail(b) ==> a == b
  {
    if KidEmail(a) == KidEmail(b) {
      assert |a| == |b|;
      assert a == KidEmail(a)[..|a|];
    }
  }

  /** The family the kid joins: the parent's when it has one, otherwise the one created for it. */
  function KidFamily(parent: User, newFamilyId: Id): (r: Id)
    ensures HasFamily(parent.familyId) ==> Some(r) == parent.familyId
    ensures !HasFamily(parent.familyId) ==> r == newFamilyId
  {
    if HasFamily(parent.familyId) then parent.familyId.value else newFamilyId
  }

  /** The kid row createKid inserts. */
  function NewKid(input: KidInput, kidId: Id, familyId: Id, now: int): (u: User)
    ensures u.id == kidId && IsKid(u) && u.familyId == Some(familyId) && u.emailVerified
    ensures u.email == KidEmail(kidId) && u.name == input.name
    ensures u.weeklyAllowance == Some(if input.weeklyAllowance.Some? then input.weeklyAllowance.value else DefaultWeeklyAllowance)
    ensures u.createdAt == now && u.updatedAt == now
  {
    User(kidId, input.name, KidEmail(kidId), true, Some(Child), Some(familyId),
         Some(input.weeklyAllowance.GetOr(DefaultWeeklyAllowance)), now, now)
  }

  /** UPDATE user SET family_id = familyId WHERE id = parentId. */
  function SetFamily(users: seq<User>, parentId: Id, familyId: Id): (r: seq<User>)
    ensures |r| == |users|
    ensures forall k :: 0 <= k < |r| ==> r[k] == if users[k].id == parentId then users[k].(familyId := Some(familyId)) else users[k]
    ensures Tables.Unique(users, UserKey) ==> Tables.Unique(r, UserKey)
  {
    var f := (u: User) => u.(familyId := Some(familyId));
    var match_ := (u: User) => u.id == parentId;
    Tables.UniqueUpdate(users, match_, f, UserKey);
    Tables.UpdateWhere(users, match_, f)
  }

  // ------------------------------------------------------------ updateKid

  /** The input of updateKid without its id. */
  datatype KidPatch = KidPatch(name: Option<string>, weeklyAllowance: Option<real>)

  predicate ValidKidPatch(p: KidPatch) {
    (p.name.Some? ==> |p.name.value| >= 1) && (p.weeklyAllowance.Some? ==> p.weeklyAllowance.value >= 0.0)
  }

  /**
   * The update record: the name when a non-empty one is given (JavaScript
   * truthiness), the allowance when one is given, and always the update time.
   */
  function ApplyKidPatch(u: User, p: KidPatch, now: int): (r: User)
    ensures r.id == u.id && r.email == u.email && r.emailVerified == u.emailVerified
    ensures r.role == u.role && r.familyId == u.familyId && r.createdAt == u.createdAt
    ensures r.name == (if p.name.Some? && p.name.value != "" then p.name.value else u.name)
    ensures r.weeklyAllowance == (if p.weeklyAllowance.Some? then p.weeklyAllowance else u.weeklyAllowance)
    ensures r.updatedAt == now
  {
    var named := if p.name.Some? && p.name.value != "" then u.(name := p.name.value) else u;
    var paid := if p.weeklyAllowance.Some? then named.(weeklyAllowance := p.weeklyAllowance) else named;
    paid.(updatedAt := now)
  }

  /** A patch with nothing to change still stamps the update time: the update is never empty. */
  lemma EmptyKidPatchStampsOnly(u: User, now: int)
    ensures ApplyKidPatch(u, KidPatch(None, None), now) == u.(updatedAt := now)
  {
  }

  /** UPDATE user SET ... WHERE id = kidId; the role of the row is not checked. */
  function PatchUsers(users: seq<User>, kidId: Id, p: KidPatch, now: int): (r: seq<User>)
    ensures |r| == |users|
    ensures forall k :: 0 <= k < |r| ==> r[k] == if users[k].id == kidId then ApplyKidPatch(users[k], p, now) else users[k]
    ensures Tables.Unique(users, UserKey) ==> Tables.Unique(r, UserKey)
  {
    var f := (u: User) => ApplyKidPatch(u, p, now);
    var match_ := (u: User) => u.id == kidId;
    Tables.UniqueUpdate(users, match_, f, UserKey);
    Tables.UpdateWhere(users, match_, f)
  }

  /** The row the update returns: the patched user when one has the id, none otherwise. */
  lemma PatchedUserFound(users: seq<User>, kidId: Id, p: KidPatch, now: int)
    requires Tables.Unique(users, UserKey)
    ensures var found := FindUser(users, kidId);
      FindUser(PatchUsers(users, kidId, p, now), kidId)
        == if found.Some? then Some(ApplyKidPatch(found.value, p, now)) else None
  {
    var r := PatchUsers(users, kidId, p, now);
    var found := FindUser(users, kidId);
    if found.Some? {
      var k :| 0 <= k < |users| && users[k] == found.value;
      FindUserUnique(r, kidId, r[k]);
    } else {
      forall u | u in r ensures u.id != kidId {
        var k :| 0 <= k < |r| && r[k] == u;
      }
    }
  }

  /** DELETE FROM user WHERE id = kidId. */
  function DeleteUser(users: seq<User>, kidId: Id): (r: seq<User>)
    ensures forall u :: u in r <==> u in users && u.id != kidId
    ensures forall u: User :: u.id != kidId ==> multiset(r)[u] == multiset(users)[u]
    ensures Tables.Unique(users, UserKey) ==> Tables.Unique(r, UserKey)
  {
    var gone := (u: User) => u.id == kidId;
    Tables.UniqueDelete(users, gone, UserKey);
    Tables.DeleteWhere(users, gone)
  }
}
