// The queries ControlManager answers over its element list: LINQ `Where`
// filters, `Any` membership tests, first-match lookups, and the list updates
// that Add and the two Remove overloads perform. Everything here is a
// function of the list; the class in control_manager.dfy applies them.

module Registry {
  import opened Text
  import opened Entities

  type EntityList = seq<ControllableEntity>

  // ---------------------------------------------------------------------
  // Where

  /** LINQ `Where`: the elements satisfying `p`, in their original order. */
  function Where(s: EntityList, p: ControllableEntity -> bool): (r: EntityList)
    ensures |r| <= |s|
    decreases |s|
  {
    if s == [] then [] else (if p(s[0]) then [s[0]] else []) + Where(s[1..], p)
  }

  /** Where keeps exactly the elements satisfying `p`, each no more often than in `s`. */
  lemma {:induction false} WhereSelects(s: EntityList, p: ControllableEntity -> bool)
    ensures forall e :: e in Where(s, p) <==> e in s && p(e)
    ensures multiset(Where(s, p)) <= multiset(s)
    decreases |s|
  {
    if s != [] {
      WhereSelects(s[1..], p);
      assert s == [s[0]] + s[1..];
    }
  }

  lemma {:induction false} WhereAppend(a: EntityList, b: EntityList, p: ControllableEntity -> bool)
    ensures Where(a + b, p) == Where(a, p) + Where(b, p)
    decreases |a|
  {
    if a == [] {
      assert a + b == b;
    } else {
      assert (a + b)[0] == a[0] && (a + b)[1..] == a[1..] + b;
      WhereAppend(a[1..], b, p);
      var h := if p(a[0]) then [a[0]] else [];
      assert Where(a + b, p) == h + Where(a[1..] + b, p);
      assert Where(a, p) == h + Where(a[1..], p);
    }
  }

  /** Filtering twice is filtering once by the conjunction. */
  lemma {:induction false} WhereWhere(s: EntityList, p: ControllableEntity -> bool, q: ControllableEntity -> bool,
                                      pq: ControllableEntity -> bool)
    requires forall e :: pq(e) == (p(e) && q(e))
    ensures Where(Where(s, p), q) == Where(s, pq)
    decreases |s|
  {
    if s != [] {
      WhereWhere(s[1..], p, q, pq);
      if p(s[0]) {
        var t := Where(s[1..], p);
        assert Where(s, p) == [s[0]] + t;
        WhereAppend([s[0]], t, q);
        assert [s[0]][1..] == [];
        assert Where([s[0]], q) == if q(s[0]) then [s[0]] else [];
      } else {
        assert Where(s, p) == Where(s[1..], p);
        assert !pq(s[0]);
      }
    }
  }

  lemma WhereCons(x: ControllableEntity, s: EntityList, p: ControllableEntity -> bool)
    ensures Where([x] + s, p) == (if p(x) then [x] else []) + Where(s, p)
  {
    assert ([x] + s)[0] == x && ([x] + s)[1..] == s;
  }

  /** Two complementary filters split the list: sizes add up and no element is lost. */
  lemma {:induction false} WherePartition(s: EntityList, p: ControllableEntity -> bool, q: ControllableEntity -> bool)
    requires forall e :: q(e) == !p(e)
    ensures |Where(s, p)| + |Where(s, q)| == |s|
    ensures multiset(Where(s, p)) + multiset(Where(s, q)) == multiset(s)
    decreases |s|
  {
    if s != [] {
      WherePartition(s[1..], p, q);
      assert s == [s[0]] + s[1..];
    }
  }

  // ---------------------------------------------------------------------
  // The filter properties of ControlManager

  function ActiveEntities(s: EntityList): EntityList { Where(s, IsActive) }
  function InactiveEntities(s: EntityList): EntityList { Where(s, IsInactive) }
  function LivingEntities(s: EntityList): EntityList { Where(s, IsLiving) }
  function DeadEntities(s: EntityList): EntityList { Where(s, IsDeadActive) }
  function Peds(s: EntityList): EntityList { Where(s, IsPed) }
  function Vehicles(s: EntityList): EntityList { Where(s, IsVehicle) }

  /** Only the active flag is consulted: a dead ped still counts as "living". */
  function LivingPeds(s: EntityList): EntityList { Where(Peds(s), IsActive) }

  /** Only the active flag is consulted: a dead vehicle still counts as "living". */
  function LivingVehicles(s: EntityList): EntityList { Where(Vehicles(s), IsActive) }

  function PedCount(s: EntityList): nat { |Peds(s)| }
  function VehicleCount(s: EntityList): nat { |Vehicles(s)| }

  /** Active and inactive wrappers partition the list. */
  lemma ActiveInactivePartition(s: EntityList)
    ensures |ActiveEntities(s)| + |InactiveEntities(s)| == |s|
    ensures multiset(ActiveEntities(s)) + multiset(InactiveEntities(s)) == multiset(s)
    ensures forall e :: e in s ==> (e in ActiveEntities(s) <==> e !in InactiveEntities(s))
  {
    WherePartition(s, IsActive, IsInactive);
    WhereSelects(s, IsActive);
    WhereSelects(s, IsInactive);
  }

  /** Living and dead wrappers are the alive and the dead among the active
      ones, so both are sub-lists of ActiveEntities and together make it up. */
  lemma LivingAndDeadSplitActive(s: EntityList)
    ensures LivingEntities(s) == Where(ActiveEntities(s), IsAlive)
    ensures DeadEntities(s) == Where(ActiveEntities(s), IsDead)
    ensures multiset(LivingEntities(s)) + multiset(DeadEntities(s)) == multiset(ActiveEntities(s))
    ensures multiset(LivingEntities(s)) <= multiset(ActiveEntities(s))
    ensures multiset(DeadEntities(s)) <= multiset(ActiveEntities(s))
  {
    WhereWhere(s, IsActive, IsAlive, IsLiving);
    WhereWhere(s, IsActive, IsDead, IsDeadActive);
    WherePartition(ActiveEntities(s), IsAlive, IsDead);
  }

  /** LivingPeds is exactly the active wrappers whose group id names a ped,
      whatever order the two filters are applied in. */
  lemma LivingPedsAreActivePeds(s: EntityList)
    ensures forall e :: e in LivingPeds(s) <==> e in s && IsPed(e) && e.isActive
    ensures LivingPeds(s) == Where(ActiveEntities(s), IsPed)
  {
    var both := (e: ControllableEntity) => IsPed(e) && IsActive(e);
    WhereSelects(s, IsPed);
    WhereSelects(Peds(s), IsActive);
    WhereWhere(s, IsPed, IsActive, both);
    WhereWhere(s, IsActive, IsPed, both);
  }

  /** LivingVehicles is exactly the active wrappers whose group id names a vehicle. */
  lemma LivingVehiclesAreActiveVehicles(s: EntityList)
    ensures forall e :: e in LivingVehicles(s) <==> e in s && IsVehicle(e) && e.isActive
    ensures LivingVehicles(s) == Where(ActiveEntities(s), IsVehicle)
  {
    var both := (e: ControllableEntity) => IsVehicle(e) && IsActive(e);
    WhereSelects(s, IsVehicle);
    WhereSelects(Vehicles(s), IsActive);
    WhereWhere(s, IsVehicle, IsActive, both);
    WhereWhere(s, IsActive, IsVehicle, both);
  }

  /** A single active, dead ped: LivingPeds reports it although LivingEntities
      does not, because LivingPeds never looks at IsAlive. */
  lemma LivingPedsIncludeDeadPeds()
    ensures var e := ControllableEntity(0, "PED", 0, true, false, false, PedKind);
            e in LivingPeds([e]) && e !in LivingEntities([e]) && e in DeadEntities([e])
  {
    var e := ControllableEntity(0, "PED", 0, true, false, false, PedKind);
    assert IsPed(e);
  }

  /** Peds and Vehicles are the wrappers whose group id contains "PED", resp. "VEHICLE". */
  lemma PedsAndVehiclesByGroupTag(s: EntityList)
    ensures forall e :: e in Peds(s) <==> e in s && exists i :: OccursAt(e.groupId, PedTag, i)
    ensures forall e :: e in Vehicles(s) <==> e in s && exists i :: OccursAt(e.groupId, VehicleTag, i)
  {
    WhereSelects(s, IsPed);
    WhereSelects(s, IsVehicle);
    forall e | e in s
      ensures IsPed(e) <==> exists i :: OccursAt(e.groupId, PedTag, i)
      ensures IsVehicle(e) <==> exists i :: OccursAt(e.groupId, VehicleTag, i)
    {
      GroupClassification(e);
    }
  }

  /** The capacity checks count LivingPeds / LivingVehicles, never more than the
      category, never more than the list. */
  lemma LivingCountsBounded(s: EntityList)
    ensures |LivingPeds(s)| <= PedCount(s) <= |s|
    ensures |LivingVehicles(s)| <= VehicleCount(s) <= |s|
  {
  }

  // ---------------------------------------------------------------------
  // Membership (LINQ Any) on the identity axes

  predicate ContainsEntity(s: EntityList, h: EntityHandle)
  {
    exists i :: 0 <= i < |s| && s[i].entity == h
  }

  /** Contains(ControllableEntity) asks about the wrapped entity, not the wrapper. */
  predicate ContainsWrapper(s: EntityList, e: ControllableEntity)
  {
    ContainsEntity(s, e.entity)
  }

  predicate ContainsGroup(s: EntityList, groupId: string)
  {
    exists i :: 0 <= i < |s| && s[i].groupId == groupId
  }

  predicate ContainsUid(s: EntityList, uid: int)
  {
    exists i :: 0 <= i < |s| && s[i].uniqueId == uid
  }

  /** A registered wrapper is always found; a wrapper is also "contained"
      when a different wrapper holds the same entity. */
  lemma ContainsWrapperProperties(s: EntityList, e: ControllableEntity)
    ensures e in s ==> ContainsWrapper(s, e)
    ensures ContainsWrapper(s, e) <==> exists w :: w in s && w.entity == e.entity
  {
    if e in s {
      var i :| 0 <= i < |s| && s[i] == e;
    }
    if ContainsWrapper(s, e) {
      var i :| 0 <= i < |s| && s[i].entity == e.entity;
      assert s[i] in s;
    }
  }

  /** Get(string): all wrappers with exactly that group id, in order. */
  function GetByGroup(s: EntityList, groupId: string): (r: EntityList)
    ensures forall e :: e in r <==> e in s && e.groupId == groupId
    ensures r != [] <==> ContainsGroup(s, groupId)
  {
    var inGroup := (e: ControllableEntity) => e.groupId == groupId;
    WhereSelects(s, inGroup);
    var r := Where(s, inGroup);
    assert r != [] <==> ContainsGroup(s, groupId) by {
      if ContainsGroup(s, groupId) {
        var i :| 0 <= i < |s| && s[i].groupId == groupId;
        assert s[i] in r;
      }
      if r != [] {
        assert r[0] in s;
        var i :| 0 <= i < |s| && s[i] == r[0];
      }
    }
    r
  }

  // ---------------------------------------------------------------------
  // First-match search

  /** Index of the first wrapper with the given unique id. */
  function IndexOfUid(s: EntityList, uid: int): (r: Option<nat>)
    ensures r.None? <==> !ContainsUid(s, uid)
    ensures r.Some? ==> r.value < |s| && s[r.value].uniqueId == uid
    ensures r.Some? ==> forall j :: 0 <= j < r.value ==> s[j].uniqueId != uid
    decreases |s|
  {
    if s == [] then None
    else if s[0].uniqueId == uid then Some(0)
    else
      match IndexOfUid(s[1..], uid)
      case None =>
        assert forall j :: 1 <= j < |s| ==> s[j] == s[1..][j - 1];
        None
      case Some(i) => Some(i + 1)
  }

  /** Index of the first element equal to `e` (List.IndexOf / List.Remove). */
  function IndexOf(s: EntityList, e: ControllableEntity): (r: Option<nat>)
    ensures r.None? <==> e !in s
    ensures r.Some? ==> r.value < |s| && s[r.value] == e
    ensures r.Some? ==> forall j :: 0 <= j < r.value ==> s[j] != e
    decreases |s|
  {
    if s == [] then None
    else if s[0] == e then Some(0)
    else
      match IndexOf(s[1..], e)
      case None => None
      case Some(i) => Some(i + 1)
  }

  /** Get(int): the first wrapper with that id; None stands for the
      IndexOutOfRangeException thrown when there is none. */
  function GetByUid(s: EntityList, uid: int): (r: Option<ControllableEntity>)
    ensures r.Some? <==> ContainsUid(s, uid)
    ensures r.Some? ==> r.value in s && r.value.uniqueId == uid
  {
    match IndexOfUid(s, uid)
    case None => None
    case Some(i) => Some(s[i])
  }

  /** Deleting position `i` keeps everything else, in order. */
  function DeleteAt(s: EntityList, i: nat): (r: EntityList)
    requires i < |s|
    ensures |r| == |s| - 1
    ensures forall j :: 0 <= j < i ==> r[j] == s[j]
    ensures forall j :: i <= j < |r| ==> r[j] == s[j + 1]
  {
    s[..i] + s[i + 1..]
  }

  /** List.Remove(item): deletes the first element equal to `e`, if any. */
  function RemoveFirst(s: EntityList, e: ControllableEntity): (r: EntityList)
    ensures |r| <= |s|
    decreases |s|
  {
    if s == [] then []
    else if s[0] == e then s[1..]
    else [s[0]] + RemoveFirst(s[1..], e)
  }

  /** List.Remove takes away one copy of `e` when there is one and changes
      nothing otherwise. */
  lemma {:induction false} RemoveFirstSpec(s: EntityList, e: ControllableEntity)
    ensures e !in s ==> RemoveFirst(s, e) == s
    ensures multiset(RemoveFirst(s, e)) == multiset(s) - multiset{e}
    ensures |RemoveFirst(s, e)| == if e in s then |s| - 1 else |s|
    decreases |s|
  {
    if s != [] {
      assert s == [s[0]] + s[1..];
      RemoveFirstSpec(s[1..], e);
    }
  }

  /** The scan agrees with "delete the position IndexOf reports". */
  lemma {:induction false} RemoveFirstDeletesIndexOf(s: EntityList, e: ControllableEntity)
    ensures IndexOf(s, e).None? ==> RemoveFirst(s, e) == s
    ensures IndexOf(s, e).Some? ==> RemoveFirst(s, e) == DeleteAt(s, IndexOf(s, e).value)
    decreases |s|
  {
    if s != [] && s[0] != e {
      RemoveFirstDeletesIndexOf(s[1..], e);
      match IndexOf(s[1..], e)
      case None =>
      case Some(i) => DeleteAtShift(s, i);
    }
  }

  lemma DeleteAtShift(s: EntityList, i: nat)
    requires i + 1 < |s|
    ensures DeleteAt(s, i + 1) == [s[0]] + DeleteAt(s[1..], i)
  {
    assert s[..i + 1] == [s[0]] + s[1..][..i];
    assert s[i + 2..] == s[1..][i + 1..];
  }

  // ---------------------------------------------------------------------
  // Identity uniqueness and the list updates

  /** No two registered wrappers share a unique id. */
  predicate DistinctIds(s: EntityList)
  {
    forall i, j :: 0 <= i < j < |s| ==> s[i].uniqueId != s[j].uniqueId
  }

  /** Add's effect on the list: append unless the id is already present. */
  function Inserted(s: EntityList, e: ControllableEntity): (r: EntityList)
    ensures r == s || r == s + [e]
    ensures r == s + [e] <==> !ContainsUid(s, e.uniqueId)
    ensures DistinctIds(s) ==> DistinctIds(r)
  {
    if ContainsUid(s, e.uniqueId) then s else s + [e]
  }

  /** AssignRandomId draws ids from [0, IdSpace). */
  const IdSpace := 1000000

  /** AssignRandomId's effect on the wrapper: take the candidate id unless a
      registered wrapper already has it, in which case nothing changes. */
  function WithRandomId(s: EntityList, e: ControllableEntity, candidate: int): (r: ControllableEntity)
    ensures r == e || r == e.(uniqueId := candidate)
    ensures ContainsUid(s, candidate) ==> r == e
    ensures r.uniqueId != e.uniqueId ==> !ContainsUid(s, r.uniqueId) && Inserted(s, r) == s + [r]
    ensures !ContainsUid(s, candidate) ==> r.uniqueId == candidate
  {
    if ContainsUid(s, candidate) then e else e.(uniqueId := candidate)
  }

  /** Remove(int)'s effect on the list: remove the wrapper Get(int) finds. */
  function RemovedById(s: EntityList, uid: int): EntityList
  {
    if ContainsUid(s, uid) then RemoveFirst(s, GetByUid(s, uid).value) else s
  }

  /** Remove(int) deletes exactly the first wrapper carrying `uid` and keeps the
      others in order; it is the identity when no wrapper carries `uid`. */
  lemma RemovedByIdDeletesFirstMatch(s: EntityList, uid: int)
    ensures IndexOfUid(s, uid).None? ==> RemovedById(s, uid) == s
    ensures IndexOfUid(s, uid).Some? ==>
              RemovedById(s, uid) == DeleteAt(s, IndexOfUid(s, uid).value)
  {
    match IndexOfUid(s, uid)
    case None =>
    case Some(i) =>
      var k := IndexOf(s, s[i]);
      assert k.Some? && k.value <= i;
      assert s[k.value].uniqueId == uid;
      RemoveFirstDeletesIndexOf(s, s[i]);
  }

  /** Deleting one position never creates an id clash. */
  lemma DeleteAtKeepsDistinct(s: EntityList, i: nat)
    requires i < |s| && DistinctIds(s)
    ensures DistinctIds(DeleteAt(s, i))
  {
    var r := DeleteAt(s, i);
    forall a, b | 0 <= a < b < |r|
      ensures r[a].uniqueId != r[b].uniqueId
    {
      var a', b' := if a < i then a else a + 1, if b < i then b else b + 1;
      assert r[a] == s[a'] && r[b] == s[b'] && a' < b';
    }
  }

  lemma RemoveFirstKeepsDistinct(s: EntityList, e: ControllableEntity)
    requires DistinctIds(s)
    ensures DistinctIds(RemoveFirst(s, e))
  {
    RemoveFirstDeletesIndexOf(s, e);
    if e in s {
      DeleteAtKeepsDistinct(s, IndexOf(s, e).value);
    }
  }

  /** Deleting a wrapper carrying `uid` keeps every other id present, and with
      distinct ids it takes `uid` away entirely. */
  lemma DeleteAtUids(s: EntityList, i: nat, uid: int)
    requires i < |s| && s[i].uniqueId == uid
    ensures forall u :: u != uid ==> (ContainsUid(DeleteAt(s, i), u) <==> ContainsUid(s, u))
    ensures DistinctIds(s) ==> !ContainsUid(DeleteAt(s, i), uid)
  {
    var r := DeleteAt(s, i);
    forall u | ContainsUid(s, u) && u != uid
      ensures ContainsUid(r, u)
    {
      var j :| 0 <= j < |s| && s[j].uniqueId == u;
      if j < i {
        assert r[j] == s[j];
      } else {
        assert r[j - 1] == s[j];
      }
    }
    if DistinctIds(s) {
      forall j | 0 <= j < |r|
        ensures r[j].uniqueId != uid
      {
        if j < i {
          assert r[j] == s[j];
        } else {
          assert r[j] == s[j + 1];
        }
      }
    }
  }

  /** With distinct ids, Remove(uid) leaves no wrapper with that id behind, so a
      following Get(uid) reports NotFound; other ids are untouched. */
  lemma RemovedByIdForgetsUid(s: EntityList, uid: int)
    requires DistinctIds(s)
    ensures DistinctIds(RemovedById(s, uid))
    ensures !ContainsUid(RemovedById(s, uid), uid)
    ensures GetByUid(RemovedById(s, uid), uid).None?
    ensures forall u :: u != uid ==> (ContainsUid(RemovedById(s, uid), u) <==> ContainsUid(s, u))
  {
    RemovedByIdDeletesFirstMatch(s, uid);
    match IndexOfUid(s, uid)
    case None =>
    case Some(i) =>
      DeleteAtKeepsDistinct(s, i);
      DeleteAtUids(s, i, uid);
  }

  /** With distinct ids, Get(uid) returns the one and only wrapper carrying uid. */
  lemma GetByUidUnique(s: EntityList, uid: int, e: ControllableEntity)
    requires DistinctIds(s)
    requires e in s && e.uniqueId == uid
    ensures GetByUid(s, uid) == Some(e)
  {
    var i := IndexOfUid(s, uid).value;
    var j :| 0 <= j < |s| && s[j] == e;
    assert i == j;
  }

  /** Entity handles of a list of wrappers, in order. */
  function Handles(s: EntityList): (r: seq<EntityHandle>)
    ensures |r| == |s|
    ensures forall i :: 0 <= i < |s| ==> r[i] == s[i].entity
  {
    seq(|s|, i requires 0 <= i < |s| => s[i].entity)
  }

  lemma HandlesCons(x: ControllableEntity, s: EntityList)
    ensures Handles([x] + s) == [x.entity] + Handles(s)
  {
    var a, b := Handles([x] + s), [x.entity] + Handles(s);
    assert |a| == |b|;
    forall k | 0 <= k < |a|
      ensures a[k] == b[k]
    {
      if k > 0 {
        assert ([x] + s)[k] == s[k - 1];
      }
    }
  }

  // ---------------------------------------------------------------------
  // List.Remove next to other wrappers

  /** Removing a wrapper that does not occur in a prefix leaves the prefix in place. */
  lemma {:induction false} RemoveFirstSkipsPrefix(p: EntityList, t: EntityList, d: ControllableEntity)
    requires forall i :: 0 <= i < |p| ==> p[i] != d
    ensures RemoveFirst(p + t, d) == p + RemoveFirst(t, d)
    decreases |p|
  {
    if p == [] {
      assert p + t == t;
    } else {
      var h, q := p[0], p[1..];
      assert (p + t)[0] == h;
      assert (p + t)[1..] == q + t;
      assert forall i :: 0 <= i < |q| ==> q[i] == p[i + 1];
      RemoveFirstSkipsPrefix(q, t, d);
      assert p + RemoveFirst(t, d) == [h] + (q + RemoveFirst(t, d));
    }
  }

  // ---------------------------------------------------------------------
  // The string dump

  const UidLabel := "UID: "
  const GidLabel := " | GID: "

  /** One line of ToArray(). */
  function Describe(e: ControllableEntity): string
  {
    UidLabel + IntToString(e.uniqueId) + GidLabel + e.groupId
  }

  lemma CharAt(a: string, b: string, k: int)
    ensures 0 <= k < |a| ==> (a + b)[k] == a[k]
    ensures |a| <= k < |a| + |b| ==> (a + b)[k] == b[k - |a|]
  {
  }

  /** Two blank-free words, each followed by a blank, that begin the same string are equal. */
  lemma BlankTerminatedPrefix(x: string, rx: string, y: string, ry: string)
    requires x + rx == y + ry
    requires |rx| > 0 && rx[0] == ' ' && |ry| > 0 && ry[0] == ' '
    requires forall k :: 0 <= k < |x| ==> x[k] != ' '
    requires forall k :: 0 <= k < |y| ==> y[k] != ' '
    ensures x == y
  {
    if |x| < |y| {
      CharAt(x, rx, |x|);
      CharAt(y, ry, |x|);
      assert false;
    } else if |y| < |x| {
      CharAt(x, rx, |y|);
      CharAt(y, ry, |y|);
      assert false;
    }
    assert x == (x + rx)[..|x|] == (y + ry)[..|y|] == y;
  }

  /** A dump line determines the wrapper's unique id and group id. */
  lemma DescribeInjective(a: ControllableEntity, b: ControllableEntity)
    requires Describe(a) == Describe(b)
    ensures a.uniqueId == b.uniqueId && a.groupId == b.groupId
  {
    var x, y := IntToString(a.uniqueId), IntToString(b.uniqueId);
    IntToStringHasNoBlank(a.uniqueId);
    IntToStringHasNoBlank(b.uniqueId);
    var da, db := Describe(a), Describe(b);
    var n := |UidLabel|;
    assert da == UidLabel + (x + (GidLabel + a.groupId));
    assert db == UidLabel + (y + (GidLabel + b.groupId));
    assert da[n..] == x + (GidLabel + a.groupId);
    assert db[n..] == y + (GidLabel + b.groupId);
    BlankTerminatedPrefix(x, GidLabel + a.groupId, y, GidLabel + b.groupId);
    IntToStringInjective(a.uniqueId, b.uniqueId);
    assert a.groupId == da[n + |x| + |GidLabel|..] == db[n + |y| + |GidLabel|..] == b.groupId;
  }

  /** With distinct ids, the dump has no two equal lines. */
  lemma DumpLinesDistinct(s: EntityList)
    requires DistinctIds(s)
    ensures forall i, j :: 0 <= i < j < |s| ==> Describe(s[i]) != Describe(s[j])
  {
    forall i, j | 0 <= i < j < |s|
      ensures Describe(s[i]) != Describe(s[j])
    {
      if Describe(s[i]) == Describe(s[j]) {
        DescribeInjective(s[i], s[j]);
      }
    }
  }
}
