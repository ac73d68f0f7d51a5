// ControlManager: the registry of wrapped entities. Its element list is a
// `seq` that Add, Remove and RemoveAndDeleteAll reassign; the queries over it
// are the functions of module Registry.

module Controllable {
  import opened Entities
  import opened Registry
  import opened Rand

  /** Key code carried by a KeyDown event; only passed on to the wrappers. */
  type KeyCode = int

  class ControlManager {
    /** The registered wrappers, in insertion order. */
    var elements: EntityList
    /** Entities whose deletion (MarkAsNoLongerNeeded, clear IsPersistent,
        Delete) has been requested, in request order. */
    var deleted: seq<EntityHandle>
    /** Number of Main.WindowManager.RefreshAllMenus() notifications sent. */
    ghost var refreshes: nat

    /** Uniqueness of ids, which every mutator below preserves. */
    ghost predicate Valid()
      reads this
    {
      DistinctIds(elements)
    }

    constructor ()
      ensures Valid()
      ensures elements == [] && deleted == [] && refreshes == 0
    {
      elements := [];
      deleted := [];
      refreshes := 0;
    }

    /** Appends `e` unless its unique id is already registered. The menu refresh
        is outside the `if` and fires on every call, rejected or not. */
    method Add(e: ControllableEntity)
      requires Valid()
      modifies this
      ensures Valid()
      ensures elements == Inserted(old(elements), e)
      ensures refreshes == old(refreshes) + 1
      ensures deleted == old(deleted)
    {
      if !ContainsUid(elements, e.uniqueId) {
        elements := elements + [e];
      }
      refreshes := refreshes + 1;
    }

    /** Remove(ControllableEntity): guarded by Contains, which compares entity
        handles; List.Remove then deletes the first element equal to `e`. */
    method Remove(e: ControllableEntity)
      requires Valid()
      modifies this
      ensures Valid()
      ensures elements == RemoveFirst(old(elements), e)
      ensures !ContainsWrapper(old(elements), e) ==> elements == old(elements)
      ensures refreshes == old(refreshes) + (if ContainsWrapper(old(elements), e) then 1 else 0)
      ensures deleted == old(deleted)
    {
      ContainsWrapperProperties(elements, e);
      RemoveFirstSpec(elements, e);
      if ContainsWrapper(elements, e) {
        RemoveFirstKeepsDistinct(elements, e);
        elements := RemoveFirst(elements, e);
        refreshes := refreshes + 1;
      }
    }

    /** Remove(int): removes the wrapper Get(uid) returns, if any. */
    method RemoveById(uid: int)
      requires Valid()
      modifies this
      ensures Valid()
      ensures elements == RemovedById(old(elements), uid)
      ensures !ContainsUid(elements, uid)
      ensures refreshes == old(refreshes) + (if ContainsUid(old(elements), uid) then 1 else 0)
      ensures deleted == old(deleted)
    {
      RemovedByIdForgetsUid(elements, uid);
      if ContainsUid(elements, uid) {
        var target := GetByUid(elements, uid).value;
        elements := RemoveFirst(elements, target);
        refreshes := refreshes + 1;
      }
    }

    /** Requests deletion of every wrapped entity, in list order, then clears
        the list; no menu refresh is sent. */
    method RemoveAndDeleteAll()
      requires Valid()
      modifies this
      ensures Valid()
      ensures elements == []
      ensures deleted == old(deleted) + Handles(old(elements))
      ensures refreshes == old(refreshes)
    {
      var i := 0;
      while i < |elements|
        invariant 0 <= i <= |elements|
        invariant elements == old(elements)
        invariant deleted == old(deleted) + Handles(elements[..i])
        invariant refreshes == old(refreshes)
      {
        assert Handles(elements[..i + 1]) == Handles(elements[..i]) + [elements[i].entity];
        deleted := deleted + [elements[i].entity];
        i := i + 1;
      }
      assert elements[..i] == elements;
      elements := [];
    }

    /** Draws a candidate id in [0, 1000000) and gives it to `e` only when no
        registered wrapper has it; a collision leaves `e` as it was (no retry). */
    method AssignRandomId(e: ControllableEntity, draw: nat) returns (r: ControllableEntity)
      ensures 0 <= Next(0, IdSpace, draw) < IdSpace
      ensures r == WithRandomId(elements, e, Next(0, IdSpace, draw))
      ensures r.uniqueId == e.uniqueId || (0 <= r.uniqueId < IdSpace && !ContainsUid(elements, r.uniqueId))
    {
      var uniqueId := Next(0, IdSpace, draw);
      if ContainsUid(elements, uniqueId) {
        return e;
      }
      r := e.(uniqueId := uniqueId);
    }

    /** The shared shape of CreatePed, CreateVehicle and CreateProp: the world
        creates `handle`, `e.Control(handle)` either refuses (null) or binds the
        wrapper, which is then passed to Add. The handle is returned even when
        Add rejects the wrapper for a duplicate id. */
    method Create(e: ControllableEntity, kind: EntityKind, handle: EntityHandle, controlled: bool)
      returns (r: Option<EntityHandle>)
      requires Valid()
      modifies this
      ensures Valid()
      ensures r == if controlled then Some(handle) else None
      ensures elements == if controlled then Inserted(old(elements), Bound(e, handle, kind)) else old(elements)
      ensures refreshes == old(refreshes) + (if controlled then 1 else 0)
      ensures deleted == old(deleted)
    {
      if !controlled {
        return None;
      }
      Add(Bound(e, handle, kind));
      r := Some(handle);
    }

    /** Tick(): OnTick is dispatched to every wrapper of a copy of the list
        taken first, once each and in order. */
    method Tick() returns (ticked: EntityList)
      ensures ticked == elements
    {
      var snapshot := elements;
      ticked := [];
      for i := 0 to |snapshot|
        invariant ticked == snapshot[..i]
      {
        ticked := ticked + [snapshot[i]];
      }
      assert snapshot[..|snapshot|] == snapshot;
    }

    /** KeyDown(e): the key event is passed to every wrapper of a copy of the
        list, active or not, once each and in order. */
    method KeyDown(key: KeyCode) returns (delivered: seq<(ControllableEntity, KeyCode)>)
      ensures |delivered| == |elements|
      ensures forall i :: 0 <= i < |elements| ==> delivered[i] == (elements[i], key)
    {
      var snapshot := elements;
      delivered := [];
      for i := 0 to |snapshot|
        invariant |delivered| == i
        invariant forall k :: 0 <= k < i ==> delivered[k] == (snapshot[k], key)
      {
        delivered := delivered + [(snapshot[i], key)];
      }
    }

    /** ToArray(): one "UID: <id> | GID: <group>" line per wrapper, in order;
        with distinct ids no two lines are equal. */
    method ToArray() returns (result: array<string>)
      ensures fresh(result)
      ensures result.Length == |elements|
      ensures forall i :: 0 <= i < |elements| ==> result[i] == Describe(elements[i])
      ensures Valid() ==> forall i, j :: 0 <= i < j < result.Length ==> result[i] != result[j]
    {
      result := new string[|elements|];
      for i := 0 to |elements|
        invariant forall k :: 0 <= k < i ==> result[k] == Describe(elements[k])
      {
        result[i] := Describe(elements[i]);
      }
      if Valid() {
        DumpLinesDistinct(elements);
      }
    }
  }
}
