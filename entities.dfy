// The wrapper record the registry stores: a ControllableEntity associates a
// unique id and a group id with an externally owned game entity.

module Entities {
  import opened Text

  datatype Option<T> = None | Some(value: T)

  /** Handle of an entity owned by the game; two wrappers hold "the same
      entity" when their handles are equal. */
  type EntityHandle = int

  /** The runtime type of the wrapped entity (`e.Entity is Ped`, ...). */
  datatype EntityKind = PedKind | VehicleKind | PropKind | OtherKind

  /** A wrapper as the registry sees it. `isAlive` mirrors the entity's
      IsAlive, whose negation is IsDead. */
  datatype ControllableEntity = ControllableEntity(
    uniqueId: int,
    groupId: string,
    entity: EntityHandle,
    isActive: bool,
    isAlive: bool,
    keep: bool,
    kind: EntityKind)

  /** What a wrapper looks like once Control(entity) has bound it to a freshly
      created entity of the given kind: same id and group, new handle, alive. */
  function Bound(e: ControllableEntity, handle: EntityHandle, kind: EntityKind): ControllableEntity
  {
    e.(entity := handle, kind := kind, isAlive := true)
  }

  const PedTag := "PED"
  const VehicleTag := "VEHICLE"

  /** Ped membership is decided by the group id alone. */
  predicate IsPed(e: ControllableEntity)
  {
    HasSubstring(e.groupId, PedTag)
  }

  /** Vehicle membership is decided by the group id alone. */
  predicate IsVehicle(e: ControllableEntity)
  {
    HasSubstring(e.groupId, VehicleTag)
  }

  predicate IsActive(e: ControllableEntity)
  {
    e.isActive
  }

  predicate IsInactive(e: ControllableEntity)
  {
    !e.isActive
  }

  /** The wrapped entity's IsAlive. */
  predicate IsAlive(e: ControllableEntity)
  {
    e.isAlive
  }

  /** The wrapped entity's IsDead. */
  predicate IsDead(e: ControllableEntity)
  {
    !e.isAlive
  }

  /** LivingEntities' condition: active and the entity is alive. */
  predicate IsLiving(e: ControllableEntity)
  {
    e.isActive && e.isAlive
  }

  /** DeadEntities' condition: active and the entity is dead. */
  predicate IsDeadActive(e: ControllableEntity)
  {
    e.isActive && !e.isAlive
  }

  /** A group id is classified as a ped group exactly when "PED" occurs in it
      at some position; likewise for "VEHICLE". */
  lemma {:induction false} GroupClassification(e: ControllableEntity)
    ensures IsPed(e) <==> exists i :: OccursAt(e.groupId, PedTag, i)
    ensures IsVehicle(e) <==> exists i :: OccursAt(e.groupId, VehicleTag, i)
  {
    HasSubstringIff(e.groupId, PedTag);
    HasSubstringIff(e.groupId, VehicleTag);
  }

  /** The group id used by TeamVehicle classifies as a vehicle and not as a ped. */
  lemma TeamVehicleGroupIsVehicle(e: ControllableEntity)
    requires e.groupId == "TEAM_VEHICLE"
    ensures IsVehicle(e) && !IsPed(e)
  {
    assert OccursAt(e.groupId, VehicleTag, 5);
    GroupClassification(e);
    forall i | 0 <= i && i + |PedTag| <= |e.groupId|
      ensures !OccursAt(e.groupId, PedTag, i)
    {
      assert e.groupId[i..i + 3][0] == e.groupId[i] != 'P';
    }
  }
}
