// ControllablePopulator: the population policy on top of ControlManager —
// capacity and radius-band admission, model choice, perception ranges, and
// distance-based despawning that spares wrappers marked Keep.

module Population {
  import opened Entities
  import opened Registry
  import opened Controllable
  import opened Rand

  const AirdropWoodenCrateModel := -1513883840
  const AirdropCrateModel := -1586104172
  const ItemStackBoxModel := 1388415578
  /** The lootbag model used when every stack in the bag is food. */
  const FoodLootbagModel := 1405043423

  datatype VehicleHash = Tornado4 | Emperor3 | Rhapsody | Journey | Surfer | Ingot | OtherVehicle(code: int)
  datatype PedHash = Zombie01 | Corpse01 | Corpse02 | OtherPed(code: int)

  /** The model handed to the world's creation call. */
  datatype Model = VehicleModel(vehicle: VehicleHash) | PedModel(ped: PedHash) | PropModel(hash: int)

  const ZombieModels: seq<PedHash> := [Zombie01, Corpse01, Corpse02]

  /** What a PopulateWith* call did: refused by its guard, stopped because the
      wrapper refused the created entity (the source then dereferences null),
      or spawned the entity at a radius drawn from the band. */
  datatype SpawnOutcome =
    | Rejected
    | NotControlled(radius: int)
    | Spawned(entity: EntityHandle, model: Model, radius: int)

  /** The native calls PopulateWithPed makes on the new ped, as argument values. */
  datatype PedSetup = PedSetup(
    combatRange: int,
    seeingRange: int,
    hearingRange: int,
    combatAttribute: int,
    attributeEnabled: bool,
    suffersCriticalHits: bool)

  // ---------------------------------------------------------------------
  // Admission guards

  /** PopulateWithVehicle's guard: room for one more living vehicle and a
      radius band with 0 <= min <= max. */
  predicate VehicleAdmitted(livingVehicles: nat, capacity: int, min: int, max: int)
  {
    livingVehicles + 1 <= capacity && min >= 0 && max >= min
  }

  /** PopulateWithPed's guard: room for one more living ped and 0 <= min < max. */
  predicate PedAdmitted(livingPeds: nat, capacity: int, min: int, max: int)
  {
    livingPeds + 1 <= capacity && min >= 0 && max > 0 && max > min
  }

  /** What the guards let through: a count strictly under capacity and a
      non-empty radius band (empty-but-degenerate min == max only for vehicles). */
  lemma {:induction false} GuardsAdmitBands(n: nat, capacity: int, min: int, max: int)
    ensures VehicleAdmitted(n, capacity, min, max) <==> n < capacity && 0 <= min <= max
    ensures PedAdmitted(n, capacity, min, max) <==> n < capacity && 0 <= min < max
    ensures PedAdmitted(n, capacity, min, max) ==> VehicleAdmitted(n, capacity, min, max)
    ensures n < capacity && 0 <= min ==> VehicleAdmitted(n, capacity, min, min) && !PedAdmitted(n, capacity, min, min)
  {
  }

  /** The radius band the guards accept yields a radius from Random.Next(min, max). */
  function SpawnRadius(min: int, max: int, draw: nat): (r: int)
    requires 0 <= min <= max
    ensures min <= r && (r < max || r == min == max)
  {
    Next(min, max, draw)
  }

  /** Combat range max, seeing range max/2 and hearing range max/4 (integer
      division; max > 0 here, so truncation and flooring agree), combat
      attribute 26 switched on, critical hits enabled. */
  function PedSetupFor(max: int): (r: PedSetup)
    requires max > 0
    ensures r.combatRange == max
    ensures 2 * r.seeingRange <= max < 2 * r.seeingRange + 2
    ensures 4 * r.hearingRange <= max < 4 * r.hearingRange + 4
    ensures 0 <= r.hearingRange <= r.seeingRange <= r.combatRange
    ensures r.combatAttribute == 26 && r.attributeEnabled && r.suffersCriticalHits
  {
    PedSetup(max, max / 2, max / 4, 26, true, true)
  }

  // ---------------------------------------------------------------------
  // Model choice

  /** The abandoned-vehicle table, branch for branch. The second test repeats
      `prob <= 25` and the next three test `prob <= 5`, which the first test
      already covers, so only Tornado4 and Ingot can come out. */
  function AbandonedVehicleModel(prob: int): (m: VehicleHash)
    ensures m == Tornado4 <==> prob <= 25
    ensures m == Tornado4 || m == Ingot
    ensures m != Emperor3 && m != Rhapsody && m != Journey && m != Surfer
  {
    if prob <= 25 then Tornado4
    else if prob <= 25 then Emperor3
    else if prob <= 5 then Rhapsody
    else if prob <= 5 then Journey
    else if prob <= 5 then Surfer
    else Ingot
  }

  /** With prob = Random.Next(1, 101): Tornado4 for 25 of the 100 values, Ingot otherwise. */
  lemma AbandonedVehicleDraw(draw: nat)
    ensures 1 <= Next(1, 101, draw) <= 100
    ensures AbandonedVehicleModel(Next(1, 101, draw)) == if draw % 100 < 25 then Tornado4 else Ingot
  {
  }

  /** rand.Next(0, ZombieModels.Length - 1): the upper bound is exclusive, so
      the index is 0 or 1 and never the last catalog entry. */
  function RandomZombieIndex(draw: nat): (i: nat)
    ensures i < |ZombieModels| - 1
    ensures ZombieModels[i] != Corpse02
  {
    Next(0, |ZombieModels| - 1, draw)
  }

  /** Both reachable entries are reached, and Corpse02 never is. */
  lemma RandomZombieReach()
    ensures ZombieModels[RandomZombieIndex(0)] == Zombie01
    ensures ZombieModels[RandomZombieIndex(1)] == Corpse01
    ensures forall d: nat :: ZombieModels[RandomZombieIndex(d)] in {Zombie01, Corpse01}
  {
  }

  /** SpawnLootbag's model: the food bag when the bag holds only food, the
      item-stack box otherwise. */
  function LootbagModel(allFood: bool): (m: int)
    ensures m == FoodLootbagModel <==> allFood
    ensures m == ItemStackBoxModel <==> !allFood
  {
    if allFood then FoodLootbagModel else ItemStackBoxModel
  }

  // ---------------------------------------------------------------------
  // Despawning

  /** Despawn range by the entity's runtime type; any other type gets 0. */
  function DespawnRange(kind: EntityKind, pedRange: real, vehicleRange: real, propRange: real): real
  {
    match kind
    case PedKind => pedRange
    case VehicleKind => vehicleRange
    case PropKind => propRange
    case OtherKind => 0.0
  }

  /** The test DespawnOutOfRange applies to each living wrapper it visits. */
  predicate OutOfRange(e: ControllableEntity, pedRange: real, vehicleRange: real, propRange: real,
                       dist: EntityHandle -> real)
  {
    !e.keep && dist(e.entity) >= DespawnRange(e.kind, pedRange, vehicleRange, propRange)
  }

  function OutOfRangeTest(pedRange: real, vehicleRange: real, propRange: real, dist: EntityHandle -> real)
    : ControllableEntity -> bool
  {
    e => OutOfRange(e, pedRange, vehicleRange, propRange, dist)
  }

  /** The wrappers one DespawnOutOfRange pass removes: living, not kept, and at
      least their kind's range away. */
  function Despawned(pedRange: real, vehicleRange: real, propRange: real, dist: EntityHandle -> real)
    : ControllableEntity -> bool
  {
    e => IsLiving(e) && OutOfRange(e, pedRange, vehicleRange, propRange, dist)
  }

  function Survives(pedRange: real, vehicleRange: real, propRange: real, dist: EntityHandle -> real)
    : ControllableEntity -> bool
  {
    e => !(IsLiving(e) && OutOfRange(e, pedRange, vehicleRange, propRange, dist))
  }

  /** A kept wrapper is never despawned, whatever its distance; a wrapper whose
      entity is neither ped, vehicle nor prop has range 0 and is despawned
      whenever it is living and not kept. */
  lemma DespawnExemptions(e: ControllableEntity, pedRange: real, vehicleRange: real, propRange: real,
                          dist: EntityHandle -> real)
    ensures e.keep ==> !Despawned(pedRange, vehicleRange, propRange, dist)(e)
    ensures !IsLiving(e) ==> !Despawned(pedRange, vehicleRange, propRange, dist)(e)
    ensures e.kind == OtherKind && IsLiving(e) && !e.keep && dist(e.entity) >= 0.0 ==>
              Despawned(pedRange, vehicleRange, propRange, dist)(e)
  {
  }

  /** Every wrapper kept by the Keep flag is still registered after a pass. */
  lemma {:induction false} KeptWrappersSurvive(s: EntityList, pedRange: real, vehicleRange: real, propRange: real,
                                               dist: EntityHandle -> real)
    ensures forall e :: e in s && e.keep ==> e in Where(s, Survives(pedRange, vehicleRange, propRange, dist))
    ensures forall e :: e in s && !IsLiving(e) ==> e in Where(s, Survives(pedRange, vehicleRange, propRange, dist))
  {
    WhereSelects(s, Survives(pedRange, vehicleRange, propRange, dist));
  }

  /** What the world's creation call, the wrapper's Control and Add leave in the
      list when a PopulateWith* call passes its guard. */
  function AfterSpawn(s: EntityList, e: ControllableEntity, idDraw: nat, handle: EntityHandle,
                      kind: EntityKind, controlled: bool): EntityList
  {
    if controlled then Inserted(s, Bound(WithRandomId(s, e, Next(0, IdSpace, idDraw)), handle, kind)) else s
  }

  class ControllablePopulator {
    const manager: ControlManager
    const pedCapacity: int
    const vehicleCapacity: int
    const pedDespawnRange: real
    const vehicleDespawnRange: real
    const propDespawnRange: real

    constructor (manager: ControlManager, pedCapacity: int, vehicleCapacity: int,
                 pedDespawnRange: real, vehicleDespawnRange: real, propDespawnRange: real)
      ensures this.manager == manager
      ensures this.pedCapacity == pedCapacity && this.vehicleCapacity == vehicleCapacity
      ensures this.pedDespawnRange == pedDespawnRange
      ensures this.vehicleDespawnRange == vehicleDespawnRange
      ensures this.propDespawnRange == propDespawnRange
    {
      this.manager := manager;
      this.pedCapacity := pedCapacity;
      this.vehicleCapacity := vehicleCapacity;
      this.pedDespawnRange := pedDespawnRange;
      this.vehicleDespawnRange := vehicleDespawnRange;
      this.propDespawnRange := propDespawnRange;
    }

    /** Visits a copy of LivingEntities; each visited wrapper that is not kept
        and is at least its kind's range from the player is removed from the
        registry and its entity deleted. `dist` gives each entity's distance
        to the player. */
    method DespawnOutOfRange(dist: EntityHandle -> real)
      requires manager.Valid()
      modifies manager
      ensures manager.Valid()
      ensures manager.elements ==
                Where(old(manager.elements), Survives(pedDespawnRange, vehicleDespawnRange, propDespawnRange, dist))
      ensures manager.deleted == old(manager.deleted) +
                Handles(Where(old(manager.elements), Despawned(pedDespawnRange, vehicleDespawnRange, propDespawnRange, dist)))
      ensures manager.refreshes == old(manager.refreshes) +
                |Where(old(manager.elements), Despawned(pedDespawnRange, vehicleDespawnRange, propDespawnRange, dist))|
    {
      ghost var start := RegistryState(manager.elements, manager.deleted, manager.refreshes);
      ghost var out := OutOfRangeTest(pedDespawnRange, vehicleDespawnRange, propDespawnRange, dist);
      var snapshot := LivingEntities(manager.elements);
      for i := 0 to |snapshot|
        invariant manager.Valid()
        invariant Pass(RegistryState(manager.elements, manager.deleted, manager.refreshes), snapshot[i..], out)
                    == Pass(start, snapshot, out)
      {
        assert snapshot[i..][0] == snapshot[i] && snapshot[i..][1..] == snapshot[i + 1..];
        var despawned := DespawnVisit(snapshot[i], dist);
      }
      assert snapshot[|snapshot|..] == [];
      PassOverLiving(start, pedDespawnRange, vehicleDespawnRange, propDespawnRange, dist);
    }

    /** The per-wrapper step of DespawnOutOfRange: a kept wrapper is skipped;
        otherwise, when its entity is at least its kind's range away, it is
        removed from the registry (List.Remove) and its entity deleted. */
    method DespawnVisit(e: ControllableEntity, dist: EntityHandle -> real) returns (despawned: bool)
      requires manager.Valid()
      modifies manager
      ensures manager.Valid()
      ensures despawned == OutOfRange(e, pedDespawnRange, vehicleDespawnRange, propDespawnRange, dist)
      ensures RegistryState(manager.elements, manager.deleted, manager.refreshes) ==
                Visit(RegistryState(old(manager.elements), old(manager.deleted), old(manager.refreshes)), e,
                      OutOfRangeTest(pedDespawnRange, vehicleDespawnRange, propDespawnRange, dist))
    {
      if e.keep {
        return false;
      }
      var despawnRange := DespawnRange(e.kind, pedDespawnRange, vehicleDespawnRange, propDespawnRange);
      if !(dist(e.entity) >= despawnRange) {
        return false;
      }
      manager.Remove(e);
      manager.deleted := manager.deleted + [e.entity];
      despawned := true;
    }

    /** SpawnLootbag: a prop wrapper around the stacks, with the food model when
        every stack is food; `allFood` is the bag's IsAllFood(). */
    method SpawnLootbag(lootbag: ControllableEntity, allFood: bool, handle: EntityHandle, controlled: bool)
      returns (model: int, created: Option<EntityHandle>)
      requires manager.Valid()
      modifies manager
      ensures manager.Valid()
      ensures model == LootbagModel(allFood)
      ensures created == if controlled then Some(handle) else None
      ensures manager.elements ==
                if controlled then Inserted(old(manager.elements), Bound(lootbag, handle, PropKind)) else old(manager.elements)
      ensures manager.refreshes == old(manager.refreshes) + (if controlled then 1 else 0)
      ensures manager.deleted == old(manager.deleted)
    {
      model := LootbagModel(allFood);
      created := manager.Create(lootbag, PropKind, handle, controlled);
    }

    /** PopulateWithVehicle: guard, radius draw, AssignRandomId, CreateVehicle. */
    method PopulateWithVehicle(vehicle: ControllableEntity, model: VehicleHash, min: int, max: int,
                               radiusDraw: nat, idDraw: nat, handle: EntityHandle, controlled: bool)
      returns (outcome: SpawnOutcome)
      requires manager.Valid()
      modifies manager
      ensures manager.Valid()
      ensures !VehicleAdmitted(|LivingVehicles(old(manager.elements))|, vehicleCapacity, min, max) ==>
                outcome == Rejected && unchanged(manager)
      ensures VehicleAdmitted(|LivingVehicles(old(manager.elements))|, vehicleCapacity, min, max) ==>
                && outcome == (if controlled then Spawned(handle, VehicleModel(model), SpawnRadius(min, max, radiusDraw))
                               else NotControlled(SpawnRadius(min, max, radiusDraw)))
                && manager.elements == AfterSpawn(old(manager.elements), vehicle, idDraw, handle, VehicleKind, controlled)
                && manager.refreshes == old(manager.refreshes) + (if controlled then 1 else 0)
                && manager.deleted == old(manager.deleted)
    {
      if !VehicleAdmitted(|LivingVehicles(manager.elements)|, vehicleCapacity, min, max) {
        return Rejected;
      }
      var radius := SpawnRadius(min, max, radiusDraw);
      var withId := manager.AssignRandomId(vehicle, idDraw);
      var created := manager.Create(withId, VehicleKind, handle, controlled);
      if created.None? {
        return NotControlled(radius);
      }
      outcome := Spawned(handle, VehicleModel(model), radius);
    }

    /** PopulateWithAbandonedVehicle: the table picks the model from
        prob = Random.Next(1, 101), then PopulateWithVehicle runs. */
    method PopulateWithAbandonedVehicle(vehicle: ControllableEntity, probDraw: nat, min: int, max: int,
                                        radiusDraw: nat, idDraw: nat, handle: EntityHandle, controlled: bool)
      returns (outcome: SpawnOutcome)
      requires manager.Valid()
      modifies manager
      ensures manager.Valid()
      ensures !VehicleAdmitted(|LivingVehicles(old(manager.elements))|, vehicleCapacity, min, max) ==>
                outcome == Rejected && unchanged(manager)
      ensures VehicleAdmitted(|LivingVehicles(old(manager.elements))|, vehicleCapacity, min, max) ==>
                && outcome == (if controlled
                               then Spawned(handle, VehicleModel(AbandonedVehicleModel(Next(1, 101, probDraw))),
                                            SpawnRadius(min, max, radiusDraw))
                               else NotControlled(SpawnRadius(min, max, radiusDraw)))
                && manager.elements == AfterSpawn(old(manager.elements), vehicle, idDraw, handle, VehicleKind, controlled)
                && manager.refreshes == old(manager.refreshes) + (if controlled then 1 else 0)
                && manager.deleted == old(manager.deleted)
      ensures outcome.Spawned? ==> outcome.model in {VehicleModel(Tornado4), VehicleModel(Ingot)}
    {
      var prob := Next(1, 101, probDraw);
      var model := AbandonedVehicleModel(prob);
      outcome := PopulateWithVehicle(vehicle, model, min, max, radiusDraw, idDraw, handle, controlled);
    }

    /** PopulateWithPed: guard, radius draw, AssignRandomId, CreatePed, then the
        perception natives on the new ped (returned as `setup`). */
    method PopulateWithPed(ped: ControllableEntity, model: PedHash, min: int, max: int,
                           radiusDraw: nat, idDraw: nat, handle: EntityHandle, controlled: bool)
      returns (outcome: SpawnOutcome, setup: Option<PedSetup>)
      requires manager.Valid()
      modifies manager
      ensures manager.Valid()
      ensures !PedAdmitted(|LivingPeds(old(manager.elements))|, pedCapacity, min, max) ==>
                outcome == Rejected && setup == None && unchanged(manager)
      ensures PedAdmitted(|LivingPeds(old(manager.elements))|, pedCapacity, min, max) ==>
                && outcome == (if controlled then Spawned(handle, PedModel(model), SpawnRadius(min, max, radiusDraw))
                               else NotControlled(SpawnRadius(min, max, radiusDraw)))
                && setup == Some(PedSetupFor(max))
                && manager.elements == AfterSpawn(old(manager.elements), ped, idDraw, handle, PedKind, controlled)
                && manager.refreshes == old(manager.refreshes) + (if controlled then 1 else 0)
                && manager.deleted == old(manager.deleted)
    {
      if !PedAdmitted(|LivingPeds(manager.elements)|, pedCapacity, min, max) {
        return Rejected, None;
      }
      var radius := SpawnRadius(min, max, radiusDraw);
      var withId := manager.AssignRandomId(ped, idDraw);
      var created := manager.Create(withId, PedKind, handle, controlled);
      setup := Some(PedSetupFor(max));
      if created.None? {
        return NotControlled(radius), setup;
      }
      outcome := Spawned(handle, PedModel(model), radius);
    }

    /** PopulateWithZombie: ZombieModels[index], then PopulateWithPed. An index
        outside the catalog throws in the source. */
    method PopulateWithZombie(index: int, zombie: ControllableEntity, min: int, max: int,
                              radiusDraw: nat, idDraw: nat, handle: EntityHandle, controlled: bool)
      returns (outcome: SpawnOutcome, setup: Option<PedSetup>)
      requires 0 <= index < |ZombieModels|
      requires manager.Valid()
      modifies manager
      ensures manager.Valid()
      ensures !PedAdmitted(|LivingPeds(old(manager.elements))|, pedCapacity, min, max) ==>
                outcome == Rejected && setup == None && unchanged(manager)
      ensures PedAdmitted(|LivingPeds(old(manager.elements))|, pedCapacity, min, max) ==>
                && outcome == (if controlled then Spawned(handle, PedModel(ZombieModels[index]), SpawnRadius(min, max, radiusDraw))
                               else NotControlled(SpawnRadius(min, max, radiusDraw)))
                && setup == Some(PedSetupFor(max))
                && manager.elements == AfterSpawn(old(manager.elements), zombie, idDraw, handle, PedKind, controlled)
                && manager.refreshes == old(manager.refreshes) + (if controlled then 1 else 0)
                && manager.deleted == old(manager.deleted)
    {
      outcome, setup := PopulateWithPed(zombie, ZombieModels[index], min, max, radiusDraw, idDraw, handle, controlled);
    }

    /** PopulateWithRandomZombie: index = Random.Next(0, ZombieModels.Length - 1). */
    method PopulateWithRandomZombie(zombie: ControllableEntity, indexDraw: nat, min: int, max: int,
                                    radiusDraw: nat, idDraw: nat, handle: EntityHandle, controlled: bool)
      returns (outcome: SpawnOutcome, setup: Option<PedSetup>)
      requires manager.Valid()
      modifies manager
      ensures manager.Valid()
      ensures !PedAdmitted(|LivingPeds(old(manager.elements))|, pedCapacity, min, max) ==>
                outcome == Rejected && setup == None && unchanged(manager)
      ensures PedAdmitted(|LivingPeds(old(manager.elements))|, pedCapacity, min, max) ==>
                && outcome == (if controlled
                               then Spawned(handle, PedModel(ZombieModels[RandomZombieIndex(indexDraw)]),
                                            SpawnRadius(min, max, radiusDraw))
                               else NotControlled(SpawnRadius(min, max, radiusDraw)))
                && setup == Some(PedSetupFor(max))
                && manager.elements == AfterSpawn(old(manager.elements), zombie, idDraw, handle, PedKind, controlled)
                && manager.refreshes == old(manager.refreshes) + (if controlled then 1 else 0)
                && manager.deleted == old(manager.deleted)
      ensures outcome.Spawned? ==> outcome.model != PedModel(Corpse02)
    {
      var index := RandomZombieIndex(indexDraw);
      outcome, setup := PopulateWithZombie(index, zombie, min, max, radiusDraw, idDraw, handle, controlled);
    }
  }

  /** The registry's observable state during a despawn pass: the list, the
      log of deleted entities and the refresh count. */
  datatype RegistryState = RegistryState(elements: EntityList, deleted: seq<EntityHandle>, refreshes: nat)

  /** One visit of the pass: a wrapper the test selects is removed with
      List.Remove semantics, its entity is deleted, and the menus refresh when
      the list held its entity. */
  function Visit(st: RegistryState, e: ControllableEntity, out: ControllableEntity -> bool): RegistryState
  {
    if out(e) then
      RegistryState(RemoveFirst(st.elements, e), st.deleted + [e.entity],
                    st.refreshes + if ContainsWrapper(st.elements, e) then 1 else 0)
    else st
  }

  /** The visits of the pass, in order. */
  function Pass(st: RegistryState, visits: EntityList, out: ControllableEntity -> bool): RegistryState
    decreases |visits|
  {
    if visits == [] then st else Pass(Visit(st, visits[0], out), visits[1..], out)
  }

  /** Visiting a non-empty list of wrappers is the first visit followed by the others. */
  lemma PassCons(st: RegistryState, x: ControllableEntity, rest: EntityList, out: ControllableEntity -> bool)
    ensures Pass(st, [x] + rest, out) == Pass(Visit(st, x, out), rest, out)
  {
    assert ([x] + rest)[0] == x && ([x] + rest)[1..] == rest;
  }

  /** A selected wrapper that is the first copy behind an unselected prefix:
      its visit takes it out, logs its entity and refreshes once. */
  lemma FirstVisitDoomed(p: EntityList, x: ControllableEntity, rest: EntityList, deleted: seq<EntityHandle>,
                         refreshes: nat, out: ControllableEntity -> bool)
    requires out(x)
    requires forall i :: 0 <= i < |p| ==> p[i] != x
    ensures Visit(RegistryState(p + ([x] + rest), deleted, refreshes), x, out) ==
              RegistryState(p + rest, deleted + [x.entity], refreshes + 1)
  {
    RemoveFirstSkipsPrefix(p, [x] + rest, x);
    assert ([x] + rest)[0] == x && ([x] + rest)[1..] == rest;
    assert (p + ([x] + rest))[|p|] == x;
  }

  /** A doomed head of the remaining list: the pass continues from the state
      its visit leaves behind. */
  lemma DoomedHeadPass(p: EntityList, x: ControllableEntity, rest: EntityList, deleted: seq<EntityHandle>,
                       refreshes: nat, out: ControllableEntity -> bool)
    requires IsLiving(x) && out(x)
    requires forall i :: 0 <= i < |p| ==> p[i] != x
    ensures Pass(RegistryState(p + ([x] + rest), deleted, refreshes), Where([x] + rest, IsLiving), out) ==
              Pass(RegistryState(p + rest, deleted + [x.entity], refreshes + 1), Where(rest, IsLiving), out)
  {
    WhereCons(x, rest, IsLiving);
    PassCons(RegistryState(p + ([x] + rest), deleted, refreshes), x, Where(rest, IsLiving), out);
    FirstVisitDoomed(p, x, rest, deleted, refreshes, out);
  }

  /** A spared head of the remaining list joins the untouched prefix. */
  lemma SparedHeadPass(p: EntityList, x: ControllableEntity, rest: EntityList, deleted: seq<EntityHandle>,
                       refreshes: nat, out: ControllableEntity -> bool)
    requires !(IsLiving(x) && out(x))
    ensures Pass(RegistryState(p + ([x] + rest), deleted, refreshes), Where([x] + rest, IsLiving), out) ==
              Pass(RegistryState((p + [x]) + rest, deleted, refreshes), Where(rest, IsLiving), out)
  {
    var st := RegistryState(p + ([x] + rest), deleted, refreshes);
    assert p + ([x] + rest) == (p + [x]) + rest;
    WhereCons(x, rest, IsLiving);
    if IsLiving(x) {
      PassCons(st, x, Where(rest, IsLiving), out);
    } else {
      assert [] + Where(rest, IsLiving) == Where(rest, IsLiving);
    }
  }

  lemma UnselectedPrefixGrows(p: EntityList, x: ControllableEntity, doomed: ControllableEntity -> bool)
    requires forall i :: 0 <= i < |p| ==> !doomed(p[i])
    requires !doomed(x)
    ensures forall i :: 0 <= i < |p + [x]| ==> !doomed((p + [x])[i])
  {
    forall i | 0 <= i < |p + [x]|
      ensures !doomed((p + [x])[i])
    {
      if i < |p| {
        assert (p + [x])[i] == p[i];
      }
    }
  }

  lemma ConsOnto<T>(a: seq<T>, x: T, b: seq<T>)
    ensures (a + [x]) + b == a + ([x] + b)
  {
  }

  lemma NilOnto<T>(b: seq<T>)
    ensures [] + b == b
  {
  }

  /** The pass over the living wrappers of `t`, when `t` follows a prefix `p`
      none of whose wrappers is doomed: the prefix stays, the spared wrappers
      of `t` stay in order, and each doomed one is logged and refreshes the
      menus once. */
  lemma {:induction false} PassFrame(p: EntityList, t: EntityList, deleted: seq<EntityHandle>, refreshes: nat,
                                     out: ControllableEntity -> bool,
                                     doomed: ControllableEntity -> bool, spared: ControllableEntity -> bool)
    requires forall e :: doomed(e) == (IsLiving(e) && out(e))
    requires forall e :: spared(e) == !doomed(e)
    requires forall i :: 0 <= i < |p| ==> !doomed(p[i])
    ensures Pass(RegistryState(p + t, deleted, refreshes), Where(t, IsLiving), out) ==
              RegistryState(p + Where(t, spared), deleted + Handles(Where(t, doomed)), refreshes + |Where(t, doomed)|)
    decreases |t|
  {
    if t == [] {
      assert p + t == p + Where(t, spared) == p;
    } else {
      var x, rest := t[0], t[1..];
      assert t == [x] + rest;
      WhereCons(x, rest, doomed);
      WhereCons(x, rest, spared);
      if doomed(x) {
        DoomedHeadPass(p, x, rest, deleted, refreshes, out);
        PassFrame(p, rest, deleted + [x.entity], refreshes + 1, out, doomed, spared);
        HandlesCons(x, Where(rest, doomed));
        ConsOnto(deleted, x.entity, Handles(Where(rest, doomed)));
      } else {
        SparedHeadPass(p, x, rest, deleted, refreshes, out);
        UnselectedPrefixGrows(p, x, doomed);
        PassFrame(p + [x], rest, deleted, refreshes, out, doomed, spared);
        ConsOnto(p, x, Where(rest, spared));
        NilOnto(Where(rest, doomed));
      }
    }
  }

  /** The whole pass over LivingEntities removes exactly the doomed wrappers,
      keeps the others in order, logs the doomed handles in list order and
      refreshes the menus once per doomed wrapper. */
  lemma PassOverLiving(st: RegistryState, pedRange: real, vehicleRange: real, propRange: real,
                       dist: EntityHandle -> real)
    ensures Pass(st, LivingEntities(st.elements), OutOfRangeTest(pedRange, vehicleRange, propRange, dist)) ==
              RegistryState(Where(st.elements, Survives(pedRange, vehicleRange, propRange, dist)),
                            st.deleted + Handles(Where(st.elements, Despawned(pedRange, vehicleRange, propRange, dist))),
                            st.refreshes + |Where(st.elements, Despawned(pedRange, vehicleRange, propRange, dist))|)
  {
    assert [] + st.elements == st.elements;
    PassFrame([], st.elements, st.deleted, st.refreshes, OutOfRangeTest(pedRange, vehicleRange, propRange, dist),
              Despawned(pedRange, vehicleRange, propRange, dist), Survives(pedRange, vehicleRange, propRange, dist));
    assert [] + Where(st.elements, Survives(pedRange, vehicleRange, propRange, dist))
           == Where(st.elements, Survives(pedRange, vehicleRange, propRange, dist));
  }
}
