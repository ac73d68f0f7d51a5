# GTAZ entity registry and population policy, in Dafny

GTAZ is a zombie-survival mod for GTA V. This project models two of its
classes.

`ControlManager` keeps the list of *controllable entities*. Each is a wrapper
holding a unique id, a group id such as `"PED"` or `"TEAM_VEHICLE"`, the
handle of a game entity, an active flag and a Keep flag. The class answers
LINQ queries over the list (active, living, dead, peds, vehicles), adds and
removes wrappers, and requests deletion of their entities. It dispatches
ticks and key events, and dumps the list as text.

`ControllablePopulator` puts a population policy on top:
- it admits a spawn only below a capacity and inside a radius band;
- it picks vehicle, zombie and lootbag models from fixed tables;
- it sets a new ped's perception ranges;
- it despawns living wrappers that are not kept and are far enough from the
  player.

The model is split into six modules:
- `Text` (`text.dfy`): the ordinal substring test behind `String.Contains`,
  and the decimal rendering of an `int` with a parse-back round trip.
- `Entities` (`entities.dfy`): the wrapper as a datatype, and group
  classification.
- `Registry` (`registry.dfy`): every query and list update of
  `ControlManager` as a function of the list, with their lemmas.
- `Rand` (`random.dfy`): `Random.Next(min, max)` with the drawn value as a
  parameter.
- `Controllable` (`control_manager.dfy`): class `ControlManager`. Its
  `elements` field is a `seq` that the methods reassign. A `deleted` log
  records the entities whose deletion was requested. A ghost counter records
  menu refreshes. `Valid()` (unique ids) is kept by every mutator.
- `Population` (`populator.dfy`): the tables, the admission guards and class
  `ControllablePopulator`.

`DespawnOutOfRange` is proved against a specification of the whole pass. It
removes exactly the living, non-kept, out-of-range wrappers and keeps the
rest in order. It logs the removed wrappers' entities in list order and
refreshes the menus once per removal. The quirks of the code are reproduced
as written and proved as lemmas:
- the abandoned-vehicle table can only yield `Tornado4` or `Ingot`;
- `PopulateWithRandomZombie` never picks the last catalog entry;
- `LivingPeds` and `LivingVehicles` ignore `IsAlive`;
- `Add` refreshes the menus even when it rejects a duplicate id;
- `AssignRandomId` silently keeps the old id on a collision.

## Model

| member | source | states |
|---|---|---|
| Text.HasSubstringIff | GTAZ/Controllable/ControlManager.cs:320-329 | `Contains("PED")` / `Contains("VEHICLE")` hold exactly when the tag occurs at some position of the group id |
| Text.NatToString | GTAZ/Controllable/ControlManager.cs:372 | the decimal rendering is a non-empty digit string without a leading zero |
| Text.DigitsRoundTrip | GTAZ/Controllable/ControlManager.cs:372 | reading the rendered digits back gives the number |
| Text.IntToStringHasNoBlank | GTAZ/Controllable/ControlManager.cs:372 | a rendered id is non-empty and holds no blank |
| Text.IntToStringInjective | GTAZ/Controllable/ControlManager.cs:372 | different ids render as different strings |
| Entities.GroupClassification | GTAZ/Controllable/ControlManager.cs:320-329 | a wrapper is a ped (vehicle) exactly when "PED" ("VEHICLE") occurs in its group id |
| Entities.TeamVehicleGroupIsVehicle | GTAZ/Vehicles/TeamVehicle.cs:9 | the group id `TEAM_VEHICLE` classifies as a vehicle and not as a ped |
| Rand.Next | GTAZ/Population/ControllablePopulator.cs:117 | `Random.Next(min, max)` lies in `[min, max)`, or is `min` when the bounds are equal |
| Rand.NextCoversRange | GTAZ/Population/ControllablePopulator.cs:117 | every value of the range is produced by some draw |
| Registry.WhereSelects | GTAZ/Controllable/ControlManager.cs:190-231 | `Where` keeps exactly the elements satisfying the test, none more often than in the list |
| Registry.WhereWhere | GTAZ/Controllable/ControlManager.cs:218-231 | filtering twice equals filtering once by the conjunction |
| Registry.WherePartition | GTAZ/Controllable/ControlManager.cs:190-199 | complementary filters split the list: lengths add up and the multisets add up |
| Registry.ActiveInactivePartition | GTAZ/Controllable/ControlManager.cs:190-199 | active and inactive wrappers partition the list |
| Registry.LivingAndDeadSplitActive | GTAZ/Controllable/ControlManager.cs:204-213 | living and dead wrappers are the alive and dead among the active ones, and together make up the active ones |
| Registry.LivingPedsAreActivePeds | GTAZ/Controllable/ControlManager.cs:218-222 | LivingPeds holds exactly the active wrappers with a ped group id, whichever filter runs first |
| Registry.LivingVehiclesAreActiveVehicles | GTAZ/Controllable/ControlManager.cs:227-231 | LivingVehicles holds exactly the active wrappers with a vehicle group id |
| Registry.LivingPedsIncludeDeadPeds | GTAZ/Controllable/ControlManager.cs:218-222 | an active dead ped is in LivingPeds and DeadEntities but not in LivingEntities |
| Registry.PedsAndVehiclesByGroupTag | GTAZ/Controllable/ControlManager.cs:320-329 | Peds and Vehicles are the wrappers whose group id contains the tag |
| Registry.LivingCountsBounded | GTAZ/Controllable/ControlManager.cs:341-350 | the living counts the capacity guards use are at most PedCount / VehicleCount, which are at most the list length |
| Registry.ContainsWrapperProperties | GTAZ/Controllable/ControlManager.cs:138-149 | `Contains(wrapper)` compares entity handles: a registered wrapper is found, and so is any wrapper sharing its entity |
| Registry.GetByGroup | GTAZ/Controllable/ControlManager.cs:174-176 | `Get(groupId)` yields exactly the wrappers with that group id; it is non-empty exactly when `Contains(groupId)` |
| Registry.IndexOfUid | GTAZ/Controllable/ControlManager.cs:183-185 | no index exactly when no wrapper has the id; otherwise the first position holding it |
| Registry.GetByUid | GTAZ/Controllable/ControlManager.cs:183-185 | `Get(uid)` succeeds exactly when `Contains(uid)` and returns a registered wrapper with that id |
| Registry.GetByUidUnique | GTAZ/Controllable/ControlManager.cs:183-185 | with distinct ids, `Get(uid)` returns the one wrapper carrying the id |
| Registry.IndexOf | GTAZ/Controllable/ControlManager.cs:271 | no index exactly when the wrapper is absent; otherwise the first position equal to it |
| Registry.RemoveFirstSpec | GTAZ/Controllable/ControlManager.cs:271 | `List.Remove` takes away one copy of the wrapper when present and changes nothing otherwise |
| Registry.RemoveFirstDeletesIndexOf | GTAZ/Controllable/ControlManager.cs:271 | `List.Remove` deletes the position `IndexOf` reports, keeping the rest in order |
| Registry.RemoveFirstSkipsPrefix | GTAZ/Controllable/ControlManager.cs:271 | wrappers ahead of the first copy stay in place |
| Registry.RemoveFirstKeepsDistinct | GTAZ/Controllable/ControlManager.cs:267-278 | removing a wrapper never creates an id clash |
| Registry.Inserted | GTAZ/Controllable/ControlManager.cs:251-260 | Add appends exactly when the id is not registered and keeps ids distinct |
| Registry.WithRandomId | GTAZ/Controllable/ControlManager.cs:233-244 | a colliding candidate leaves the wrapper unchanged; a fresh one becomes its id and Add then appends it |
| Registry.RemovedByIdDeletesFirstMatch | GTAZ/Controllable/ControlManager.cs:285-291 | `Remove(uid)` deletes exactly the first wrapper with the id and is the identity when there is none |
| Registry.RemovedByIdForgetsUid | GTAZ/Controllable/ControlManager.cs:285-291 | with distinct ids, after `Remove(uid)` no wrapper has the id, `Get(uid)` fails and other ids are untouched |
| Registry.DescribeInjective | GTAZ/Controllable/ControlManager.cs:367-377 | a dump line determines the wrapper's unique id and group id |
| Registry.DumpLinesDistinct | GTAZ/Controllable/ControlManager.cs:367-377 | with distinct ids, no two dump lines are equal |
| Controllable.ControlManager.constructor | GTAZ/Controllable/ControlManager.cs:18-20 | the registry starts empty, with an empty deletion log and no refreshes |
| Controllable.ControlManager.Add | GTAZ/Controllable/ControlManager.cs:251-260 | the list becomes `Inserted(old, e)`; the menus refresh on every call, rejected or not; ids stay distinct |
| Controllable.ControlManager.Remove | GTAZ/Controllable/ControlManager.cs:267-278 | the list becomes `List.Remove(old, e)`; it is unchanged when no wrapper holds e's entity; it refreshes only when one does |
| Controllable.ControlManager.RemoveById | GTAZ/Controllable/ControlManager.cs:285-291 | the list becomes `RemovedById(old, uid)`; afterwards no wrapper has the id; it refreshes only when the id was present |
| Controllable.ControlManager.RemoveAndDeleteAll | GTAZ/Controllable/ControlManager.cs:293-307 | every entity's deletion is requested in list order, then the list is cleared, with no refresh |
| Controllable.ControlManager.AssignRandomId | GTAZ/Controllable/ControlManager.cs:233-244 | the candidate lies in [0, 1000000); the wrapper gets it only when no registered wrapper has it |
| Controllable.ControlManager.Create | GTAZ/Controllable/ControlManager.cs:36-121 | a refused Control returns no entity and changes nothing; otherwise the bound wrapper goes through Add and the entity is returned |
| Controllable.ControlManager.Tick | GTAZ/Controllable/ControlManager.cs:363-365 | every wrapper is ticked once, in list order |
| Controllable.ControlManager.KeyDown | GTAZ/Controllable/ControlManager.cs:128-131 | the key event reaches every wrapper once, in list order |
| Controllable.ControlManager.ToArray | GTAZ/Controllable/ControlManager.cs:367-377 | one line per wrapper, giving its unique id and group id, in order; pairwise distinct when ids are distinct |
| Population.GuardsAdmitBands | GTAZ/Population/ControllablePopulator.cs:113-151 | the vehicle guard admits count < capacity and 0 <= min <= max; the ped guard requires min < max; a ped admission implies a vehicle one |
| Population.SpawnRadius | GTAZ/Population/ControllablePopulator.cs:117 | the spawn radius lies in the admitted band |
| Population.PedSetupFor | GTAZ/Population/ControllablePopulator.cs:162-167 | combat range max, seeing range floor(max/2), hearing range floor(max/4), attribute 26 on, critical hits on |
| Population.AbandonedVehicleModel | GTAZ/Population/ControllablePopulator.cs:93-105 | Tornado4 exactly when prob <= 25, otherwise Ingot; the other four branches are unreachable |
| Population.AbandonedVehicleDraw | GTAZ/Population/ControllablePopulator.cs:90-105 | prob lies in 1..100 and picks Tornado4 for a quarter of the draws |
| Population.RandomZombieIndex | GTAZ/Population/ControllablePopulator.cs:133 | the index is below the catalog length minus one, so it never selects Corpse02 |
| Population.RandomZombieReach | GTAZ/Population/ControllablePopulator.cs:21-25 | Zombie01 and Corpse01 are both reachable, Corpse02 never |
| Population.LootbagModel | GTAZ/Population/ControllablePopulator.cs:78-82 | the food model exactly when the bag is all food, the item-stack box otherwise |
| Population.DespawnExemptions | GTAZ/Population/ControllablePopulator.cs:49-66 | a kept or non-living wrapper is never despawned; an entity that is no ped, vehicle or prop has range 0 |
| Population.KeptWrappersSurvive | GTAZ/Population/ControllablePopulator.cs:47-52 | kept wrappers and non-living wrappers are still registered after a pass |
| Population.FirstVisitDoomed | GTAZ/Population/ControllablePopulator.cs:68-69 | visiting a doomed wrapper that has no copy earlier in the list removes it, logs its entity and refreshes once |
| Population.PassFrame | GTAZ/Population/ControllablePopulator.cs:47-71 | the visits keep the unselected prefix and the spared wrappers in order; doomed wrappers are logged in order and counted in refreshes |
| Population.PassOverLiving | GTAZ/Population/ControllablePopulator.cs:45-73 | the full pass over a copy of LivingEntities equals the filter specification |
| Population.ControllablePopulator.constructor | GTAZ/Population/ControllablePopulator.cs:36-43 | the manager, both capacities and the three despawn ranges are stored |
| Population.ControllablePopulator.DespawnOutOfRange | GTAZ/Population/ControllablePopulator.cs:45-73 | the survivors are the non-despawned wrappers in order; the despawned entities are logged in list order; one refresh per despawned wrapper; ids stay distinct |
| Population.ControllablePopulator.DespawnVisit | GTAZ/Population/ControllablePopulator.cs:49-70 | a kept wrapper, or one nearer than its kind's range, is skipped; otherwise it is removed and its entity deleted |
| Population.ControllablePopulator.SpawnLootbag | GTAZ/Population/ControllablePopulator.cs:75-86 | the model follows IsAllFood; when Control accepts it, the bag is passed to Add as a prop with no id draw (rejected if its id is already registered) |
| Population.ControllablePopulator.PopulateWithVehicle | GTAZ/Population/ControllablePopulator.cs:111-125 | refused by the guard: nothing changes; admitted: the radius comes from the band, an id is drawn, and the vehicle is passed to Add when controlled (rejected if its id is already registered); one refresh then, none otherwise; nothing deleted |
| Population.ControllablePopulator.PopulateWithAbandonedVehicle | GTAZ/Population/ControllablePopulator.cs:88-109 | refused by the guard: nothing changes; admitted: the outcome, list, refreshes and deletion log are those of PopulateWithVehicle with the table's model, so a spawned model is Tornado4 or Ingot |
| Population.ControllablePopulator.PopulateWithPed | GTAZ/Population/ControllablePopulator.cs:149-169 | refused by the guard: nothing changes; admitted: radius, id draw, the ped passed to Add when controlled (rejected if its id is already registered), one refresh then, and the perception setup |
| Population.ControllablePopulator.PopulateWithZombie | GTAZ/Population/ControllablePopulator.cs:127-130 | refused by the guard: nothing changes and no setup; admitted: outcome, setup, list, refreshes and deletion log as PopulateWithPed with the catalog entry at the index |
| Population.ControllablePopulator.PopulateWithRandomZombie | GTAZ/Population/ControllablePopulator.cs:132-134 | refused by the guard: nothing changes and no setup; admitted: as PopulateWithZombie at the drawn index, so the list, refreshes and setup follow PopulateWithPed and a spawned model is never Corpse02 |

## Left out

- Game engine calls are not modelled: `World.Create*`, positions (`Around`, `PlaceOnNextStreet`), headings and `UI.Notify` in `CreateVehicle`. A creation call's result is the `handle` parameter; whether the wrapper's `Control` accepts it is the `controlled` parameter.
- An entity's deletion (`MarkAsNoLongerNeeded`, clearing `IsPersistent`, `Delete`) is one entry in the `deleted` log. `RemoveEntity` on a wrapper is modelled the same way, because the wrapper classes are not part of this model.
- `CreateDynamicProp` and `CreateStaticProp` only forward to `CreateProp`. Their `dynamic` and `ground` flags do not affect the registry, so `Create` covers all three. `CreateProp` ignores `ground`; that argument is not modelled.
- `AliveForMilliseconds` and `AliveForSeconds` compare the wrapper's float `SecondsAlive`, which the wrapper class keeps. That class is not part of this model.
- `ControlManager(int capacity)`: the capacity is only an allocation hint for the list, so the parameterless constructor stands for both.
- `Entities` drops null wrappers. The model's list has no nulls, so `Tick` and `KeyDown` walk the list itself.
- Controllable.ControlManager.Tick: the contract gives only the order in which wrappers are ticked. The bodies of `OnTick` and of the wrappers' `KeyDown` belong to the wrapper classes, which the model takes not to touch the registry.
- Wrappers are values, so reference identity and aliasing are not modelled. `List.Remove` compares by value. `AssignRandomId` returns the updated wrapper instead of assigning its field in place.
- Randomness: `new Random(Game.GameTime)` seeding is left out; every `Next` takes its drawn value as a parameter.
- `PopulateWithVehicle`, `PopulateWithPed` and `SpawnLootbag` use the global `Main.ControlManager` for `AssignRandomId` or creation. The model takes it to be the populator's own manager.
- Distances are a parameter `dist` of type `real`. Float rounding and NaN are not modelled; with NaN, the `>=` test fails and the wrapper is never despawned.
- 32-bit overflow of `count + 1` in the capacity guards is not modelled; the counts are unbounded.
- Population.ControllablePopulator.PopulateWithVehicle: when `Control` refuses the vehicle, the source throws on the null vehicle (`PlaceOnNextStreet`). The model returns `NotControlled` with the state as the refusal leaves it.
- Population.ControllablePopulator.PopulateWithPed: when `Control` refuses the ped, the source still issues the perception natives on a null ped. The model returns the same setup.
- Population.ControllablePopulator.PopulateWithZombie: an index outside `ZombieModels` throws `IndexOutOfRangeException` in the source. The model excludes it by its precondition.
- `Get(int)` throws `IndexOutOfRangeException` when no wrapper has the id; `Registry.GetByUid` returns `None` for that case.
- `SpawnLootbag` takes the bag's stacks only through `IsAllFood`, which is a parameter.
- `AirdropWoodenCrateModel` and `AirdropCrateModel` are declared as constants but nothing in the core uses them.
