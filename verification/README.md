# Radar target pool and frame cycle

A model of the radar's target bookkeeping: the identity-keyed pool of
`RadarTarget` records (`TargetsPool`) and the per-frame scan, reclaim and
display cycle of `RadarController` that drives it.

- `geometry.dfy` (module `Geometry`): three-component vectors over exact reals
  and the squared length used by the range test.
- `seqs.dfy` (module `Seqs`): duplicate-freedom and order of elements in
  sequences, with the small lemmas the pool's lists need.
- `targets_pool.dfy` (module `TargetsPool`): the `RadarTarget` record and its
  operations, the pool, `Acquire`, the release pass, and re-initialisation.
- `radar_controller.dfy` (module `RadarController`): the range test, handling
  one candidate, one category pass, the display pass, and a whole
  `FixedUpdate` frame, with single-frame and two-frame properties.

The pool is a value, not a singleton. Records live in an index arena
(`targets: seq<RadarTarget>`), and a record is named by its slot. The map
(`idMap: map<int, Slot>`), the active list and the free list hold slots, just
as the source's containers hold object references. A record taken from the
free list is the same slot that was freed, so reference identity is kept.
`Valid` is the agreement invariant of the three containers:

- every record sits in exactly one list, and only once;
- the map's keys are exactly the ids of the active records, and each key maps
  to its own record;
- every free record has its liveness flag clear.

The release loop is modelled step by step as `ReleaseLoop`, walking the active
list from its end as the source's `for` loop does. It is proved equal to a
closed form: the live records stay in order, and the others are appended to
the free list in the order the walk meets them and are unmapped.

Three behaviours of the code are worth noting:

- The range test compares squared planar distance with the squared range by a
  strict `>`. An entity exactly at the range is therefore kept, not skipped
  (`RangeBoundary`).
- The constructor sets the liveness flag. `UpdateToNewTarget` does not touch it
  at all, so a reused record keeps the clear flag it was freed with.
- `InitImpl` clears only the map and the free list; see Findings.

## Model

| member | source | states |
|---|---|---|
| TargetsPool.RadarTarget.IsActive | Assets/Scripts/radar/TargetsPool.cs:158-161 | a record is live exactly when its flag `updatedOnLastFrame` is set |
| TargetsPool.NewTarget | Assets/Scripts/radar/TargetsPool.cs:128-133 | a constructed record carries the given id and classification and starts out live |
| TargetsPool.RadarTarget.UpdateToNewTarget | Assets/Scripts/radar/TargetsPool.cs:135-139 | repurposing a record sets id and classification and leaves the liveness flag and position as they were |
| TargetsPool.RadarTarget.MarkActive | Assets/Scripts/radar/TargetsPool.cs:147-150 | after marking, the record's liveness is the given value; its id, classification and position are unchanged |
| TargetsPool.RadarTarget.UpdatePosition | Assets/Scripts/radar/TargetsPool.cs:152-156 | a touch stores the new position and makes the record live, keeping id and classification |
| TargetsPool.Fresh | Assets/Scripts/radar/TargetsPool.cs:107-115 | the pool created on first use is empty and satisfies the agreement invariant |
| TargetsPool.ActiveIdsUnique | Assets/Scripts/radar/TargetsPool.cs:11-13 | in a valid pool no two active records share an id |
| TargetsPool.Acquire | Assets/Scripts/radar/TargetsPool.cs:73-100 | `isNew` holds exactly when the id was unmapped; afterwards the id maps to the returned slot; the active list is unchanged or gains that slot at its end; the record count grows by one only when an unmapped id meets an empty free list |
| TargetsPool.AcquireMapped | Assets/Scripts/radar/TargetsPool.cs:75-80 | a mapped id returns its own record with `isNew` false and the pool entirely unchanged |
| TargetsPool.AcquireReusesFree | Assets/Scripts/radar/TargetsPool.cs:84-91 | an unmapped id with a non-empty free list gets the head of the free list with its id and classification overwritten; the record leaves the front of the free list, joins the end of the active list and is mapped, and nothing is allocated |
| TargetsPool.AcquireAllocates | Assets/Scripts/radar/TargetsPool.cs:92-105 | an unmapped id with an empty free list gets a new live record at the end of the arena, appended to the active list and mapped; the free list stays empty |
| TargetsPool.AcquireReturnsActive | Assets/Scripts/radar/TargetsPool.cs:82-99 | after any acquire on a valid pool, the id maps to the returned record, which is active, not free and carries the id; a new one carries the requested classification |
| TargetsPool.AcquirePreservesValid | Assets/Scripts/radar/TargetsPool.cs:76-98 | acquire keeps the agreement invariant of map, active list and free list |
| TargetsPool.AcquireReuseValid | Assets/Scripts/radar/TargetsPool.cs:85-91 | taking the head of the free list keeps the agreement invariant: the reused record is neither mapped nor active before |
| TargetsPool.Kept | Assets/Scripts/radar/TargetsPool.cs:53-59 | the slots a release keeps are exactly those of the list whose record is live, without duplicates if the list has none |
| TargetsPool.Swept | Assets/Scripts/radar/TargetsPool.cs:53-64 | the slots a release moves are exactly those of the list whose record is not live; kept and moved together account for every element of the list |
| TargetsPool.ReleaseLoop | Assets/Scripts/radar/TargetsPool.cs:53-70 | the reverse walk leaves the arena unchanged and every slot the containers hold in range |
| TargetsPool.ReleaseLoopUnfold | Assets/Scripts/radar/TargetsPool.cs:55-64 | one iteration: a live record is skipped; any other is appended to the free list, unmapped and removed at its index, leaving a list one shorter |
| TargetsPool.ReleaseLoopClosedForm | Assets/Scripts/radar/TargetsPool.cs:53-64 | the reverse walk with removal during iteration equals the closed form: live records stay in order, the rest are appended to the free list in walk order and unmapped |
| TargetsPool.ReleaseNotUpdated | Assets/Scripts/radar/TargetsPool.cs:51-71 | one release pass: the active list becomes its live records in order, the free list gains the others, their ids leave the map, and the records are unchanged |
| TargetsPool.ReleasePreservesValid | Assets/Scripts/radar/TargetsPool.cs:56-64 | a release pass keeps the agreement invariant |
| TargetsPool.ReleaseCorrect | Assets/Scripts/radar/TargetsPool.cs:53-64 | after release every active record is live; an active record stays active exactly when it was live; the others are on the free list and unmapped; live entries keep their mapping; free records stay free; active plus free count is conserved |
| TargetsPool.KeptPreservesOrder | Assets/Scripts/radar/TargetsPool.cs:53-64 | two surviving records appear in the same relative order before and after the release, in both directions |
| TargetsPool.InitAsWritten | Assets/Scripts/radar/TargetsPool.cs:45-49 | re-initialisation as written empties the map and the free list and keeps the active list and its records |
| TargetsPool.InitOnFresh | Assets/Scripts/radar/TargetsPool.cs:17-28 | on a fresh pool the reset as written leaves the fresh pool, so creating the instance and resetting it agree |
| TargetsPool.Init | Assets/Scripts/radar/TargetsPool.cs:45-49 | a reset that empties every container leaves an empty pool that satisfies the agreement invariant |
| RadarController.ProjectAndCheckIfOutside | Assets/Scripts/radar/RadarController.cs:75-86 | the projected position is the scan-plane position with z set to zero, and "outside" holds exactly when the squared planar distance exceeds the squared range |
| RadarController.RangeBoundary | Assets/Scripts/radar/RadarController.cs:85 | an entity at non-negative distance on an axis of the plane is in range exactly when its distance is at most the range, so the boundary is included |
| RadarController.HandleTarget | Assets/Scripts/radar/RadarController.cs:51-71 | an out-of-range candidate leaves the pool unchanged; otherwise the active list is unchanged, or grows by one for an unmapped id |
| RadarController.HandleTargetTouches | Assets/Scripts/radar/RadarController.cs:59-71 | an in-range candidate ends mapped to an active, live record holding its id, the projected position and the category's classification; an existing record is reclassified in place with map, lists and arena size unchanged |
| RadarController.HandleTargetPreservesValid | Assets/Scripts/radar/RadarController.cs:54-71 | handling a candidate keeps the agreement invariant |
| RadarController.HandleTargetFrame | Assets/Scripts/radar/RadarController.cs:59-71 | handling a candidate keeps every map entry, and every active record of another entity stays active and unchanged |
| RadarController.HandleIncomingTargets | Assets/Scripts/radar/RadarController.cs:43-73 | a category pass keeps every slot in range and never shrinks the arena |
| RadarController.HandleIncomingPreservesValid | Assets/Scripts/radar/RadarController.cs:49-72 | a category pass keeps the agreement invariant |
| RadarController.HandleIncomingEffect | Assets/Scripts/radar/RadarController.cs:49-72 | after a category pass every in-range candidate is tracked with that category; earlier touches and map entries persist; an active record no in-range candidate names is unchanged |
| RadarController.MarkVisited | Assets/Scripts/radar/RadarController.cs:108-121 | the display pass clears the flag of exactly the visited records and leaves every other record unchanged |
| RadarController.UpdateActiveTargets | Assets/Scripts/radar/RadarController.cs:104-112 | after the display pass no active record is live, and the map and both lists are unchanged |
| RadarController.UpdateActivePreservesValid | Assets/Scripts/radar/RadarController.cs:104-122 | the display pass keeps the agreement invariant |
| RadarController.FixedUpdate | Assets/Scripts/radar/RadarController.cs:33-41 | at the end of a frame every active record has its flag clear, and the arena never shrinks |
| RadarController.FixedUpdatePreservesValid | Assets/Scripts/radar/RadarController.cs:33-41 | a whole frame keeps the agreement invariant |
| RadarController.FixedUpdateEffect | Assets/Scripts/radar/RadarController.cs:33-41 | after a frame every sighted entity is mapped to an active record; an enemy sighting wins the classification, and a friend-only sighting gives friend; a sighted entity keeps its record; an active record with clear flag and no sighting is reclaimed and unmapped |
| RadarController.TwoFrameReclamation | Assets/Scripts/radar/RadarController.cs:33-41 | a record active after one frame whose entity is not sighted in the next frame is on the free list and unmapped after it |
| RadarController.FirstFrame | Assets/Scripts/radar/RadarController.cs:33-41 | the first frame of a fresh pool with one friend in range creates one mapped, active record whose flag is clear at frame end |
| RadarController.LeavingFrame | Assets/Scripts/radar/RadarController.cs:54-57 | a tracked entity sighted only outside the range in a frame has its record reclaimed in that frame |
| RadarController.ReuseScenario | Assets/Scripts/radar/TargetsPool.cs:85-91 | an entity that leaves the range is reclaimed, and the next new entity gets that very record as a new target with its own id and classification, allocating nothing |
| RadarController.InitAsWrittenBreaksAgreement | Assets/Scripts/radar/TargetsPool.cs:45-49 | resetting a valid pool that has active records, as written, always breaks the agreement invariant |
| RadarController.HandleOnFresh | Assets/Scripts/radar/TargetsPool.cs:92-96 | on a fresh pool an in-range friend is given a new live record in slot 0, mapped and active |
| RadarController.HandleAfterReset | Assets/Scripts/radar/RadarController.cs:59-71 | after the reset, an entity whose stale record is still active is given a second, newly allocated record |
| RadarController.ReleaseStaleTwin | Assets/Scripts/radar/TargetsPool.cs:61-62 | releasing a stale record whose id a newer record now holds removes that id from the map altogether |
| RadarController.FrameAfterReset | Assets/Scripts/radar/RadarController.cs:33-41 | the frame after the reset leaves the entity's new record active but unmapped, and the stale record free |
| RadarController.InitAsWrittenLosesMapping | Assets/Scripts/radar/TargetsPool.cs:45-49 | one frame, then the reset as written, then another frame with the same entity in range: the entity's active record is unmapped and the pool is no longer valid |
| RadarController.InitThenFrame | Assets/Scripts/radar/TargetsPool.cs:45-49 | after a reset that empties every container, the next frame ends in a valid pool in which every sighted entity is mapped to an active record |

## Left out

- Scene queries (`GameObject.FindGameObjectsWithTag`) and `GetInstanceID` are parameters. Each category pass takes the list of candidates, each an id with its position already in scan-plane coordinates, in the order the query returned them.
- `InverseTransformPoint` is left out: candidates carry scan-plane positions. Exact reals stand in for single-precision floats, so rounding at the range boundary is not modelled.
- The display placement in `UpdateTarget` (radar size, border offset, scaling by the range) is left out. Only its `MarkActive(false)` is modelled.
- UI glue is left out: marker creation in `PostCreateTargetUI`, `UpdateColor`, `SetRadarTargetUI`, the marker fields, and `SetActive` on release. None of it affects the pool.
- `long` entity ids are modelled as unbounded `int`; no arithmetic is done on them.
- The static singleton is an explicit pool value; `Fresh` is the pool `GetInstance` creates. The static wrappers `GetActiveTargets`, `Acquire` and `ReleaseNotUpdated` only forward to the instance. Static `Init` creates the instance when there is none and otherwise calls `InitImpl`; both paths give the same pool on a fresh instance, which `InitOnFresh` states. The capacity hint `allocatedSize` is left out.
- Editor-only code is left out: `OnEnable`, `CleanupRadarPoints`, `OnDrawGizmosSelected`, and the edit-mode `Update` that calls `FixedUpdate`.

## Findings

| source | as written | input that shows it | evidently intended | confidence | as-written member | corrected member |
|---|---|---|---|---|---|---|
| Assets/Scripts/radar/TargetsPool.cs:45-49 | `InitImpl` clears the id map and the free list but not the active list, so the active records stay active with their ids unmapped | any valid pool with an active record, such as the one left by a frame with a friend with id 7 at (1, 0, 0) and range 10; the frame after the reset gives the entity a second record, releasing the stale one unmaps id 7, and the entity's active record is left unmapped (`InitAsWrittenLosesMapping`) | re-initialisation empties all three containers, leaving a valid pool (`InitThenFrame`) | high (not executed) | RadarController.InitAsWrittenBreaksAgreement | TargetsPool.Init |
