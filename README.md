# Dynamic lighting zones — a Dafny model

`DynamicLightingZone.js` is a client script for a virtual-world renderer.
Each lighting zone the user's avatar is inside is registered with a shared
`Lighting` manager under its entity id, together with its size and lighting
properties. The manager keeps these zones sorted from smallest to largest,
so the smallest zone wins. It switches the renderer's bloom and
tone-mapping block on when the first zone is entered and resets it when
the last zone is left. It resolves the `exposure` property from the zones
(smallest first, default 0) and animates the renderer's tone-mapping
exposure toward that value with a repeating interval. Each firing moves
the exposure by 0.02 and snaps it to the target once it is within two
steps.

The model has five modules (`Wrappers`, in `wrappers.dfy`, only holds the `Option` type):

- `ZoneRegistry` (`zone_registry.dfy`) holds the zone records as values:
  - `Without` is the `splice(i--, 1)` removal loop as a filter;
  - `SortBySize` is the sort by size (a stable insertion sort);
  - `AfterEnter` is the whole remove, push and sort sequence;
  - `Lookup` is the first-match property lookup.

  The functions only compute. Lemmas state what they guarantee: sorted
  order, permutation, unique ids, order kept by removal, and first-match
  and smallest-wins lookup.
- `ExposureLoop` (`exposure_loop.dfy`) is the arithmetic of one interval
  firing (`TickOnce`) and of `n` firings (`Run`). It proves on which tick
  the loop stops, with exposures as exact rationals.
- `DynamicLighting` (`lighting.dfy`) holds the `Lighting` manager as a
  class with the source's fields, in imperative form:
  - the removal loop is a `while` loop;
  - `GetValue` is a loop too;
  - `EnteredZone`, `ExitedZone`, `UpdateLighting`, `SetExposure` and
    `Tick` change the state in place.

  The invariant `Valid()` says:
  - the zone list is sorted with unique ids;
  - lit mode is on exactly while a zone is registered;
  - at most one interval is scheduled, namely the one `exposureTimer`
    names.
- `LightingScenarios` (`scenarios.dfy`) holds clients of the manager:
  - `DriveInterval`: the host firing the interval until it cancels itself;
  - the fall-through and override scenarios;
  - leaving when in no zone;
  - entering without a renderer;
  - re-entering a zone;
  - the 0-to-1 animation.

The host is represented as follows:

- Whether the global `Render` exists is the constant `renderPresent`.
- The renderer's exposure is the field `exposure`.
- The whole bloom/tone-mapping block is the flag `litMode`.
- The timer facility is the set `activeTimers` of scheduled interval
  handles plus the counter `nextTimer` of the next handle.
- One firing of the scheduled interval is the method `Tick`.
- A property map that is `null` or `undefined` is `Option.None`.
- The ReferenceError raised by touching `Render` when it does not exist is
  modelled as the out-parameter `raised`.

Where the code and the intended behaviour differ, the model follows the
code:

- `exitedZone` writes the reset (exposure 0, lit mode off) whenever the
  list is empty after removal. That includes the case where it was empty
  before the call, so a reset is not limited to the non-empty-to-empty
  transition. `ExitedZone` and the scenario `ExitWhileEmptyResets` state
  this.
- Without a renderer, only `setExposure` is guarded. `enteredZone` on an
  empty list touches the render block first, which raises before anything
  is written, leaving the zone unregistered. `exitedZone` raises once the list becomes empty, after the
  removal has already happened. So "no renderer" is not a silent no-op.
  `EnteredZone`, `ExitedZone` and `EnterWithoutRenderer` state this.
- In exact arithmetic, with step 0.02, the 0-to-1 loop stops on tick 49,
  not tick 50: the done-test is `|current - target| < 2 * step` after the
  move. `ZeroToOneSnapsOnTick49` and `AnimateToOne` state this. The
  general bound ⌈|start − target| / step⌉ + 1 is `StopsWithinBound`, and
  the exact count is `ExactTicks`. The host's doubles round differently,
  so its count can be one lower; see "## Left out".
- `exitedZone` with an id that is not registered, on a non-empty list,
  leaves the list unchanged but still calls `updateLighting`. That cancels
  the running interval and schedules a new one, from the renderer's present
  exposure, so an exit of an absent id is not a no-op. `ExitedZone` states
  this: whenever zones remain it hands out a new handle. `WithoutAbsent`
  covers only the list.

## Model

| member | source | states |
|---|---|---|
| ZoneRegistry.WithoutMembers | DynamicLightingZone.js:153-156 | After removal, a zone is present iff it was present and does not carry the id; the list never grows |
| ZoneRegistry.RemovalStep | DynamicLightingZone.js:154-156 | One iteration of the `splice(i--, 1)` loop: splicing out a matching zone without advancing `i`, or stepping past a non-matching one, keeps "filtered prefix + untouched rest" |
| ZoneRegistry.WithoutKeepsSorted | DynamicLightingZone.js:153-156 | Removal keeps the list sorted by size |
| ZoneRegistry.WithoutKeepsUniqueIds | DynamicLightingZone.js:153-156 | Removal keeps ids unique |
| ZoneRegistry.WithoutAbsent | DynamicLightingZone.js:153-156 | When no zone carries the id, the list is unchanged |
| ZoneRegistry.WithoutConcat | DynamicLightingZone.js:153-156 | Removal filters each part of a concatenation separately, so surviving zones keep their relative order |
| ZoneRegistry.WithoutIdempotent | DynamicLightingZone.js:153-156 | Removing the same id twice equals removing it once |
| ZoneRegistry.InsertPermutes | DynamicLightingZone.js:136-139 | Inserting a zone adds exactly that zone (multiset) and one to the length |
| ZoneRegistry.InsertKeepsSorted | DynamicLightingZone.js:136-139 | Inserting into a size-sorted list keeps it sorted |
| ZoneRegistry.InsertKeepsUniqueIds | DynamicLightingZone.js:136-139 | Inserting a zone with a new id keeps ids unique |
| ZoneRegistry.SortBySizeSpec | DynamicLightingZone.js:136-139 | The sort yields a list sorted non-decreasing by size that is a permutation of its input, of the same length, and keeps ids unique |
| ZoneRegistry.SortBySizeMembers | DynamicLightingZone.js:136-139 | The sort neither adds nor drops a zone |
| ZoneRegistry.PushFreshKeepsUniqueIds | DynamicLightingZone.js:129-134 | Pushing a zone whose id is not yet present keeps ids unique |
| ZoneRegistry.AfterEnterSpec | DynamicLightingZone.js:124-139 | After entering, the list is sorted, is a permutation of the old zones minus those with the id plus the new zone, and contains the new zone as the only zone with that id; unique ids are preserved |
| ZoneRegistry.LookupFirstMatch | DynamicLightingZone.js:191-210 | The lookup returns the default itself when no zone defines the key (including an empty list), and otherwise the value from the lowest-index zone defining it |
| ZoneRegistry.LookupSmallestWins | DynamicLightingZone.js:191-210 | On a size-sorted list where some zone defines the key, the value returned comes from a zone defining it whose size is no larger than that of any other zone defining it |
| ExposureLoop.Move | DynamicLightingZone.js:246-250 | One step toward the target: no move when equal, otherwise a move of exactly `Step` in the target's direction |
| ExposureLoop.TickOnce | DynamicLightingZone.js:246-263 | A cancelled interval does not fire. A firing either snaps to the target and stops exactly when the moved value is within two steps, or keeps running one step nearer, on the same side, still at least two steps away |
| ExposureLoop.RunStep | DynamicLightingZone.js:244-265 | `n + 1` firings are `n` firings followed by one more |
| ExposureLoop.IdleStaysIdle | DynamicLightingZone.js:256-258 | Once the interval has cancelled itself, further firings change nothing |
| ExposureLoop.StillConverging | DynamicLightingZone.js:246-253 | While at least k + 2 steps away, k firings leave the loop running and move the exposure exactly k steps toward the target |
| ExposureLoop.Converges | DynamicLightingZone.js:246-258 | Strictly less than n + 2 steps away, n ≥ 1 firings leave the loop stopped exactly on the target |
| ExposureLoop.ExactTicks | DynamicLightingZone.js:246-258 | The loop is still running after every firing before `TicksToStop` and is stopped on the target after exactly `TicksToStop` firings |
| ExposureLoop.StopsWithinBound | DynamicLightingZone.js:246-258 | From any start, the loop stops on the target within ⌈\|start − target\| / step⌉ + 1 firings |
| ExposureLoop.ZeroToOneSnapsOnTick49 | DynamicLightingZone.js:246-258 | From 0 toward 1 `TicksToStop` is 49: the loop is still running after 48 firings and stopped on 1 after 49 |
| DynamicLighting.Lighting.constructor | DynamicLightingZone.js:66-78 | A new manager has no zones, no timer handle and no scheduled interval, and satisfies the invariant |
| DynamicLighting.Lighting.RemoveZonesWithId | DynamicLightingZone.js:124-127 | The in-place removal loop leaves exactly the filtered list `Without(old zones, id)` |
| DynamicLighting.Lighting.RegisterZone | DynamicLightingZone.js:124-139 | Remove, push and sort leave `AfterEnter(old zones, zone)`: sorted, unique ids, containing the new zone |
| DynamicLighting.Lighting.GetValue | DynamicLightingZone.js:191-210 | The first-match loop returns `Lookup(zones, key, default)` and changes nothing |
| DynamicLighting.Lighting.SetExposure | DynamicLightingZone.js:230-267 | Without a renderer nothing changes. Otherwise the old interval is cancelled and exactly one new interval is scheduled, starting from the renderer's exposure toward the given target; the invariant is kept |
| DynamicLighting.Lighting.UpdateLighting | DynamicLightingZone.js:217-222 | Restarts the animation toward the exposure the zones resolve to, default 0 |
| DynamicLighting.Lighting.EnteredZone | DynamicLightingZone.js:109-144 | Raises iff the list was empty and there is no renderer, and then changes nothing. Otherwise the zones become `AfterEnter(old zones, Zone(id, size, props or {}))`, lit mode is on, and one interval animates toward the resolved exposure; the invariant is kept |
| DynamicLighting.Lighting.ExitedZone | DynamicLightingZone.js:151-181 | The zones become `Without(old zones, id)`. If none remain, no handle is handed out and the interval closure is untouched; without a renderer it raises with nothing else changed, and otherwise it resets (lit mode off, exposure 0, interval cancelled, stale handle kept, no restart). If some remain, the animation restarts toward the resolved exposure; the invariant is kept |
| DynamicLighting.Lighting.Tick | DynamicLightingZone.js:246-263 | One firing moves the loop state exactly as `TickOnce`, writes the new exposure to the renderer, and on stopping cancels the interval and nulls the handle; the invariant is kept |
| LightingScenarios.DriveInterval | DynamicLightingZone.js:243-265 | Firing the scheduled interval until it cancels itself takes exactly `TicksToStop(start, target)` firings and leaves the renderer's exposure and the closure's current value on the target, with the handle nulled and no new handle handed out |

## Left out

- The `Function.prototype.bind` polyfill (lines 8-34) is language plumbing.
- The singleton getter `Lighting.shared` (lines 87-100) is left out; the model works on one explicitly constructed manager.
- The individual `Render.getConfig(...)` field writes (bloom enable, intensity, threshold and size; tone-mapping enable and curve) are abstracted as the single flag `litMode`. Only the tone-mapping exposure is kept, as `exposure`.
- The interval period `durationBetweenFrames` (1000/60 ms) and real time are left out. The host's scheduling is reduced to "a scheduled interval may fire", which is `Tick`, and `DriveInterval` fires it repeatedly.
- Timer handles are opaque, always-truthy host objects. The model numbers them with `nextTimer` and never produces a falsy handle for `if (this.exposureTimer)`.
- IEEE-754 rounding of `currentExposure` is not modelled. Exposures are exact rationals and the step 0.02 is exact, so the tick counts proved are for exact arithmetic.
- ExposureLoop.ZeroToOneSnapsOnTick49: holds in exact arithmetic only. In IEEE doubles, 48 additions of 0.02 give 0.9600000000000005, whose distance to 1 (0.03999999999999948) is already below `0.02 * 2`. So the host reaches the tolerance on tick 48. `ExactTicks` can therefore be one above the host's count, and `AnimateToOne` is off by one in the same way. `StopsWithinBound` (⌈50⌉ + 1 = 51 firings here) leaves room for that.
- Property values are modelled as numbers (`real`). JavaScript allows any value, and `getValue` treats a property holding `undefined` as absent; a Dafny map cannot hold `undefined`.
- The sort's comparator `a.size - b.size` is modelled as one particular sort, a stable insertion sort. The host engine's `Array.prototype.sort` need not be stable: the script ships a `bind` polyfill, so it targets engines older than the ones that guarantee a stable sort. `SortBySizeSpec` and `AfterEnterSpec` promise only "sorted by size and a permutation". But `EnteredZone` and `RegisterZone` pin the zones to `AfterEnter(...)`, so the order among equal-size zones, and with it the resolved `target`, follows the model's choice: of two equal-size zones that both define `exposure`, the one registered earlier wins. The host may pick either.
- `renderPresent` is fixed when the manager is constructed. The model does not capture a renderer that initializes later, after zones were already entered or left.
- `getUserData` (lines 312-330) and the entity callbacks `preload`, `unload`, `enterEntity` and `leaveEntity` (lines 346-416) are left out. They adapt host events and entity JSON to `enteredZone`/`exitedZone` calls.
- Exceptions are modelled only as the `raised` result at the points where the code touches a missing `Render`. What the host does when a script raises is not modelled.
