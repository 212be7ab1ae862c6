/**
 The shared `Lighting` manager: the zones the user is inside, the
 lit-mode/reset switch of the renderer's bloom and tone-mapping block, the
 renderer's exposure, and the single interval that animates that exposure.
 The host timer facility is modelled by the set of intervals it still has
 scheduled; `Tick` is one firing of the scheduled interval.
 */
module DynamicLighting {
  import opened Wrappers
  import opened ZoneRegistry
  import opened ExposureLoop

  /** The property `updateLighting` resolves. */
  const ExposureKey: string := "exposure"

  /** The intervals a timer handle field can name: none for `null`. */
  function HandleSet(handle: Option<nat>): set<nat>
  {
    if handle.Some? then {handle.value} else {}
  }

  class Lighting {
    /** Whether the host defines the global `Render`; every render-config access needs it. */
    const renderPresent: bool
    /** `zones`: the zones the user is inside, smallest first. */
    var zones: seq<Zone>
    /** Stands for the bloom/tone-mapping block: set by the lit-mode setup, cleared by the reset. */
    var litMode: bool
    /** The renderer's tone-mapping exposure. */
    var exposure: real
    /** `exposureTimer`: the handle last returned by `setInterval`, or null. */
    var exposureTimer: Option<nat>
    /** Intervals the host still has scheduled. */
    var activeTimers: set<nat>
    /** The handle the host hands out for the next interval. */
    var nextTimer: nat
    /** `currentExposure` and `targetExposure` of the interval closure. */
    var current: real
    var target: real

    /**
     The manager's invariant: the zone list is sorted by size with unique
     ids, the render block is lit exactly while some zone is entered, and at
     most one interval is scheduled, namely the one `exposureTimer` names.
     */
    ghost predicate Valid()
      reads this
    {
      SortedBySize(zones) && UniqueIds(zones)
      && (litMode <==> zones != [])
      && (zones != [] ==> renderPresent)
      && (activeTimers != {} ==> renderPresent)
      && activeTimers <= HandleSet(exposureTimer)
      && (exposureTimer.Some? ==> exposureTimer.value < nextTimer)
    }

    /** A fresh manager: no zones, no timer; the renderer's exposure is whatever the host reports. */
    constructor (renderPresent: bool, rendererExposure: real)
      ensures Valid()
      ensures this.renderPresent == renderPresent && zones == [] && !litMode
      ensures exposure == rendererExposure
      ensures exposureTimer == None && activeTimers == {}
    {
      this.renderPresent := renderPresent;
      zones := [];
      litMode := false;
      exposure := rendererExposure;
      exposureTimer := None;
      activeTimers := {};
      nextTimer := 0;
      current := rendererExposure;
      target := rendererExposure;
    }

    /** The `for (...) if (zones[i].id == id) zones.splice(i--, 1)` loop. */
    method RemoveZonesWithId(id: string)
      modifies this`zones
      ensures zones == Without(old(zones), id)
    {
      ghost var original := zones;
      ghost var k := 0;
      var i := 0;
      while i < |zones|
        invariant 0 <= k <= |original|
        invariant zones == Without(original[..k], id) + original[k..]
        invariant i == |Without(original[..k], id)|
        decreases |zones| - i
      {
        RemovalStep(original, k, zones, i, id);
        if zones[i].id == id {
          zones := zones[..i] + zones[i + 1..];
        } else {
          i := i + 1;
        }
        k := k + 1;
      }
      assert original[..k] == original;
    }

    /** The body of `enteredZone` between the lit-mode setup and the recompute: remove, push, sort. */
    method RegisterZone(z: Zone)
      requires UniqueIds(zones)
      modifies this`zones
      ensures zones == AfterEnter(old(zones), z)
      ensures SortedBySize(zones) && UniqueIds(zones) && z in zones
    {
      AfterEnterSpec(zones, z);
      RemoveZonesWithId(z.id);
      zones := zones + [z];
      zones := SortBySize(zones);
    }

    /** `getValue`: the loop over the sorted zones that stops at the first one defining `key`. */
    method GetValue(key: string, defaultValue: real) returns (value: real)
      ensures value == Lookup(zones, key, defaultValue)
    {
      var i := 0;
      while i < |zones|
        invariant 0 <= i <= |zones|
        invariant LookupFrom(zones, key, defaultValue, i) == Lookup(zones, key, defaultValue)
      {
        if key in zones[i].properties {
          return zones[i].properties[key];
        }
        i := i + 1;
      }
      return defaultValue;
    }

    /**
     `setExposure`: without a renderer nothing happens; otherwise the previous
     interval is cancelled and a new one is scheduled, starting from the
     renderer's present exposure.
     */
    method SetExposure(targetExposure: real)
      requires Valid()
      modifies this`exposureTimer, this`activeTimers, this`nextTimer, this`current, this`target
      ensures Valid()
      ensures !renderPresent ==> unchanged(this)
      ensures renderPresent ==>
                exposureTimer == Some(old(nextTimer)) && activeTimers == {old(nextTimer)}
                && nextTimer == old(nextTimer) + 1
                && current == exposure && target == targetExposure
    {
      if !renderPresent {
        return;
      }
      if exposureTimer.Some? {
        activeTimers := activeTimers - {exposureTimer.value};
      }
      current := exposure;
      target := targetExposure;
      exposureTimer := Some(nextTimer);
      activeTimers := activeTimers + {nextTimer};
      nextTimer := nextTimer + 1;
    }

    /** `updateLighting`: animate toward the exposure the zones resolve to, 0 by default. */
    method UpdateLighting()
      requires Valid()
      modifies this`exposureTimer, this`activeTimers, this`nextTimer, this`current, this`target
      ensures Valid()
      ensures !renderPresent ==> unchanged(this)
      ensures renderPresent ==>
                exposureTimer == Some(old(nextTimer)) && activeTimers == {old(nextTimer)}
                && nextTimer == old(nextTimer) + 1
                && current == exposure && target == Lookup(zones, ExposureKey, 0.0)
    {
      var targetExposure := GetValue(ExposureKey, 0.0);
      SetExposure(targetExposure);
    }

    /**
     `enteredZone(id, size, props)`. On the first zone the lit-mode block is
     written, which raises when the host has no `Render`; then the zone
     replaces any with the same id, the list is re-sorted and the exposure
     animation restarts toward the new resolved target.
     */
    method EnteredZone(id: string, size: real, props: Option<map<string, real>>) returns (raised: bool)
      requires Valid()
      modifies this`zones, this`litMode, this`exposureTimer, this`activeTimers, this`nextTimer, this`current, this`target
      ensures Valid()
      ensures raised <==> old(zones) == [] && !renderPresent
      ensures raised ==> unchanged(this)
      ensures !raised ==>
                zones == AfterEnter(old(zones), Zone(id, size, props.GetOr(map[])))
                && litMode
                && exposureTimer == Some(old(nextTimer)) && activeTimers == {old(nextTimer)}
                && nextTimer == old(nextTimer) + 1
                && current == exposure && target == Lookup(zones, ExposureKey, 0.0)
    {
      if |zones| == 0 {
        if !renderPresent {
          return true;
        }
        litMode := true;
      }
      assert renderPresent;
      ghost var entered := AfterEnter(zones, Zone(id, size, props.GetOr(map[])));
      RegisterZone(Zone(id, size, props.GetOr(map[])));
      assert zones == entered;
      UpdateLighting();
      raised := false;
    }

    /**
     `exitedZone(id)`. Every zone with `id` is removed. If none is left, the
     render block is reset (exposure 0) and the interval cancelled, which
     raises when the host has no `Render`; this happens even when the list
     was empty already. Otherwise the animation restarts toward the newly
     resolved target.
     */
    method ExitedZone(id: string) returns (raised: bool)
      requires Valid()
      modifies this
      ensures Valid()
      ensures zones == Without(old(zones), id)
      ensures raised <==> zones == [] && !renderPresent
      ensures raised ==> unchanged(this)
      ensures zones == [] ==> nextTimer == old(nextTimer) && current == old(current) && target == old(target)
      ensures zones == [] && renderPresent ==>
                !litMode && exposure == 0.0 && activeTimers == {}
                && exposureTimer == old(exposureTimer)
                && current == old(current) && target == old(target)
      ensures zones != [] ==>
                litMode && exposure == old(exposure)
                && exposureTimer == Some(old(nextTimer)) && activeTimers == {old(nextTimer)}
                && nextTimer == old(nextTimer) + 1
                && current == exposure && target == Lookup(zones, ExposureKey, 0.0)
    {
      WithoutKeepsSorted(zones, id);
      WithoutKeepsUniqueIds(zones, id);
      RemoveZonesWithId(id);
      if |zones| == 0 {
        if !renderPresent {
          return true;
        }
        litMode := false;
        exposure := 0.0;
        if exposureTimer.Some? {
          activeTimers := activeTimers - {exposureTimer.value};
        }
        return false;
      }
      UpdateLighting();
      raised := false;
    }

    /**
     One firing of the scheduled interval: step toward the target, snap and
     cancel the interval once within two steps, and write the exposure.
     */
    method Tick()
      requires Valid() && activeTimers != {}
      modifies this`current, this`exposure, this`exposureTimer, this`activeTimers
      ensures Valid()
      ensures Loop(current, activeTimers != {}) == TickOnce(Loop(old(current), true), target)
      ensures exposure == current
      ensures activeTimers == {} ==> exposureTimer == None
      ensures activeTimers != {} ==> activeTimers == old(activeTimers) && exposureTimer == old(exposureTimer)
    {
      if current > target {
        current := current - Step;
      } else if current < target {
        current := current + Step;
      }
      if Abs(current - target) < Step * 2.0 {
        current := target;
        activeTimers := activeTimers - {exposureTimer.value};
        exposureTimer := None;
      }
      exposure := current;
    }
  }
}
