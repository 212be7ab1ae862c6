/**
 Clients of the `Lighting` manager: the host firing the scheduled interval
 until it cancels itself, and the zone scenarios the manager is meant to
 handle, each checked against the manager's contracts.
 */
module LightingScenarios {
  import opened Wrappers
  import opened ZoneRegistry
  import opened ExposureLoop
  import opened DynamicLighting

  /**
   The host timer firing the scheduled interval until it cancels itself:
   that takes exactly `TicksToStop` firings and leaves the renderer's
   exposure on the target.
   */
  method DriveInterval(l: Lighting) returns (ticks: nat)
    requires l.Valid() && l.activeTimers != {}
    modifies l
    ensures l.Valid() && l.activeTimers == {} && l.exposureTimer == None
    ensures ticks == TicksToStop(old(l.current), old(l.target))
    ensures l.current == l.exposure == l.target == old(l.target) && l.zones == old(l.zones)
    ensures l.nextTimer == old(l.nextTimer)
  {
    ghost var start := l.current;
    ghost var n := TicksToStop(start, l.target);
    ExactTicks(start, l.target);
    ticks := 0;
    while l.activeTimers != {}
      invariant l.Valid() && l.target == old(l.target) && l.zones == old(l.zones)
      invariant l.nextTimer == old(l.nextTimer)
      invariant ticks <= n
      invariant Loop(l.current, l.activeTimers != {}) == Run(Loop(start, true), l.target, ticks)
      invariant l.activeTimers == {} ==> l.exposureTimer == None
      invariant ticks > 0 ==> l.exposure == l.current
      decreases n - ticks
    {
      l.Tick();
      RunStep(Loop(start, true), l.target, ticks);
      ticks := ticks + 1;
    }
    assert ticks == n;
  }

  /** A smaller zone without an exposure of its own falls through to the larger one. */
  method FallThrough()
  {
    var l := new Lighting(true, 0.0);
    var a := Zone("A", 10.0, map[ExposureKey := 0.5]);
    var b := Zone("B", 5.0, map[]);
    var raisedA := l.EnteredZone(a.id, a.size, Some(a.properties));
    assert Zone(a.id, a.size, Some(a.properties).GetOr(map[])) == a;
    EnterIntoEmpty(a);
    assert l.zones == [a];
    var raisedB := l.EnteredZone(b.id, b.size, Some(b.properties));
    assert Zone(b.id, b.size, Some(b.properties).GetOr(map[])) == b;
    EnterSmaller(a, b);
    assert l.zones == [b, a];
    var v := l.GetValue(ExposureKey, 0.0);
    assert LookupFrom([b, a], ExposureKey, 0.0, 1) == 0.5;
    assert !raisedA && !raisedB && v == 0.5 && l.target == 0.5;
  }

  /** A smaller zone with its own exposure overrides the larger one. */
  method SmallerOverrides()
  {
    var l := new Lighting(true, 0.0);
    var a := Zone("A", 10.0, map[ExposureKey := 0.5]);
    var b := Zone("B", 5.0, map[ExposureKey := 0.8]);
    var raisedA := l.EnteredZone(a.id, a.size, Some(a.properties));
    assert Zone(a.id, a.size, Some(a.properties).GetOr(map[])) == a;
    EnterIntoEmpty(a);
    assert l.zones == [a];
    var raisedB := l.EnteredZone(b.id, b.size, Some(b.properties));
    assert Zone(b.id, b.size, Some(b.properties).GetOr(map[])) == b;
    EnterSmaller(a, b);
    assert l.zones == [b, a];
    var v := l.GetValue(ExposureKey, 0.0);
    assert !raisedA && !raisedB && v == 0.8 && l.target == 0.8;
  }

  /** Leaving a zone while in none still writes the reset (exposure 0, lit mode off). */
  method ExitWhileEmptyResets()
  {
    var l := new Lighting(true, 0.7);
    var raised := l.ExitedZone("x");
    assert !raised && !l.litMode && l.exposure == 0.0 && l.zones == [];
  }

  /** Without a renderer, entering the first zone raises before the zone is recorded. */
  method EnterWithoutRenderer()
  {
    var l := new Lighting(false, 0.0);
    var raised := l.EnteredZone("A", 6.0, None);
    assert raised && l.zones == [] && l.activeTimers == {};
  }

  /** Re-entering a zone replaces its record instead of adding a second one; absent properties become an empty mapping. */
  method ReenterReplaces()
  {
    var l := new Lighting(true, 0.0);
    var a := Zone("A", 10.0, map[ExposureKey := 0.5]);
    var b := Zone("A", 4.0, map[]);
    var raisedA := l.EnteredZone(a.id, a.size, Some(a.properties));
    assert Zone(a.id, a.size, Some(a.properties).GetOr(map[])) == a;
    EnterIntoEmpty(a);
    assert l.zones == [a];
    var raisedB := l.EnteredZone(b.id, b.size, None);
    assert Zone(b.id, b.size, None.GetOr(map[])) == b;
    EnterSameId(a, b);
    assert l.zones == [b];
    var v := l.GetValue(ExposureKey, 0.3);
    assert LookupFrom([b], ExposureKey, 0.3, 1) == 0.3;
    assert v == 0.3;
  }

  /** Entering a zone with exposure 1 from exposure 0: the interval snaps to 1 on its 49th firing. */
  method AnimateToOne()
  {
    var l := new Lighting(true, 0.0);
    var a := Zone("A", 10.0, map[ExposureKey := 1.0]);
    var raised := l.EnteredZone(a.id, a.size, Some(a.properties));
    assert Zone(a.id, a.size, Some(a.properties).GetOr(map[])) == a;
    EnterIntoEmpty(a);
    assert l.zones == [a];
    assert Lookup([a], ExposureKey, 0.0) == 1.0;
    assert l.current == 0.0 && l.target == 1.0;
    var ticks := DriveInterval(l);
    ZeroToOneSnapsOnTick49();
    assert ticks == 49 && l.exposure == 1.0;
  }

  lemma EnterIntoEmpty(a: Zone)
    ensures AfterEnter([], a) == [a]
  {
    assert Without([], a.id) + [a] == [a];
    assert [a][..0] == [];
    assert SortBySize([a]) == Insert(SortBySize([]), a);
  }

  lemma EnterSmaller(a: Zone, b: Zone)
    requires a.id != b.id && b.size < a.size
    ensures AfterEnter([a], b) == [b, a]
  {
    assert [a][..0] == [];
    assert Without([a], b.id) == Without([], b.id) + [a];
    assert Without([a], b.id) + [b] == [a, b];
    assert [a, b][..1] == [a];
    EnterIntoEmpty(a);
    assert SortBySize([a]) == [a];
    assert SortBySize([a, b]) == Insert([a], b);
    assert Insert([a], b) == [b] + [a];
  }

  lemma EnterSameId(a: Zone, b: Zone)
    requires a.id == b.id
    ensures AfterEnter([a], b) == [b]
  {
    assert [a][..0] == [];
    assert Without([a], b.id) == Without([], b.id) + [];
    EnterIntoEmpty(b);
  }
}
