/** The radar controller's per-frame scan: touch every in-range friend, then
    every in-range enemy, then reclaim the records nobody touched, then run the
    display pass that clears every surviving record's flag so that it must be
    touched again next frame. The pool is passed in and returned explicitly. */
module RadarController {
  import opened Geometry
  import opened TargetsPool

  /** An entity found by the scene query: its id and its position already
      transformed into the scan plane's local coordinates. */
  datatype Candidate = Candidate(goId: int, local: Vec3)

  /** The two results of the range test: whether the entity lies outside the
      radar's range, and its position flattened onto the scan plane. */
  datatype Projection = Projection(outside: bool, projected: Vec3)

  /** Flattens a scan-plane position onto the plane and compares its squared
      planar distance with the squared range, strictly. */
  function ProjectAndCheckIfOutside(local: Vec3, radarRange: real): (r: Projection)
    ensures r.projected == Vec3(local.x, local.y, 0.0)
    ensures r.outside <==> local.x * local.x + local.y * local.y > radarRange * radarRange
  {
    var projected := local.(z := 0.0);
    Projection(SqrMagnitude(projected) > radarRange * radarRange, projected)
  }

  predicate InRange(c: Candidate, radarRange: real)
  {
    !ProjectAndCheckIfOutside(c.local, radarRange).outside
  }

  /** On an axis of the plane, at any height, an entity is in range exactly when
      its distance does not exceed the range: one exactly at the range is kept. */
  lemma RangeBoundary(goId: int, d: real, z: real, radarRange: real)
    requires 0.0 <= d && 0.0 <= radarRange
    ensures InRange(Candidate(goId, Vec3(d, 0.0, z)), radarRange) <==> d <= radarRange
  {
    if d < radarRange {
      SquareLess(d, radarRange);
    } else if radarRange < d {
      SquareLess(radarRange, d);
    }
  }

  /** The id `g` is that of some in-range candidate of `cs`. */
  ghost predicate Sighted(cs: seq<Candidate>, radarRange: real, g: int)
  {
    exists k :: 0 <= k < |cs| && cs[k].goId == g && InRange(cs[k], radarRange)
  }

  /** `g` is touched and its record carries the classification `isEnemy`. */
  predicate Tracked(p: Pool, g: int, isEnemy: bool)
  {
    Touched(p, g) && p.targets[p.idMap[g]].isEnemy == isEnemy
  }

  /* ------------------------------------------------------- one candidate */

  /** Handles one candidate of category `isEnemies`: an entity outside the range
      is skipped; otherwise its record is acquired, reclassified if needed and
      touched with the projected position. */
  function HandleTarget(p: Pool, c: Candidate, isEnemies: bool, radarRange: real): (q: Pool)
    requires WellFormed(p)
    ensures WellFormed(q)
    ensures !InRange(c, radarRange) ==> q == p
    ensures |q.targets| >= |p.targets|
    ensures q.active == p.active || (c.goId !in p.idMap && |q.active| == |p.active| + 1)
  {
    var projection := ProjectAndCheckIfOutside(c.local, radarRange);
    if projection.outside then p
    else
      var a := Acquire(p, c.goId, isEnemies);
      var t := a.pool.targets[a.slot];
      var t' := if isEnemies != t.isEnemy then t.(isEnemy := isEnemies) else t;
      a.pool.(targets := a.pool.targets[a.slot := t'.UpdatePosition(projection.projected)])
  }

  /** An in-range candidate ends up mapped to an active, live record that holds
      its new position and the category's classification; a record that already
      existed is reclassified in place, with the containers unchanged. */
  lemma HandleTargetTouches(p: Pool, c: Candidate, isEnemies: bool, radarRange: real)
    requires Valid(p) && InRange(c, radarRange)
    ensures var q := HandleTarget(p, c, isEnemies, radarRange);
      && Tracked(q, c.goId, isEnemies)
      && q.targets[q.idMap[c.goId]].projected == Vec3(c.local.x, c.local.y, 0.0)
      && q.targets[q.idMap[c.goId]].goId == c.goId
      && (c.goId in p.idMap ==>
            && q.idMap == p.idMap && q.active == p.active && q.free == p.free
            && |q.targets| == |p.targets|)
  {
    AcquireReturnsActive(p, c.goId, isEnemies);
  }

  /** Handling a candidate keeps the pool's agreement invariant. */
  lemma HandleTargetPreservesValid(p: Pool, c: Candidate, isEnemies: bool, radarRange: real)
    requires Valid(p)
    ensures Valid(HandleTarget(p, c, isEnemies, radarRange))
  {
    if InRange(c, radarRange) {
      AcquirePreservesValid(p, c.goId, isEnemies);
      AcquireReturnsActive(p, c.goId, isEnemies);
    }
  }

  /** Handling a candidate changes no other entity's record: every other active
      record stays active and unchanged, and every existing map entry stays. */
  lemma HandleTargetFrame(p: Pool, c: Candidate, isEnemies: bool, radarRange: real)
    requires Valid(p)
    ensures var q := HandleTarget(p, c, isEnemies, radarRange);
      && (forall g :: g in p.idMap ==> g in q.idMap && q.idMap[g] == p.idMap[g])
      && (forall s :: s in p.active && p.targets[s].goId != c.goId ==>
            s in q.active && q.targets[s] == p.targets[s])
  {
    if InRange(c, radarRange) {
      AcquireReturnsActive(p, c.goId, isEnemies);
      var a := Acquire(p, c.goId, isEnemies);
      forall s | s in p.active && p.targets[s].goId != c.goId
        ensures s != a.slot
      {
        if c.goId in p.idMap {
          assert a.pool.targets[a.slot].goId == c.goId;
        } else if |p.free| > 0 {
          assert p.free[0] in p.free;
        }
      }
    }
  }

  /* --------------------------------------------------------- one category */

  /** Handles every candidate of one category, in order (HandleIncomingTargets
      over the list the scene query returned). */
  function HandleIncomingTargets(p: Pool, cs: seq<Candidate>, isEnemies: bool, radarRange: real): (q: Pool)
    requires WellFormed(p)
    ensures WellFormed(q)
    ensures |q.targets| >= |p.targets|
    decreases |cs|
  {
    if |cs| == 0 then p
    else HandleIncomingTargets(HandleTarget(p, cs[0], isEnemies, radarRange), cs[1..], isEnemies, radarRange)
  }

  lemma HandleIncomingSingle(p: Pool, c: Candidate, isEnemies: bool, radarRange: real)
    requires WellFormed(p)
    ensures HandleIncomingTargets(p, [c], isEnemies, radarRange) == HandleTarget(p, c, isEnemies, radarRange)
  {
    assert [c][1..] == [];
  }

  lemma {:induction false} HandleIncomingPreservesValid(p: Pool, cs: seq<Candidate>, isEnemies: bool, radarRange: real)
    requires Valid(p)
    ensures Valid(HandleIncomingTargets(p, cs, isEnemies, radarRange))
    decreases |cs|
  {
    if |cs| > 0 {
      HandleTargetPreservesValid(p, cs[0], isEnemies, radarRange);
      HandleIncomingPreservesValid(HandleTarget(p, cs[0], isEnemies, radarRange), cs[1..], isEnemies, radarRange);
    }
  }

  /** After a category pass: every in-range candidate is tracked with that
      category; whatever was touched before stays touched; existing map entries
      stay; and an active record whose id no in-range candidate names is untouched. */
  lemma {:induction false} HandleIncomingEffect(p: Pool, cs: seq<Candidate>, isEnemies: bool, radarRange: real)
    requires Valid(p)
    ensures var q := HandleIncomingTargets(p, cs, isEnemies, radarRange);
      && (forall k :: 0 <= k < |cs| && InRange(cs[k], radarRange) ==> Tracked(q, cs[k].goId, isEnemies))
      && (forall g :: Tracked(p, g, isEnemies) ==> Tracked(q, g, isEnemies))
      && (forall g :: Touched(p, g) ==> Touched(q, g))
      && (forall g :: g in p.idMap ==> g in q.idMap && q.idMap[g] == p.idMap[g])
      && (forall s :: s in p.active && !Sighted(cs, radarRange, p.targets[s].goId) ==>
            s in q.active && q.targets[s] == p.targets[s])
    decreases |cs|
  {
    if |cs| > 0 {
      var c := cs[0];
      var p1 := HandleTarget(p, c, isEnemies, radarRange);
      HandleTargetPreservesValid(p, c, isEnemies, radarRange);
      HandleTargetFrame(p, c, isEnemies, radarRange);
      if InRange(c, radarRange) {
        HandleTargetTouches(p, c, isEnemies, radarRange);
      }
      HandleIncomingEffect(p1, cs[1..], isEnemies, radarRange);
      var q := HandleIncomingTargets(p1, cs[1..], isEnemies, radarRange);
      forall g | Touched(p, g)
        ensures Touched(p1, g)
      {
        if g != c.goId || !InRange(c, radarRange) {
          assert p.targets[p.idMap[g]].goId == g;
        }
      }
      forall g | Tracked(p, g, isEnemies)
        ensures Tracked(p1, g, isEnemies)
      {
        if g != c.goId || !InRange(c, radarRange) {
          assert p.targets[p.idMap[g]].goId == g;
        }
      }
      forall k | 0 <= k < |cs| && InRange(cs[k], radarRange)
        ensures Tracked(q, cs[k].goId, isEnemies)
      {
        if k > 0 {
          assert cs[1..][k - 1] == cs[k];
        }
      }
      forall s | s in p.active && !Sighted(cs, radarRange, p.targets[s].goId)
        ensures s in q.active && q.targets[s] == p.targets[s]
      {
        var g := p.targets[s].goId;
        assert !(cs[0].goId == g && InRange(cs[0], radarRange));
        assert s in p1.active && p1.targets[s] == p.targets[s];
        assert !Sighted(cs[1..], radarRange, g) by {
          forall k | 0 <= k < |cs| - 1 && cs[1..][k].goId == g
            ensures !InRange(cs[1..][k], radarRange)
          {
            assert cs[1..][k] == cs[k + 1];
          }
        }
      }
    }
  }

  /* ------------------------------------------------------ the display pass */

  /** The display pass over the active list: each visited record's flag is
      cleared (UpdateTarget's MarkActive(false)); the screen placement it also
      computes is not part of this model. */
  function MarkVisited(ts: seq<RadarTarget>, a: seq<Slot>): (r: seq<RadarTarget>)
    ensures |r| == |ts|
    ensures forall s :: 0 <= s < |ts| ==> r[s] == (if s in a then ts[s].MarkActive(false) else ts[s])
    decreases |a|
  {
    if |a| == 0 then ts
    else
      var s := a[0];
      var ts' := if s < |ts| then ts[s := ts[s].MarkActive(false)] else ts;
      assert forall x :: x in a <==> x == s || x in a[1..];
      MarkVisited(ts', a[1..])
  }

  /** UpdateActiveTargets: the pass over every active record. */
  function UpdateActiveTargets(p: Pool): (q: Pool)
    ensures q.idMap == p.idMap && q.active == p.active && q.free == p.free
    ensures |q.targets| == |p.targets|
    ensures forall s :: s in p.active && s < |q.targets| ==> !q.targets[s].IsActive()
  {
    p.(targets := MarkVisited(p.targets, p.active))
  }

  lemma UpdateActivePreservesValid(p: Pool)
    requires Valid(p)
    ensures Valid(UpdateActiveTargets(p))
  {
    var q := UpdateActiveTargets(p);
    assert forall s :: 0 <= s < |p.targets| ==> q.targets[s].goId == p.targets[s].goId;
    assert forall s :: s in p.free ==> q.targets[s] == p.targets[s];
  }

  /* --------------------------------------------------------------- a frame */

  /** One FixedUpdate: friends, then enemies, then the release pass, then the
      display pass. */
  function FixedUpdate(p: Pool, friends: seq<Candidate>, enemies: seq<Candidate>, radarRange: real): (q: Pool)
    requires WellFormed(p)
    ensures WellFormed(q)
    ensures forall s :: s in q.active ==> !q.targets[s].IsActive()
    ensures |q.targets| >= |p.targets|
  {
    var p1 := HandleIncomingTargets(p, friends, false, radarRange);
    var p2 := HandleIncomingTargets(p1, enemies, true, radarRange);
    var p3 := ReleaseNotUpdated(p2);
    UpdateActiveTargets(p3)
  }

  lemma FixedUpdatePreservesValid(p: Pool, friends: seq<Candidate>, enemies: seq<Candidate>, radarRange: real)
    requires Valid(p)
    ensures Valid(FixedUpdate(p, friends, enemies, radarRange))
  {
    var p1 := HandleIncomingTargets(p, friends, false, radarRange);
    var p2 := HandleIncomingTargets(p1, enemies, true, radarRange);
    HandleIncomingPreservesValid(p, friends, false, radarRange);
    HandleIncomingPreservesValid(p1, enemies, true, radarRange);
    ReleasePreservesValid(p2);
    UpdateActivePreservesValid(ReleaseNotUpdated(p2));
  }

  /** What one frame does to the records, starting from a valid pool:
      every entity sighted in range keeps an active, mapped record, with the
      classification of the last category that sighted it; an active record
      whose entity was sighted is the same record as before; an active record
      whose flag was clear and whose entity was not sighted is reclaimed. */
  lemma FixedUpdateEffect(p: Pool, friends: seq<Candidate>, enemies: seq<Candidate>, radarRange: real)
    requires Valid(p)
    ensures var q := FixedUpdate(p, friends, enemies, radarRange);
      && (forall g :: Sighted(friends, radarRange, g) || Sighted(enemies, radarRange, g) ==>
            g in q.idMap && q.idMap[g] in q.active)
      && (forall g :: Sighted(enemies, radarRange, g) ==> q.targets[q.idMap[g]].isEnemy)
      && (forall g :: Sighted(friends, radarRange, g) && !Sighted(enemies, radarRange, g) ==>
            !q.targets[q.idMap[g]].isEnemy)
      && (forall s :: s in p.active ==>
            var g := p.targets[s].goId;
            Sighted(friends, radarRange, g) || Sighted(enemies, radarRange, g) ==>
              s in q.active && q.idMap[g] == s)
      && (forall s :: s in p.active && !p.targets[s].IsActive() ==>
            var g := p.targets[s].goId;
            !Sighted(friends, radarRange, g) && !Sighted(enemies, radarRange, g) ==>
              s !in q.active && s in q.free && g !in q.idMap)
  {
    var p1 := HandleIncomingTargets(p, friends, false, radarRange);
    var p2 := HandleIncomingTargets(p1, enemies, true, radarRange);
    var p3 := ReleaseNotUpdated(p2);
    var q := UpdateActiveTargets(p3);
    HandleIncomingPreservesValid(p, friends, false, radarRange);
    HandleIncomingPreservesValid(p1, enemies, true, radarRange);
    HandleIncomingEffect(p, friends, false, radarRange);
    HandleIncomingEffect(p1, enemies, true, radarRange);
    ReleaseCorrect(p2);
    // every sighted id is touched in p2, so it survives the release with its slot
    forall g | Sighted(friends, radarRange, g) || Sighted(enemies, radarRange, g)
      ensures Touched(p2, g)
      ensures Sighted(enemies, radarRange, g) ==> Tracked(p2, g, true)
      ensures !Sighted(enemies, radarRange, g) ==> Tracked(p2, g, false)
    {
      if Sighted(enemies, radarRange, g) {
        var k :| 0 <= k < |enemies| && enemies[k].goId == g && InRange(enemies[k], radarRange);
      } else {
        var k :| 0 <= k < |friends| && friends[k].goId == g && InRange(friends[k], radarRange);
        assert Tracked(p1, g, false);
        var u := p1.idMap[g];
        assert p1.targets[u].goId == g;
        assert u in p2.active && p2.targets[u] == p1.targets[u];
      }
    }
    forall g | Touched(p2, g)
      ensures g in p3.idMap && p3.idMap[g] == p2.idMap[g] && p2.idMap[g] in p3.active
    {
    }
    forall s | s in p.active && !p.targets[s].IsActive() &&
        !Sighted(friends, radarRange, p.targets[s].goId) && !Sighted(enemies, radarRange, p.targets[s].goId)
      ensures s !in q.active && s in q.free && p.targets[s].goId !in q.idMap
    {
      assert s in p2.active && p2.targets[s] == p.targets[s];
    }
  }

  /** Reclamation across two frames: a record active after one frame whose
      entity is not sighted in range during the next frame is on the free list,
      and its id unmapped, once that next frame is over. */
  lemma TwoFrameReclamation(p: Pool, friends1: seq<Candidate>, enemies1: seq<Candidate>,
                            friends2: seq<Candidate>, enemies2: seq<Candidate>, radarRange: real, s: Slot)
    requires Valid(p)
    ensures var p1 := FixedUpdate(p, friends1, enemies1, radarRange);
      var p2 := FixedUpdate(p1, friends2, enemies2, radarRange);
      s in p1.active && !Sighted(friends2, radarRange, p1.targets[s].goId) && !Sighted(enemies2, radarRange, p1.targets[s].goId) ==>
        s !in p2.active && s in p2.free && p1.targets[s].goId !in p2.idMap
  {
    var p1 := FixedUpdate(p, friends1, enemies1, radarRange);
    FixedUpdatePreservesValid(p, friends1, enemies1, radarRange);
    FixedUpdateEffect(p1, friends2, enemies2, radarRange);
  }

  /* ------------------------------------------------------- re-initialisation */

  /** Resetting with InitImpl as written, while records are active, breaks the
      agreement between the map and the active list: the active records keep
      ids the map no longer holds. */
  lemma InitAsWrittenBreaksAgreement(p: Pool)
    requires Valid(p) && |p.active| > 0
    ensures !Valid(InitAsWritten(p))
  {
    assert p.active[0] in InitAsWritten(p).active;
  }

  /** A concrete consequence: an entity tracked before the reset and sighted in
      the frame after it gets a second record, the stale one is reclaimed, and
      reclaiming it removes the map entry of the new one, so the entity is
      active but unmapped. */
  lemma InitAsWrittenLosesMapping()
    ensures var c := Candidate(7, Vec3(1.0, 0.0, 0.0));
      var p0 := FixedUpdate(Fresh(), [c], [], 10.0);
      var p1 := FixedUpdate(InitAsWritten(p0), [c], [], 10.0);
      && p1.active == [1] && p1.targets[1].goId == 7
      && 7 !in p1.idMap
      && !Valid(p1)
  {
    var c := Candidate(7, Vec3(1.0, 0.0, 0.0));
    RangeBoundary(7, 1.0, 0.0, 10.0);
    FirstFrame(c, 10.0);
    var p0 := FixedUpdate(Fresh(), [c], [], 10.0);
    assert InitAsWritten(p0) == Pool(p0.targets, map[], [0], []);
    FrameAfterReset(p0.targets[0], c, 10.0);
  }

  /** The frame after the reset: the one active record is stale (flag clear,
      id unmapped) and its entity is sighted again. */
  lemma FrameAfterReset(t0: RadarTarget, c: Candidate, radarRange: real)
    requires InRange(c, radarRange) && t0.goId == c.goId && !t0.IsActive()
    ensures var t := RadarTarget(c.goId, false, Vec3(c.local.x, c.local.y, 0.0), true);
      FixedUpdate(Pool([t0], map[], [0], []), [c], [], radarRange) ==
        Pool([t0, t.MarkActive(false)], map[], [1], [0])
  {
    var t := RadarTarget(c.goId, false, Vec3(c.local.x, c.local.y, 0.0), true);
    var p := Pool([t0], map[], [0], []);
    FriendsOnlyFrame(p, [c], radarRange);
    HandleAfterReset(t0, c, radarRange);
    ReleaseStaleTwin(t0, t);
    MarkSecond(t0, t);
  }

  lemma MarkSecond(t0: RadarTarget, t: RadarTarget)
    ensures MarkVisited([t0, t], [1]) == [t0, t.MarkActive(false)]
  {
    var ts := MarkVisited([t0, t], [1]);
    assert ts[0] == t0 && ts[1] == t.MarkActive(false);
  }

  /** A frame with no enemy candidates is the friend pass, the release and the display pass. */
  lemma FriendsOnlyFrame(p: Pool, friends: seq<Candidate>, radarRange: real)
    requires WellFormed(p)
    ensures FixedUpdate(p, friends, [], radarRange) ==
      UpdateActiveTargets(ReleaseNotUpdated(HandleIncomingTargets(p, friends, false, radarRange)))
  {
    var p1 := HandleIncomingTargets(p, friends, false, radarRange);
    assert HandleIncomingTargets(p1, [], true, radarRange) == p1;
  }

  /** With its id unmapped, a sighted entity is given a newly allocated record. */
  lemma HandleAfterReset(t0: RadarTarget, c: Candidate, radarRange: real)
    requires InRange(c, radarRange)
    ensures var t := RadarTarget(c.goId, false, Vec3(c.local.x, c.local.y, 0.0), true);
      HandleIncomingTargets(Pool([t0], map[], [0], []), [c], false, radarRange) ==
        Pool([t0, t], map[c.goId := 1], [0, 1], [])
  {
    HandleIncomingSingle(Pool([t0], map[], [0], []), c, false, radarRange);
  }

  /** Releasing a stale record whose id a newer record has taken over unmaps
      that id altogether. */
  lemma ReleaseStaleTwin(t0: RadarTarget, t: RadarTarget)
    requires !t0.IsActive() && t.IsActive() && t0.goId == t.goId
    ensures ReleaseNotUpdated(Pool([t0, t], map[t.goId := 1], [0, 1], [])) == Pool([t0, t], map[], [1], [0])
  {
    var ts := [t0, t];
    assert [0, 1][..1] == [0] && [0][..0] == [];
    assert Kept(ts, [0]) == [] && Swept(ts, [0]) == [0];
    assert Kept(ts, [0, 1]) == [1];
    assert Swept(ts, [0, 1]) == [0];
    assert Ids(ts, [0]) == {t.goId};
  }

  /** The first frame of a fresh pool with one friend in range. */
  lemma FirstFrame(c: Candidate, radarRange: real)
    requires InRange(c, radarRange)
    ensures FixedUpdate(Fresh(), [c], [], radarRange) ==
      Pool([RadarTarget(c.goId, false, Vec3(c.local.x, c.local.y, 0.0), false)], map[c.goId := 0], [0], [])
  {
    var t := RadarTarget(c.goId, false, Vec3(c.local.x, c.local.y, 0.0), true);
    FriendsOnlyFrame(Fresh(), [c], radarRange);
    HandleOnFresh(c, radarRange);
    ReleaseLiveOnly(t);
    MarkOnly(t);
  }

  /** On a fresh pool an in-range candidate is given a newly allocated record in slot 0. */
  lemma HandleOnFresh(c: Candidate, radarRange: real)
    requires InRange(c, radarRange)
    ensures HandleIncomingTargets(Fresh(), [c], false, radarRange) ==
      Pool([RadarTarget(c.goId, false, Vec3(c.local.x, c.local.y, 0.0), true)], map[c.goId := 0], [0], [])
  {
    HandleIncomingSingle(Fresh(), c, false, radarRange);
  }

  /** Releasing a pool whose one record is live changes nothing. */
  lemma ReleaseLiveOnly(t: RadarTarget)
    requires t.IsActive()
    ensures ReleaseNotUpdated(Pool([t], map[t.goId := 0], [0], [])) == Pool([t], map[t.goId := 0], [0], [])
  {
    assert Kept([t], [0]) == [0];
    assert Swept([t], [0]) == [];
  }

  lemma MarkOnly(t: RadarTarget)
    ensures MarkVisited([t], [0]) == [t.MarkActive(false)]
  {
    var ts := MarkVisited([t], [0]);
    assert ts[0] == t.MarkActive(false);
  }

  /** With a reset that empties every container (`Init`), the frame that
      follows starts from a valid pool and tracks every sighted entity. */
  lemma InitThenFrame(p: Pool, friends: seq<Candidate>, enemies: seq<Candidate>, radarRange: real)
    ensures var q := FixedUpdate(Init(p), friends, enemies, radarRange);
      && Valid(q)
      && (forall g :: Sighted(friends, radarRange, g) || Sighted(enemies, radarRange, g) ==>
            g in q.idMap && q.idMap[g] in q.active)
  {
    FixedUpdatePreservesValid(Init(p), friends, enemies, radarRange);
    FixedUpdateEffect(Init(p), friends, enemies, radarRange);
  }

  /* ------------------------------------------------------------ a scenario */

  /** Range 10: an entity at distance 5 is tracked; when it moves to distance
      15 it is reclaimed in that frame; the next new entity is given the very
      record just freed, as a new target with its id and classification. */
  lemma ReuseScenario()
    ensures var p1 := FixedUpdate(Fresh(), [Candidate(1, Vec3(5.0, 0.0, 0.0))], [], 10.0);
      var p2 := FixedUpdate(p1, [Candidate(1, Vec3(15.0, 0.0, 0.0))], [], 10.0);
      var a := Acquire(p2, 2, true);
      && p1.idMap == map[1 := 0] && p1.active == [0]
      && 1 !in p2.idMap && p2.active == [] && p2.free == [0]
      && a.isNew && a.slot == 0
      && a.pool.targets[0].goId == 2 && a.pool.targets[0].isEnemy
      && |a.pool.targets| == |p1.targets|
  {
    var near, far := Candidate(1, Vec3(5.0, 0.0, 0.0)), Candidate(1, Vec3(15.0, 0.0, 0.0));
    RangeBoundary(1, 5.0, 0.0, 10.0);
    RangeBoundary(1, 15.0, 0.0, 10.0);
    FirstFrame(near, 10.0);
    var p1 := FixedUpdate(Fresh(), [near], [], 10.0);
    LeavingFrame(p1.targets[0], far, 10.0);
    var p2 := FixedUpdate(p1, [far], [], 10.0);
    assert p2 == Pool(p1.targets, map[], [], [0]);
  }

  /** A frame in which the one tracked entity, its flag clear, is sighted only
      outside the range: its record is reclaimed. */
  lemma LeavingFrame(t0: RadarTarget, c: Candidate, radarRange: real)
    requires !InRange(c, radarRange) && !t0.IsActive()
    ensures FixedUpdate(Pool([t0], map[t0.goId := 0], [0], []), [c], [], radarRange) ==
      Pool([t0], map[], [], [0])
  {
    var p := Pool([t0], map[t0.goId := 0], [0], []);
    HandleIncomingSingle(p, c, false, radarRange);
    assert Kept(p.targets, [0]) == [];
    assert Swept(p.targets, [0]) == [0];
    assert Ids(p.targets, [0]) == {t0.goId};
  }
}
