/** The radar's target pool: an identity-keyed pool of tracked-target records.

    Records live in an index arena (`targets`); a record is named by its slot.
    The pool keeps three containers over the slots, as the source does over
    object references: a map from entity id to slot, an ordered list of
    active slots and an ordered list of free slots. A slot taken from the
    free list is the very record that was freed, so identity is preserved. */
module TargetsPool {
  import opened Geometry
  import opened Seqs

  /** One tracked target. `updatedOnLastFrame` is the liveness flag read by
      `IsActive`: it is set by a touch and cleared by the frame's display pass. */
  datatype RadarTarget = RadarTarget(goId: int, isEnemy: bool, projected: Vec3, updatedOnLastFrame: bool)
  {
    /** Whether the record was touched since the last display pass. */
    predicate IsActive(): (live: bool)
      ensures live <==> updatedOnLastFrame
    {
      updatedOnLastFrame
    }

    /** Repurposes a freed record for another entity; the liveness flag and
        the last position are left as they were. */
    function UpdateToNewTarget(id: int, enemy: bool): (t: RadarTarget)
      ensures t.goId == id && t.isEnemy == enemy
      ensures t.IsActive() == IsActive() && t.projected == projected
    {
      this.(goId := id, isEnemy := enemy)
    }

    function MarkActive(isActive: bool): (t: RadarTarget)
      ensures t.IsActive() == isActive
      ensures t.goId == goId && t.isEnemy == isEnemy && t.projected == projected
    {
      this.(updatedOnLastFrame := isActive)
    }

    /** The touch: records the new scan-plane position and marks the record live. */
    function UpdatePosition(position: Vec3): (t: RadarTarget)
      ensures t.IsActive() && t.projected == position
      ensures t.goId == goId && t.isEnemy == isEnemy
    {
      this.(projected := position, updatedOnLastFrame := true)
    }
  }

  /** The record constructor: a new record starts out live. */
  function NewTarget(goId: int, isEnemy: bool): (t: RadarTarget)
    ensures t.goId == goId && t.isEnemy == isEnemy && t.IsActive()
  {
    RadarTarget(goId, isEnemy, Zero, true)
  }

  type Slot = nat

  datatype Pool = Pool(targets: seq<RadarTarget>, idMap: map<int, Slot>, active: seq<Slot>, free: seq<Slot>)

  /** Every slot the containers name is a record of the arena (in the source
      these are object references, which are never dangling). */
  predicate WellFormed(p: Pool)
  {
    && (forall s :: s in p.active ==> s < |p.targets|)
    && (forall s :: s in p.free ==> s < |p.targets|)
    && (forall g :: g in p.idMap ==> p.idMap[g] < |p.targets|)
  }

  /** The agreement invariant of the three containers. */
  predicate Valid(p: Pool)
  {
    && WellFormed(p)
    // every record is in exactly one of the two lists, and only once
    && NoDup(p.active) && NoDup(p.free)
    && (forall s :: s in p.active ==> s !in p.free)
    && (forall s :: 0 <= s < |p.targets| ==> s in p.active || s in p.free)
    && |p.active| + |p.free| == |p.targets|
    // the map's keys are exactly the ids of the active records, each mapped to its own record
    && (forall g :: g in p.idMap ==> p.idMap[g] in p.active && p.targets[p.idMap[g]].goId == g)
    && (forall s :: s in p.active ==> p.targets[s].goId in p.idMap && p.idMap[p.targets[s].goId] == s)
    // a free record was freed for being inactive
    && (forall s :: s in p.free ==> !p.targets[s].IsActive())
  }

  /** A record is touched: its id is mapped to an active record whose flag is set. */
  predicate Touched(p: Pool, g: int)
  {
    g in p.idMap && p.idMap[g] < |p.targets| && p.idMap[g] in p.active && p.targets[p.idMap[g]].IsActive()
  }

  /** The pool `GetInstance` creates on first use. */
  function Fresh(): (p: Pool)
    ensures Valid(p)
    ensures |p.targets| == 0 && |p.active| == 0 && |p.free| == 0 && |p.idMap| == 0
  {
    Pool([], map[], [], [])
  }

  lemma ActiveIdsUnique(p: Pool, s1: Slot, s2: Slot)
    requires Valid(p)
    requires s1 in p.active && s2 in p.active
    requires p.targets[s1].goId == p.targets[s2].goId
    ensures s1 == s2
  {
  }

  /* ---------------------------------------------------------------- Acquire */

  /** The result of `Acquire`: the new pool, the slot handed out, and `isNew`. */
  datatype Acquired = Acquired(pool: Pool, slot: Slot, isNew: bool)

  /** Returns the record mapped from `goId`, or else repurposes the head of the
      free list, or else allocates a new record. */
  function Acquire(p: Pool, goId: int, isEnemy: bool): (r: Acquired)
    requires WellFormed(p)
    ensures WellFormed(r.pool) && r.slot < |r.pool.targets|
    ensures r.isNew <==> goId !in p.idMap
    ensures goId in r.pool.idMap && r.pool.idMap[goId] == r.slot
    ensures r.pool.active == p.active || r.pool.active == p.active + [r.slot]
    ensures |r.pool.targets| == |p.targets| + (if goId !in p.idMap && |p.free| == 0 then 1 else 0)
    ensures |r.pool.active| + |r.pool.free| == |p.active| + |p.free| + (if goId !in p.idMap && |p.free| == 0 then 1 else 0)
  {
    if goId in p.idMap then
      Acquired(p, p.idMap[goId], false)
    else if |p.free| > 0 then
      var s := p.free[0];
      assert s in p.free;
      var t := p.targets[s].UpdateToNewTarget(goId, isEnemy);
      assert forall x :: x in p.free[1..] ==> x in p.free;
      Acquired(Pool(p.targets[s := t], p.idMap[goId := s], p.active + [s], p.free[1..]), s, true)
    else
      var s := |p.targets|;
      Acquired(Pool(p.targets + [NewTarget(goId, isEnemy)], p.idMap[goId := s], p.active + [s], p.free), s, true)
  }

  lemma AcquireMapped(p: Pool, goId: int, isEnemy: bool)
    requires WellFormed(p) && goId in p.idMap
    ensures var r := Acquire(p, goId, isEnemy);
      && r.slot == p.idMap[goId] && !r.isNew
      && r.pool == p
  {
  }

  lemma AcquireReusesFree(p: Pool, goId: int, isEnemy: bool)
    requires WellFormed(p) && goId !in p.idMap && |p.free| > 0
    ensures var r := Acquire(p, goId, isEnemy);
      && r.isNew && r.slot == p.free[0]
      && r.pool.targets == p.targets[r.slot := p.targets[r.slot].(goId := goId, isEnemy := isEnemy)]
      && r.pool.free == p.free[1..]
      && r.pool.active == p.active + [r.slot]
      && r.pool.idMap == p.idMap[goId := r.slot]
  {
  }

  lemma AcquireAllocates(p: Pool, goId: int, isEnemy: bool)
    requires WellFormed(p) && goId !in p.idMap && |p.free| == 0
    ensures var r := Acquire(p, goId, isEnemy);
      && r.isNew && r.slot == |p.targets|
      && r.pool.targets == p.targets + [RadarTarget(goId, isEnemy, Zero, true)]
      && r.pool.free == []
      && r.pool.active == p.active + [r.slot]
      && r.pool.idMap == p.idMap[goId := r.slot]
  {
  }

  /** After any acquire, the id maps to the returned record, which is active,
      not free, and carries the id; an existing record keeps its classification. */
  lemma AcquireReturnsActive(p: Pool, goId: int, isEnemy: bool)
    requires Valid(p)
    ensures var r := Acquire(p, goId, isEnemy);
      && r.pool.idMap[goId] == r.slot
      && r.slot in r.pool.active && r.slot !in r.pool.free
      && r.pool.targets[r.slot].goId == goId
      && (r.isNew ==> r.pool.targets[r.slot].isEnemy == isEnemy)
  {
    if goId !in p.idMap && |p.free| > 0 {
      var s := p.free[0];
      forall k | 0 <= k < |p.free| - 1
        ensures p.free[1..][k] != s
      {
        assert p.free[1..][k] == p.free[k + 1];
      }
    }
  }

  lemma AcquirePreservesValid(p: Pool, goId: int, isEnemy: bool)
    requires Valid(p)
    ensures Valid(Acquire(p, goId, isEnemy).pool)
  {
    if goId in p.idMap {
    } else if |p.free| > 0 {
      AcquireReuseValid(p, goId, isEnemy);
    } else {
      var q := Acquire(p, goId, isEnemy).pool;
      var s := |p.targets|;
      assert s !in p.active;
      assert NoDup(q.active) by { NoDupAppend(p.active, [s]); }
    }
  }

  lemma AcquireReuseValid(p: Pool, goId: int, isEnemy: bool)
    requires Valid(p) && goId !in p.idMap && |p.free| > 0
    ensures Valid(Acquire(p, goId, isEnemy).pool)
  {
    var q := Acquire(p, goId, isEnemy).pool;
    var s := p.free[0];
    assert s in p.free;
    assert NoDup(q.active) by { NoDupAppend(p.active, [s]); }
    DropFirst(p.free);
    assert forall g :: g in p.idMap ==> p.idMap[g] != s;
  }

  /* -------------------------------------------------------- ReleaseNotUpdated */

  /** Slot `s` holds a record whose liveness flag is set. */
  predicate Live(ts: seq<RadarTarget>, s: Slot)
  {
    s < |ts| && ts[s].IsActive()
  }

  /** The slots of `a` whose record is live, in their order in `a`. */
  function Kept(ts: seq<RadarTarget>, a: seq<Slot>): (k: seq<Slot>)
    ensures forall s :: s in k <==> s in a && Live(ts, s)
    ensures NoDup(a) ==> NoDup(k)
  {
    if |a| == 0 then []
    else
      var init, last := a[..|a| - 1], a[|a| - 1];
      assert a == init + [last];
      var k := Kept(ts, init);
      if Live(ts, last) then
        assert NoDup(a) ==> last !in init;
        assert NoDup(a) ==> NoDup(k + [last]) by {
          if NoDup(a) { NoDupAppend(k, [last]); }
        }
        k + [last]
      else k
  }

  /** The slots of `a` whose record is not live, in the order a walk of `a`
      from its end meets them. */
  function Swept(ts: seq<RadarTarget>, a: seq<Slot>): (w: seq<Slot>)
    ensures forall s :: s in w <==> s in a && !Live(ts, s)
    ensures |Kept(ts, a)| + |w| == |a|
    ensures NoDup(a) ==> NoDup(w)
  {
    if |a| == 0 then []
    else
      var init, last := a[..|a| - 1], a[|a| - 1];
      assert a == init + [last];
      var w := Swept(ts, init);
      if Live(ts, last) then w
      else
        assert NoDup(a) ==> last !in init;
        assert NoDup(a) ==> NoDup([last] + w) by {
          if NoDup(a) { NoDupAppend([last], w); }
        }
        [last] + w
  }

  /** The ids the records of `xs` carry. */
  function Ids(ts: seq<RadarTarget>, xs: seq<Slot>): set<int>
  {
    set s | s in xs && s < |ts| :: ts[s].goId
  }

  /** The release loop: walks the active list from index `i` down to 0 and
      moves every record whose flag is clear to the end of the free list,
      unmapping its id. */
  function ReleaseLoop(p: Pool, i: int): (q: Pool)
    requires WellFormed(p) && -1 <= i < |p.active|
    ensures WellFormed(q) && q.targets == p.targets
    decreases i + 1
  {
    if i < 0 then p
    else
      var s := p.active[i];
      assert s in p.active;
      var t := p.targets[s];
      if t.IsActive() then ReleaseLoop(p, i - 1)
      else
        var rest := p.active[..i] + p.active[i + 1..];
        assert forall x :: x in rest ==> x in p.active;
        ReleaseLoop(Pool(p.targets, p.idMap - {t.goId}, rest, p.free + [s]), i - 1)
  }

  /** Where the release loop stands before it handles index `i`: the slots
      above `i` are done, `active[..i + 1]` is still to be walked. */
  function ReleaseSpec(p: Pool, i: int): Pool
    requires -1 <= i < |p.active|
  {
    var a := p.active[..i + 1];
    Pool(p.targets,
         p.idMap - Ids(p.targets, Swept(p.targets, a)),
         Kept(p.targets, a) + p.active[i + 1..],
         p.free + Swept(p.targets, a))
  }

  /** The loop's effect in closed form: the kept records stay in order, the
      swept ones are appended to the free list and unmapped. */
  lemma {:induction false} ReleaseLoopClosedForm(p: Pool, i: int)
    requires WellFormed(p) && -1 <= i < |p.active|
    ensures ReleaseLoop(p, i) == ReleaseSpec(p, i)
    decreases i + 1
  {
    if i < 0 {
      assert p.active[..i + 1] == [];
      assert p.active[i + 1..] == p.active;
    } else {
      ReleaseLoopUnfold(p, i);
      if Live(p.targets, p.active[i]) {
        ReleaseLoopClosedForm(p, i - 1);
        ReleaseStepKeep(p, i);
      } else {
        ReleaseLoopClosedForm(SweepAt(p, i), i - 1);
        ReleaseStepSweep(p, i);
      }
    }
  }

  /** One step of the release loop: a live record is skipped, any other is swept. */
  lemma ReleaseLoopUnfold(p: Pool, i: int)
    requires WellFormed(p) && 0 <= i < |p.active|
    ensures p.active[i] < |p.targets|
    ensures Live(p.targets, p.active[i]) ==> ReleaseLoop(p, i) == ReleaseLoop(p, i - 1)
    ensures !Live(p.targets, p.active[i]) ==>
      && WellFormed(SweepAt(p, i)) && |SweepAt(p, i).active| == |p.active| - 1
      && ReleaseLoop(p, i) == ReleaseLoop(SweepAt(p, i), i - 1)
  {
    assert p.active[i] in p.active;
    var rest := p.active[..i] + p.active[i + 1..];
    assert forall x :: x in rest ==> x in p.active;
  }

  /** Extending a prefix of a slot list by one slot extends exactly one of
      the two filters. */
  lemma FilterStep(ts: seq<RadarTarget>, a: seq<Slot>, i: nat)
    requires i < |a|
    ensures Live(ts, a[i]) ==>
      Kept(ts, a[..i + 1]) == Kept(ts, a[..i]) + [a[i]] && Swept(ts, a[..i + 1]) == Swept(ts, a[..i])
    ensures !Live(ts, a[i]) ==>
      Kept(ts, a[..i + 1]) == Kept(ts, a[..i]) && Swept(ts, a[..i + 1]) == [a[i]] + Swept(ts, a[..i])
  {
    var b := a[..i + 1];
    assert b[..|b| - 1] == a[..i] && b[|b| - 1] == a[i];
  }

  lemma ReleaseStepKeep(p: Pool, i: int)
    requires 0 <= i < |p.active| && Live(p.targets, p.active[i])
    ensures ReleaseSpec(p, i) == ReleaseSpec(p, i - 1)
  {
    var ts, s := p.targets, p.active[i];
    FilterStep(ts, p.active, i);
    ShiftOne(Kept(ts, p.active[..i]), p.active, i);
  }

  /** The pool a single sweep of `active[i]` leaves behind. */
  function SweepAt(p: Pool, i: nat): Pool
    requires i < |p.active| && p.active[i] < |p.targets|
  {
    var s := p.active[i];
    Pool(p.targets, p.idMap - {p.targets[s].goId}, p.active[..i] + p.active[i + 1..], p.free + [s])
  }

  lemma ReleaseStepSweep(p: Pool, i: int)
    requires 0 <= i < |p.active| && p.active[i] < |p.targets| && !Live(p.targets, p.active[i])
    ensures ReleaseSpec(p, i) == ReleaseSpec(SweepAt(p, i), i - 1)
  {
    SweepStepActive(p, i);
    SweepStepFree(p, i);
    SweepStepMap(p, i);
  }

  lemma SweepStepActive(p: Pool, i: int)
    requires 0 <= i < |p.active| && p.active[i] < |p.targets| && !Live(p.targets, p.active[i])
    ensures ReleaseSpec(p, i).active == ReleaseSpec(SweepAt(p, i), i - 1).active
  {
    FilterStep(p.targets, p.active, i);
    SplitAppend(p.active[..i], p.active[i + 1..]);
  }

  lemma SweepStepFree(p: Pool, i: int)
    requires 0 <= i < |p.active| && p.active[i] < |p.targets| && !Live(p.targets, p.active[i])
    ensures ReleaseSpec(p, i).free == ReleaseSpec(SweepAt(p, i), i - 1).free
  {
    var ts := p.targets;
    FilterStep(ts, p.active, i);
    SplitAppend(p.active[..i], p.active[i + 1..]);
    AppendAssoc(p.free, [p.active[i]], Swept(ts, p.active[..i]));
  }

  lemma SweepStepMap(p: Pool, i: int)
    requires 0 <= i < |p.active| && p.active[i] < |p.targets| && !Live(p.targets, p.active[i])
    ensures ReleaseSpec(p, i).idMap == ReleaseSpec(SweepAt(p, i), i - 1).idMap
  {
    var ts, s := p.targets, p.active[i];
    var w := Swept(ts, p.active[..i]);
    assert Swept(ts, p.active[..i + 1]) == [s] + w by {
      FilterStep(ts, p.active, i);
    }
    assert (p.active[..i] + p.active[i + 1..])[..i] == p.active[..i] by {
      SplitAppend(p.active[..i], p.active[i + 1..]);
    }
    IdsCons(ts, s, w);
    RemoveKeysTwice(p.idMap, {ts[s].goId}, Ids(ts, w));
  }

  lemma RemoveKeysTwice(m: map<int, Slot>, a: set<int>, b: set<int>)
    ensures m - a - b == m - (a + b)
  {
  }

  lemma IdsCons(ts: seq<RadarTarget>, s: Slot, w: seq<Slot>)
    requires s < |ts|
    ensures Ids(ts, [s] + w) == {ts[s].goId} + Ids(ts, w)
  {
  }

  /** One release pass (ReleaseNotUpdatedImpl). */
  function ReleaseNotUpdated(p: Pool): (q: Pool)
    requires WellFormed(p)
    ensures WellFormed(q)
    ensures q.targets == p.targets
    ensures q.active == Kept(p.targets, p.active)
    ensures q.free == p.free + Swept(p.targets, p.active)
    ensures q.idMap == p.idMap - Ids(p.targets, Swept(p.targets, p.active))
  {
    ReleaseLoopClosedForm(p, |p.active| - 1);
    assert p.active[..|p.active|] == p.active;
    assert p.active[|p.active|..] == [];
    ReleaseLoop(p, |p.active| - 1)
  }

  lemma ReleasePreservesValid(p: Pool)
    requires Valid(p)
    ensures Valid(ReleaseNotUpdated(p))
  {
    var ts := p.targets;
    var q := ReleaseNotUpdated(p);
    var w := Swept(ts, p.active);
    NoDupAppend(p.free, w);
    forall g | g in q.idMap
      ensures q.idMap[g] in q.active && ts[q.idMap[g]].goId == g
    {
      var s := p.idMap[g];
      assert forall u :: u in w ==> u != s ==> ts[u].goId != g;
      assert s !in w;
      assert g !in Ids(ts, w);
      assert Live(ts, s);
    }
    forall s | s in q.active
      ensures ts[s].goId in q.idMap && q.idMap[ts[s].goId] == s
    {
      var g := ts[s].goId;
      assert forall u :: u in w ==> ts[u].goId != g by {
        forall u | u in w
          ensures ts[u].goId != g
        {
          assert p.idMap[ts[u].goId] == u;
        }
      }
      assert g !in Ids(ts, w);
    }
  }

  /** What a release pass does to a valid pool: the survivors are exactly the
      live records, in their old order; the others move to the free list and
      lose their map entry; nothing is created or lost. */
  lemma ReleaseCorrect(p: Pool)
    requires Valid(p)
    ensures var q := ReleaseNotUpdated(p);
      && (forall s :: s in q.active ==> q.targets[s].IsActive())
      && (forall s :: s in p.active ==> (s in q.active <==> p.targets[s].IsActive()))
      && (forall s :: s in p.active && !p.targets[s].IsActive() ==>
            s in q.free && p.targets[s].goId !in q.idMap)
      && (forall g :: g in p.idMap && p.targets[p.idMap[g]].IsActive() ==>
            g in q.idMap && q.idMap[g] == p.idMap[g])
      && (forall s :: s in p.free ==> s in q.free)
      && |q.active| + |q.free| == |p.active| + |p.free|
  {
    var ts := p.targets;
    var w := Swept(ts, p.active);
    forall g | g in p.idMap && ts[p.idMap[g]].IsActive()
      ensures g !in Ids(ts, w)
    {
      forall u | u in w
        ensures ts[u].goId != g
      {
        assert p.idMap[ts[u].goId] == u;
      }
    }
    forall s | s in p.active && !ts[s].IsActive()
      ensures ts[s].goId in Ids(ts, w)
    {
      assert s in w;
    }
  }

  /** Survivors keep their relative order: two live records appear in the same
      order in the active list before and after the release. */
  lemma {:induction false} KeptPreservesOrder(ts: seq<RadarTarget>, a: seq<Slot>, x: Slot, y: Slot)
    requires x in a && y in a && Live(ts, x) && Live(ts, y)
    ensures Precedes(Kept(ts, a), x, y) <==> Precedes(a, x, y)
  {
    var n := |a| - 1;
    var a', last := a[..n], a[n];
    assert a == a' + [last];
    var k', k := Kept(ts, a'), Kept(ts, a);
    if Live(ts, last) {
      assert k == k' + [last];
    } else {
      assert k == k';
    }
    if Precedes(a, x, y) {
      var i, j :| 0 <= i < j < |a| && a[i] == x && a[j] == y;
      assert a'[i] == x;
      if j < n {
        assert a'[j] == y;
        KeptPreservesOrder(ts, a', x, y);
        var i', j' :| 0 <= i' < j' < |k'| && k'[i'] == x && k'[j'] == y;
        assert k[i'] == x && k[j'] == y;
      } else {
        assert x in k';
        var i' :| 0 <= i' < |k'| && k'[i'] == x;
        assert k[i'] == x && k[|k'|] == y;
      }
    }
    if Precedes(k, x, y) {
      var i, j :| 0 <= i < j < |k| && k[i] == x && k[j] == y;
      assert k'[i] == x;
      assert x in a';
      if j < |k'| {
        assert k'[j] == y;
        assert y in a';
        KeptPreservesOrder(ts, a', x, y);
        var i', j' :| 0 <= i' < j' < |a'| && a'[i'] == x && a'[j'] == y;
        assert a[i'] == x && a[j'] == y;
      } else {
        var i' :| 0 <= i' < |a'| && a'[i'] == x;
        assert a[i'] == x && a[n] == y;
      }
    }
  }

  /* ------------------------------------------------------------------ Init */

  /** InitImpl as written: clears the map and the free list and leaves the
      active list (and so its records) in place. */
  function InitAsWritten(p: Pool): (q: Pool)
    ensures q.idMap == map[] && q.free == []
    ensures q.active == p.active && q.targets == p.targets
  {
    Pool(p.targets, map[], p.active, [])
  }

  /** Static `Init` creates the instance when there is none and resets it
      otherwise; on a fresh pool the two agree. */
  lemma InitOnFresh()
    ensures InitAsWritten(Fresh()) == Fresh()
    ensures Valid(InitAsWritten(Fresh()))
  {
  }

  /** A reset that empties every container, leaving the pool as fresh. */
  function Init(p: Pool): (q: Pool)
    ensures Valid(q)
    ensures |q.active| == 0 && |q.free| == 0 && |q.idMap| == 0 && |q.targets| == 0
  {
    Pool([], map[], [], [])
  }
}
