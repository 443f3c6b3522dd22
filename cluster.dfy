/**
 * Cluster discovery and commit (TileEntityRack.visitPositions and
 * neighborChange), over a level that holds the rack and controller block
 * entities.
 */
module Cluster {
  import opened Grid
  import opened Storage

  /**
   * What `visitPositions` reports: no controller (null), one controller, or
   * a conflict (the BlockPos.ZERO sentinel).
   */
  datatype Outcome = NoController | Found(c: Pos) | Conflict

  /** The positions reachable from `start`, start included. */
  ghost function Region(w: World, start: Pos): set<Pos> {
    set p | p in w.Keys + {start} && Reaches(w, start, p)
  }

  /** Two different controllers lie in the set. */
  ghost predicate TwoControllers(w: World, s: set<Pos>) {
    exists p, q :: p in s && q in s && p != q && IsController(w, p) && IsController(w, q)
  }

  /** c is the only controller in the region of `start`. */
  ghost predicate SoleController(w: World, start: Pos, c: Pos) {
    c in Region(w, start) && IsController(w, c) &&
    forall p :: p in Region(w, start) && IsController(w, p) ==> p == c
  }

  /**
   * When discovery from `start` reports a conflict: two controllers share the
   * region, or a controller stands at the origin, is not the start and is
   * reached (its position reads as the conflict sentinel).
   */
  ghost predicate Conflicting(w: World, start: Pos) {
    TwoControllers(w, Region(w, start)) ||
    (Origin != start && IsController(w, Origin) && Origin in Region(w, start))
  }

  /**
   * The outcome discovery from `start` must report: no controller exactly
   * when the region has none, the sole controller when it reports one, and
   * a conflict exactly when the region is conflicting.
   */
  ghost predicate Characterises(w: World, start: Pos, r: Outcome) {
    && (r.NoController? <==> forall p :: p in Region(w, start) ==> !IsController(w, p))
    && (r.Found? ==> SoleController(w, start, r.c))
    && (r.Conflict? <==> Conflicting(w, start))
  }

  lemma RegionFacts(w: World, start: Pos)
    ensures start in Region(w, start)
    ensures forall p :: p in Region(w, start) <==> Reaches(w, start, p)
  {
    ReachesSelf(w, start);
    forall p | Reaches(w, start, p)
      ensures p in Region(w, start)
    {
      ReachesOnlyOccupied(w, start, p);
    }
  }

  /** The recursive call of the walk works on fewer unmarked positions. */
  lemma ShrinkingMeasure(w: World, visited: set<Pos>, current: Pos, before: set<Pos>, next: Pos)
    requires current !in visited && visited + {current} <= before <= visited + w.Keys + {current}
    requires next in w && next !in before
    ensures |(w.Keys + {next}) - before| < |(w.Keys + {current}) - visited|
  {
    assert current in (w.Keys + {current}) - visited;
    assert current !in (w.Keys + {next}) - before;
    ProperSubsetSmaller((w.Keys + {next}) - before, (w.Keys + {current}) - visited);
  }

  /** What the walk from a neighbour marks is reachable from `current`. */
  lemma ReachThroughStep(w: World, visited: set<Pos>, current: Pos, i: nat, before: set<Pos>, after: set<Pos>)
    requires i < 6 && Relative(current, i) in w && visited <= before <= after
    requires forall p :: p in before - visited ==> Reaches(w, current, p)
    requires forall p :: p in after - before ==> Reaches(w, Relative(current, i), p)
    ensures forall p :: p in after - visited ==> Reaches(w, current, p)
  {
    forall p | p in after - before
      ensures Reaches(w, current, p)
    {
      ReachesStep(w, current, i, p);
    }
  }

  /** Closure around the marked positions survives a completed recursive walk. */
  lemma GrowClosed(w: World, visited: set<Pos>, current: Pos, before: set<Pos>, after: set<Pos>)
    requires before <= after
    requires ClosedAround(w, before, before - visited - {current})
    requires ClosedAround(w, after, after - before)
    ensures ClosedAround(w, after, after - visited - {current})
  {
  }

  /** The first n neighbours of `current` that are in the level are marked. */
  ghost predicate NeighboursMarked(w: World, current: Pos, n: nat, marked: set<Pos>)
    requires n <= 6
  {
    forall j :: 0 <= j < n && Relative(current, j) in w ==> Relative(current, j) in marked
  }

  /** Marking neighbour i (when it is in the level) on top of the first i extends the marked prefix. */
  lemma MarkedStep(w: World, current: Pos, i: nat, before: set<Pos>, after: set<Pos>)
    requires i < 6
    requires NeighboursMarked(w, current, i, before) && before <= after
    requires Relative(current, i) in w ==> Relative(current, i) in after
    ensures NeighboursMarked(w, current, i + 1, after)
  {
  }

  /** Once all six neighbours are marked, closure extends to `current` itself. */
  lemma FinishClosed(w: World, visited: set<Pos>, current: Pos, after: set<Pos>)
    requires current in after
    requires ClosedAround(w, after, after - visited - {current})
    requires NeighboursMarked(w, current, 6, after)
    ensures ClosedAround(w, after, after - visited)
  {
  }

  /**
   * What an outcome says about the positions a walk from `current` marked:
   * none is a controller; exactly one is (and it is the origin only when the
   * walk started there); or the marked set has two controllers or a reached
   * controller at the origin.
   */
  ghost predicate Summarises(w: World, o: Outcome, marked: set<Pos>, current: Pos) {
    match o
    case NoController => forall p :: p in marked ==> !IsController(w, p)
    case Found(c) =>
      && c in marked && IsController(w, c)
      && (forall p :: p in marked && IsController(w, p) ==> p == c)
      && (c == Origin ==> c == current)
    case Conflict =>
      TwoControllers(w, marked) || (Origin != current && Origin in marked && IsController(w, Origin))
  }

  /**
   * How the walk folds a neighbour's outcome into the controller found so
   * far: a conflict, the origin or a second controller make a conflict, a
   * controller is adopted, and nothing found leaves it as it was.
   */
  function Merge(controller: Outcome, cont: Outcome): Outcome {
    if cont.NoController? then controller
    else if cont.Conflict? || cont.c == Origin || (controller.Found? && cont.c != controller.c) then Conflict
    else cont
  }

  /** Merging keeps the summary of everything marked from `current`. */
  lemma MergeSummarises(w: World, visited: set<Pos>, current: Pos, next: Pos,
                        before: set<Pos>, after: set<Pos>, controller: Outcome, cont: Outcome)
    requires visited + {current} <= before <= after && current !in visited && next != current
    requires !controller.Conflict? && Summarises(w, controller, before - visited, current)
    requires Summarises(w, cont, after - before, next)
    ensures Summarises(w, Merge(controller, cont), after - visited, current)
  {
    if cont.Found? && cont.c != Origin && controller.Found? && cont.c != controller.c {
      assert controller.c in after - visited && cont.c in after - visited;
    }
  }

  /**
   * `visitPositions(level, visitedPositions, current)`: a depth-first walk
   * that marks `current`, then steps in the six directions to every unmarked
   * rack or controller, and stops with a conflict as soon as a step reports
   * a conflict, reports the origin, or reports a controller different from
   * the one found so far. The marked set is threaded through as `visited`.
   */
  method VisitPositions(w: World, visited: set<Pos>, current: Pos) returns (r: Outcome, visited': set<Pos>)
    requires current !in visited
    ensures visited + {current} <= visited' <= visited + w.Keys + {current}
    ensures forall p :: p in visited' - visited ==> Reaches(w, current, p)
    ensures !r.Conflict? ==> ClosedAround(w, visited', visited' - visited)
    ensures Summarises(w, r, visited' - visited, current)
    decreases |(w.Keys + {current}) - visited|
  {
    var controller := if IsController(w, current) then Found(current) else NoController;
    visited' := visited + {current};
    ReachesSelf(w, current);
    for i := 0 to 6
      invariant visited + {current} <= visited' <= visited + w.Keys + {current}
      invariant forall p :: p in visited' - visited ==> Reaches(w, current, p)
      invariant NeighboursMarked(w, current, i, visited')
      invariant ClosedAround(w, visited', visited' - visited - {current})
      invariant !controller.Conflict? && Summarises(w, controller, visited' - visited, current)
    {
      var next := Relative(current, i);
      if next !in visited' && next in w {
        ghost var before := visited';
        ShrinkingMeasure(w, visited, current, before, next);
        var cont;
        cont, visited' := VisitPositions(w, visited', next);
        ReachThroughStep(w, visited, current, i, before, visited');
        MergeSummarises(w, visited, current, next, before, visited', controller, cont);
        var merged := Merge(controller, cont);
        if merged.Conflict? {
          return Conflict, visited';
        }
        controller := merged;
        GrowClosed(w, visited, current, before, visited');
        MarkedStep(w, current, i, before, visited');
      } else {
        MarkedStep(w, current, i, visited', visited');
      }
    }
    FinishClosed(w, visited, current, visited');
    r := controller;
  }

  /**
   * A fresh walk from `start`, as both callers begin it (a new HashSet):
   * the walk marks exactly the region of `start` unless it stops on a
   * conflict, and its outcome is decided by the controllers of that region.
   */
  method Discover(w: World, start: Pos) returns (r: Outcome, visited: set<Pos>)
    ensures start in visited && visited <= Region(w, start)
    ensures !r.Conflict? ==> visited == Region(w, start)
    ensures Characterises(w, start, r)
  {
    r, visited := VisitPositions(w, {}, start);
    RegionFacts(w, start);
    assert visited - {} == visited;
    if !r.Conflict? {
      forall p | p in Region(w, start)
        ensures p in visited
      {
        ClosedContainsRegion(w, visited, start, p);
      }
    }
  }

  /** The block entity of a controller (its rack set, and the tier of its block). */
  class ControllerEntity {
    const tier: nat
    var racks: set<Pos>

    /** `addAll`: the rack set grows by the given positions. */
    method AddAll(ps: set<Pos>)
      modifies this`racks
      ensures racks == old(racks) + ps
    {
      racks := racks + ps;
    }

    /** `removeAll`: the given positions leave the rack set. */
    method RemoveAll(ps: set<Pos>)
      modifies this`racks
      ensures racks == old(racks) - ps
    {
      racks := racks - ps;
    }
  }

  /** `members - visited` at the former controller, when a controller stands there. */
  function RemovedFrom(members: map<Pos, set<Pos>>, former: Pos, visited: set<Pos>): map<Pos, set<Pos>> {
    if former in members then members[former := members[former] - visited] else members
  }

  /** The offsets after every rack of `s` is pointed at the controller at c. */
  function Reassigned(offsets: map<Pos, Option<Pos>>, s: set<Pos>, c: Pos): (o: map<Pos, Option<Pos>>)
    ensures o.Keys == offsets.Keys
  {
    map p | p in offsets :: if p in s then Some(p.Subtract(c)) else offsets[p]
  }

  /** The offsets after every rack of `s` lost its controller. */
  function Cleared(offsets: map<Pos, Option<Pos>>, s: set<Pos>): (o: map<Pos, Option<Pos>>)
    ensures o.Keys == offsets.Keys
  {
    map p | p in offsets :: if p in s then None else offsets[p]
  }

  /** Pointing one more rack at c is reassigning one more position. */
  lemma ReassignedStep(offsets: map<Pos, Option<Pos>>, s: set<Pos>, c: Pos, p: Pos)
    ensures p in offsets ==> Reassigned(offsets, s, c)[p := Some(p.Subtract(c))] == Reassigned(offsets, s + {p}, c)
    ensures p !in offsets ==> Reassigned(offsets, s, c) == Reassigned(offsets, s + {p}, c)
    ensures Reassigned(offsets, {}, c) == offsets
  {
  }

  /** Pointing a rack at c before reassigning it to c changes nothing. */
  lemma ReassignedAbsorbs(offsets: map<Pos, Option<Pos>>, s: set<Pos>, c: Pos, p: Pos)
    requires p in offsets && p in s
    ensures Reassigned(offsets[p := Some(p.Subtract(c))], s, c) == Reassigned(offsets, s, c)
  {
  }

  /** Clearing one more rack is clearing one more position. */
  lemma ClearedStep(offsets: map<Pos, Option<Pos>>, s: set<Pos>, p: Pos)
    requires p in offsets
    ensures Cleared(offsets, s)[p := None] == Cleared(offsets, s + {p})
    ensures offsets[p].None? ==> Cleared(offsets, s) == Cleared(offsets, s + {p})
  {
  }

  /**
   * The offset a found controller gives a rack leads back to that controller:
   * the rack position minus its offset is the controller position.
   */
  lemma OffsetRoundTrip(offsets: map<Pos, Option<Pos>>, s: set<Pos>, c: Pos, p: Pos)
    requires p in offsets && p in s
    ensures Reassigned(offsets, s, c)[p].Some?
    ensures p.Subtract(Reassigned(offsets, s, c)[p].value) == c
  {
    var o := Reassigned(offsets, s, c);
    assert o[p] == Some(p.Subtract(c));
    SubtractBack(p, c);
  }

  /** Subtracting the difference p - c from p gives c back. */
  lemma SubtractBack(p: Pos, c: Pos)
    ensures p.Subtract(p.Subtract(c)) == c
  {
  }

  /**
   * A no-controller commit over racks that were last committed to `c` takes
   * them out of c's rack set: the former controller it recovers is `c`.
   */
  lemma NoControllerAfterFound(
    offsets: map<Pos, Option<Pos>>, members: map<Pos, set<Pos>>, s: set<Pos>, c: Pos,
    visited: set<Pos>, offsets': map<Pos, Option<Pos>>, members': map<Pos, set<Pos>>)
    requires forall p :: p in visited && p in offsets ==> p in s
    requires exists p :: p in visited && p in offsets
    requires Committed(Reassigned(offsets, s, c), members, NoController, visited, offsets', members')
    ensures members' == RemovedFrom(members, c, visited)
  {
    var o := Reassigned(offsets, s, c);
    var p :| p in visited && p in offsets;
    OffsetRoundTrip(offsets, s, c, p);
    assert p in visited && p in o && o[p].Some?;
    var q :| q in visited && q in o && o[q].Some? && members' == RemovedFrom(members, q.Subtract(o[q].value), visited);
    OffsetRoundTrip(offsets, s, c, q);
  }

  /**
   * The state change of a committed discovery, on the racks' offsets and the
   * controllers' rack sets:
   *   - one controller c: every visited rack gets the offset `pos - c`, and
   *     c's rack set gains the visited set;
   *   - no controller: every visited rack loses its offset, and if any of them
   *     had one, the controller it pointed to loses the visited set;
   *   - conflict: nothing changes.
   */
  ghost predicate Committed(
    offsets: map<Pos, Option<Pos>>, members: map<Pos, set<Pos>>,
    r: Outcome, visited: set<Pos>,
    offsets': map<Pos, Option<Pos>>, members': map<Pos, set<Pos>>)
  {
    match r
    case Conflict =>
      offsets' == offsets && members' == members
    case Found(c) =>
      && c in members
      && offsets' == Reassigned(offsets, visited, c)
      && members' == members[c := members[c] + visited]
    case NoController =>
      && offsets' == Cleared(offsets, visited)
      && ((forall p :: p in visited && p in offsets ==> offsets[p].None?) ==> members' == members)
      && ((exists p :: p in visited && p in offsets && offsets[p].Some?) ==>
            exists p :: p in visited && p in offsets && offsets[p].Some? &&
              members' == RemovedFrom(members, p.Subtract(offsets[p].value), visited))
  }

  /**
   * A discovery from `start` over the level `w` was committed: the visited
   * set lies in the region of `start` (all of it unless there was a
   * conflict), and the offsets and rack sets changed as Committed says.
   */
  ghost predicate CommitsRegion(
    w: World, start: Pos, r: Outcome,
    offsets: map<Pos, Option<Pos>>, members: map<Pos, set<Pos>>,
    offsets': map<Pos, Option<Pos>>, members': map<Pos, set<Pos>>)
  {
    exists visited :: start in visited && visited <= Region(w, start) &&
      (!r.Conflict? ==> visited == Region(w, start)) &&
      Committed(offsets, members, r, visited, offsets', members')
  }

  /** The level's block entities: racks and controllers by position, and the items dropped so far. */
  class Level {
    var racks: map<Pos, Rack>
    var controllers: map<Pos, ControllerEntity>
    var drops: seq<Dropped>

    function RackObjects(): set<Rack>
      reads this
    {
      set p | p in racks :: racks[p]
    }

    function ControllerObjects(): set<ControllerEntity>
      reads this
    {
      set p | p in controllers :: controllers[p]
    }

    /** A position holds a rack or a controller, every rack's content map is valid, and no entity sits at two positions. */
    ghost predicate Valid()
      reads this, RackObjects()`content
    {
      Distinct() && forall p :: p in racks ==> racks[p].Valid()
    }

    /** One block entity per position, and no entity at two positions. */
    ghost predicate Distinct()
      reads this
    {
      && racks.Keys !! controllers.Keys
      && (forall p, q :: p in racks && q in racks && p != q ==> racks[p] != racks[q])
      && (forall p, q :: p in controllers && q in controllers && p != q ==> controllers[p] != controllers[q])
    }

    /** The kind of block entity at every occupied position. */
    function World(): (w: World)
      reads this
      ensures w.Keys == racks.Keys + controllers.Keys
      ensures forall p :: p in controllers ==> w[p] == Controller(controllers[p].tier)
      ensures forall p :: p in racks && p !in controllers ==> w[p] == Rack
    {
      map p | p in racks.Keys + controllers.Keys ::
        if p in controllers then Controller(controllers[p].tier) else Rack
    }

    /** Every rack's `controller` offset. */
    ghost function Offsets(): map<Pos, Option<Pos>>
      reads this, RackObjects()`controller
    {
      map p | p in racks :: racks[p].controller
    }

    /** Every controller's rack set. */
    ghost function Members(): map<Pos, set<Pos>>
      reads this, ControllerObjects()`racks
    {
      map p | p in controllers :: controllers[p].racks
    }

    /**
     * `neighborChange` of the rack at `pos`: discover the region of `pos`
     * and commit the outcome to the racks' offsets and the controllers' sets.
     */
    method NeighborChange(pos: Pos) returns (r: Outcome, visited: set<Pos>)
      requires Valid() && pos in racks
      modifies RackObjects()`controller, ControllerObjects()`racks
      ensures Valid()
      ensures pos in visited && visited <= Region(World(), pos)
      ensures !r.Conflict? ==> visited == Region(World(), pos)
      ensures Characterises(World(), pos, r)
      ensures Committed(old(Offsets()), old(Members()), r, visited, Offsets(), Members())
    {
      ghost var offsets, members := Offsets(), Members();
      var w := World();
      r, visited := Discover(w, pos);
      RegionFacts(w, pos);
      forall p | p in Region(w, pos)
        ensures p in racks || p in controllers
      {
        ReachesOnlyOccupied(w, pos, p);
      }
      assert Offsets() == offsets && Members() == members;
      match r {
        case Conflict =>
          assert Committed(offsets, members, r, visited, Offsets(), Members());
        case Found(c) =>
          CommitFound(pos, c, visited);
          assert Committed(offsets, members, r, visited, Offsets(), Members());
        case NoController =>
          CommitNoController(visited);
          assert Committed(offsets, members, r, visited, Offsets(), Members());
      }
    }

    /** One rack's offset is set; nothing else changes. */
    method SetOffset(p: Pos, offset: Option<Pos>)
      requires Valid() && p in racks
      modifies {racks[p]}`controller
      ensures Valid()
      ensures Offsets() == old(Offsets())[p := offset] && Members() == old(Members())
    {
      racks[p].controller := offset;
    }

    /** The one-controller branch of `neighborChange`. */
    method CommitFound(pos: Pos, c: Pos, visited: set<Pos>)
      requires Valid() && pos in racks && pos in visited && c in controllers
      requires forall p :: p in visited && p != c ==> p in racks
      modifies RackObjects()`controller, ControllerObjects()`racks
      ensures Valid()
      ensures Offsets() == Reassigned(old(Offsets()), visited, c)
      ensures Members() == old(Members())[c := old(Members())[c] + visited]
    {
      ghost var start := Offsets();
      SetOffset(pos, Some(pos.Subtract(c)));
      AddMembers(c, visited);
      PointAt(visited, c);
      ReassignedAbsorbs(start, visited, c, pos);
    }

    /** The controller at c gains the visited positions (`addAll`). */
    method AddMembers(c: Pos, visited: set<Pos>)
      requires Valid() && c in controllers
      modifies {controllers[c]}`racks
      ensures Valid()
      ensures Offsets() == old(Offsets()) && Members() == old(Members())[c := old(Members())[c] + visited]
    {
      controllers[c].AddAll(visited);
    }

    /** The controller at c loses the visited positions (`removeAll`). */
    method RemoveMembers(c: Pos, visited: set<Pos>)
      requires Valid() && c in controllers
      modifies {controllers[c]}`racks
      ensures Valid()
      ensures Offsets() == old(Offsets()) && Members() == RemovedFrom(old(Members()), c, visited)
    {
      controllers[c].RemoveAll(visited);
    }

    /** The loop of the one-controller branch: every visited rack gets the offset to c. */
    method PointAt(visited: set<Pos>, c: Pos)
      requires Valid() && c in controllers && forall p :: p in visited && p != c ==> p in racks
      modifies RackObjects()`controller
      ensures Valid()
      ensures Offsets() == Reassigned(old(Offsets()), visited, c) && Members() == old(Members())
    {
      ghost var start, members := Offsets(), Members();
      ReassignedStep(start, {}, c, c);
      var todo := visited;
      while todo != {}
        invariant todo <= visited
        invariant Valid()
        invariant Offsets() == Reassigned(start, visited - todo, c) && Members() == members
        decreases |todo|
      {
        var p :| p in todo;
        ghost var done := visited - todo;
        assert visited - (todo - {p}) == done + {p};
        ReassignedStep(start, done, c, p);
        if p != c {
          SetOffset(p, Some(p.Subtract(c)));
        } else {
          assert p !in start;
        }
        assert Offsets() == Reassigned(start, done + {p}, c);
        todo := todo - {p};
      }
    }

    /** The no-controller branch of `neighborChange`. */
    method CommitNoController(visited: set<Pos>)
      requires Valid() && visited <= racks.Keys
      modifies RackObjects()`controller, ControllerObjects()`racks
      ensures Valid()
      ensures Committed(old(Offsets()), old(Members()), NoController, visited, Offsets(), Members())
    {
      var oldController, from := ClearOffsets(visited);
      if oldController.Some? {
        if oldController.value in controllers {
          RemoveMembers(oldController.value, visited);
        }
      }
    }

    /**
     * The loop of the no-controller branch: every visited rack loses its
     * offset, and the controller position one of them pointed to, if any, is
     * reported together with that rack.
     */
    method ClearOffsets(visited: set<Pos>) returns (oldController: Option<Pos>, ghost from: Pos)
      requires Valid() && visited <= racks.Keys
      modifies RackObjects()`controller
      ensures Valid()
      ensures Offsets() == Cleared(old(Offsets()), visited) && Members() == old(Members())
      ensures oldController.None? ==> forall p :: p in visited ==> old(Offsets())[p].None?
      ensures oldController.Some? ==>
        from in visited && old(Offsets())[from].Some? &&
        oldController.value == from.Subtract(old(Offsets())[from].value)
    {
      ghost var start := Offsets();
      oldController := None;
      from :| true;
      var todo := visited;
      while todo != {}
        invariant todo <= visited
        invariant Valid()
        invariant Offsets() == Cleared(start, visited - todo) && Members() == old(Members())
        invariant oldController.None? ==> forall p :: p in visited - todo ==> start[p].None?
        invariant oldController.Some? ==>
          from in visited - todo && start[from].Some? &&
          oldController.value == from.Subtract(start[from].value)
        decreases |todo|
      {
        var p :| p in todo;
        var offset := racks[p].controller;
        assert offset == Offsets()[p] == start[p];
        ghost var done := visited - todo;
        assert visited - (todo - {p}) == done + {p};
        ClearedStep(start, done, p);
        if offset != None {
          oldController := Some(p.Subtract(offset.value));
          from := p;
          SetOffset(p, None);
        }
        assert Offsets() == Cleared(start, done + {p});
        todo := todo - {p};
      }
    }
  }
}
