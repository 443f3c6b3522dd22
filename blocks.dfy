/**
 * The rack block's handlers (RackBlock): placement admission, the discovery
 * re-run after a player places or removes a rack, opening a rack (with its
 * size check) and the item drop when a rack block goes away.
 */
module Blocks {
  import opened Grid
  import opened Storage
  import opened Cluster

  /** Racks a controller may serve per tier. */
  const RACKS_PER_TIER: nat := 20

  /** What the placement handler decides about a placed block. */
  datatype Placement =
    | Ignored        // not a rack or controller, or not placed by a player
    | Accepted
    | NotConnected   // cancelled: no controller, a conflict, or a controller at the origin
    | LimitReached   // cancelled: the controller already serves too many racks

  /**
   * The `EntityPlaceEvent` handler. `w` is the level with the new block in
   * place: `pos in w` says the placed block is a rack or a controller.
   * Discovery starts from the placed block; a result that is missing or
   * equal to the origin cancels the placement, and a rack placement is also
   * cancelled when the visited set, controller included, is larger than the
   * controller's tier times RACKS_PER_TIER. Nothing in the level changes.
   */
  method OnEntityPlace(w: World, pos: Pos, byPlayer: bool) returns (d: Placement)
    ensures d == Ignored <==> !(pos in w && byPlayer)
    ensures d == NotConnected <==>
      && pos in w && byPlayer
      && ((forall p :: p in Region(w, pos) ==> !IsController(w, p)) ||
          Conflicting(w, pos) || SoleController(w, pos, Origin))
    ensures d == LimitReached <==>
      && pos in w && byPlayer && w[pos] == Rack && !Conflicting(w, pos)
      && exists c :: c != Origin && SoleController(w, pos, c) &&
           |Region(w, pos)| > w[c].tier * RACKS_PER_TIER
    ensures d == Accepted ==> exists c :: c != Origin && SoleController(w, pos, c) && !Conflicting(w, pos)
  {
    if !(pos in w && byPlayer) {
      return Ignored;
    }
    var result, posSet := Discover(w, pos);
    if result.NoController? || result.Conflict? || result.c == Origin {
      if result.Found? {
        SoleControllerUnique(w, pos, Origin);
      }
      return NotConnected;
    }
    SoleControllerUnique(w, pos, result.c);
    if w[pos] == Rack {
      if |posSet| > w[result.c].tier * RACKS_PER_TIER {
        return LimitReached;
      }
    }
    d := Accepted;
  }

  /** The region has at most one sole controller. */
  lemma SoleControllerUnique(w: World, start: Pos, c: Pos)
    requires SoleController(w, start, c)
    ensures forall d :: SoleController(w, start, d) ==> d == c
  {
  }

  /**
   * `setPlacedBy`: on the server, when a player placed the rack at `pos`,
   * re-run discovery from it and commit the outcome. The outcome is returned
   * when discovery ran.
   */
  method SetPlacedBy(level: Level, pos: Pos, byPlayer: bool, isClient: bool) returns (r: Option<Outcome>)
    requires level.Valid()
    modifies level.RackObjects()`controller, level.ControllerObjects()`racks
    ensures level.Valid()
    ensures r.Some? <==> !isClient && byPlayer && pos in level.racks
    ensures r.None? ==> level.Offsets() == old(level.Offsets()) && level.Members() == old(level.Members())
    ensures r.Some? ==>
      && Characterises(level.World(), pos, r.value)
      && CommitsRegion(level.World(), pos, r.value, old(level.Offsets()), old(level.Members()), level.Offsets(), level.Members())
  {
    r := None;
    if !isClient && byPlayer && pos in level.racks {
      var outcome := Rediscover(level, pos);
      r := Some(outcome);
    }
  }

  /**
   * `onRemove`: when the block at `pos` is replaced by a different block, the
   * rack's slots are dropped at `pos` and its block entity leaves the level.
   */
  method OnRemove(level: Level, pos: Pos, sameBlock: bool)
    requires level.Valid()
    modifies level`racks, level`drops
    ensures level.Valid()
    ensures level.controllers == old(level.controllers)
    ensures sameBlock || pos !in old(level.racks) ==>
      level.racks == old(level.racks) && level.drops == old(level.drops)
    ensures !sameBlock && pos in old(level.racks) ==>
      && level.racks == old(level.racks) - {pos}
      && level.drops == old(level.drops) + DropsOf(pos, old(level.racks[pos].inventory[..]))
    ensures level.Offsets() == old(level.Offsets()) - (if sameBlock then {} else {pos})
    ensures level.Members() == old(level.Members())
  {
    if !sameBlock && pos in level.racks {
      var rack: Rack := level.racks[pos];
      level.drops := level.drops + DropsOf(pos, rack.inventory[..]);
      level.racks := level.racks - {pos};
    }
  }

  /** `spawnAfterBreak`: a rack standing at `pos` drops its slots there. */
  method SpawnAfterBreak(level: Level, pos: Pos)
    modifies level`drops
    ensures pos !in level.racks ==> level.drops == old(level.drops)
    ensures pos in level.racks ==> level.drops == old(level.drops) + DropsOf(pos, level.racks[pos].inventory[..])
  {
    if pos in level.racks {
      level.drops := level.drops + DropsOf(pos, level.racks[pos].inventory[..]);
    }
  }

  /**
   * `removedByPlayer` of the rack at `pos`: the block is removed (dropping
   * its slots); then, on the server only, every neighbour that holds a rack,
   * in the order of the six directions, re-runs discovery and commits it.
   * Entry i of `outcomes` is the outcome of neighbour i, when it ran; the
   * ghost `offsets` and `members` are the racks' offsets and the
   * controllers' rack sets after the removal (entry 0) and after each
   * neighbour (entry i + 1), the last being the final state.
   */
  method RemovedByPlayer(level: Level, pos: Pos, isClient: bool)
    returns (outcomes: seq<Option<Outcome>>, ghost offsets: seq<map<Pos, Option<Pos>>>, ghost members: seq<map<Pos, set<Pos>>>)
    requires level.Valid() && pos in level.racks
    modifies level`racks, level`drops, level.RackObjects()`controller, level.ControllerObjects()`racks
    ensures level.Valid()
    ensures level.racks == old(level.racks) - {pos} && level.controllers == old(level.controllers)
    ensures level.drops == old(level.drops) + DropsOf(pos, old(level.racks[pos].inventory[..]))
    ensures |outcomes| == 6 && |offsets| == 7 && |members| == 7
    ensures offsets[0] == old(level.Offsets()) - {pos} && members[0] == old(level.Members())
    ensures offsets[6] == level.Offsets() && members[6] == level.Members()
    ensures isClient ==> forall i :: 0 <= i < 6 ==> outcomes[i].None? && offsets[i + 1] == offsets[0] && members[i + 1] == members[0]
    ensures !isClient ==> NeighbourSteps(level.World(), level.racks, pos, outcomes, offsets, members)
  {
    OnRemove(level, pos, false);
    if isClient {
      outcomes := seq(6, _ => None);
      ghost var o, m := level.Offsets(), level.Members();
      offsets := [o, o, o, o, o, o, o];
      members := [m, m, m, m, m, m, m];
      return;
    }
    assert level.RackObjects() <= old(level.RackObjects());
    outcomes, offsets, members := RediscoverNeighbours(level, pos);
  }

  /** The loop of `removedByPlayer` over the six neighbours of `pos`. */
  method RediscoverNeighbours(level: Level, pos: Pos)
    returns (outcomes: seq<Option<Outcome>>, ghost offsets: seq<map<Pos, Option<Pos>>>, ghost members: seq<map<Pos, set<Pos>>>)
    requires level.Valid()
    modifies level.RackObjects()`controller, level.ControllerObjects()`racks
    ensures level.Valid() && unchanged(level)
    ensures |outcomes| == 6 && |offsets| == 7 && |members| == 7
    ensures offsets[0] == old(level.Offsets()) && members[0] == old(level.Members())
    ensures offsets[6] == level.Offsets() && members[6] == level.Members()
    ensures NeighbourSteps(level.World(), level.racks, pos, outcomes, offsets, members)
  {
    ghost var w := level.World();
    ghost var rs := level.racks;
    outcomes := [];
    offsets := [level.Offsets()];
    members := [level.Members()];
    for i := 0 to 6
      invariant level.Valid() && unchanged(level)
      invariant |outcomes| == i && NeighbourSteps(w, rs, pos, outcomes, offsets, members)
      invariant offsets[0] == old(level.Offsets()) && members[0] == old(level.Members())
      invariant offsets[i] == level.Offsets() && members[i] == level.Members()
    {
      var o;
      o, offsets, members := RediscoverNeighbour(level, pos, i, w, rs, outcomes, offsets, members);
      outcomes := outcomes + [o];
    }
  }

  /** Steps 0 to |outcomes| - 1 of the neighbour loop, each from its snapshot to the next. */
  ghost predicate NeighbourSteps(
    w: World, racks: map<Pos, Rack>, pos: Pos, outcomes: seq<Option<Outcome>>,
    offsets: seq<map<Pos, Option<Pos>>>, members: seq<map<Pos, set<Pos>>>)
  {
    && |outcomes| <= 6 && |offsets| == |members| == |outcomes| + 1
    && forall i :: 0 <= i < |outcomes| ==>
         NeighbourStep(w, racks, pos, i, outcomes[i], offsets[i], members[i], offsets[i + 1], members[i + 1])
  }

  /** One more step extends the steps taken so far. */
  lemma StepsExtend(
    w: World, racks: map<Pos, Rack>, pos: Pos, outcomes: seq<Option<Outcome>>,
    offsets: seq<map<Pos, Option<Pos>>>, members: seq<map<Pos, set<Pos>>>,
    o: Option<Outcome>, offsets': map<Pos, Option<Pos>>, members': map<Pos, set<Pos>>)
    requires NeighbourSteps(w, racks, pos, outcomes, offsets, members) && |outcomes| < 6
    requires NeighbourStep(w, racks, pos, |outcomes|, o, offsets[|outcomes|], members[|outcomes|], offsets', members')
    ensures NeighbourSteps(w, racks, pos, outcomes + [o], offsets + [offsets'], members + [members'])
  {
    var n := |outcomes|;
    forall i | 0 <= i < n + 1
      ensures NeighbourStep(w, racks, pos, i, (outcomes + [o])[i], (offsets + [offsets'])[i], (members + [members'])[i],
                            (offsets + [offsets'])[i + 1], (members + [members'])[i + 1])
    {
      if i < n {
        assert (outcomes + [o])[i] == outcomes[i];
        assert (offsets + [offsets'])[i] == offsets[i] && (offsets + [offsets'])[i + 1] == offsets[i + 1];
        assert (members + [members'])[i] == members[i] && (members + [members'])[i + 1] == members[i + 1];
      }
    }
  }

  /**
   * One step of the neighbour loop: the next neighbour re-runs discovery if
   * it holds a rack, and the step is recorded after the steps so far.
   */
  method RediscoverNeighbour(
    level: Level, pos: Pos, i: nat, ghost w: World, ghost rs: map<Pos, Rack>, ghost outcomes: seq<Option<Outcome>>,
    ghost offsets: seq<map<Pos, Option<Pos>>>, ghost members: seq<map<Pos, set<Pos>>>)
    returns (o: Option<Outcome>, ghost offsets': seq<map<Pos, Option<Pos>>>, ghost members': seq<map<Pos, set<Pos>>>)
    requires level.Valid() && w == level.World() && rs == level.racks
    requires i == |outcomes| < 6 && NeighbourSteps(w, rs, pos, outcomes, offsets, members)
    requires offsets[|outcomes|] == level.Offsets() && members[|outcomes|] == level.Members()
    modifies level.RackObjects()`controller, level.ControllerObjects()`racks
    ensures level.Valid() && unchanged(level)
    ensures NeighbourSteps(w, rs, pos, outcomes + [o], offsets', members')
    ensures offsets'[..|offsets|] == offsets && members'[..|members|] == members
    ensures offsets'[|outcomes| + 1] == level.Offsets() && members'[|outcomes| + 1] == level.Members()
  {
    var neighbour := Relative(pos, i);
    o := None;
    if neighbour in level.racks {
      var r := Rediscover(level, neighbour);
      o := Some(r);
    }
    StepsExtend(w, rs, pos, outcomes, offsets, members, o, level.Offsets(), level.Members());
    offsets' := offsets + [level.Offsets()];
    members' := members + [level.Members()];
  }

  /**
   * Step i of the neighbour loop: an outcome exactly for a rack neighbour,
   * characterising its region and committed from the offsets and rack sets
   * before the step to those after it; no change where no rack stands.
   */
  ghost predicate NeighbourStep(
    w: World, racks: map<Pos, Rack>, pos: Pos, i: nat, o: Option<Outcome>,
    offsets: map<Pos, Option<Pos>>, members: map<Pos, set<Pos>>,
    offsets': map<Pos, Option<Pos>>, members': map<Pos, set<Pos>>)
    requires i < 6
  {
    && (o.Some? <==> Relative(pos, i) in racks)
    && (o.Some? ==>
          Characterises(w, Relative(pos, i), o.value) &&
          CommitsRegion(w, Relative(pos, i), o.value, offsets, members, offsets', members'))
    && (o.None? ==> offsets' == offsets && members' == members)
  }

  /**
   * `neighborChange` of one rack: the outcome characterises the rack's
   * region and is committed over it; the level's blocks stay as they were.
   */
  method Rediscover(level: Level, p: Pos) returns (r: Outcome)
    requires level.Valid() && p in level.racks
    modifies level.RackObjects()`controller, level.ControllerObjects()`racks
    ensures level.Valid() && unchanged(level)
    ensures Characterises(level.World(), p, r)
    ensures CommitsRegion(level.World(), p, r, old(level.Offsets()), old(level.Members()), level.Offsets(), level.Members())
  {
    var visited;
    r, visited := level.NeighborChange(p);
  }

  /**
   * `use` on a rack block: on the server the rack checks the block name for
   * a new size tier (comparing with its current size) before the menu opens.
   * Succeeds exactly when a rack stands at `pos`, except that an upgrade
   * whose old buffer does not fit the new capacity fails.
   */
  method Use(level: Level, pos: Pos, name: string, isClient: bool) returns (success: bool)
    requires level.Valid()
    modifies if pos in level.racks then {level.racks[pos]} else {}
    ensures level.Valid() && unchanged(level)
    ensures success ==> pos in level.racks
    ensures pos in level.racks ==>
      var rack: Rack := level.racks[pos];
      unchanged(rack`content, rack`freeSlots, rack`controller, rack`full)
    ensures pos in level.racks && isClient ==>
      var rack: Rack := level.racks[pos];
      success && unchanged(rack`size, rack`inventory)
    ensures pos in level.racks && !isClient ==>
      var rack: Rack := level.racks[pos];
      && rack.size == TierFromName(name, old(rack.size))
      && (success <==> rack.size == old(rack.size) || old(rack.inventory.Length) <= Capacity(rack.size))
      && (!success || rack.size == old(rack.size) ==> rack.inventory == old(rack.inventory))
      && (success && rack.size != old(rack.size) ==>
            && fresh(rack.inventory) && rack.inventory.Length == Capacity(rack.size)
            && rack.inventory[..] == old(rack.inventory[..]) + EmptySlots(Capacity(rack.size) - old(rack.inventory.Length)))
  {
    if pos !in level.racks {
      return false;
    }
    var rack := level.racks[pos];
    success := true;
    if !isClient {
      success := rack.CheckForUpgrade(name, rack.size);
    }
  }
}
