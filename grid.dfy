/**
 * Block positions, the six axis directions and the world of rack and
 * controller blocks that cluster discovery walks over.
 */
module Grid {

  /** A block position (Minecraft's BlockPos): an exact integer triple. */
  datatype Pos = Pos(x: int, y: int, z: int) {
    function Offset(d: Pos): Pos { Pos(x + d.x, y + d.y, z + d.z) }
    /** `a.Subtract(b)` is the vector from b to a. */
    function Subtract(o: Pos): Pos { Pos(x - o.x, y - o.y, z - o.z) }
  }

  /** BlockPos.ZERO, which the discovery code also uses as its conflict sentinel. */
  const Origin: Pos := Pos(0, 0, 0)

  /** The unit vectors in the order of Direction.values(): DOWN, UP, NORTH, SOUTH, WEST, EAST. */
  const Directions: seq<Pos> :=
    [Pos(0, -1, 0), Pos(0, 1, 0), Pos(0, 0, -1), Pos(0, 0, 1), Pos(-1, 0, 0), Pos(1, 0, 0)]

  /** `current.relative(dir)` for the i-th direction. */
  function Relative(p: Pos, i: nat): (q: Pos)
    requires i < 6
    ensures q.Subtract(p) == Directions[i]
  {
    p.Offset(Directions[i])
  }

  /** What block entity stands at an occupied position. */
  datatype NodeKind = Rack | Controller(tier: nat)

  /** The block entities of the level: a position not in the map holds neither a rack nor a controller. */
  type World = map<Pos, NodeKind>

  predicate IsController(w: World, p: Pos) {
    p in w && w[p].Controller?
  }

  /**
   * A walk that starts anywhere and steps, one axis direction at a time,
   * only onto positions holding a rack or a controller.
   */
  ghost predicate IsWalk(w: World, path: seq<Pos>) {
    && |path| > 0
    && forall k :: 0 < k < |path| ==> Step(w, path[k - 1], path[k])
  }

  /** b holds a rack or a controller and lies next to a. */
  ghost predicate Step(w: World, a: Pos, b: Pos) {
    b in w && exists i :: 0 <= i < 6 && b == Relative(a, i)
  }

  /** q belongs to the connected region of `start`: some walk leads from start to q. */
  ghost predicate Reaches(w: World, start: Pos, q: Pos) {
    exists path :: IsWalk(w, path) && path[0] == start && path[|path| - 1] == q
  }

  /** Every rack or controller next to a member of `s` is itself in `s`. */
  ghost predicate ClosedAround(w: World, s: set<Pos>, around: set<Pos>) {
    forall p, i :: p in around && 0 <= i < 6 && Relative(p, i) in w ==> Relative(p, i) in s
  }

  lemma ReachesSelf(w: World, p: Pos)
    ensures Reaches(w, p, p)
  {
    assert IsWalk(w, [p]);
  }

  /** A walk ends at its start or on a rack or controller. */
  lemma ReachesOnlyOccupied(w: World, start: Pos, q: Pos)
    requires Reaches(w, start, q)
    ensures q == start || q in w
  {
    var path :| IsWalk(w, path) && path[0] == start && path[|path| - 1] == q;
    if |path| > 1 {
      assert Step(w, path[|path| - 2], path[|path| - 1]);
    }
  }

  /** A proper subset is smaller. */
  lemma {:induction false} ProperSubsetSmaller<T>(a: set<T>, b: set<T>)
    requires a < b
    ensures |a| < |b|
  {
    if a != {} {
      var y :| y in a;
      ProperSubsetSmaller(a - {y}, b - {y});
    }
  }

  /** One step onto an occupied neighbour followed by a walk is a walk. */
  lemma {:induction false} ReachesStep(w: World, a: Pos, i: nat, c: Pos)
    requires i < 6 && Relative(a, i) in w && Reaches(w, Relative(a, i), c)
    ensures Reaches(w, a, c)
  {
    var path :| IsWalk(w, path) && path[0] == Relative(a, i) && path[|path| - 1] == c;
    var longer := [a] + path;
    forall k | 0 < k < |longer|
      ensures Step(w, longer[k - 1], longer[k])
    {
      if k == 1 {
        assert longer[1] == Relative(a, i);
      } else {
        assert longer[k - 1] == path[k - 2] && longer[k] == path[k - 1];
      }
    }
    assert IsWalk(w, longer);
  }

  /**
   * A set that contains `start` and is closed under stepping to occupied
   * neighbours contains the whole connected region of `start`.
   */
  lemma {:induction false} ClosedContainsRegion(w: World, s: set<Pos>, start: Pos, q: Pos)
    requires start in s && ClosedAround(w, s, s) && Reaches(w, start, q)
    ensures q in s
  {
    var path :| IsWalk(w, path) && path[0] == start && path[|path| - 1] == q;
    var k := 0;
    while k < |path| - 1
      invariant 0 <= k < |path|
      invariant path[k] in s
    {
      assert Step(w, path[k], path[k + 1]);
      var i :| 0 <= i < 6 && path[k + 1] == Relative(path[k], i);
      k := k + 1;
    }
  }
}
