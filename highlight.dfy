/**
 * The client's table of timed highlight boxes (HighlightManager): boxes
 * grouped by category, appended to, cleared by category, and swept of
 * expired boxes on every render pass.
 */
module Highlight {
  import opened Grid

  /** One highlight: its text lines, the block it outlines, the game time it expires at, and its colour. */
  datatype TimedBox = TimedBox(text: seq<string>, pos: Pos, removalTimePoint: int, hexColor: int)

  /** The default colour of a box, white. */
  const WHITE: int := 0xFFFFFF

  /**
   * The red channel, `(hexColor >> 16) & 255`. Java's `>>` on an int shifts
   * arithmetically, which is division by 2^16 rounded down, and `& 255`
   * keeps the low eight bits, which is the non-negative remainder mod 256.
   */
  function Red(hex: int): (r: int)
    ensures 0 <= r <= 255
  {
    (hex / 0x1_0000) % 0x100
  }

  /** The green channel, `(hexColor >> 8) & 255`. */
  function Green(hex: int): (g: int)
    ensures 0 <= g <= 255
  {
    (hex / 0x100) % 0x100
  }

  /** The blue channel, `hexColor & 255`. */
  function Blue(hex: int): (b: int)
    ensures 0 <= b <= 255
  {
    hex % 0x100
  }

  /** The three channels are exactly the low 24 bits of the colour, red highest. */
  lemma ChannelsRecompose(hex: int)
    ensures Red(hex) * 0x1_0000 + Green(hex) * 0x100 + Blue(hex) == hex % 0x100_0000
  {
    var a := hex / 0x100;
    var a1 := a / 0x100;
    var a2 := a1 / 0x100;
    ByteSplit(hex);
    ByteSplit(a);
    ByteSplit(a1);
    assert hex / 0x1_0000 == a1 by {
      QuotientOf(hex, 0x1_0000, a1, (a % 0x100) * 0x100 + hex % 0x100);
    }
    QuotientOf(hex, 0x100_0000, a2, Red(hex) * 0x1_0000 + Green(hex) * 0x100 + Blue(hex));
  }

  /** Every integer is 256 times its quotient plus its low byte. */
  lemma ByteSplit(x: int)
    ensures x == (x / 0x100) * 0x100 + x % 0x100 && 0 <= x % 0x100 < 0x100
  {
  }

  /** Quotient and remainder are the only ones: q * d + r with 0 <= r < d divides to q, leaving r. */
  lemma QuotientOf(x: int, d: int, q: int, r: int)
    requires d > 0 && 0 <= r < d && x == q * d + r
    ensures x / d == q && x % d == r
  {
    var q', r' := x / d, x % d;
    assert (q - q') * d == r' - r;
    if q > q' {
      MulAtLeast(q - q', d);
    } else if q < q' {
      MulAtLeast(q' - q, d);
    }
  }

  /** A positive multiple of d is at least d. */
  lemma MulAtLeast(k: int, d: int)
    requires k >= 1 && d > 0
    ensures k * d >= d
  {
  }

  /** The boxes still shown at game time `t` (removal time later than t), in their order. */
  function Live(bs: seq<TimedBox>, t: int): seq<TimedBox> {
    if bs == [] then []
    else
      var last := bs[|bs| - 1];
      Live(bs[..|bs| - 1], t) + (if last.removalTimePoint > t then [last] else [])
  }

  /** A box survives a sweep exactly when it was listed and has not expired. */
  lemma {:induction false} LiveMembers(bs: seq<TimedBox>, t: int)
    ensures forall b :: b in Live(bs, t) <==> b in bs && b.removalTimePoint > t
  {
    if bs != [] {
      LiveMembers(bs[..|bs| - 1], t);
      assert bs == bs[..|bs| - 1] + [bs[|bs| - 1]];
    }
  }

  /** Sweeping a list is sweeping its two parts: survivors keep their relative order. */
  lemma {:induction false} LiveAppend(a: seq<TimedBox>, b: seq<TimedBox>, t: int)
    ensures Live(a + b, t) == Live(a, t) + Live(b, t)
  {
    if b != [] {
      LiveAppend(a, b[..|b| - 1], t);
      assert (a + b)[..|a + b| - 1] == a + b[..|b| - 1];
    } else {
      assert a + b == a;
    }
  }

  /** A sweep at t1 followed by one at a later t2 is the sweep at t2; in particular a sweep is idempotent. */
  lemma {:induction false} LiveLater(bs: seq<TimedBox>, t1: int, t2: int)
    requires t1 <= t2
    ensures Live(Live(bs, t1), t2) == Live(bs, t2)
  {
    if bs != [] {
      var front := bs[..|bs| - 1];
      var last := bs[|bs| - 1];
      LiveLater(front, t1, t2);
      var tail := if last.removalTimePoint > t1 then [last] else [];
      LiveAppend(Live(front, t1), tail, t2);
      if tail != [] {
        assert [last][..0] == [];
      }
    }
  }

  /** The table after a sweep at game time t: every list swept, and the categories left empty dropped. */
  function Swept(m: map<string, seq<TimedBox>>, t: int): (m': map<string, seq<TimedBox>>)
    ensures forall c :: c in m' <==> c in m && Live(m[c], t) != []
    ensures forall c :: c in m' ==> m'[c] == Live(m[c], t) && m'[c] != []
  {
    map c | c in m && Live(m[c], t) != [] :: Live(m[c], t)
  }

  /** A category is kept by a sweep exactly when one of its boxes has not expired. */
  lemma SweptKeepsLiveCategories(m: map<string, seq<TimedBox>>, t: int, c: string)
    ensures c in Swept(m, t) <==> c in m && exists b :: b in m[c] && b.removalTimePoint > t
  {
    if c in m {
      LiveMembers(m[c], t);
      if Live(m[c], t) != [] {
        assert Live(m[c], t)[0] in Live(m[c], t);
      }
    }
  }

  /** Two sweeps in order of time make the later one. */
  lemma SweptLater(m: map<string, seq<TimedBox>>, t1: int, t2: int)
    requires t1 <= t2
    ensures Swept(Swept(m, t1), t2) == Swept(m, t2)
  {
    forall c | c in m
      ensures c in Swept(m, t1) ==> Live(Swept(m, t1)[c], t2) == Live(m[c], t2)
    {
      LiveLater(m[c], t1, t2);
    }
    forall c | c in m && c !in Swept(m, t1)
      ensures Live(m[c], t2) == []
    {
      LiveLater(m[c], t1, t2);
    }
  }

  /** The table part-way through a sweep: the categories still `pending` untouched, the others swept. */
  function PartlySwept(m: map<string, seq<TimedBox>>, pending: set<string>, t: int): map<string, seq<TimedBox>> {
    map c | c in m && (c in pending || Live(m[c], t) != []) :: if c in pending then m[c] else Live(m[c], t)
  }

  /** Sweeping one more pending category. */
  lemma PartlySweptStep(m: map<string, seq<TimedBox>>, pending: set<string>, t: int, c: string)
    requires c in pending && c in m
    ensures c in PartlySwept(m, pending, t) && PartlySwept(m, pending, t)[c] == m[c]
    ensures Live(m[c], t) == [] ==>
      PartlySwept(m, pending, t)[c := Live(m[c], t)] - {c} == PartlySwept(m, pending - {c}, t)
    ensures Live(m[c], t) != [] ==>
      PartlySwept(m, pending, t)[c := Live(m[c], t)] == PartlySwept(m, pending - {c}, t)
  {
  }

  /** Before a sweep nothing is swept; after it, every category is. */
  lemma PartlySweptEnds(m: map<string, seq<TimedBox>>, t: int)
    ensures PartlySwept(m, m.Keys, t) == m
    ensures PartlySwept(m, {}, t) == Swept(m, t)
  {
  }

  /** The list of a category, or an empty one when the category is absent (`computeIfAbsent`). */
  function Listed(m: map<string, seq<TimedBox>>, c: string): (bs: seq<TimedBox>)
    ensures c !in m ==> bs == []
  {
    if c in m then m[c] else []
  }

  /** The table with `b` appended to the list of category c, which is created when absent. */
  function Appended(m: map<string, seq<TimedBox>>, c: string, b: TimedBox): (m': map<string, seq<TimedBox>>)
    ensures m'.Keys == m.Keys + {c}
    ensures |m'[c]| == |Listed(m, c)| + 1
    ensures m'[c][..|m'[c]| - 1] == Listed(m, c) && m'[c][|m'[c]| - 1] == b
    ensures forall d :: d in m && d != c ==> m'[d] == m[d]
  {
    m[c := Listed(m, c) + [b]]
  }

  /** A box appended before a sweep it outlives is the last of its category's swept list. */
  lemma AppendedThenSwept(m: map<string, seq<TimedBox>>, c: string, b: TimedBox, t: int)
    requires b.removalTimePoint > t
    ensures c in Swept(Appended(m, c, b), t)
    ensures Swept(Appended(m, c, b), t)[c] == Live(Listed(m, c), t) + [b]
  {
    var bs := Listed(m, c) + [b];
    assert bs[..|bs| - 1] == Listed(m, c);
  }

  /** The global highlight table, HIGHLIGHT_MAP. */
  class HighlightTable {
    var boxes: map<string, seq<TimedBox>>

    constructor()
      ensures boxes == map[]
    {
      boxes := map[];
    }

    /** `addRenderBox`: append the box to its category, creating the category if absent. */
    method AddRenderBox(category: string, data: TimedBox)
      modifies this
      ensures boxes == Appended(old(boxes), category, data)
    {
      if category !in boxes {
        boxes := boxes[category := []];
      }
      boxes := boxes[category := boxes[category] + [data]];
    }

    /** `clearCategory`: drop the category and all its boxes. */
    method ClearCategory(category: string)
      modifies this
      ensures boxes == old(boxes) - {category}
    {
      boxes := boxes - {category};
    }

    /** The inner loop of the sweep: the boxes of one category whose removal time has not come, in order. */
    static method SweepList(list: seq<TimedBox>, worldTime: int) returns (kept: seq<TimedBox>)
      ensures kept == Live(list, worldTime)
    {
      kept := [];
      for j := 0 to |list|
        invariant kept == Live(list[..j], worldTime)
      {
        assert list[..j + 1][..j] == list[..j];
        if list[j].removalTimePoint > worldTime {
          kept := kept + [list[j]];
        }
      }
      assert list[..|list|] == list;
    }

    /**
     * The expiry sweep of `renderWorldLastEvent` at game time `worldTime`:
     * only in the after-tripwire render stage, each category's list loses the
     * boxes whose removal time has come, and a category left empty is
     * removed. The drawing of the remaining boxes is not part of this model.
     */
    method RenderWorldLastEvent(afterTripwire: bool, worldTime: int)
      modifies this
      ensures boxes == if afterTripwire then Swept(old(boxes), worldTime) else old(boxes)
    {
      if !afterTripwire || boxes == map[] {
        return;
      }
      ghost var start := boxes;
      var categories := boxes.Keys;
      PartlySweptEnds(start, worldTime);
      while categories != {}
        invariant categories <= start.Keys
        invariant boxes == PartlySwept(start, categories, worldTime)
        decreases |categories|
      {
        var category :| category in categories;
        PartlySweptStep(start, categories, worldTime, category);
        var kept := SweepList(boxes[category], worldTime);
        boxes := boxes[category := kept];
        if kept == [] {
          boxes := boxes - {category};
        }
        categories := categories - {category};
      }
    }
  }
}
