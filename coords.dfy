/** The coordinate-assignment routines of the arena, stated on values:
    the children lists and the positions of all nodes, indexed like the
    arena itself. `preset_child_coords` is specified by `PresetSpec`; its
    properties are proved here as lemmas. This is only `set_tree_coords` and
    `preset_child_coords`, not the program's tree-layout passes. */
module Coords {
  import opened Wrappers

  /** A node's coordinates (the source's `f32` `x` and `y`, taken here as
      exact integers; every constant the routines use is integral). */
  datatype Point = Point(x: int, y: int)

  /** `preset_child_coords` places the first child this far to the left of
      its father and the second child this far to the right ... */
  const Spread: int := 90
  /** ... and, in the branch meant for children that would collide, this far. */
  const WideSpread: int := 120
  /** Each child is placed this far below its father. */
  const Drop: int := 30

  // ---------------------------------------------------------------------
  // Shape of the arena: children lists, parent links, acyclicity witness.
  // ---------------------------------------------------------------------

  /** `p` lists `j` among the two children `preset_child_coords` visits. */
  predicate IsChildOf(kids: seq<seq<nat>>, p: nat, j: nat)
  {
    p < |kids| && |kids[p]| >= 2 && (kids[p][0] == j || kids[p][1] == j)
  }

  /** The recursion of `preset_child_coords(index)` runs without a panic and
      terminates: every node it reaches is in the arena, has no children or
      at least two (it reads `children[1]` as soon as there is a child), and
      `rank` strictly decreases from a node to its first two children. The
      source has no `rank`; it is a ghost witness that the children links
      reached from `i` have no cycle. */
  ghost predicate Presettable(kids: seq<seq<nat>>, rank: nat -> nat, i: nat)
    decreases rank(i)
  {
    i < |kids| &&
    (|kids[i]| == 0 ||
     (|kids[i]| >= 2 && kids[i][0] < |kids| && kids[i][1] < |kids| &&
      rank(kids[i][0]) < rank(i) && rank(kids[i][1]) < rank(i) &&
      Presettable(kids, rank, kids[i][0]) && Presettable(kids, rank, kids[i][1])))
  }

  /** `j` is a strict descendant of `i` along first-two-children links. */
  ghost predicate Below(kids: seq<seq<nat>>, rank: nat -> nat, i: nat, j: nat)
    decreases rank(i)
  {
    i < |kids| && |kids[i]| >= 2 &&
    (kids[i][0] == j || kids[i][1] == j ||
     (rank(kids[i][0]) < rank(i) && Below(kids, rank, kids[i][0], j)) ||
     (rank(kids[i][1]) < rank(i) && Below(kids, rank, kids[i][1], j)))
  }

  /** `j` is `i` or one of its descendants: the subtree of `i`. */
  ghost predicate Reaches(kids: seq<seq<nat>>, rank: nat -> nat, i: nat, j: nat)
  {
    i == j || Below(kids, rank, i, j)
  }

  /** The arena is a forest as the tree builders leave it: every listed
      child is an arena index whose `parent` names the node that lists it,
      and no node lists the same child twice. */
  ghost predicate Linked(kids: seq<seq<nat>>, parents: seq<Option<nat>>)
  {
    |parents| == |kids| &&
    (forall p, k :: 0 <= p < |kids| && 0 <= k < |kids[p]| ==>
       kids[p][k] < |kids| && parents[kids[p][k]] == Some(p)) &&
    (forall p, a, b :: 0 <= p < |kids| && 0 <= a < b < |kids[p]| ==> kids[p][a] != kids[p][b])
  }

  // ---------------------------------------------------------------------
  // set_tree_coords
  // ---------------------------------------------------------------------

  /** The position `set_tree_coords` gives the node at arena index `i`: the
      first write `y = 15` is overwritten by `y = 15 * i + 30`. */
  function TreeCoordsAt(i: nat): Point
  {
    Point(30 * i, 15 * i + 30)
  }

  /** No two nodes share a position, and positions go strictly right and
      down with the index. */
  lemma TreeCoordsSeparate(i: nat, j: nat)
    requires i < j
    ensures TreeCoordsAt(i).x < TreeCoordsAt(j).x && TreeCoordsAt(i).y < TreeCoordsAt(j).y
    ensures TreeCoordsAt(i) != TreeCoordsAt(j)
  {
  }

  // ---------------------------------------------------------------------
  // preset_child_coords
  // ---------------------------------------------------------------------

  /** The `x` writes `preset_child_coords` makes on the two children, in
      the source's order: first child, second child, then the widening
      branch, whose guard reads the coordinates just written (so it matters
      whether the two children are one node). */
  function SpreadChildren(pos: seq<Point>, xFather: int, left: nat, right: nat): (r: seq<Point>)
    requires left < |pos| && right < |pos|
    ensures |r| == |pos|
    ensures forall j :: 0 <= j < |pos| && j != left && j != right ==> r[j] == pos[j]
  {
    var p1 := pos[left := pos[left].(x := xFather - Spread)];
    var p2 := p1[right := p1[right].(x := xFather + Spread)];
    if p2[right].x <= p2[left].x + Spread then
      var w := p2[left := p2[left].(x := xFather - WideSpread)];
      w[right := w[right].(x := xFather + WideSpread)]
    else p2
  }

  /** The `y` writes that follow: both children one step below the father. */
  function DropChildren(pos: seq<Point>, yFather: int, left: nat, right: nat): (r: seq<Point>)
    requires left < |pos| && right < |pos|
    ensures |r| == |pos|
    ensures forall j :: 0 <= j < |pos| && j != left && j != right ==> r[j] == pos[j]
  {
    var p4 := pos[left := pos[left].(y := yFather + Drop)];
    p4[right := p4[right].(y := yFather + Drop)]
  }

  /** Everything `preset_child_coords` writes before it recurses. */
  function PlaceChildren(pos: seq<Point>, father: Point, left: nat, right: nat): (r: seq<Point>)
    requires left < |pos| && right < |pos|
    ensures |r| == |pos|
    ensures forall j :: 0 <= j < |pos| && j != left && j != right ==> r[j] == pos[j]
  {
    DropChildren(SpreadChildren(pos, father.x, left, right), father.y, left, right)
  }

  /** With two distinct children the widening guard `xf + 90 <= xf` is
      false: the children land at exactly 90 left and 90 right of the
      father, 30 below it. */
  lemma PlaceDistinctChildren(pos: seq<Point>, father: Point, left: nat, right: nat)
    requires left < |pos| && right < |pos| && left != right
    ensures PlaceChildren(pos, father, left, right)[left] == Point(father.x - Spread, father.y + Drop)
    ensures PlaceChildren(pos, father, left, right)[right] == Point(father.x + Spread, father.y + Drop)
  {
  }

  /** When a node lists one child twice, the guard reads that child's single
      `x` (now `xf + 90`) on both sides and the widening branch fires: the
      child ends at `xf + 120`, 30 below the father. */
  lemma PlaceRepeatedChild(pos: seq<Point>, father: Point, child: nat)
    requires child < |pos|
    ensures PlaceChildren(pos, father, child, child)[child] == Point(father.x + WideSpread, father.y + Drop)
  {
  }

  /** The positions after `preset_child_coords(index)`: the writes of
      `PlaceChildren`, then the recursion into the first child and into the
      second. */
  ghost function PresetSpec(kids: seq<seq<nat>>, pos: seq<Point>, rank: nat -> nat, i: nat): (r: seq<Point>)
    requires |pos| == |kids| && Presettable(kids, rank, i)
    ensures |r| == |pos|
    decreases rank(i)
  {
    if |kids[i]| == 0 then pos
    else
      var left, right := kids[i][0], kids[i][1];
      var placed := PlaceChildren(pos, pos[i], left, right);
      PresetSpec(kids, PresetSpec(kids, placed, rank, left), rank, right)
  }

  /** The edge from `p` to its first two children carries the offsets
      `preset_child_coords` gives it. */
  ghost predicate EdgePlaced(pos: seq<Point>, kids: seq<seq<nat>>, p: nat)
  {
    p < |kids| && p < |pos| && |kids[p]| >= 2 &&
    kids[p][0] < |pos| && kids[p][1] < |pos| &&
    pos[kids[p][0]] == Point(pos[p].x - Spread, pos[p].y + Drop) &&
    pos[kids[p][1]] == Point(pos[p].x + Spread, pos[p].y + Drop)
  }

  /** Descendants have a smaller rank and are presettable themselves. */
  lemma {:induction false} BelowRanks(kids: seq<seq<nat>>, rank: nat -> nat, i: nat, j: nat)
    requires Presettable(kids, rank, i) && Below(kids, rank, i, j)
    ensures rank(j) < rank(i) && Presettable(kids, rank, j)
    decreases rank(i)
  {
    var left, right := kids[i][0], kids[i][1];
    if j != left && j != right {
      if Below(kids, rank, left, j) {
        BelowRanks(kids, rank, left, j);
      } else {
        BelowRanks(kids, rank, right, j);
      }
    }
  }

  /** The subtree of a child lies inside the subtree of its father. */
  lemma {:induction false} ReachesTransitive(kids: seq<seq<nat>>, rank: nat -> nat, i: nat, j: nat, k: nat)
    requires Presettable(kids, rank, i)
    requires Reaches(kids, rank, i, j) && Reaches(kids, rank, j, k)
    ensures Reaches(kids, rank, i, k)
    decreases rank(i)
  {
    if i != j && j != k {
      var left, right := kids[i][0], kids[i][1];
      if Reaches(kids, rank, left, j) {
        ReachesTransitive(kids, rank, left, j, k);
      } else {
        ReachesTransitive(kids, rank, right, j, k);
      }
    }
  }

  /** Every strict descendant of `a` hangs below some node of `a`'s subtree. */
  lemma {:induction false} LastStep(kids: seq<seq<nat>>, rank: nat -> nat, a: nat, j: nat) returns (p: nat)
    requires Below(kids, rank, a, j)
    ensures Reaches(kids, rank, a, p) && IsChildOf(kids, p, j)
    decreases rank(a)
  {
    var left, right := kids[a][0], kids[a][1];
    if left == j || right == j {
      p := a;
    } else if rank(left) < rank(a) && Below(kids, rank, left, j) {
      p := LastStep(kids, rank, left, j);
    } else {
      p := LastStep(kids, rank, right, j);
    }
  }

  /** In a linked arena a node has at most one father. */
  lemma UniqueFather(kids: seq<seq<nat>>, parents: seq<Option<nat>>, p: nat, q: nat, j: nat)
    requires Linked(kids, parents) && IsChildOf(kids, p, j) && IsChildOf(kids, q, j)
    ensures p == q
  {
    var kp := if kids[p][0] == j then 0 else 1;
    var kq := if kids[q][0] == j then 0 else 1;
    assert parents[kids[p][kp]] == Some(p);
    assert parents[kids[q][kq]] == Some(q);
  }

  /** Walking down from a node `a` that is outside the subtree of `left`
      and not above `left`, the walk never enters the subtree of `left`. */
  lemma {:induction false} StaysOutside(kids: seq<seq<nat>>, parents: seq<Option<nat>>, rank: nat -> nat,
                                        left: nat, a: nat, x: nat)
    requires Linked(kids, parents) && Presettable(kids, rank, a)
    requires !Reaches(kids, rank, left, a) && !Below(kids, rank, a, left)
    requires Reaches(kids, rank, a, x)
    ensures !Reaches(kids, rank, left, x)
    decreases rank(a)
  {
    if x != a {
      var c := if Reaches(kids, rank, kids[a][0], x) then kids[a][0] else kids[a][1];
      assert Reaches(kids, rank, c, x);
      assert IsChildOf(kids, a, c);
      if Below(kids, rank, left, c) {
        var f := LastStep(kids, rank, left, c);
        UniqueFather(kids, parents, f, a, c);
      }
      StaysOutside(kids, parents, rank, left, c, x);
    }
  }

  /** The subtrees of a node's two children are disjoint. */
  lemma SubtreesDisjoint(kids: seq<seq<nat>>, parents: seq<Option<nat>>, rank: nat -> nat, i: nat, x: nat)
    requires Linked(kids, parents) && Presettable(kids, rank, i) && |kids[i]| > 0
    ensures !(Reaches(kids, rank, kids[i][0], x) && Reaches(kids, rank, kids[i][1], x))
  {
    var left, right := kids[i][0], kids[i][1];
    assert left != right;
    if Below(kids, rank, left, right) {
      var f := LastStep(kids, rank, left, right);
      UniqueFather(kids, parents, f, i, right);
      if f != left { BelowRanks(kids, rank, left, f); }
    }
    if Below(kids, rank, right, left) {
      var f := LastStep(kids, rank, right, left);
      UniqueFather(kids, parents, f, i, left);
      if f != right { BelowRanks(kids, rank, right, f); }
    }
    if Reaches(kids, rank, right, x) {
      StaysOutside(kids, parents, rank, left, right, x);
    }
  }

  /** `preset_child_coords(i)` writes only strict descendants of `i`. */
  lemma {:induction false} PresetFrame(kids: seq<seq<nat>>, pos: seq<Point>, rank: nat -> nat, i: nat, j: nat)
    requires |pos| == |kids| && Presettable(kids, rank, i)
    requires j < |pos| && !Below(kids, rank, i, j)
    ensures PresetSpec(kids, pos, rank, i)[j] == pos[j]
    decreases rank(i)
  {
    if |kids[i]| > 0 {
      var left, right := kids[i][0], kids[i][1];
      var p5 := PlaceChildren(pos, pos[i], left, right);
      PresetFrame(kids, p5, rank, left, j);
      PresetFrame(kids, PresetSpec(kids, p5, rank, left), rank, right, j);
    }
  }

  /** The father's own coordinates are left as they were. */
  lemma PresetKeepsFather(kids: seq<seq<nat>>, pos: seq<Point>, rank: nat -> nat, i: nat)
    requires |pos| == |kids| && Presettable(kids, rank, i)
    ensures PresetSpec(kids, pos, rank, i)[i] == pos[i]
  {
    if Below(kids, rank, i, i) {
      BelowRanks(kids, rank, i, i);
    }
    PresetFrame(kids, pos, rank, i, i);
  }

  /** In a linked arena the first child ends 90 left of and 30 below its
      father: the widening branch is dead because the two children differ,
      and neither recursion writes it again. */
  lemma PresetPlacesLeft(kids: seq<seq<nat>>, parents: seq<Option<nat>>, pos: seq<Point>,
                         rank: nat -> nat, i: nat)
    requires Linked(kids, parents) && |pos| == |kids| && Presettable(kids, rank, i)
    requires |kids[i]| > 0
    ensures kids[i][0] < |pos| &&
            PresetSpec(kids, pos, rank, i)[kids[i][0]] == Point(pos[i].x - Spread, pos[i].y + Drop)
  {
    var left, right := kids[i][0], kids[i][1];
    assert left != right;
    var placed := PlaceChildren(pos, pos[i], left, right);
    PlaceDistinctChildren(pos, pos[i], left, right);
    var q := PresetSpec(kids, placed, rank, left);
    PresetUnfold(kids, pos, rank, i);
    PresetKeepsFather(kids, placed, rank, left);
    SubtreesDisjoint(kids, parents, rank, i, left);
    PresetFrame(kids, q, rank, right, left);
  }

  /** In a linked arena the second child ends 90 right of and 30 below its
      father. */
  lemma PresetPlacesRight(kids: seq<seq<nat>>, parents: seq<Option<nat>>, pos: seq<Point>,
                          rank: nat -> nat, i: nat)
    requires Linked(kids, parents) && |pos| == |kids| && Presettable(kids, rank, i)
    requires |kids[i]| > 0
    ensures kids[i][1] < |pos| &&
            PresetSpec(kids, pos, rank, i)[kids[i][1]] == Point(pos[i].x + Spread, pos[i].y + Drop)
  {
    var left, right := kids[i][0], kids[i][1];
    assert left != right;
    var placed := PlaceChildren(pos, pos[i], left, right);
    PlaceDistinctChildren(pos, pos[i], left, right);
    var q := PresetSpec(kids, placed, rank, left);
    PresetUnfold(kids, pos, rank, i);
    SubtreesDisjoint(kids, parents, rank, i, right);
    PresetFrame(kids, placed, rank, left, right);
    PresetKeepsFather(kids, q, rank, right);
  }

  /** Together: the father stays put and its two children sit at the fixed
      offsets from it. */
  lemma PresetPlacesChildren(kids: seq<seq<nat>>, parents: seq<Option<nat>>, pos: seq<Point>,
                             rank: nat -> nat, i: nat)
    requires Linked(kids, parents) && |pos| == |kids| && Presettable(kids, rank, i)
    requires |kids[i]| > 0
    ensures EdgePlaced(PresetSpec(kids, pos, rank, i), kids, i)
  {
    PresetKeepsFather(kids, pos, rank, i);
    PresetPlacesLeft(kids, parents, pos, rank, i);
    PresetPlacesRight(kids, parents, pos, rank, i);
  }

  /** One step of `PresetSpec` on a node with children. */
  lemma PresetUnfold(kids: seq<seq<nat>>, pos: seq<Point>, rank: nat -> nat, i: nat)
    requires |pos| == |kids| && Presettable(kids, rank, i) && |kids[i]| > 0
    ensures kids[i][0] < |pos| && kids[i][1] < |pos|
    ensures PresetSpec(kids, pos, rank, i) ==
            PresetSpec(kids, PresetSpec(kids, PlaceChildren(pos, pos[i], kids[i][0], kids[i][1]), rank, kids[i][0]),
                       rank, kids[i][1])
  {
  }

  /** After `preset_child_coords(i)` on a linked arena, every edge of the
      subtree of `i` carries the offsets: each first child sits 90 left of
      and 30 below its father, each second child 90 right and 30 below. */
  lemma {:induction false} PresetPlacesSubtree(kids: seq<seq<nat>>, parents: seq<Option<nat>>, pos: seq<Point>,
                                               rank: nat -> nat, i: nat)
    requires Linked(kids, parents) && |pos| == |kids| && Presettable(kids, rank, i)
    ensures forall p: nat :: p < |kids| && Reaches(kids, rank, i, p) && |kids[p]| > 0 ==>
                          EdgePlaced(PresetSpec(kids, pos, rank, i), kids, p)
    decreases rank(i)
  {
    if |kids[i]| > 0 {
      var left, right := kids[i][0], kids[i][1];
      var p5 := PlaceChildren(pos, pos[i], left, right);
      var q := PresetSpec(kids, p5, rank, left);
      var r := PresetSpec(kids, q, rank, right);
      assert r == PresetSpec(kids, pos, rank, i);
      PresetPlacesSubtree(kids, parents, p5, rank, left);
      PresetPlacesSubtree(kids, parents, q, rank, right);
      forall p: nat | p < |kids| && Reaches(kids, rank, i, p) && |kids[p]| > 0
        ensures EdgePlaced(r, kids, p)
      {
        if p == i {
          PresetPlacesChildren(kids, parents, pos, rank, i);
        } else if Reaches(kids, rank, left, p) {
          assert EdgePlaced(q, kids, p);
          BelowRanks(kids, rank, i, p);
          var c0, c1 := kids[p][0], kids[p][1];
          ReachesTransitive(kids, rank, left, p, c0);
          ReachesTransitive(kids, rank, left, p, c1);
          forall z | z == p || z == c0 || z == c1
            ensures r[z] == q[z]
          {
            SubtreesDisjoint(kids, parents, rank, i, z);
            PresetFrame(kids, q, rank, right, z);
          }
        } else {
          assert Reaches(kids, rank, right, p);
        }
      }
    }
  }
}
