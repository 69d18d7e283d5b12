/** The arena tree store: an append-only vector of nodes in which a node's
    identity is its position, with the two coordinate-assignment routines
    that write into it. */
module Arena {
  import opened Wrappers
  import opened Coords

  /** The events a gene-tree node can carry (`Undef` is the default). */
  datatype Event = Speciation | Duplication | Loss | Transfer | Undef

  /** A node of the arena. `idx` and `val` are private in the source and
      set only when the node is created, so they are constants here. */
  class Node<T> {
    const idx: nat
    const val: T
    var name: string
    var parent: Option<nat>
    var children: seq<nat>
    var x: int
    var y: int
    var e: Event

    /** The state `Node::new(idx, val)` creates. */
    ghost predicate HasInitialFields(i: nat, v: T)
      reads this
    {
      idx == i && val == v && name == "Undefined" && parent == None &&
      children == [] && x == 0 && y == 0 && e == Undef
    }

    constructor (idx: nat, val: T)
      ensures HasInitialFields(idx, val)
    {
      this.idx := idx;
      this.val := val;
      name := "Undefined";
      parent := None;
      children := [];
      x := 0;
      y := 0;
      e := Undef;
    }

    function GetVal(): T
    {
      val
    }

    function GetX(): int
      reads this
    {
      x
    }

    function GetY(): int
      reads this
    {
      y
    }

    function GetCoords(): (int, int)
      reads this
    {
      (x, y)
    }

    function GetEvent(): Event
      reads this
    {
      e
    }

    /** `set_x` takes the value by reference; there are no references to
        integers here, so it and `set_x_noref` coincide. */
    method SetX(x: int)
      modifies this`x
      ensures GetX() == x
    {
      this.x := x;
    }

    method SetXNoRef(x: int)
      modifies this`x
      ensures GetX() == x
    {
      this.x := x;
    }

    method SetY(y: int)
      modifies this`y
      ensures GetY() == y
    {
      this.y := y;
    }

    method SetYNoRef(y: int)
      modifies this`y
      ensures GetY() == y
    {
      this.y := y;
    }

    method SetEvent(e: Event)
      modifies this`e
      ensures GetEvent() == e
    {
      this.e := e;
    }
  }

  /** The first position in `s` whose node carries payload `v`: what the
      scans of `node` and `new_node` look for. */
  function FirstWithVal<T(==)>(s: seq<Node<T>>, v: T): (r: Option<nat>)
    ensures r.Some? ==> r.value < |s| && s[r.value].val == v &&
                        forall j :: 0 <= j < r.value ==> s[j].val != v
    ensures r.None? ==> forall j :: 0 <= j < |s| ==> s[j].val != v
  {
    if |s| == 0 then None
    else if s[0].val == v then Some(0)
    else match FirstWithVal(s[1..], v)
      case None => None
      case Some(k) => Some(k + 1)
  }

  /** The panic of `new_node`, as an error value. */
  datatype ArenaError = NodeExists

  class ArenaTree<T(==)> {
    var arena: seq<Node<T>>

    /** A node's identity is its position. Because `idx` is fixed when a
        node is made, this also keeps two positions from sharing a node. */
    ghost predicate Valid()
      reads this
    {
      forall i :: 0 <= i < |arena| ==> arena[i].idx == i
    }

    /** `ArenaTree::default()`: the empty arena. */
    constructor ()
      ensures Valid() && arena == []
    {
      arena := [];
    }

    /** Appends `Node::new(len, val)` and returns `len`. */
    method Append(val: T) returns (idx: nat)
      requires Valid()
      modifies this
      ensures Valid()
      ensures idx == |old(arena)| && |arena| == idx + 1 && arena == old(arena) + [arena[idx]]
      ensures fresh(arena[idx]) && arena[idx].HasInitialFields(idx, val)
    {
      idx := |arena|;
      var n := new Node(idx, val);
      arena := arena + [n];
    }

    /** `node(val)`: get-or-insert. An existing node with this payload is
        returned unchanged; otherwise exactly one node is appended. */
    method GetOrAddNode(val: T) returns (idx: nat)
      requires Valid()
      modifies this
      ensures Valid()
      ensures match FirstWithVal(old(arena), val)
        case Some(k) => idx == k && arena == old(arena)
        case None => idx == |old(arena)| && |arena| == idx + 1 && arena == old(arena) + [arena[idx]] &&
                     fresh(arena[idx]) && arena[idx].HasInitialFields(idx, val)
      ensures FirstWithVal(arena, val) == Some(idx)
    {
      var k := 0;
      while k < |arena|
        invariant k <= |arena|
        invariant forall j :: 0 <= j < k ==> arena[j].val != val
      {
        if arena[k].val == val {
          return arena[k].idx;
        }
        k := k + 1;
      }
      idx := Append(val);
    }

    /** `new_node(val)`: strict insert. The source panics when the payload
        is already present; here that is `Failure(NodeExists)` with the
        arena left as it was. */
    method NewNode(val: T) returns (r: Result<nat, ArenaError>)
      requires Valid()
      modifies this
      ensures Valid()
      ensures FirstWithVal(old(arena), val).Some? ==> r == Failure(NodeExists) && arena == old(arena)
      ensures FirstWithVal(old(arena), val).None? ==>
                r == Success(|old(arena)|) && |arena| == r.value + 1 && arena == old(arena) + [arena[r.value]] &&
                fresh(arena[r.value]) && arena[r.value].HasInitialFields(r.value, val)
    {
      var k := 0;
      while k < |arena|
        invariant k <= |arena|
        invariant forall j :: 0 <= j < k ==> arena[j].val != val
      {
        if arena[k].val == val {
          return Failure(NodeExists);
        }
        k := k + 1;
      }
      var idx := Append(val);
      r := Success(idx);
    }

    /** `get_root`: the index of the first node without a parent, or 0 when
        every node has one (in particular for an empty arena). */
    method GetRoot() returns (root: nat)
      requires Valid()
      ensures (exists k :: 0 <= k < |arena| && arena[k].parent == None) ==>
                root < |arena| && arena[root].parent == None &&
                forall j :: 0 <= j < root ==> arena[j].parent != None
      ensures (forall k :: 0 <= k < |arena| ==> arena[k].parent != None) ==> root == 0
    {
      var k := 0;
      while k < |arena|
        invariant k <= |arena|
        invariant forall j :: 0 <= j < k ==> arena[j].parent != None
      {
        if arena[k].parent == None {
          return arena[k].idx;
        }
        k := k + 1;
      }
      return 0;
    }
  }

  /** Calling `node(v)` a second time returns the index of the first call,
      and that index is the first one holding `v`. */
  method GetOrAddTwice<T(==)>(tree: ArenaTree<T>, v: T) returns (first: nat, second: nat)
    requires tree.Valid()
    modifies tree
    ensures tree.Valid() && FirstWithVal(tree.arena, v) == Some(first)
    ensures first == second
  {
    first := tree.GetOrAddNode(v);
    ghost var after := tree.arena;
    second := tree.GetOrAddNode(v);
    assert tree.arena == after;
  }

  /** The coordinates of every node, position by position. */
  ghost function Positions<T>(s: seq<Node<T>>): (r: seq<Point>)
    reads s
  {
    seq(|s|, i requires 0 <= i < |s| reads s => Point(s[i].x, s[i].y))
  }

  /** The children lists of every node, position by position. */
  ghost function Kids<T>(s: seq<Node<T>>): (r: seq<seq<nat>>)
    reads s
  {
    seq(|s|, i requires 0 <= i < |s| reads s => s[i].children)
  }

  /** The parent links of every node, position by position. */
  ghost function Parents<T>(s: seq<Node<T>>): (r: seq<Option<nat>>)
    reads s
  {
    seq(|s|, i requires 0 <= i < |s| reads s => s[i].parent)
  }

  /** Only coordinates changed: names, parents, children and events are as
      they were. */
  twostate predicate StructureUnchanged<T>(s: seq<Node<T>>)
    reads s
  {
    forall n: Node<T> | n in s :: unchanged(n`name, n`parent, n`children, n`e)
  }

  /** Children lists are part of the structure: when it is unchanged, so
      are they. */
  twostate lemma KidsUnchanged<T>(s: seq<Node<T>>)
    requires StructureUnchanged(s)
    ensures Kids(s) == old(Kids(s))
  {
    forall i | 0 <= i < |s|
      ensures Kids(s)[i] == old(Kids(s))[i]
    {
      assert s[i] in s;
    }
  }

  /** `set_tree_coords`: places the nodes on a line by index. The source
      reads `arena[0]` before it compares the count with the length, so an
      empty arena panics; the loop is its `loop { ... if count == len { break } }`. */
  method SetTreeCoords(tree: ArenaTree<string>)
    requires tree.Valid() && |tree.arena| > 0
    modifies tree.arena
    ensures forall i :: 0 <= i < |tree.arena| ==> Point(tree.arena[i].x, tree.arena[i].y) == TreeCoordsAt(i)
    ensures StructureUnchanged(tree.arena)
  {
    var length := |tree.arena|;
    var count := 0;
    while true
      invariant 0 <= count < length
      invariant forall i :: 0 <= i < count ==> tree.arena[i].x == 30 * i && tree.arena[i].y == 15 * i + 30
      invariant StructureUnchanged(tree.arena)
      decreases length - count
    {
      tree.arena[count].SetYNoRef(15);
      tree.arena[count].SetYNoRef(15 * count + 30);
      tree.arena[count].SetXNoRef(30 * count);
      count := count + 1;
      if count == length {
        break;
      }
    }
  }

  /** The `x` writes `preset_child_coords` makes on its two sons. */
  method SpreadSons(tree: ArenaTree<string>, sonLeft: nat, sonRight: nat, xFather: int)
    requires tree.Valid() && sonLeft < |tree.arena| && sonRight < |tree.arena|
    modifies tree.arena[sonLeft], tree.arena[sonRight]
    ensures StructureUnchanged(tree.arena)
    ensures Positions(tree.arena) == SpreadChildren(old(Positions(tree.arena)), xFather, sonLeft, sonRight)
  {
    ghost var pos := Positions(tree.arena);
    var left, right := tree.arena[sonLeft], tree.arena[sonRight];
    left.SetXNoRef(xFather - 90);
    right.SetXNoRef(xFather + 90);
    if right.x <= left.x + 90 {
      left.SetXNoRef(xFather - 120);
      right.SetXNoRef(xFather + 120);
    }
    ghost var spread := SpreadChildren(pos, xFather, sonLeft, sonRight);
    forall i | 0 <= i < |tree.arena|
      ensures Positions(tree.arena)[i] == spread[i]
    {
      if i != sonLeft && i != sonRight {
        assert tree.arena[i] != left && tree.arena[i] != right;
      }
    }
  }

  /** The `y` writes `preset_child_coords` makes on its two sons. */
  method DropSons(tree: ArenaTree<string>, sonLeft: nat, sonRight: nat, yFather: int)
    requires tree.Valid() && sonLeft < |tree.arena| && sonRight < |tree.arena|
    modifies tree.arena[sonLeft], tree.arena[sonRight]
    ensures StructureUnchanged(tree.arena)
    ensures Positions(tree.arena) == DropChildren(old(Positions(tree.arena)), yFather, sonLeft, sonRight)
  {
    ghost var pos := Positions(tree.arena);
    var left, right := tree.arena[sonLeft], tree.arena[sonRight];
    left.SetYNoRef(yFather + 30);
    right.SetYNoRef(yFather + 30);
    ghost var dropped := DropChildren(pos, yFather, sonLeft, sonRight);
    forall i | 0 <= i < |tree.arena|
      ensures Positions(tree.arena)[i] == dropped[i]
    {
      if i != sonLeft && i != sonRight {
        assert tree.arena[i] != left && tree.arena[i] != right;
      }
    }
  }

  /** `preset_child_coords(tree, index)`: places the first two children of
      `index` at fixed offsets from it and recurses into both. `rank` is a
      ghost witness that the recursion terminates. */
  method PresetChildCoords(tree: ArenaTree<string>, index: nat, ghost rank: nat -> nat)
    requires tree.Valid() && Presettable(Kids(tree.arena), rank, index)
    modifies tree.arena
    ensures Kids(tree.arena) == old(Kids(tree.arena))
    ensures StructureUnchanged(tree.arena)
    ensures Positions(tree.arena) == PresetSpec(old(Kids(tree.arena)), old(Positions(tree.arena)), rank, index)
    decreases rank(index)
  {
    ghost var pos := Positions(tree.arena);
    var xFather := tree.arena[index].x;
    var yFather := tree.arena[index].y;
    var children := tree.arena[index].children;
    if |children| > 0 {
      var sonLeft := children[0];
      var sonRight := children[1];
      SpreadSons(tree, sonLeft, sonRight, xFather);
      DropSons(tree, sonLeft, sonRight, yFather);
      KidsUnchanged(tree.arena);
      assert Positions(tree.arena) == PlaceChildren(pos, pos[index], sonLeft, sonRight);
      PresetChildCoords(tree, sonLeft, rank);
      PresetChildCoords(tree, sonRight, rank);
    }
  }

  /** What a caller of `preset_child_coords` obtains on an arena whose
      children lists and parent links agree (`Linked`): after the call,
      every node of the subtree of `index` that has children sits 90 right
      of its first child and 90 left of its second, both 30 below it. */
  method PresetChildCoordsLinked(tree: ArenaTree<string>, index: nat, ghost rank: nat -> nat)
    requires tree.Valid() && Presettable(Kids(tree.arena), rank, index)
    requires Linked(Kids(tree.arena), Parents(tree.arena))
    modifies tree.arena
    ensures Kids(tree.arena) == old(Kids(tree.arena))
    ensures StructureUnchanged(tree.arena)
    ensures forall j :: 0 <= j < |tree.arena| && !Below(Kids(tree.arena), rank, index, j) ==>
                     Positions(tree.arena)[j] == old(Positions(tree.arena))[j]
    ensures forall p: nat :: p < |tree.arena| && Reaches(Kids(tree.arena), rank, index, p) && |Kids(tree.arena)[p]| > 0 ==>
                          EdgePlaced(Positions(tree.arena), Kids(tree.arena), p)
  {
    ghost var kids := Kids(tree.arena);
    ghost var parents := Parents(tree.arena);
    ghost var pos := Positions(tree.arena);
    PresetChildCoords(tree, index, rank);
    PresetPlacesSubtree(kids, parents, pos, rank, index);
    forall j | 0 <= j < |tree.arena| && !Below(kids, rank, index, j)
      ensures Positions(tree.arena)[j] == pos[j]
    {
      PresetFrame(kids, pos, rank, index, j);
    }
  }
}
