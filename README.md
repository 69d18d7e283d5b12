# rectree2svg arena and input-format detection, in Dafny

This project models two small parts of `rectree2svg`, a Rust program that
reads phylogenetic trees (Newick, phyloXML, recPhyloXML) and draws them as
SVG:

- **The arena tree store** (`src/arena.rs`). A tree is an `ArenaTree`, an
  append-only vector of `Node`s. A node's identity is its position in the
  vector. `node(val)` finds the node with a payload or appends a new one.
  `new_node(val)` appends and panics on a duplicate payload. `get_root`
  returns the first node with no parent. Two routines assign coordinates in
  place: `set_tree_coords` places the nodes on a line by index, and
  `preset_child_coords` places the first two children of each node at fixed
  offsets below their father, recursively.
- **Input-format detection** (`src/main.rs`). `main` takes the suffix of
  the input name from its last `.` and maps `.xml`/`.phyloxml` to phyloXML,
  `.recphyloxml`/`.recphylo` to recPhyloXML, and everything else to Newick.
  Here that `match` is the pure function `FileFormat.DetectFormat`.

Files:

- `wrappers.dfy`: `Option` and `Result`.
- `coords.dfy` (module `Coords`): the two coordinate routines of `src/arena.rs`
  stated on values (not the program's layout passes, which are left out).
  It holds the positions `Point`, the function `PresetSpec` that specifies
  `preset_child_coords`, the shape predicates (`Presettable`, `Below`,
  `Reaches`, `Linked`) and the lemmas about them.
- `arena.dfy` (module `Arena`): `Event`, the classes `Node` and
  `ArenaTree`, and the methods `SetTreeCoords` and `PresetChildCoords`. The
  methods write node fields in place through the node setters.
- `arena_tests.dfy` (module `ArenaTests`): the two unit tests of
  `src/lib.rs`, written as clients whose result is proved.
- `format.dfy` (module `FileFormat`): format detection.

Modelling choices:

- `Node` is a class because its setters update fields in place. Its `idx`
  and `val` are private in Rust and set only by `Node::new`, so here they
  are `const`. Each setter's frame is the one field it writes
  (`modifies this`x`). So "changes only its own field" is enforced by the
  frame, and the `ensures` states the read-back.
- `ArenaTree.Valid()` is the invariant `arena[i].idx == i`. Because `idx`
  is fixed when a node is made, it also means no two positions share a node
  object, which matches Rust's `Vec` owning its nodes.
- Coordinates are `int`, not `f32`. Every constant the routines use (15,
  30, 90, 120) is an integer. With exact arithmetic the widening branch of
  `preset_child_coords` is dead when the two children are distinct nodes.
- The panic of `new_node` on an existing payload is returned as
  `Failure(NodeExists)`, and the arena is left unchanged.
- `preset_child_coords` recurses through `children[0]` and `children[1]`
  only, as the code does. A node on its path that has one child would
  panic, and so would an index outside the arena. The ghost predicate
  `Presettable` rules both out. Its ghost argument `rank` witnesses that
  the recursion terminates: it decreases from each node to its first two
  children.
- `Linked` is the shape the tree builders leave behind. Every listed child
  is an arena index, its `parent` names the node that lists it, and no
  node lists a child twice. The placement lemmas assume it. Without it, a
  node listed twice as a child does trigger the widening branch, and the
  model follows the code there too (`Coords.PlaceRepeatedChild`).
- `Event` has the five variants declared at src/arena.rs:137-143
  (`Speciation`, `Duplication`, `Loss`, `Transfer`, `Undef`).
  `Event::default()` is `Undef`, and `Node::new` uses that value.
- Rust's `rfind` returns a byte offset. Here positions count characters.
  The searched character `.` is ASCII, so the suffix taken from it is the
  same.
- The getters (`get_val`, `get_x`, `get_y`, `get_coords`, `get_event`) are
  plain field reads (`Node.GetVal` … `Node.GetEvent`).

## Model

| member | source | states |
|---|---|---|
| `Arena.Node.constructor` | src/arena.rs:34-45 | `Node::new(idx, val)` gives the node those `idx` and `val`, the name "Undefined", no parent, no children, `x = y = 0` and event `Undef`. |
| `Arena.Node.GetVal` | src/arena.rs:46-48 | `get_val` returns the payload; the body is the read of the `const` field `val`. |
| `Arena.Node.GetX` | src/arena.rs:49-51 | `get_x` returns `x`; the body is the field read, and each `x` setter's `ensures` is stated through it. |
| `Arena.Node.GetY` | src/arena.rs:52-54 | `get_y` returns `y`; the body is the field read, and each `y` setter's `ensures` is stated through it. |
| `Arena.Node.GetCoords` | src/arena.rs:55-57 | `get_coords` returns the pair `(x, y)`; the body is the two field reads. |
| `Arena.Node.GetEvent` | src/arena.rs:75-77 | `get_event` returns `e`; the body is the field read, through which `SetEvent`'s `ensures` is stated. |
| `Arena.Node.SetX` | src/arena.rs:59-62 | Writes only the node's `x`; `get_x` then returns the value given. |
| `Arena.Node.SetXNoRef` | src/arena.rs:63-66 | Writes only `x`; the value reads back (the `check_x_noref` test). |
| `Arena.Node.SetY` | src/arena.rs:67-70 | Writes only `y`; `get_y` then returns the value given. |
| `Arena.Node.SetYNoRef` | src/arena.rs:71-74 | Writes only `y`; the value reads back. |
| `Arena.Node.SetEvent` | src/arena.rs:78-81 | Writes only the event `e`; `get_event` then returns it. |
| `Arena.FirstWithVal` | src/arena.rs:91-95 | The scan over the arena for a payload: when it finds one, the position holds that payload and no earlier position does. When it finds none, no position holds the payload. |
| `Arena.ArenaTree.constructor` | src/arena.rs:22-28 | `ArenaTree::default()` is the empty arena, and it satisfies the invariant `arena[i].idx == i`. |
| `Arena.ArenaTree.Append` | src/arena.rs:97-99 | Pushing `Node::new(len, val)` grows the arena by exactly one fresh node whose `idx` is the old length. Earlier nodes stay where they were, so the invariant holds. |
| `Arena.ArenaTree.GetOrAddNode` | src/arena.rs:89-100 | When a node has the payload, `node` returns the first such node's index and leaves the arena unchanged. Otherwise it appends one initial node and returns the old length. Either way that index is then the first one holding the payload. |
| `Arena.GetOrAddTwice` | src/arena.rs:89-100 | Calling `node(v)` twice returns the same index both times (idempotence). |
| `Arena.ArenaTree.NewNode` | src/arena.rs:101-113 | An existing payload is an error (the panic), and the arena is unchanged. Otherwise exactly one node is appended at the old length and the old length is returned. |
| `Arena.ArenaTree.GetRoot` | src/arena.rs:115-127 | Read-only. Returns the lowest index whose node has no parent, and 0 when every node has one (an empty arena included). |
| `Arena.SetTreeCoords` | src/arena.rs:181-195 | On a non-empty arena (an empty one panics at `arena[0]`), every node `i` ends at `x = 30*i`, `y = 15*i + 30`: the first `y = 15` write is overwritten. Names, parents, children and events are unchanged. |
| `Coords.TreeCoordsAt` | src/arena.rs:186-188 | The closed form of the last writes `set_tree_coords` makes on node `i`: `(30*i, 15*i + 30)`. `Arena.SetTreeCoords` is proved against it. |
| `Coords.TreeCoordsSeparate` | src/arena.rs:186-188 | The positions `set_tree_coords` assigns are pairwise distinct, and strictly increasing in both `x` and `y` with the index. |
| `Arena.SpreadSons` | src/arena.rs:205-211 | The `x` writes on the two sons, done in place through the setter, give the positions `Coords.SpreadChildren` gives. Nothing else changes. |
| `Arena.DropSons` | src/arena.rs:212-213 | The two `y` writes give the positions `Coords.DropChildren` gives. Nothing else changes. |
| `Arena.PresetChildCoords` | src/arena.rs:196-216 | The in-place recursion changes only coordinates. The new positions are `Coords.PresetSpec` of the old ones. |
| `Arena.PresetChildCoordsLinked` | src/arena.rs:196-216 | A caller's view of `preset_child_coords` on an arena whose children lists and parent links agree (`Linked` of `Kids` and `Parents`). Children lists, names, parents and events are unchanged, and every node outside the strict subtree of `index`, `index` included, keeps its position. Afterwards every node of the subtree that has children sits 90 right of its first child and 90 left of its second, and both children sit 30 below it. |
| `Coords.SpreadChildren` | src/arena.rs:205-211 | Sets the children's `x` in the source's order, including the widening branch whose guard reads the values just written. No other position changes. |
| `Coords.DropChildren` | src/arena.rs:212-213 | Sets both children's `y`; no other position changes. |
| `Coords.PlaceChildren` | src/arena.rs:205-213 | All writes before the recursion; only the two children's positions change. |
| `Coords.PlaceDistinctChildren` | src/arena.rs:205-213 | For two distinct children the widening guard `xf + 90 <= xf` is false. The first child ends at `(xf - 90, yf + 30)` and the second at `(xf + 90, yf + 30)`. |
| `Coords.PlaceRepeatedChild` | src/arena.rs:203-213 | When `children[0] == children[1]` the guard holds, and that one child ends at `(xf + 120, yf + 30)`. |
| `Coords.PresetSpec` | src/arena.rs:196-216 | The positions after `preset_child_coords(i)`: the placement writes, then the recursion into the first child, then into the second. The arena's length is kept. |
| `Coords.PresetFrame` | src/arena.rs:196-216 | Every node that is not a strict descendant of `i` keeps its position. |
| `Coords.PresetKeepsFather` | src/arena.rs:197-213 | The node `i` itself keeps its coordinates. |
| `Coords.UniqueFather` | src/arena.rs:13-14 | In a linked arena, two nodes that both list `j` as a child are the same node. |
| `Coords.SubtreesDisjoint` | src/arena.rs:214-215 | In a linked arena no node lies in the subtrees of both children. So the second recursive call cannot undo the first. |
| `Coords.PresetPlacesLeft` | src/arena.rs:203-214 | In a linked arena the first child ends at `(xf - 90, yf + 30)`. |
| `Coords.PresetPlacesRight` | src/arena.rs:204-215 | In a linked arena the second child ends at `(xf + 90, yf + 30)`. |
| `Coords.PresetPlacesChildren` | src/arena.rs:196-216 | Both of the above hold for the node `i`, and the father keeps its own position. |
| `Coords.PresetPlacesSubtree` | src/arena.rs:196-216 | In a linked arena, after the call every node of the subtree that has children is 90 right of its first child and 90 left of its second. Both children sit 30 below it. |
| `ArenaTests.CheckEvent` | src/lib.rs:61-68 | A new node with its event set to `Duplication` reads back `Duplication`. |
| `ArenaTests.CheckXNoRef` | src/lib.rs:70-78 | A new node with `x` set to 10 reads back 10. |
| `FileFormat.LastIndexOf` | src/main.rs:96 | `rfind`: no result exactly when the character is absent. Otherwise it is a position of the character with no occurrence after it. |
| `FileFormat.Suffix` | src/main.rs:96-100 | `filename[dot..]` is a tail of the name that starts with `.` and has no other `.`. There is none exactly when the name has no `.`. |
| `FileFormat.FormatOfSuffix` | src/main.rs:102-108 | The inner `match suffix`: Phyloxml exactly for `.xml` and `.phyloxml`, Recphyloxml exactly for `.recphyloxml` and `.recphylo`, Newick for every other suffix. |
| `FileFormat.DetectFormat` | src/main.rs:94-110 | The format `main` chooses. A Phyloxml answer implies the name ends with `.xml` or `.phyloxml`, and a Recphyloxml answer implies it ends with `.recphyloxml` or `.recphylo`. The converse directions are the `Detect…` lemmas below. |
| `FileFormat.NoDotIsNewick` | src/main.rs:96-98 | A name without `.` is Newick. |
| `FileFormat.EndsWithDotWord` | src/main.rs:96-100 | For an extension with a single leading `.`, the name ends with it exactly when it is the suffix from the last `.`. |
| `FileFormat.DetectPhyloxml` | src/main.rs:102-104 | The result is Phyloxml exactly when the name ends with `.xml` or `.phyloxml` (exact, case-sensitive). |
| `FileFormat.DetectRecphyloxml` | src/main.rs:105-106 | The result is Recphyloxml exactly when the name ends with `.recphyloxml` or `.recphylo`. |
| `FileFormat.DetectNewick` | src/main.rs:97-110 | Every other name is Newick. Detection is total. |
| `FileFormat.LastExtensionDecides` | src/main.rs:96-100 | Only the final extension matters: a prefix before a name that has a `.` does not change the format. So `a.xml.txt` is Newick. |

## Left out

- `taxo2tree` (src/arena.rs:150-178): it is driven by calls into the external `taxonomy` crate and by `println!`, whose behaviour is not part of this model.
- `set_coords` (src/arena.rs:128-131): an empty stub with no effect.
- `println!` in `preset_child_coords` (src/arena.rs:199): console output.
- `f32` arithmetic: coordinates are exact integers. With `f32`, a huge `xf` could make the widening guard fire through rounding; that case is not modelled.
- `Arena.PresetChildCoords`: its contract ties the new positions to `Coords.PresetSpec`. The frame and placement properties are lemmas about `PresetSpec`, and are not repeated in the method's `ensures`. `Arena.PresetChildCoordsLinked` restates the frame and placement properties for a linked arena.
- The rest of `src/main.rs`: option parsing, logging, file reading, XML and Newick parsing, `process::exit`. They are I/O or external parsers. `Format` is modelled together with its detection only.
- The layout passes that `main.rs` imports and `lib.rs` re-exports (`xml2tree`, `newick2tree`, `find_first_clade`, `knuth_layout`, `cladogramme`, `check_contour_postorder`, `shift_mod_x`/`shift_mod_xy`, `set_middle_postorder`, the mapping and LCA functions, `Options`, `Noeud`). Their definitions are not in this version of `src/arena.rs`, so they are not part of this model.
- `src/drawing.rs` and `src/svg.rs`: SVG output through external crates.
- Recursion depth: the source recurses without bound and would overflow the stack on deep or cyclic input. The model requires a finite, acyclic path (the `rank` witness).
