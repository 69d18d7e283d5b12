/** The unit tests of the library, as clients whose outcome is proved:
    a fresh node's event and `x` read back what was set. */
module ArenaTests {
  import opened Arena

  method CheckEvent() returns (e: Event)
    ensures e == Duplication
  {
    var tree := new ArenaTree<string>();
    var r := tree.NewNode("Test");
    var node := tree.arena[r.value];
    node.SetEvent(Duplication);
    e := node.e;
  }

  method CheckXNoRef() returns (x: int)
    ensures x == 10
  {
    var tree := new ArenaTree<string>();
    var r := tree.NewNode("Test");
    var node := tree.arena[r.value];
    node.SetXNoRef(10);
    x := node.x;
  }
}
