/** Where the two document variants part ways, on small concrete runs. */
module Divergence {
  import opened CrdtTypes
  import opened Siblings
  import opened Linear
  import ClientState
  import ServerState

  /** A null parent: the client files the character under `HEAD` and shows
      it; the server files it under the null key, which its DFS never
      visits. */
  lemma NullParentDiverges()
    ensures var c := CharNode('x', "x", None, true);
      && Linearize(ClientState.Insert(ClientState.Empty, c).tree) == ["x"]
      && Linearize(ServerState.Insert(ServerState.Fresh, c).tree) == []
      && ServerState.Insert(ServerState.Fresh, c).nullChildren == ["x"]
  {
    var c := CharNode('x', "x", None, true);
    assert Splice([], "x") == ["x"];
    ClientState.InsertTree(ClientState.Empty, c);
    var ct := ClientState.Insert(ClientState.Empty, c).tree;
    assert ct.Keys == {Head, "x"};
    assert ct[Head] == ["x"] && ct["x"] == [];
    assert |ct| == 2;
    assert Flatten(ct, "x", 1) == [];
    assert Linearize(ct) == FlattenAll(ct, ["x"], 1);
    var st := ServerState.Insert(ServerState.Fresh, c).tree;
    assert st.Keys == {Head, "x"} && st[Head] == [];
    assert |st| == 2;
    assert Linearize(st) == FlattenAll(st, [], 1);
  }

  /** A re-delivered insert: the client ignores it, the server lists the id a
      second time and shows its character twice. */
  lemma DuplicateDiverges()
    ensures var a := CharNode('a', "a", Some(Head), true);
      var c := ClientState.Insert(ClientState.Insert(ClientState.Empty, a), a);
      var s := ServerState.Insert(ServerState.Insert(ServerState.Fresh, a), a);
      && VisibleText(c.nodes, Linearize(c.tree)) == "a"
      && s.tree[Head] == ["a", "a"]
      && VisibleText(s.nodes, Linearize(s.tree)) == "aa"
  {
    DuplicateClient();
    DuplicateServer();
  }

  /** The client half: the second delivery is ignored. */
  lemma DuplicateClient()
    ensures var a := CharNode('a', "a", Some(Head), true);
      var c := ClientState.Insert(ClientState.Insert(ClientState.Empty, a), a);
      VisibleText(c.nodes, Linearize(c.tree)) == "a"
  {
    var a := CharNode('a', "a", Some(Head), true);
    assert Splice([], "a") == ["a"];
    ClientState.InsertTree(ClientState.Empty, a);
    var c := ClientState.Insert(ClientState.Empty, a);
    assert c.tree.Keys == {Head, "a"};
    assert c.tree[Head] == ["a"] && c.tree["a"] == [];
    assert Flatten(c.tree, "a", 1) == [];
    assert Linearize(c.tree) == FlattenAll(c.tree, ["a"], 1);
    assert VisibleText(c.nodes, ["a"]) == VisibleText(c.nodes, []) + "a";
  }

  /** The server half: the id is spliced in a second time. */
  lemma DuplicateServer()
    ensures var a := CharNode('a', "a", Some(Head), true);
      var s := ServerState.Insert(ServerState.Insert(ServerState.Fresh, a), a);
      && s.tree[Head] == ["a", "a"]
      && VisibleText(s.nodes, Linearize(s.tree)) == "aa"
  {
    var a := CharNode('a', "a", Some(Head), true);
    var s := ServerState.Insert(ServerState.Insert(ServerState.Fresh, a), a);
    DuplicateServerTree();
    TwiceListed(s.tree);
    TwiceShown(s.nodes);
  }

  /** A tree whose root lists `"a"` twice and nothing else linearizes to the
      two entries. */
  lemma TwiceListed(t: Tree)
    requires t.Keys == {Head, "a"} && t[Head] == ["a", "a"] && t["a"] == []
    ensures Linearize(t) == ["a", "a"]
  {
    assert |t| == 2 by {
      assert |t.Keys| == |{Head, "a"}|;
    }
    assert Flatten(t, "a", 1) == [];
    assert FlattenAll(t, ["a"], 1) == ["a"];
    assert ["a", "a"][1..] == ["a"];
    assert Linearize(t) == FlattenAll(t, ["a", "a"], 1);
  }

  /** A visible `'a'` listed twice reads as "aa". */
  lemma TwiceShown(nodes: map<string, CharNode>)
    requires "a" in nodes && nodes["a"] == CharNode('a', "a", Some(Head), true)
    ensures VisibleText(nodes, ["a", "a"]) == "aa"
  {
    assert ["a", "a"][..1] == ["a"];
    assert VisibleText(nodes, ["a"]) == VisibleText(nodes, []) + "a";
  }

  /** The server tree after the two deliveries. */
  lemma DuplicateServerTree()
    ensures var a := CharNode('a', "a", Some(Head), true);
      var s := ServerState.Insert(ServerState.Insert(ServerState.Fresh, a), a);
      && s.tree.Keys == {Head, "a"} && s.tree[Head] == ["a", "a"] && s.tree["a"] == []
      && s.nodes == map[Head := HeadNode, "a" := a]
  {
    var a := CharNode('a', "a", Some(Head), true);
    assert Splice([], "a") == ["a"];
    assert !JavaStrings.Less("a", "a") by {
      JavaStrings.LessIrreflexive("a");
    }
    assert SpliceIndex(["a"], "a") == 0;
    assert Splice(["a"], "a") == ["a", "a"];
    var s1 := ServerState.Insert(ServerState.Fresh, a);
    ServerState.InsertTree(ServerState.Fresh, a);
    assert s1.tree.Keys == {Head, "a"};
    assert s1.tree[Head] == ["a"] && s1.tree["a"] == [];
    ServerState.InsertTree(s1, a);
  }

  /** A re-delivered insert after a delete: the client keeps the tombstone,
      so nothing shows; the server indexes the visible copy it receives and
      lists the id a second time under `HEAD`. Java's server keeps the
      hidden first object beside the new one and shows "a"; with characters
      as values both entries read the indexed, visible copy, so the model
      shows "aa". */
  lemma TombstoneDiverges()
    ensures var a := CharNode('a', "a", Some(Head), true);
      var c := ClientState.Insert(ClientState.Delete(ClientState.Insert(ClientState.Empty, a), "a"), a);
      var s := ServerState.Insert(ServerState.Delete(ServerState.Insert(ServerState.Fresh, a), "a"), a);
      && !c.nodes["a"].visible && VisibleText(c.nodes, Linearize(c.tree)) == ""
      && s.nodes["a"].visible && s.tree[Head] == ["a", "a"]
      && VisibleText(s.nodes, Linearize(s.tree)) == "aa"
  {
    TombstoneClient();
    TombstoneServer();
  }

  /** The client half: the second delivery is ignored and the tombstone
      stays. */
  lemma TombstoneClient()
    ensures var a := CharNode('a', "a", Some(Head), true);
      var c := ClientState.Insert(ClientState.Delete(ClientState.Insert(ClientState.Empty, a), "a"), a);
      && !c.nodes["a"].visible && VisibleText(c.nodes, Linearize(c.tree)) == ""
  {
    var a := CharNode('a', "a", Some(Head), true);
    assert Splice([], "a") == ["a"];
    ClientState.InsertTree(ClientState.Empty, a);
    var c1 := ClientState.Insert(ClientState.Empty, a);
    assert c1.tree.Keys == {Head, "a"};
    assert c1.tree[Head] == ["a"] && c1.tree["a"] == [];
    var c := ClientState.Insert(ClientState.Delete(c1, "a"), a);
    assert c.tree == c1.tree && c.nodes["a"] == a.(visible := false);
    assert Flatten(c.tree, "a", 1) == [];
    assert Linearize(c.tree) == FlattenAll(c.tree, ["a"], 1);
    assert VisibleText(c.nodes, ["a"]) == VisibleText(c.nodes, []);
  }

  /** The server half. In the model the delete changes only the indexed
      value, which the second insert overwrites, so the run ends where two
      plain inserts do: the id listed twice, indexed as visible, and read
      twice as "aa". (In Java the delete hides the first object itself, which
      stays listed, so the text there is "a".) */
  lemma TombstoneServer()
    ensures var a := CharNode('a', "a", Some(Head), true);
      var s := ServerState.Insert(ServerState.Delete(ServerState.Insert(ServerState.Fresh, a), "a"), a);
      && s.nodes["a"].visible && s.tree[Head] == ["a", "a"]
      && VisibleText(s.nodes, Linearize(s.tree)) == "aa"
  {
    var a := CharNode('a', "a", Some(Head), true);
    var s1 := ServerState.Insert(ServerState.Fresh, a);
    assert ServerState.Insert(ServerState.Delete(s1, "a"), a) == ServerState.Insert(s1, a);
    DuplicateServer();
  }

  /** An orphan that arrives before its parent: the client keeps the child
      list the orphan created, so the orphan shows once the parent arrives;
      the server replaces that list and the orphan, though indexed, never
      shows. */
  lemma OrphanDiverges()
    ensures var b := CharNode('b', "b", Some("a"), true);
      var a := CharNode('a', "a", Some(Head), true);
      var c := ClientState.Insert(ClientState.Insert(ClientState.Empty, b), a);
      var s := ServerState.Insert(ServerState.Insert(ServerState.Fresh, b), a);
      && Linearize(c.tree) == ["a", "b"]
      && Linearize(s.tree) == ["a"]
      && "b" in s.nodes
  {
    var b := CharNode('b', "b", Some("a"), true);
    var a := CharNode('a', "a", Some(Head), true);
    assert Splice([], "a") == ["a"] && Splice([], "b") == ["b"];
    ClientState.InsertTree(ClientState.Empty, b);
    var c1 := ClientState.Insert(ClientState.Empty, b);
    assert c1.tree.Keys == {Head, "a", "b"};
    assert c1.tree[Head] == [] && c1.tree["a"] == ["b"];
    ClientState.InsertTree(c1, a);
    var c := ClientState.Insert(c1, a);
    ClientOrphanLinear(c.tree);
    ServerState.InsertTree(ServerState.Fresh, b);
    var s1 := ServerState.Insert(ServerState.Fresh, b);
    assert s1.tree.Keys == {Head, "a", "b"};
    assert s1.tree[Head] == [];
    ServerState.InsertTree(s1, a);
    var s := ServerState.Insert(s1, a);
    ServerOrphanLinear(s.tree);
  }

  lemma ClientOrphanLinear(t: Tree)
    requires t.Keys == {Head, "a", "b"}
    requires t[Head] == ["a"] && t["a"] == ["b"] && t["b"] == []
    ensures Linearize(t) == ["a", "b"]
  {
    assert |t| == 3;
    assert Flatten(t, "b", 1) == [];
    assert FlattenAll(t, ["b"], 1) == ["b"];
    assert Flatten(t, "a", 2) == ["b"];
    assert FlattenAll(t, ["a"], 2) == ["a", "b"];
  }

  lemma ServerOrphanLinear(t: Tree)
    requires t.Keys == {Head, "a", "b"}
    requires t[Head] == ["a"] && t["a"] == []
    ensures Linearize(t) == ["a"]
  {
    assert |t| == 3;
    assert Flatten(t, "a", 2) == [];
    assert FlattenAll(t, ["a"], 2) == ["a"];
  }
}
