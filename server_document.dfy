/** The server `CRDTDocument` as an object whose index and tree the
    operations update in place, proved to follow `ServerState`. Ghost insert
    stamps witness that its tree never has a cycle, so both of its DFS walks
    end. */
module ServerDocument {
  import opened CrdtTypes
  import opened Siblings
  import opened Linear
  import opened ServerState

  class Document {
    /** `idMap` */
    var nodes: map<string, CharNode>
    /** `tree`, without its null key */
    var tree: Tree
    /** `tree.get(null)`: the children of characters with a null parent */
    var nullChildren: seq<string>
    /** When each key of `tree` was last inserted */
    ghost var stamps: map<string, nat>
    /** The number of inserts so far */
    ghost var clock: nat

    ghost function State(): ServerDoc
      reads this`nodes, this`tree, this`nullChildren
    {
      ServerDoc(nodes, tree, nullChildren)
    }

    ghost predicate Valid()
      reads this
    {
      Wf(State()) && Stamped(tree, stamps, clock)
    }

    constructor()
      ensures Valid() && State() == Fresh
    {
      nodes := map[Head := HeadNode];
      tree := map[Head := []];
      nullChildren := [];
      stamps := map[Head := 0];
      clock := 0;
    }

    /** `insert(newChar)`: no duplicate check; returns its argument. */
    method Insert(newChar: CharNode) returns (r: CharNode)
      requires Valid()
      modifies this
      ensures Valid() && State() == ServerState.Insert(old(State()), newChar)
      ensures r == newChar
    {
      InsertCharacter(newChar);
      r := newChar;
    }

    /** `insertCharacter(newChar)`; the ghost stamps record the insert. */
    method InsertCharacter(newChar: CharNode)
      requires Valid()
      modifies this
      ensures Valid() && State() == ServerState.Insert(old(State()), newChar)
    {
      InsertWf(State(), newChar);
      InsertStamped(State(), newChar, stamps, clock);
      stamps := Restamp(stamps, newChar, clock);
      clock := clock + 1;
      Attach(newChar);
    }

    /** The body of `insertCharacter`: splice the id into its parent's
        children (a missing parent gets an empty list first), record the
        character, and give it a fresh, empty child list. */
    method Attach(newChar: CharNode)
      modifies this`nodes, this`tree, this`nullChildren
      ensures State() == ServerState.Insert(old(State()), newChar)
    {
      if newChar.parentId.None? {
        var siblings := nullChildren;
        var insertIdx := FindSpliceIndex(siblings, newChar.id);
        nullChildren := siblings[..insertIdx] + [newChar.id] + siblings[insertIdx..];
      } else {
        var parentId := newChar.parentId.value;
        if parentId !in tree {
          tree := tree[parentId := []];
        }
        var siblings := tree[parentId];
        var insertIdx := FindSpliceIndex(siblings, newChar.id);
        tree := tree[parentId := siblings[..insertIdx] + [newChar.id] + siblings[insertIdx..]];
      }
      nodes := nodes[newChar.id := newChar];
      tree := tree[newChar.id := []];
    }

    /** `delete(id)`: tombstones a known id and returns its character, or
        `None` for null. */
    method Delete(id: string) returns (r: Option<CharNode>)
      requires Valid()
      modifies this
      ensures Valid() && State() == ServerState.Delete(old(State()), id)
      ensures r == Deleted(old(State()), id)
    {
      if id in nodes {
        nodes := nodes[id := nodes[id].(visible := false)];
        r := Some(nodes[id]);
      } else {
        r := None;
      }
    }

    /** `deleteCharacter(id)` */
    method DeleteCharacter(id: string)
      requires Valid()
      modifies this
      ensures Valid() && State() == ServerState.Delete(old(State()), id)
    {
      if id in nodes {
        nodes := nodes[id := nodes[id].(visible := false)];
      }
    }

    /** `apply(message)` */
    method Apply(m: Message)
      requires Valid()
      requires m.kind == "insert" || m.kind == "delete" ==> m.character.Some?
      modifies this
      ensures Valid() && State() == ServerState.Apply(old(State()), m)
    {
      if m.kind == "insert" {
        InsertCharacter(m.character.value);
      } else if m.kind == "delete" {
        DeleteCharacter(m.character.value.id);
      }
    }

    /** On a valid document the depth bound is never reached: any larger
        bound gives the same walk. */
    lemma LinearizeComplete()
      requires Valid()
      ensures forall f :: |tree| <= f ==> Flatten(tree, Head, f) == Linearize(tree)
    {
      forall f | |tree| <= f
        ensures Flatten(tree, Head, f) == Linearize(tree)
      {
        ServerLinearizeComplete(tree, stamps, clock, f);
      }
    }

    /** `getVisibleText` */
    method GetVisibleText() returns (text: string)
      requires Valid()
      ensures text == VisibleText(nodes, Linearize(tree))
    {
      text := DfsBuildText(Head, |tree|, "");
      SubtreeTextVisible(nodes, tree, Head, |tree|);
      assert text == SubtreeText(nodes, tree, Head, |tree|);
    }

    /** `dfsBuildText(id, sb)`, the depth cut at `fuel` */
    method DfsBuildText(id: string, fuel: nat, sb: string) returns (out: string)
      ensures out == sb + SubtreeText(nodes, tree, id, fuel)
      decreases fuel
    {
      out := sb;
      if fuel == 0 {
        return;
      }
      var children := Children(tree, id);
      ghost var target := sb + SubtreeText(nodes, tree, id, fuel);
      var i := 0;
      while i < |children|
        invariant 0 <= i <= |children|
        invariant out + TextFrom(nodes, tree, children, i, fuel - 1) == target
      {
        var child := children[i];
        ghost var out0 := out;
        if Shown(nodes, child) {
          out := out + [nodes[child].value];
        }
        ghost var out1 := out;
        out := DfsBuildText(child, fuel - 1, out);
        TextFromStep(nodes, tree, children, i, fuel - 1, target, out0, out1, out);
        i := i + 1;
      }
    }

    /** `getAllCharacters` */
    method GetAllCharacters() returns (result: seq<CharNode>)
      requires Valid()
      ensures |result| == |Linearize(tree)|
      ensures forall i :: 0 <= i < |result| ==> Linearize(tree)[i] in nodes && result[i] == nodes[Linearize(tree)[i]]
    {
      var ids := FlattenDfs(Head, |tree|, []);
      FlattenWithin(tree, nodes.Keys, Head, |tree|);
      var index := nodes;
      result := seq(|ids|, i requires 0 <= i < |ids| => index[ids[i]]);
    }

    /** `flattenDFS(id, out)`, the depth cut at `fuel`; the list holds the
        ids of the characters it appends. */
    method FlattenDfs(id: string, fuel: nat, acc: seq<string>) returns (out: seq<string>)
      ensures out == acc + Flatten(tree, id, fuel)
      decreases fuel
    {
      out := acc;
      if fuel == 0 {
        return;
      }
      var children := Children(tree, id);
      var i := 0;
      while i < |children|
        invariant 0 <= i <= |children|
        invariant out + FlattenAll(tree, children[i..], fuel - 1) == acc + Flatten(tree, id, fuel)
      {
        assert children[i..][1..] == children[i + 1..];
        out := out + [children[i]];
        out := FlattenDfs(children[i], fuel - 1, out);
        i := i + 1;
      }
    }
  }
}
