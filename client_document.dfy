/** The client `CRDTDocument` as an object: the id index and the tree are
    fields the operations update in place, and the pre-order cache is rebuilt
    lazily. Each method is proved to follow the transition functions of
    `ClientState` and the views of `Linear`. */
module ClientDocument {
  import opened CrdtTypes
  import opened Siblings
  import opened Linear
  import opened ClientState

  class Document {
    /** `idMap` */
    var nodes: map<string, CharNode>
    /** `tree` */
    var tree: Tree
    /** `linearCache`, as the ids of the cached characters */
    var linearCache: seq<string>
    /** `cacheDirty`; also stands for the cache still being null */
    var cacheDirty: bool

    ghost function State(): DocState
      reads this`nodes, this`tree
    {
      DocState(nodes, tree)
    }

    /** A well-formed document, one parent per listed id, whose clean cache
        is the current pre-order. */
    ghost predicate Valid()
      reads this
    {
      && Wf(State()) && Parented(State())
      && (!cacheDirty ==> linearCache == Linearize(tree))
    }

    constructor()
      ensures Valid() && State() == Empty && cacheDirty
    {
      nodes := map[Head := HeadNode];
      tree := map[Head := []];
      linearCache := [];
      cacheDirty := true;
    }

    /** `applyInsert` */
    method ApplyInsert(c: CharNode)
      requires Valid()
      modifies this
      ensures Valid() && State() == Insert(old(State()), c)
      ensures c.id in old(nodes) ==> unchanged(this)
      ensures c.id !in old(nodes) ==> cacheDirty
    {
      if c.id in nodes {
        return;
      }
      InsertWf(State(), c);
      InsertParented(State(), c);
      Attach(c);
      cacheDirty := true;
    }

    /** The new-id branch of `applyInsert`: splice the id into its parent's
        children (a missing parent gets an empty list first), record the
        character and give it an empty child list unless it has one. */
    method Attach(c: CharNode)
      requires c.id !in nodes
      modifies this`nodes, this`tree
      ensures State() == Insert(old(State()), c)
    {
      ghost var s := State();
      var parentId := ParentKey(c);
      if parentId !in tree {
        tree := tree[parentId := []];
      }
      var siblings := tree[parentId];
      var pos := FindSpliceIndex(siblings, c.id);
      tree := tree[parentId := siblings[..pos] + [c.id] + siblings[pos..]];
      nodes := nodes[c.id := c];
      if c.id !in tree {
        tree := tree[c.id := []];
      }
      assert tree == Insert(s, c).tree;
    }

    /** `applyDelete` */
    method ApplyDelete(id: string)
      requires Valid()
      modifies this
      ensures Valid() && State() == Delete(old(State()), id)
      ensures id !in old(nodes) ==> unchanged(this)
      ensures id in old(nodes) ==> cacheDirty
    {
      if id in nodes {
        ghost var s := State();
        nodes := nodes[id := nodes[id].(visible := false)];
        cacheDirty := true;
        DeleteWf(s, id);
        DeleteParented(s, id);
      }
    }

    /** `apply(message)` */
    method Apply(m: Message)
      requires Valid()
      requires m.kind == "insert" || m.kind == "delete" ==> m.character.Some?
      modifies this
      ensures Valid() && State() == ClientState.Apply(old(State()), m) && cacheDirty
    {
      cacheDirty := true;
      if m.kind == "insert" {
        ApplyInsert(m.character.value);
      } else if m.kind == "delete" {
        ApplyDelete(m.character.value.id);
      }
    }

    /** `rebuildCacheIfNeeded` */
    method RebuildCacheIfNeeded()
      requires Valid()
      modifies this
      ensures Valid() && State() == old(State()) && !cacheDirty
      ensures linearCache == Linearize(tree)
    {
      if cacheDirty {
        linearCache := FlattenDfs(Head, |tree|, []);
        cacheDirty := false;
      }
    }

    /** `flattenDFS(nodeId, result)`, appending to `result`; the depth is cut
        at `fuel`. */
    method FlattenDfs(nodeId: string, fuel: nat, result: seq<string>) returns (out: seq<string>)
      ensures out == result + Flatten(tree, nodeId, fuel)
      decreases fuel
    {
      out := result;
      if fuel == 0 {
        return;
      }
      var children := Children(tree, nodeId);
      var i := 0;
      while i < |children|
        invariant 0 <= i <= |children|
        invariant out + FlattenAll(tree, children[i..], fuel - 1) == result + Flatten(tree, nodeId, fuel)
      {
        assert children[i..][1..] == children[i + 1..];
        out := out + [children[i]];
        out := FlattenDfs(children[i], fuel - 1, out);
        i := i + 1;
      }
    }

    /** On a valid document the depth bound is never reached: any larger
        bound gives the same walk, so the cache is the list the unbounded
        Java recursion builds. */
    lemma LinearizeComplete()
      requires Valid()
      ensures forall f :: |tree| <= f ==> Flatten(tree, Head, f) == Linearize(tree)
    {
      forall f | |tree| <= f
        ensures Flatten(tree, Head, f) == Linearize(tree)
      {
        ParentedLinearizeComplete(State(), f);
      }
    }

    /** Every cached id is indexed. */
    lemma CacheIndexed()
      requires Valid() && !cacheDirty
      ensures forall x :: x in linearCache ==> x in nodes
    {
      FlattenWithin(tree, nodes.Keys, Head, |tree|);
    }

    /** `getVisibleText` */
    method GetVisibleText() returns (text: string)
      requires Valid()
      modifies this
      ensures Valid() && State() == old(State()) && !cacheDirty
      ensures text == VisibleText(nodes, Linearize(tree))
    {
      RebuildCacheIfNeeded();
      text := "";
      var i := 0;
      while i < |linearCache|
        invariant 0 <= i <= |linearCache|
        invariant text == VisibleText(nodes, linearCache[..i])
      {
        assert linearCache[..i + 1][..i] == linearCache[..i];
        var id := linearCache[i];
        if Shown(nodes, id) {
          text := text + [nodes[id].value];
        }
        i := i + 1;
      }
      assert linearCache[..i] == linearCache;
    }

    /** `getAllCharacters`: a copy of the cache. */
    method GetAllCharacters() returns (all: seq<CharNode>)
      requires Valid()
      modifies this
      ensures Valid() && State() == old(State()) && !cacheDirty
      ensures |all| == |Linearize(tree)|
      ensures forall i :: 0 <= i < |all| ==> Linearize(tree)[i] in nodes && all[i] == nodes[Linearize(tree)[i]]
    {
      RebuildCacheIfNeeded();
      CacheIndexed();
      var ids, index := linearCache, nodes;
      all := seq(|ids|, i requires 0 <= i < |ids| => index[ids[i]]);
    }

    /** `findLastVisibleCharId`: scans the characters from the end. */
    method FindLastVisibleCharId() returns (lastVisibleId: string)
      requires Valid()
      modifies this
      ensures Valid() && State() == old(State()) && !cacheDirty
      ensures lastVisibleId == LastVisibleId(nodes, Linearize(tree))
    {
      var allChars := GetAllCharacters();
      ghost var lin := Linearize(tree);
      lastVisibleId := Head;
      assert lin[..|allChars|] == lin;
      var i := |allChars| - 1;
      while i >= 0
        invariant -1 <= i < |allChars|
        invariant LastVisibleId(nodes, lin) == LastVisibleId(nodes, lin[..i + 1])
      {
        assert lin[..i + 1][..i] == lin[..i];
        var ch := allChars[i];
        if ch.visible && ch.value != NullChar {
          lastVisibleId := ch.id;
          break;
        }
        i := i - 1;
      }
    }

    /** `findCharIdAtPosition(position)`; `None` stands for null. */
    method FindCharIdAtPosition(position: int) returns (r: Option<string>)
      requires Valid()
      modifies this
      ensures Valid() && State() == old(State())
      ensures r == IdAtPosition(nodes, Linearize(tree), position)
    {
      if position < 0 {
        return None;
      }
      RebuildCacheIfNeeded();
      var currentPos := 0;
      var i := 0;
      while i < |linearCache|
        invariant 0 <= i <= |linearCache|
        invariant currentPos == |VisibleIds(nodes, linearCache[..i])| <= position
      {
        var id := linearCache[i];
        assert linearCache[..i + 1][..i] == linearCache[..i];
        if Shown(nodes, id) {
          if currentPos == position {
            assert linearCache == linearCache[..i + 1] + linearCache[i + 1..];
            VisibleIdsAppend(nodes, linearCache[..i + 1], linearCache[i + 1..]);
            return Some(id);
          }
          currentPos := currentPos + 1;
        }
        i := i + 1;
      }
      assert linearCache[..i] == linearCache;
      return None;
    }

    /** `findPositionOfChar(charId)`: the index among the characters that
        show, or -1. */
    method FindPositionOfChar(charId: string) returns (r: int)
      requires Valid()
      modifies this
      ensures Valid() && State() == old(State()) && !cacheDirty
      ensures r == PositionOf(nodes, Linearize(tree), charId)
    {
      RebuildCacheIfNeeded();
      var pos := 0;
      var i := 0;
      while i < |linearCache|
        invariant 0 <= i <= |linearCache|
        invariant pos == |VisibleIds(nodes, linearCache[..i])|
        invariant charId !in VisibleIds(nodes, linearCache[..i])
      {
        var id := linearCache[i];
        assert linearCache[..i + 1][..i] == linearCache[..i];
        if Shown(nodes, id) {
          if id == charId {
            assert linearCache == linearCache[..i + 1] + linearCache[i + 1..];
            VisibleIdsAppend(nodes, linearCache[..i + 1], linearCache[i + 1..]);
            IndexOfAfter(VisibleIds(nodes, linearCache[..i]), charId, VisibleIds(nodes, linearCache[i + 1..]));
            return pos;
          }
          pos := pos + 1;
        }
        i := i + 1;
      }
      assert linearCache[..i] == linearCache;
      return -1;
    }

    /** `mergeRemoteOperations(remoteChars)` */
    method MergeRemoteOperations(remoteChars: seq<CharNode>)
      requires Valid()
      modifies this
      ensures Valid() && State() == Merge(old(State()), remoteChars)
    {
      var i := 0;
      while i < |remoteChars|
        invariant 0 <= i <= |remoteChars|
        invariant Valid()
        invariant Merge(old(State()), remoteChars) == Merge(State(), remoteChars[i..])
      {
        var remoteChar := remoteChars[i];
        assert remoteChars[i..][1..] == remoteChars[i + 1..];
        if remoteChar.id !in nodes {
          ApplyInsert(remoteChar);
        } else if !remoteChar.visible {
          ApplyDelete(remoteChar.id);
        }
        i := i + 1;
      }
    }
  }
}
