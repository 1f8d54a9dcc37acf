/** The client `CRDTDocument` as a state transition on values: what
    `applyInsert`, `applyDelete`, `apply` and `mergeRemoteOperations` do to
    the id index and the parent-to-children map. The class in
    client_document.dfy is proved to follow these functions. */
module ClientState {
  import opened CrdtTypes
  import opened Siblings
  import opened Linear

  /** `idMap` (with each character's current visibility) and `tree`. */
  datatype DocState = DocState(nodes: map<string, CharNode>, tree: Tree)

  /** The constructor: only `HEAD`, with an empty child list. */
  const Empty: DocState := DocState(map[Head := HeadNode], map[Head := []])

  /** A null parent is treated as `HEAD`. */
  function ParentKey(c: CharNode): string
  {
    if c.parentId.Some? then c.parentId.value else Head
  }

  /** Create the parent's list if needed and splice `x` into it. */
  function AddChild(t: Tree, p: string, x: string): Tree
  {
    var t1 := PutIfAbsent(t, p);
    t1[p := Splice(t1[p], x)]
  }

  /** `applyInsert`: a known id changes nothing. */
  function Insert(s: DocState, c: CharNode): DocState
  {
    if c.id in s.nodes then s
    else DocState(s.nodes[c.id := c], PutIfAbsent(AddChild(s.tree, ParentKey(c), c.id), c.id))
  }

  /** `applyDelete`: tombstone a known id; an unknown id is a no-op. */
  function Delete(s: DocState, id: string): DocState
  {
    if id in s.nodes then DocState(s.nodes[id := s.nodes[id].(visible := false)], s.tree) else s
  }

  /** `apply(message)`: "insert" and "delete" dispatch, anything else is a
      no-op. The Java code dereferences the character of both kinds. */
  function Apply(s: DocState, m: Message): DocState
    requires m.kind == "insert" || m.kind == "delete" ==> m.character.Some?
  {
    if m.kind == "insert" then Insert(s, m.character.value)
    else if m.kind == "delete" then Delete(s, m.character.value.id)
    else s
  }

  /** One step of `mergeRemoteOperations`. */
  function MergeOne(s: DocState, r: CharNode): DocState
  {
    if r.id !in s.nodes then Insert(s, r)
    else if !r.visible then Delete(s, r.id)
    else s
  }

  /** `mergeRemoteOperations(remote)`, left to right. */
  function Merge(s: DocState, remote: seq<CharNode>): DocState
    decreases |remote|
  {
    if remote == [] then s else Merge(MergeOne(s, remote[0]), remote[1..])
  }

  /** The shape every reachable client document has. */
  ghost predicate Wf(s: DocState)
  {
    && Head in s.nodes && Head in s.tree
    && (forall k :: k in s.nodes ==> k in s.tree && s.nodes[k].id == k)
    && (forall k :: k in s.tree ==> Sorted(s.tree[k]))
    && (forall k, c :: k in s.tree && c in s.tree[k] ==> c in s.nodes)
  }

  lemma EmptyWf()
    ensures Wf(Empty)
  {
  }

  /** The tree after a fresh insert, key by key. */
  lemma InsertTree(s: DocState, c: CharNode)
    requires c.id !in s.nodes
    ensures var t' := Insert(s, c).tree; var p := ParentKey(c);
      && t'.Keys == s.tree.Keys + {p, c.id}
      && t'[p] == Splice(Children(s.tree, p), c.id)
      && (p != c.id ==> t'[c.id] == Children(s.tree, c.id))
      && (forall k :: k in s.tree && k != p && k != c.id ==> t'[k] == s.tree[k])
  {
  }

  /** Every listed child after a fresh insert is the new id or an old child. */
  lemma InsertMembers(s: DocState, c: CharNode, k: string, x: string)
    requires c.id !in s.nodes
    requires k in Insert(s, c).tree && x in Insert(s, c).tree[k]
    ensures x == c.id || (k in s.tree && x in s.tree[k])
  {
    InsertTree(s, c);
    SpliceMembers(Children(s.tree, ParentKey(c)), c.id);
  }

  lemma AddChildSorted(t: Tree, p: string, x: string)
    requires forall k :: k in t ==> Sorted(t[k])
    ensures forall k :: k in AddChild(t, p, x) ==> Sorted(AddChild(t, p, x)[k])
  {
    SpliceSorted(PutIfAbsent(t, p)[p], x);
  }

  lemma InsertSorted(s: DocState, c: CharNode)
    requires c.id !in s.nodes
    requires forall k :: k in s.tree ==> Sorted(s.tree[k])
    ensures forall k :: k in Insert(s, c).tree ==> Sorted(Insert(s, c).tree[k])
  {
    var t' := Insert(s, c).tree;
    var p := ParentKey(c);
    InsertTree(s, c);
    SpliceSorted(Children(s.tree, p), c.id);
    forall k | k in t'
      ensures Sorted(t'[k])
    {
      if k != p && k != c.id {
        assert t'[k] == s.tree[k];
      } else if k == c.id && k != p {
        assert t'[k] == Children(s.tree, k);
      }
    }
  }

  /** Inserting keeps the document well formed. */
  lemma InsertWf(s: DocState, c: CharNode)
    requires Wf(s)
    ensures Wf(Insert(s, c))
  {
    if c.id !in s.nodes {
      var s' := Insert(s, c);
      InsertTree(s, c);
      InsertSorted(s, c);
      forall k, x | k in s'.tree && x in s'.tree[k]
        ensures x in s'.nodes
      {
        InsertMembers(s, c, k, x);
      }
    }
  }

  /** A tombstone keeps the document well formed. */
  lemma DeleteWf(s: DocState, id: string)
    requires Wf(s)
    ensures Wf(Delete(s, id))
  {
  }

  /** What a fresh insert does: the id is indexed, sits exactly once in its
      parent's sorted list and in no other list, a child list that orphans
      already created for it is kept, and nothing else changes. */
  lemma InsertEffect(s: DocState, c: CharNode)
    requires Wf(s) && c.id !in s.nodes
    ensures var s' := Insert(s, c);
      && s'.nodes == s.nodes[c.id := c]
      && ParentKey(c) in s'.tree && Sorted(s'.tree[ParentKey(c)])
      && multiset(s'.tree[ParentKey(c)]) == multiset(Children(s.tree, ParentKey(c))) + multiset{c.id}
      && multiset(s'.tree[ParentKey(c)])[c.id] == 1
      && (forall k :: k in s'.tree && k != ParentKey(c) ==> c.id !in s'.tree[k])
      && (ParentKey(c) != c.id ==> s'.tree[c.id] == Children(s.tree, c.id))
      && (forall k :: k in s.tree && k != ParentKey(c) && k != c.id ==> s'.tree[k] == s.tree[k])
  {
    var p := ParentKey(c);
    InsertTree(s, c);
    SpliceSorted(Children(s.tree, p), c.id);
    assert c.id !in Children(s.tree, p);
    assert multiset(Children(s.tree, p))[c.id] == 0;
    InsertListedOnce(s, c);
  }

  /** A fresh id is listed under its parent only. */
  lemma InsertListedOnce(s: DocState, c: CharNode)
    requires Wf(s) && c.id !in s.nodes
    ensures var s' := Insert(s, c);
      forall k :: k in s'.tree && k != ParentKey(c) ==> c.id !in s'.tree[k]
  {
    var s' := Insert(s, c);
    InsertTree(s, c);
    forall k | k in s'.tree && k != ParentKey(c)
      ensures c.id !in s'.tree[k]
    {
      if k == c.id {
        assert s'.tree[k] == Children(s.tree, c.id);
      } else {
        assert s'.tree[k] == s.tree[k];
      }
    }
  }

  /** Re-delivering an insert changes nothing. */
  lemma InsertIdempotent(s: DocState, c: CharNode)
    ensures Insert(Insert(s, c), c) == Insert(s, c)
  {
  }

  /** Re-delivering a delete changes nothing. */
  lemma DeleteIdempotent(s: DocState, id: string)
    ensures Delete(Delete(s, id), id) == Delete(s, id)
  {
  }

  /** Applying the same message twice is applying it once. */
  lemma ApplyIdempotent(s: DocState, m: Message)
    requires m.kind == "insert" || m.kind == "delete" ==> m.character.Some?
    ensures Apply(Apply(s, m), m) == Apply(s, m)
  {
  }

  /** A delete flips only that id's visibility and never touches the tree. */
  lemma DeleteEffect(s: DocState, id: string)
    ensures Delete(s, id).tree == s.tree
    ensures Delete(s, id).nodes.Keys == s.nodes.Keys
    ensures id in s.nodes ==>
      (!Delete(s, id).nodes[id].visible && Delete(s, id).nodes[id] == s.nodes[id].(visible := false))
    ensures forall k :: k in s.nodes && k != id ==> Delete(s, id).nodes[k] == s.nodes[k]
  {
  }

  lemma PutIfAbsentCommutes(t: Tree, j: string, k: string)
    ensures PutIfAbsent(PutIfAbsent(t, j), k) == PutIfAbsent(PutIfAbsent(t, k), j)
  {
  }

  lemma PutIfAbsentAddChild(t: Tree, k: string, p: string, x: string)
    ensures AddChild(PutIfAbsent(t, k), p, x) == PutIfAbsent(AddChild(t, p, x), k)
  {
  }

  lemma AddChildCommutes(t: Tree, p: string, a: string, q: string, b: string)
    requires p in t ==> Sorted(t[p])
    ensures AddChild(AddChild(t, p, a), q, b) == AddChild(AddChild(t, q, b), p, a)
  {
    if p == q {
      SpliceCommutes(PutIfAbsent(t, p)[p], a, b);
    } else {
      AddChildDisjoint(t, p, a, q, b);
    }
  }

  /** Children added under two different parents land in separate lists. */
  lemma AddChildDisjoint(t: Tree, p: string, a: string, q: string, b: string)
    requires p != q
    ensures AddChild(AddChild(t, p, a), q, b) == AddChild(AddChild(t, q, b), p, a)
  {
    var l := AddChild(AddChild(t, p, a), q, b);
    var r := AddChild(AddChild(t, q, b), p, a);
    assert l.Keys == t.Keys + {p, q} == r.Keys;
    assert l[p] == Splice(Children(t, p), a) == r[p];
    assert l[q] == Splice(Children(t, q), b) == r[q];
  }

  /** Convergence: two inserts of different ids reach the same document in
      either order. */
  lemma InsertCommutes(s: DocState, a: CharNode, b: CharNode)
    requires Wf(s) && a.id != b.id
    ensures Insert(Insert(s, a), b) == Insert(Insert(s, b), a)
  {
    if a.id !in s.nodes && b.id !in s.nodes {
      var t := s.tree;
      var pa, pb := ParentKey(a), ParentKey(b);
      PutIfAbsentAddChild(AddChild(t, pa, a.id), a.id, pb, b.id);
      PutIfAbsentAddChild(AddChild(t, pb, b.id), b.id, pa, a.id);
      AddChildCommutes(t, pa, a.id, pb, b.id);
      PutIfAbsentCommutes(AddChild(AddChild(t, pa, a.id), pb, b.id), a.id, b.id);
      assert s.nodes[a.id := a][b.id := b] == s.nodes[b.id := b][a.id := a];
    }
  }

  /** A delete and an insert of another id commute. */
  lemma DeleteInsertCommute(s: DocState, id: string, c: CharNode)
    requires c.id != id
    ensures Delete(Insert(s, c), id) == Insert(Delete(s, id), c)
  {
    if c.id !in s.nodes && id in s.nodes {
      assert s.nodes[c.id := c][id := s.nodes[id].(visible := false)]
          == s.nodes[id := s.nodes[id].(visible := false)][c.id := c];
    }
  }

  /** Once tombstoned, a character stays tombstoned under any merge: neither
      a re-sent insert nor a visible remote copy revives it. */
  lemma {:induction false} MergeKeepsTombstone(s: DocState, remote: seq<CharNode>, x: string)
    requires x in s.nodes && !s.nodes[x].visible
    ensures x in Merge(s, remote).nodes && !Merge(s, remote).nodes[x].visible
    decreases |remote|
  {
    if remote != [] {
      MergeKeepsTombstone(MergeOne(s, remote[0]), remote[1..], x);
    }
  }

  /** The same for every applied message. */
  lemma ApplyKeepsTombstone(s: DocState, m: Message, x: string)
    requires m.kind == "insert" || m.kind == "delete" ==> m.character.Some?
    requires x in s.nodes && !s.nodes[x].visible
    ensures x in Apply(s, m).nodes && !Apply(s, m).nodes[x].visible
  {
  }

  /** Out-of-order delivery can close a cycle: "a" arrives naming the
      unknown "b" as parent, then "b" arrives naming "a". The cycle is
      unreachable from `HEAD`, where `flattenDFS` starts, so neither shows:
      the walk is empty, as in the Java code. */
  lemma OrphansCanFormCycle()
    ensures var a := CharNode('a', "a", Some("b"), true);
      var b := CharNode('b', "b", Some("a"), true);
      var s := Insert(Insert(Empty, a), b);
      && "a" in s.tree && "b" in s.tree
      && "b" in s.tree["a"] && "a" in s.tree["b"]
      && Linearize(s.tree) == []
  {
    var a := CharNode('a', "a", Some("b"), true);
    var b := CharNode('b', "b", Some("a"), true);
    var s1 := Insert(Empty, a);
    InsertTree(Empty, a);
    assert s1.tree["b"] == ["a"] && s1.tree["a"] == [];
    var s := Insert(s1, b);
    InsertTree(s1, b);
    assert s.tree["a"] == ["b"] && s.tree["b"] == ["a"];
    assert Children(s.tree, Head) == [];
    assert |s.tree| > 0;
    assert Linearize(s.tree) == FlattenAll(s.tree, [], |s.tree| - 1);
  }

  /** Every listed id is a known character other than `HEAD`, listed under
      its own parent. `applyInsert` lists a new id once, under its parent, and
      never lists a known one again; `HEAD` is known from the start. */
  ghost predicate Parented(s: DocState)
  {
    forall k, x :: k in s.tree && x in s.tree[k] ==>
      x in s.nodes && x != Head && ParentKey(s.nodes[x]) == k
  }

  /** The parent each known character names (`HEAD` for a null parent). */
  ghost function Parents(s: DocState): map<string, string>
  {
    map x | x in s.nodes :: ParentKey(s.nodes[x])
  }

  lemma EmptyParented()
    ensures Parented(Empty)
  {
  }

  /** A fresh id is listed only under the parent it names; every old id
      keeps its list and its character. */
  lemma InsertParented(s: DocState, c: CharNode)
    requires Wf(s) && Parented(s)
    ensures Parented(Insert(s, c))
  {
    if c.id !in s.nodes {
      var s' := Insert(s, c);
      InsertListedOnce(s, c);
      forall k, x | k in s'.tree && x in s'.tree[k]
        ensures x in s'.nodes && x != Head && ParentKey(s'.nodes[x]) == k
      {
        InsertMembers(s, c, k, x);
        if x != c.id {
          assert s'.nodes[x] == s.nodes[x];
        }
      }
    }
  }

  /** A tombstone keeps the parent a character names. */
  lemma DeleteParented(s: DocState, id: string)
    requires Parented(s)
    ensures Parented(Delete(s, id))
  {
  }

  /** Hence every document built by `applyInsert` and `applyDelete` from the
      constructor's has one parent per listed id, and the walk from `HEAD`
      cut at the number of keys is the complete walk: the Java recursion
      ends, and orphans (even cycles of them) sit off every route from
      `HEAD`. */
  lemma ParentedLinearizeComplete(s: DocState, f: nat)
    requires Wf(s) && Parented(s) && |s.tree| <= f
    ensures Linearize(s.tree) == Flatten(s.tree, Head, f)
  {
    SingleParentComplete(s.tree, Parents(s), f);
  }
}
