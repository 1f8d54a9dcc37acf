/** The server `CRDTDocument` as a state transition on values. Unlike the
    client it has no duplicate check, keeps a null parent as a key of its own
    (here the separate list `nullChildren`) and replaces the child list of
    every id it inserts. The class in server_document.dfy follows these
    functions. */
module ServerState {
  import opened CrdtTypes
  import opened Siblings
  import opened Linear

  /** `idMap`, `tree` without its null key, and the list under the null key. */
  datatype ServerDoc = ServerDoc(nodes: map<string, CharNode>, tree: Tree, nullChildren: seq<string>)

  /** The constructor: only `HEAD`, with an empty child list. */
  const Fresh: ServerDoc := ServerDoc(map[Head := HeadNode], map[Head := []], [])

  /** `insertCharacter`: splice into the list of the parent exactly as given,
      index the character, then give it a new empty child list. */
  function Insert(s: ServerDoc, c: CharNode): ServerDoc
  {
    if c.parentId.None? then
      ServerDoc(s.nodes[c.id := c], s.tree[c.id := []], Splice(s.nullChildren, c.id))
    else
      var p := c.parentId.value;
      var t1 := PutIfAbsent(s.tree, p);
      ServerDoc(s.nodes[c.id := c], t1[p := Splice(t1[p], c.id)][c.id := []], s.nullChildren)
  }

  /** `deleteCharacter`: tombstone a known id; an unknown id is a no-op. */
  function Delete(s: ServerDoc, id: string): ServerDoc
  {
    if id in s.nodes then s.(nodes := s.nodes[id := s.nodes[id].(visible := false)]) else s
  }

  /** What `delete(id)` returns: the stored character, now invisible, or
      `None` for null. */
  function Deleted(s: ServerDoc, id: string): Option<CharNode>
  {
    if id in s.nodes then Some(s.nodes[id].(visible := false)) else None
  }

  /** `apply(message)`: "insert" and "delete" dispatch; any other type is
      only logged. */
  function Apply(s: ServerDoc, m: Message): ServerDoc
    requires m.kind == "insert" || m.kind == "delete" ==> m.character.Some?
  {
    if m.kind == "insert" then Insert(s, m.character.value)
    else if m.kind == "delete" then Delete(s, m.character.value.id)
    else s
  }

  /** The shape every server document keeps. */
  ghost predicate Wf(s: ServerDoc)
  {
    && Head in s.nodes && Head in s.tree
    && (forall k :: k in s.nodes ==> s.nodes[k].id == k)
    && (forall k :: k in s.tree ==> Sorted(s.tree[k]))
    && Sorted(s.nullChildren)
    && (forall k, c :: k in s.tree && c in s.tree[k] ==> c in s.nodes)
    && (forall c :: c in s.nullChildren ==> c in s.nodes)
  }

  lemma FreshWf()
    ensures Wf(Fresh)
  {
  }

  /** The tree after an insert under a non-null parent, key by key. */
  lemma InsertTree(s: ServerDoc, c: CharNode)
    requires c.parentId.Some?
    ensures var t' := Insert(s, c).tree; var p := c.parentId.value;
      && t'.Keys == s.tree.Keys + {p, c.id}
      && t'[c.id] == []
      && (p != c.id ==> t'[p] == Splice(Children(s.tree, p), c.id))
      && (forall k :: k in s.tree && k != p && k != c.id ==> t'[k] == s.tree[k])
  {
  }

  /** Every listed child after an insert is the new id or an old child. */
  lemma InsertMembers(s: ServerDoc, c: CharNode, k: string, x: string)
    requires k in Insert(s, c).tree && x in Insert(s, c).tree[k]
    ensures x == c.id || (k in s.tree && x in s.tree[k])
  {
    if c.parentId.Some? {
      InsertTree(s, c);
      SpliceMembers(Children(s.tree, c.parentId.value), c.id);
    }
  }

  /** Sibling lists stay sorted, and every listed child stays indexed. */
  lemma InsertWf(s: ServerDoc, c: CharNode)
    requires Wf(s)
    ensures Wf(Insert(s, c))
  {
    var s' := Insert(s, c);
    SpliceSorted(s.nullChildren, c.id);
    SpliceMembers(s.nullChildren, c.id);
    if c.parentId.Some? {
      var p := c.parentId.value;
      InsertTree(s, c);
      SpliceSorted(Children(s.tree, p), c.id);
      forall k | k in s'.tree
        ensures Sorted(s'.tree[k])
      {
        if k != p && k != c.id {
          assert s'.tree[k] == s.tree[k];
        }
      }
    }
    forall k, x | k in s'.tree && x in s'.tree[k]
      ensures x in s'.nodes
    {
      InsertMembers(s, c, k, x);
    }
  }

  lemma DeleteWf(s: ServerDoc, id: string)
    requires Wf(s)
    ensures Wf(Delete(s, id))
  {
  }

  /** No duplicate check: inserting a known id under the same parent again
      adds one more entry for it to that parent's list (the null parent's
      list included), except when the id names itself as parent: `tree.put`
      then replaces the list just grown with an empty one. */
  lemma InsertAddsEntry(s: ServerDoc, c: CharNode)
    ensures c.parentId.None? ==>
      multiset(Insert(s, c).nullChildren) == multiset(s.nullChildren) + multiset{c.id}
    ensures c.parentId.Some? && c.parentId.value != c.id ==>
      var p := c.parentId.value;
      multiset(Insert(s, c).tree[p]) == multiset(Children(s.tree, p)) + multiset{c.id}
    ensures c.parentId == Some(c.id) ==> Insert(s, c).tree[c.id] == []
  {
    if c.parentId.None? {
      SpliceMultiset(s.nullChildren, c.id);
    } else {
      InsertTree(s, c);
      SpliceMultiset(Children(s.tree, c.parentId.value), c.id);
    }
  }

  /** Inserting an id replaces its child list with an empty one, yet every
      indexed character stays indexed. */
  lemma InsertResetsChildren(s: ServerDoc, c: CharNode)
    ensures Insert(s, c).tree[c.id] == []
    ensures Insert(s, c).nodes.Keys == s.nodes.Keys + {c.id}
    ensures Insert(s, c).nodes[c.id] == c
  {
  }

  /** A delete returns the tombstoned character exactly for known ids and
      never changes the structure. */
  lemma DeleteEffect(s: ServerDoc, id: string)
    ensures Deleted(s, id).Some? <==> id in s.nodes
    ensures id in s.nodes ==>
      (Deleted(s, id).value == Delete(s, id).nodes[id] && !Deleted(s, id).value.visible)
    ensures Delete(s, id).tree == s.tree && Delete(s, id).nullChildren == s.nullChildren
    ensures Delete(s, id).nodes.Keys == s.nodes.Keys
    ensures forall k :: k in s.nodes && k != id ==> Delete(s, id).nodes[k] == s.nodes[k]
  {
  }

  /** A message of any other type leaves the document as it was. */
  lemma ApplyOtherKind(s: ServerDoc, m: Message)
    requires m.kind != "insert" && m.kind != "delete"
    ensures Apply(s, m) == s
  {
  }

  /** A tombstone stays a tombstone under deletes and under inserts of other
      ids. */
  lemma ApplyKeepsTombstone(s: ServerDoc, m: Message, x: string)
    requires m.kind == "insert" || m.kind == "delete" ==> m.character.Some?
    requires m.kind == "insert" ==> m.character.value.id != x
    requires x in s.nodes && !s.nodes[x].visible
    ensures x in Apply(s, m).nodes && !Apply(s, m).nodes[x].visible
  {
  }

  /** `st` records when each key was last inserted (0 for a key that never
      was, such as `HEAD` or an unknown parent); every edge leads from an
      earlier stamp to a later one. */
  ghost predicate Stamped(t: Tree, st: map<string, nat>, clock: nat)
  {
    && st.Keys == t.Keys
    && (forall k, c :: k in t && c in t[k] ==> c in st && st[k] < st[c])
    && (forall k :: k in st ==> st[k] <= clock)
  }

  /** The stamps after inserting `c` at time `clock + 1`. */
  ghost function Restamp(st: map<string, nat>, c: CharNode, clock: nat): map<string, nat>
  {
    var st1 := if c.parentId.Some? && c.parentId.value !in st then st[c.parentId.value := 0] else st;
    st1[c.id := clock + 1]
  }

  /** Because an inserted id always starts over with no children, the only
      edge an insert adds points at the newest stamp: the server tree never
      closes a cycle, whatever order messages arrive in. */
  lemma InsertStamped(s: ServerDoc, c: CharNode, st: map<string, nat>, clock: nat)
    requires Stamped(s.tree, st, clock)
    ensures Stamped(Insert(s, c).tree, Restamp(st, c, clock), clock + 1)
  {
    var t' := Insert(s, c).tree;
    var st' := Restamp(st, c, clock);
    RestampKeys(s, c, st, clock);
    InsertEdges(s, c);
    StampStep(s.tree, t', st, st', c.id, clock);
  }

  /** The new stamps cover the new tree's keys, give the inserted id the
      newest time and keep every other stamp. */
  lemma RestampKeys(s: ServerDoc, c: CharNode, st: map<string, nat>, clock: nat)
    requires Stamped(s.tree, st, clock)
    ensures var st' := Restamp(st, c, clock);
      && st'.Keys == Insert(s, c).tree.Keys && c.id in st' && st'[c.id] == clock + 1
      && (forall k :: k in st' && k != c.id ==> st'[k] <= clock)
      && (forall k :: k in st && k != c.id ==> k in st' && st'[k] == st[k])
  {
    RestampDomain(s, c, st, clock);
    RestampValues(st, c, clock);
  }

  lemma RestampDomain(s: ServerDoc, c: CharNode, st: map<string, nat>, clock: nat)
    requires st.Keys == s.tree.Keys
    ensures Restamp(st, c, clock).Keys == Insert(s, c).tree.Keys
  {
    if c.parentId.Some? {
      InsertTree(s, c);
    }
  }

  lemma RestampValues(st: map<string, nat>, c: CharNode, clock: nat)
    requires forall k :: k in st ==> st[k] <= clock
    ensures var st' := Restamp(st, c, clock);
      && c.id in st' && st'[c.id] == clock + 1
      && (forall k :: k in st' && k != c.id ==> st'[k] <= clock)
      && (forall k :: k in st && k != c.id ==> k in st' && st'[k] == st[k])
  {
  }

  /** An insert only adds edges into the new id, and none out of it. */
  lemma InsertEdges(s: ServerDoc, c: CharNode)
    ensures forall k, y :: k in Insert(s, c).tree && y in Insert(s, c).tree[k] ==>
      k != c.id && (y == c.id || (k in s.tree && y in s.tree[k]))
  {
    var t' := Insert(s, c).tree;
    assert t'[c.id] == [];
    forall k, y | k in t' && y in t'[k]
      ensures k != c.id && (y == c.id || (k in s.tree && y in s.tree[k]))
    {
      InsertMembers(s, c, k, y);
    }
  }

  lemma StampStep(t: Tree, t': Tree, st: map<string, nat>, st': map<string, nat>, x: string, clock: nat)
    requires Stamped(t, st, clock)
    requires st'.Keys == t'.Keys && x in st' && st'[x] == clock + 1
    requires forall k :: k in st' && k != x ==> st'[k] <= clock
    requires forall k :: k in st && k != x ==> k in st' && st'[k] == st[k]
    requires forall k, y :: k in t' && y in t'[k] ==> k != x && (y == x || (k in t && y in t[k]))
    ensures Stamped(t', st', clock + 1)
  {
    forall k, y | k in t' && y in t'[k]
      ensures y in st' && st'[k] < st'[y]
    {
      if y != x {
        assert k in t && y in t[k];
      }
    }
  }

  /** The rank of a key: how many keys carry a positive stamp no later than
      its own. */
  ghost function StampRank(t: Tree, st: map<string, nat>): map<string, nat>
    requires st.Keys == t.Keys
  {
    map k | k in t :: |Earlier(t, st, k)|
  }

  /** The keys with a positive stamp no later than that of `k`. */
  ghost function Earlier(t: Tree, st: map<string, nat>, k: string): set<string>
    requires st.Keys == t.Keys && k in t
  {
    set j | j in t && 0 < st[j] <= st[k]
  }

  /** A later stamp has strictly more keys before it. */
  lemma EarlierSmaller(t: Tree, st: map<string, nat>, k: string, y: string)
    requires st.Keys == t.Keys && k in t && y in t && st[k] < st[y]
    ensures |Earlier(t, st, k)| < |Earlier(t, st, y)|
  {
    ProperSubsetSmaller(Earlier(t, st, k), Earlier(t, st, y), y);
  }

  /** No key has more keys before it than the tree has. */
  lemma EarlierBounded(t: Tree, st: map<string, nat>, k: string)
    requires st.Keys == t.Keys && k in t
    ensures |Earlier(t, st, k)| <= |t|
  {
    SubsetNoLarger(Earlier(t, st, k), t.Keys);
  }

  lemma ProperSubsetSmaller(a: set<string>, b: set<string>, x: string)
    requires a <= b && x in b && x !in a
    ensures |a| < |b|
  {
    assert b == a + (b - a);
    assert x in b - a;
  }

  lemma SubsetNoLarger(a: set<string>, b: set<string>)
    requires a <= b
    ensures |a| <= |b|
  {
    assert b == a + (b - a);
  }

  /** Stamps give a depth labelling bounded by the number of keys. */
  lemma StampedRanked(t: Tree, st: map<string, nat>, clock: nat)
    requires Stamped(t, st, clock)
    ensures Ranked(t, StampRank(t, st), |t|)
  {
    StampRankEdges(t, st, clock);
    StampRankBounded(t, st);
    StampRankKeys(t, st);
    RankedIntro(t, StampRank(t, st), |t|);
  }

  /** Every child ranks above its parent. */
  lemma StampRankEdges(t: Tree, st: map<string, nat>, clock: nat)
    requires Stamped(t, st, clock)
    ensures RankedEdges(t, StampRank(t, st))
  {
    forall k, y | k in t && y in t[k]
      ensures y in StampRank(t, st) && StampRank(t, st)[k] < StampRank(t, st)[y]
    {
      EarlierSmaller(t, st, k, y);
    }
  }

  /** No rank exceeds the number of keys. */
  lemma StampRankBounded(t: Tree, st: map<string, nat>)
    requires st.Keys == t.Keys
    ensures RankedBound(StampRank(t, st), |t|)
  {
    forall k | k in StampRank(t, st)
      ensures StampRank(t, st)[k] <= |t|
    {
      EarlierBounded(t, st, k);
    }
  }

  /** Every key is ranked. */
  lemma StampRankKeys(t: Tree, st: map<string, nat>)
    requires st.Keys == t.Keys
    ensures RankedKeys(t, StampRank(t, st))
  {
  }

  /** Hence the DFS bounded by the number of keys is the whole DFS: the Java
      recursion, which has no bound, ends and yields the same list. */
  lemma ServerLinearizeComplete(t: Tree, st: map<string, nat>, clock: nat, f: nat)
    requires Stamped(t, st, clock) && Head in t && |t| <= f
    ensures Linearize(t) == Flatten(t, Head, f)
  {
    StampedRanked(t, st, clock);
    FuelSuffices(t, StampRank(t, st), |t|, Head, |t|, f);
  }
}
