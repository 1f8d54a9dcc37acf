/** The document order shared by both document variants: the pre-order DFS of
    the parent-to-children map from `HEAD`, and the views of it the editor
    asks for (visible text, visible ids, positions). */
module Linear {
  import opened CrdtTypes

  /** `tree`: parent id to the ids of its children, in sibling order. */
  type Tree = map<string, seq<string>>

  /** `tree.getOrDefault(id, emptyList())` */
  function Children(t: Tree, id: string): seq<string>
  {
    if id in t then t[id] else []
  }

  /** `tree.putIfAbsent(k, new ArrayList<>())` */
  function PutIfAbsent(t: Tree, k: string): Tree
  {
    if k in t then t else t[k := []]
  }

  /** `flattenDFS(id, out)`: the ids below `id` in pre-order, `id` itself
      excluded. The Java recursion has no bound and would never return on a
      cycle reachable from `id`; here the depth is cut at `fuel`. */
  function Flatten(t: Tree, id: string, fuel: nat): seq<string>
    decreases fuel, 0
  {
    if fuel == 0 then [] else FlattenAll(t, Children(t, id), fuel - 1)
  }

  /** The loop body of `flattenDFS` over a list of siblings. */
  function FlattenAll(t: Tree, ids: seq<string>, fuel: nat): seq<string>
    decreases fuel, 1, |ids|
  {
    if ids == [] then [] else [ids[0]] + Flatten(t, ids[0], fuel) + FlattenAll(t, ids[1..], fuel)
  }

  /** The depth bound both documents use: the number of keys of the tree.
      On an acyclic tree every path visits distinct keys, so it is never hit. */
  function Linearize(t: Tree): seq<string>
  {
    Flatten(t, Head, |t|)
  }

  /** `d` is a depth labelling of `t`: every child sits deeper than its
      parent and no label exceeds `bound`. Its existence rules out cycles. */
  ghost predicate Ranked(t: Tree, d: map<string, nat>, bound: nat)
  {
    && (forall p :: p in t ==> p in d)
    && (forall p, c :: p in t && c in t[p] ==> c in d && d[p] < d[c])
    && (forall k :: k in d ==> d[k] <= bound)
  }

  /** The three parts of a ranking, each under its own name. */
  ghost predicate RankedKeys(t: Tree, d: map<string, nat>)
  {
    forall p :: p in t ==> p in d
  }

  ghost predicate RankedEdges(t: Tree, d: map<string, nat>)
  {
    forall p, c :: p in t && p in d && c in t[p] ==> c in d && d[p] < d[c]
  }

  ghost predicate RankedBound(d: map<string, nat>, bound: nat)
  {
    forall k :: k in d ==> d[k] <= bound
  }

  /** The three parts put together. */
  lemma RankedIntro(t: Tree, d: map<string, nat>, bound: nat)
    requires RankedKeys(t, d) && RankedEdges(t, d) && RankedBound(d, bound)
    ensures Ranked(t, d, bound)
  {
  }

  /** On a ranked tree, once the fuel covers the remaining depth, more fuel
      changes nothing: the bounded DFS is the complete DFS. */
  lemma {:induction false} FuelSuffices(t: Tree, d: map<string, nat>, bound: nat, id: string, f1: nat, f2: nat)
    requires Ranked(t, d, bound)
    requires id in d && bound <= d[id] + f1 && f1 <= f2
    ensures Flatten(t, id, f1) == Flatten(t, id, f2)
    decreases f1, 0
  {
    if f1 > 0 {
      FuelSufficesAll(t, d, bound, id, Children(t, id), f1 - 1, f2 - 1);
    } else if f2 > 0 && Children(t, id) != [] {
      // A child would be ranked above the bound, so there is none.
      assert false;
    }
  }

  lemma {:induction false} FuelSufficesAll(t: Tree, d: map<string, nat>, bound: nat, parent: string, ids: seq<string>, f1: nat, f2: nat)
    requires Ranked(t, d, bound)
    requires parent in d && bound <= d[parent] + 1 + f1 && f1 <= f2
    requires forall c :: c in ids ==> c in Children(t, parent)
    ensures FlattenAll(t, ids, f1) == FlattenAll(t, ids, f2)
    decreases f1, 1, |ids|
  {
    if ids != [] {
      assert ids[0] in ids;
      FuelSuffices(t, d, bound, ids[0], f1, f2);
      FuelSufficesAll(t, d, bound, parent, ids[1..], f1, f2);
    }
  }

  /** Every listed child is a key of its own, is not `HEAD`, and is listed
      under `par[c]` only: each character has one parent and `HEAD` has none. */
  ghost predicate SingleParent(t: Tree, par: map<string, string>)
  {
    forall k, c :: k in t && c in t[k] ==> c in t && c != Head && c in par && par[c] == k
  }

  /** `path` leads from `HEAD` down the tree, each id a child of the one
      before it. */
  ghost predicate Route(t: Tree, path: seq<string>)
  {
    && |path| > 0 && path[0] == Head && Head in t
    && (forall i :: 0 < i < |path| ==> EdgeAt(t, path, i))
  }

  /** The `i`-th id of `path` is a child of the one before it. */
  ghost predicate EdgeAt(t: Tree, path: seq<string>, i: int)
    requires 0 < i < |path|
  {
    path[i - 1] in t && path[i] in t[path[i - 1]]
  }

  /** One step further down a route. */
  lemma RouteExtend(t: Tree, path: seq<string>, x: string)
    requires Route(t, path) && path[|path| - 1] in t && x in t[path[|path| - 1]]
    ensures Route(t, path + [x])
  {
    var p := path + [x];
    forall i | 0 < i < |p|
      ensures EdgeAt(t, p, i)
    {
      if i < |path| {
        assert EdgeAt(t, path, i);
        assert p[i - 1] == path[i - 1] && p[i] == path[i];
      }
    }
  }

  /** With one parent per id, a route never comes back to an id: two equal
      ids would have equal parents, and so on up to `HEAD`, which is nobody's
      child. */
  lemma {:induction false} RouteDistinct(t: Tree, par: map<string, string>, path: seq<string>, i: nat, j: nat)
    requires SingleParent(t, par) && Route(t, path)
    requires i < j < |path|
    ensures path[i] != path[j]
    decreases i
  {
    assert EdgeAt(t, path, j);
    assert path[j] != Head && par[path[j]] == path[j - 1];
    if i > 0 {
      RouteDistinct(t, par, path, i - 1, j - 1);
      assert EdgeAt(t, path, i);
      assert par[path[i]] == path[i - 1];
    }
  }

  /** A list of distinct members of `keys` is no longer than `keys`. */
  lemma {:induction false} DistinctWithin(s: seq<string>, keys: set<string>)
    requires forall i :: 0 <= i < |s| ==> s[i] in keys
    requires forall i, j :: 0 <= i < j < |s| ==> s[i] != s[j]
    ensures |s| <= |keys|
  {
    if s != [] {
      var rest := keys - {s[0]};
      forall i | 0 <= i < |s[1..]|
        ensures s[1..][i] in rest
      {
        assert s[1..][i] == s[i + 1];
      }
      DistinctWithin(s[1..], rest);
      assert keys == rest + {s[0]};
    }
  }

  /** Hence a route visits at most every key once. */
  lemma RouteBound(t: Tree, par: map<string, string>, path: seq<string>)
    requires SingleParent(t, par) && Route(t, path)
    ensures |path| <= |t|
  {
    forall i, j | 0 <= i < j < |path|
      ensures path[i] != path[j]
    {
      RouteDistinct(t, par, path, i, j);
    }
    forall i | 0 <= i < |path|
      ensures path[i] in t.Keys
    {
      if i > 0 {
        assert EdgeAt(t, path, i);
      }
    }
    DistinctWithin(path, t.Keys);
  }

  /** With one parent per id, fuel that covers the number of keys left below
      the route is enough: more fuel changes nothing, whatever orphans or
      cycles sit off the routes from `HEAD`. */
  lemma {:induction false} WalkSuffices(t: Tree, par: map<string, string>, path: seq<string>, f1: nat, f2: nat)
    requires SingleParent(t, par) && Route(t, path)
    requires |t| < |path| + f1 && f1 <= f2
    ensures Flatten(t, path[|path| - 1], f1) == Flatten(t, path[|path| - 1], f2)
    decreases f1, 0
  {
    RouteBound(t, par, path);
    WalkSufficesAll(t, par, path, Children(t, path[|path| - 1]), f1 - 1, f2 - 1);
  }

  lemma {:induction false} WalkSufficesAll(t: Tree, par: map<string, string>, path: seq<string>, ids: seq<string>, f1: nat, f2: nat)
    requires SingleParent(t, par) && Route(t, path)
    requires |t| < |path| + 1 + f1 && f1 <= f2
    requires forall c :: c in ids ==> c in Children(t, path[|path| - 1])
    ensures FlattenAll(t, ids, f1) == FlattenAll(t, ids, f2)
    decreases f1, 1, |ids|
  {
    if ids != [] {
      var last := path[|path| - 1];
      var next := path + [ids[0]];
      assert ids[0] in ids;
      assert last in t && ids[0] in t[last];
      RouteExtend(t, path, ids[0]);
      assert |next| == |path| + 1 && next[|next| - 1] == ids[0];
      WalkSuffices(t, par, next, f1, f2);
      assert forall c :: c in ids[1..] ==> c in ids;
      WalkSufficesAll(t, par, path, ids[1..], f1, f2);
    }
  }

  /** So the walk cut at the number of keys is the complete walk. */
  lemma SingleParentComplete(t: Tree, par: map<string, string>, f: nat)
    requires SingleParent(t, par) && Head in t && |t| <= f
    ensures Linearize(t) == Flatten(t, Head, f)
  {
    assert Route(t, [Head]);
    WalkSuffices(t, par, [Head], |t|, f);
  }

  /** Every id the DFS reaches is listed as somebody's child, so it lies in
      any set that holds all listed children. */
  lemma {:induction false} FlattenWithin(t: Tree, within: set<string>, id: string, fuel: nat)
    requires forall k, c :: k in t && c in t[k] ==> c in within
    ensures forall x :: x in Flatten(t, id, fuel) ==> x in within
    decreases fuel, 0
  {
    if fuel > 0 {
      FlattenAllWithin(t, within, Children(t, id), fuel - 1);
    }
  }

  lemma {:induction false} FlattenAllWithin(t: Tree, within: set<string>, ids: seq<string>, fuel: nat)
    requires forall k, c :: k in t && c in t[k] ==> c in within
    requires forall c :: c in ids ==> c in within
    ensures forall x :: x in FlattenAll(t, ids, fuel) ==> x in within
    decreases fuel, 1, |ids|
  {
    if ids != [] {
      FlattenWithin(t, within, ids[0], fuel);
      FlattenAllWithin(t, within, ids[1..], fuel);
    }
  }

  /** A character shows in the text when it is known, visible and not the
      `'\0'` sentinel value. */
  predicate Shown(nodes: map<string, CharNode>, id: string)
  {
    id in nodes && nodes[id].visible && nodes[id].value != NullChar
  }

  /** The ids of `ids` that show, in order. */
  function VisibleIds(nodes: map<string, CharNode>, ids: seq<string>): seq<string>
  {
    if ids == [] then []
    else VisibleIds(nodes, ids[..|ids| - 1]) + (if Shown(nodes, ids[|ids| - 1]) then [ids[|ids| - 1]] else [])
  }

  /** `getVisibleText`: the values of the characters that show, in order. */
  function VisibleText(nodes: map<string, CharNode>, ids: seq<string>): string
  {
    if ids == [] then []
    else VisibleText(nodes, ids[..|ids| - 1]) + (if Shown(nodes, ids[|ids| - 1]) then [nodes[ids[|ids| - 1]].value] else [])
  }

  /** An id is among the visible ids exactly when it is listed and shows. */
  lemma {:induction false} VisibleIdsMembers(nodes: map<string, CharNode>, ids: seq<string>, x: string)
    ensures x in VisibleIds(nodes, ids) <==> x in ids && Shown(nodes, x)
  {
    if ids != [] {
      var init := ids[..|ids| - 1];
      VisibleIdsMembers(nodes, init, x);
      assert ids == init + [ids[|ids| - 1]];
    }
  }

  /** The visible text is the visible ids' values, character by character. */
  lemma {:induction false} VisibleTextMatchesIds(nodes: map<string, CharNode>, ids: seq<string>)
    ensures |VisibleText(nodes, ids)| == |VisibleIds(nodes, ids)|
    ensures forall i :: 0 <= i < |VisibleIds(nodes, ids)| ==>
      VisibleIds(nodes, ids)[i] in nodes && VisibleText(nodes, ids)[i] == nodes[VisibleIds(nodes, ids)[i]].value
  {
    if ids != [] {
      VisibleTextMatchesIds(nodes, ids[..|ids| - 1]);
    }
  }

  lemma {:induction false} VisibleIdsAppend(nodes: map<string, CharNode>, a: seq<string>, b: seq<string>)
    ensures VisibleIds(nodes, a + b) == VisibleIds(nodes, a) + VisibleIds(nodes, b)
    decreases |b|
  {
    if b == [] {
      assert a + b == a;
    } else {
      var b' := b[..|b| - 1];
      assert (a + b)[..|a + b| - 1] == a + b';
      VisibleIdsAppend(nodes, a, b');
    }
  }

  lemma {:induction false} VisibleTextAppend(nodes: map<string, CharNode>, a: seq<string>, b: seq<string>)
    ensures VisibleText(nodes, a + b) == VisibleText(nodes, a) + VisibleText(nodes, b)
    decreases |b|
  {
    if b == [] {
      assert a + b == a;
    } else {
      var b' := b[..|b| - 1];
      assert (a + b)[..|a + b| - 1] == a + b';
      VisibleTextAppend(nodes, a, b');
    }
  }

  /** A walk over siblings from the i-th: that sibling, its subtree, then
      the walk over the later siblings. */
  lemma FlattenAllCons(t: Tree, children: seq<string>, i: nat, fuel: nat)
    requires i < |children|
    ensures FlattenAll(t, children[i..], fuel)
      == [children[i]] + Flatten(t, children[i], fuel) + FlattenAll(t, children[i + 1..], fuel)
  {
    assert children[i..][1..] == children[i + 1..];
  }

  /** The visible text of one id followed by two further lists. */
  lemma TextCons(nodes: map<string, CharNode>, x: string, sub: seq<string>, rest: seq<string>)
    ensures VisibleText(nodes, [x] + sub + rest)
      == (if Shown(nodes, x) then [nodes[x].value] else []) + VisibleText(nodes, sub) + VisibleText(nodes, rest)
  {
    VisibleTextAppend(nodes, [x] + sub, rest);
    VisibleTextAppend(nodes, [x], sub);
    assert [x][..0] == [];
  }

  /** Appending three pieces one by one is appending them at once. */
  lemma AppendRegroup<T>(a: seq<T>, b: seq<T>, c: seq<T>, d: seq<T>)
    ensures a + b + c + d == a + (b + c + d)
  {
  }

  /** The text `dfsBuildText` appends for the subtree below `id`, written the
      way the walk produces it: the children's shares one after another. */
  ghost function SubtreeText(nodes: map<string, CharNode>, t: Tree, id: string, fuel: nat): string
    decreases fuel, 0
  {
    if fuel == 0 then [] else TextFrom(nodes, t, Children(t, id), 0, fuel - 1)
  }

  /** The text the `dfsBuildText` loop still has to append, from the child
      at index `i` on: each child's own character, then the text below it. */
  ghost function TextFrom(nodes: map<string, CharNode>, t: Tree, children: seq<string>, i: nat, fuel: nat): string
    decreases fuel, 1, |children| - i
  {
    if i >= |children| then []
    else
      var piece := if Shown(nodes, children[i]) then [nodes[children[i]].value] else [];
      piece + SubtreeText(nodes, t, children[i], fuel) + TextFrom(nodes, t, children, i + 1, fuel)
  }

  /** The walk's text is the visible text of the depth-first order. */
  lemma {:induction false} SubtreeTextVisible(nodes: map<string, CharNode>, t: Tree, id: string, fuel: nat)
    ensures SubtreeText(nodes, t, id, fuel) == VisibleText(nodes, Flatten(t, id, fuel))
    decreases fuel, 0
  {
    if 0 < fuel {
      var children := Children(t, id);
      TextFromVisible(nodes, t, children, 0, fuel - 1);
      assert children[0..] == children;
    }
  }

  /** The rest of the loop's text is the visible text of the remaining
      siblings' subtrees. */
  lemma {:induction false} TextFromVisible(nodes: map<string, CharNode>, t: Tree, children: seq<string>, i: nat, fuel: nat)
    requires i <= |children|
    ensures TextFrom(nodes, t, children, i, fuel) == VisibleText(nodes, FlattenAll(t, children[i..], fuel))
    decreases fuel, 1, |children| - i
  {
    if i < |children| {
      SubtreeTextVisible(nodes, t, children[i], fuel);
      TextFromVisible(nodes, t, children, i + 1, fuel);
      FlattenAllCons(t, children, i, fuel);
      TextCons(nodes, children[i], Flatten(t, children[i], fuel), FlattenAll(t, children[i + 1..], fuel));
    } else {
      assert children[i..] == [];
    }
  }

  /** One round of the loop consumes the child's share of the text. */
  lemma TextFromStep(nodes: map<string, CharNode>, t: Tree, children: seq<string>, i: nat, fuel: nat,
                     target: string, out0: string, out1: string, out2: string)
    requires i < |children|
    requires out0 + TextFrom(nodes, t, children, i, fuel) == target
    requires out1 == out0 + (if Shown(nodes, children[i]) then [nodes[children[i]].value] else [])
    requires out2 == out1 + SubtreeText(nodes, t, children[i], fuel)
    ensures out2 + TextFrom(nodes, t, children, i + 1, fuel) == target
  {
    var piece := if Shown(nodes, children[i]) then [nodes[children[i]].value] else [];
    var below := SubtreeText(nodes, t, children[i], fuel);
    var rest := TextFrom(nodes, t, children, i + 1, fuel);
    assert TextFrom(nodes, t, children, i, fuel) == piece + below + rest;
    AppendRegroup(out0, piece, below, rest);
  }
  /** `findLastVisibleCharId`: scans from the end; `"HEAD"` when nothing shows. */
  function LastVisibleId(nodes: map<string, CharNode>, ids: seq<string>): (r: string)
    ensures VisibleIds(nodes, ids) == [] ==> r == Head
    ensures VisibleIds(nodes, ids) != [] ==> r == VisibleIds(nodes, ids)[|VisibleIds(nodes, ids)| - 1]
  {
    if ids == [] then Head
    else if Shown(nodes, ids[|ids| - 1]) then ids[|ids| - 1]
    else LastVisibleId(nodes, ids[..|ids| - 1])
  }

  /** `findCharIdAtPosition(p)`: the id of the p-th character that shows. */
  function IdAtPosition(nodes: map<string, CharNode>, ids: seq<string>, p: int): Option<string>
  {
    var v := VisibleIds(nodes, ids);
    if 0 <= p < |v| then Some(v[p]) else None
  }

  /** Index of the first occurrence of `x`, or -1. */
  function IndexOf(s: seq<string>, x: string): (r: int)
    ensures -1 <= r < |s|
    ensures r == -1 <==> x !in s
    ensures r >= 0 ==> s[r] == x && forall j :: 0 <= j < r ==> s[j] != x
  {
    if s == [] then -1
    else if s[0] == x then 0
    else var k := IndexOf(s[1..], x); if k < 0 then -1 else k + 1
  }

  /** The first occurrence of `x` after a prefix that lacks it. */
  lemma {:induction false} IndexOfAfter(a: seq<string>, x: string, b: seq<string>)
    requires x !in a
    ensures IndexOf(a + [x] + b, x) == |a|
  {
    if a != [] {
      assert (a + [x] + b)[1..] == a[1..] + [x] + b;
      IndexOfAfter(a[1..], x, b);
    }
  }

  /** `findPositionOfChar(id)`: the position of `id` among the characters
      that show, or -1. */
  function PositionOf(nodes: map<string, CharNode>, ids: seq<string>, id: string): int
  {
    IndexOf(VisibleIds(nodes, ids), id)
  }

  /** -1 exactly for ids that are absent, tombstoned or the sentinel value. */
  lemma PositionOfAbsent(nodes: map<string, CharNode>, ids: seq<string>, id: string)
    ensures PositionOf(nodes, ids, id) == -1 <==> !(id in ids && Shown(nodes, id))
  {
    VisibleIdsMembers(nodes, ids, id);
  }

  /** The position of an id that shows leads back to that id. */
  lemma PositionThenId(nodes: map<string, CharNode>, ids: seq<string>, id: string)
    requires id in ids && Shown(nodes, id)
    ensures PositionOf(nodes, ids, id) >= 0
    ensures IdAtPosition(nodes, ids, PositionOf(nodes, ids, id)) == Some(id)
  {
    VisibleIdsMembers(nodes, ids, id);
  }

  /** No element occurs twice. */
  ghost predicate Distinct(s: seq<string>)
  {
    forall i, j :: 0 <= i < j < |s| ==> s[i] != s[j]
  }

  /** When no id shows twice, the id at a position leads back to that position. */
  lemma IdThenPosition(nodes: map<string, CharNode>, ids: seq<string>, p: int)
    requires IdAtPosition(nodes, ids, p).Some?
    requires Distinct(VisibleIds(nodes, ids))
    ensures PositionOf(nodes, ids, IdAtPosition(nodes, ids, p).value) == p
  {
    var v := VisibleIds(nodes, ids);
    assert v[p] in v;
    var k := IndexOf(v, v[p]);
  }
}
