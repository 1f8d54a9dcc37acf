# collab-editor in Dafny

A verified model of the core of collab-editor, a collaborative plain-text
editor. Clients and a server each keep a tree-shaped sequence CRDT.

- **Characters.** Every character carries a unique id and the id of the
  character it was typed after (its parent).
- **Order.** Siblings are ordered by `String.compareTo` of their ids. The
  text is the pre-order walk of the tree from the sentinel `HEAD`.
- **Deletion.** Deleted characters stay as tombstones (`visible == false`).

The model covers these parts, each in its own module:

- **The client document** (`ClientDocument.Document`, specified by
  `ClientState`):
  - duplicate-suppressing inserts with a `HEAD` default for a null parent;
  - tombstoning deletes;
  - the dirty-flagged pre-order cache;
  - the text, position and id queries over it;
  - the merge of a remote snapshot.
- **The server document** (`ServerDocument.Document`, specified by
  `ServerState`). It has the same splice rule but differs from the client:
  - no duplicate check;
  - no `HEAD` default: a null parent files the character under a separate
    `nullChildren` list, the Java map's null key;
  - `tree.put` empties the child list of every id it inserts.
- **Shared pieces.** `Siblings` holds the sorted splice and its loop.
  `Linear` holds the pre-order walk, the visible text and the position
  queries. `JavaStrings` holds `String.compareTo` and the decimal rendering
  of the id counter.
- **The editor window's non-UI logic** (`Editor.Editor`, specified by
  `EditorSpec`):
  - the flat `localVisibleChars` list;
  - id minting;
  - caret-to-parent resolution;
  - paste chains;
  - undo and redo stacks with inverse operations;
  - caret clamping.
- **The server's handlers and registries** (`Controller`, `Services`):
  - the edit dispatch and its reply;
  - full-state sync;
  - the document registry, which creates documents on demand;
  - the user-session and cursor registries, nested maps that drop empty
    entries.
- **Where the two documents part ways** (`Divergence`): small concrete runs
  of both documents on the same messages.

Each class keeps the Java object's fields and updates them in place. Each
method is proved against a function of the old state (`ClientState.Insert`,
`EditorSpec.UndoList`, `Services.WithUser`, ...). The properties the code
promises are proved as lemmas about those functions.

Both DFS walks would recurse without bound on a cycle reachable from
`HEAD`. The model therefore cuts them at a depth equal to the number of
tree keys, and proves that this bound changes nothing in every reachable
state:
- on the server, ghost insertion stamps show its tree never has a cycle;
- on the client, out-of-order delivery can close a cycle, but never one
  reachable from `HEAD`: every listed id is listed only under its own
  parent, and `HEAD` is listed nowhere, so no path of the walk from `HEAD`
  meets an id twice.

## Model

| member | source | states |
|---|---|---|
| JavaStrings.LessIrreflexive | client/src/main/java/client/model/CRDTDocument.java:29 | `compareTo(a, a) < 0` never holds |
| JavaStrings.LessAsymmetric | client/src/main/java/client/model/CRDTDocument.java:29 | no two ids are each smaller than the other |
| JavaStrings.LessTotal | client/src/main/java/client/model/CRDTDocument.java:29 | distinct ids are always ordered one way or the other |
| JavaStrings.LessTransitive | server/src/main/java/com/example/server/model/CRDTDocument.java:52 | the sibling order is transitive |
| JavaStrings.LessEqTransitive | server/src/main/java/com/example/server/model/CRDTDocument.java:52 | `compareTo(...) <= 0` is transitive |
| JavaStrings.LessEqAntisymmetric | server/src/main/java/com/example/server/model/CRDTDocument.java:52 | ids each not above the other are equal |
| JavaStrings.DigitChar | client/src/main/java/client/Main.java:864 | a decimal digit renders as a character between '0' and '9' |
| JavaStrings.NatToString | client/src/main/java/client/Main.java:864 | the counter's decimal text is non-empty, made of digits, and one digit long exactly below 10 |
| JavaStrings.NatToStringInjective | client/src/main/java/client/Main.java:864 | distinct counters render as distinct strings |
| Siblings.SpliceIndex | client/src/main/java/client/model/CRDTDocument.java:28-31 | the splice point is the first sibling not smaller than the new id: every sibling before it is smaller |
| Siblings.SpliceAt | client/src/main/java/client/model/CRDTDocument.java:32 | `siblings.add(pos, x)` is one longer, with `x` at the splice point and the old siblings shifted around it |
| Siblings.SpliceMembers | client/src/main/java/client/model/CRDTDocument.java:32 | after the splice the list holds exactly the old siblings and `x` |
| Siblings.SpliceMultiset | server/src/main/java/com/example/server/model/CRDTDocument.java:55 | the splice adds exactly one copy of `x`, whether the list is sorted or not |
| Siblings.SpliceSorted | client/src/main/java/client/model/CRDTDocument.java:26-32 | a sorted sibling list stays sorted and gains exactly one `x` |
| Siblings.SpliceOrdered | client/src/main/java/client/model/CRDTDocument.java:26-32 | splicing into a sorted list gives a sorted list |
| Siblings.SortedUnique | client/src/main/java/client/model/CRDTDocument.java:26-32 | two sorted lists with the same elements are equal |
| Siblings.SpliceCommutes | client/src/main/java/client/model/CRDTDocument.java:26-32 | two inserts under one parent give the same sibling list in either arrival order |
| Siblings.FindSpliceIndex | server/src/main/java/com/example/server/model/CRDTDocument.java:51-54 | the `while` loop stops at the splice point |
| Linear.RankedIntro | client/src/main/java/client/model/CRDTDocument.java:124-129 | a depth labelling is the conjunction of its key, edge and bound parts |
| Linear.FuelSuffices | client/src/main/java/client/model/CRDTDocument.java:124-129 | on a tree whose children sit deeper than their parents, any depth bound past the depth gives the same walk |
| Linear.RouteDistinct | client/src/main/java/client/model/CRDTDocument.java:124-129 | when each listed id has one parent and HEAD none, no id occurs twice on a path of the walk from HEAD |
| Linear.RouteBound | client/src/main/java/client/model/CRDTDocument.java:124-129 | such a path is never longer than the number of tree keys |
| Linear.WalkSuffices | client/src/main/java/client/model/CRDTDocument.java:124-129 | below a path of that kind, any depth bound past the remaining keys gives the same walk |
| Linear.WalkSufficesAll | client/src/main/java/client/model/CRDTDocument.java:125-128 | the same for the walk over a sibling list |
| Linear.SingleParentComplete | client/src/main/java/client/model/CRDTDocument.java:116-129 | when each listed id has one parent and HEAD none, the walk from HEAD cut at the key count is the complete walk, whatever cycles lie elsewhere |
| Linear.FuelSufficesAll | client/src/main/java/client/model/CRDTDocument.java:125-128 | the same for the walk over a sibling list |
| Linear.FlattenWithin | client/src/main/java/client/model/CRDTDocument.java:124-129 | every id the walk reaches is listed as a child in the tree |
| Linear.FlattenAllWithin | client/src/main/java/client/model/CRDTDocument.java:125-128 | the same for a sibling list |
| Linear.VisibleIdsMembers | client/src/main/java/client/model/CRDTDocument.java:51 | an id is among the shown ids exactly when it is walked and known, visible and not `'\0'` |
| Linear.VisibleTextMatchesIds | client/src/main/java/client/model/CRDTDocument.java:47-56 | the text is the shown characters' values, one for one |
| Linear.VisibleIdsAppend | client/src/main/java/client/model/CRDTDocument.java:50-54 | the shown ids of a concatenation are the concatenation of the shown ids |
| Linear.VisibleTextAppend | server/src/main/java/com/example/server/model/CRDTDocument.java:71-78 | the text of a concatenation is the concatenation of the texts |
| Linear.SubtreeTextVisible | server/src/main/java/com/example/server/model/CRDTDocument.java:71-78 | the text `dfsBuildText` appends below an id is the visible text of that subtree's pre-order walk |
| Linear.TextFromVisible | server/src/main/java/com/example/server/model/CRDTDocument.java:72-77 | what the sibling loop still appends is the visible text of the remaining siblings' subtrees |
| Linear.TextFromStep | server/src/main/java/com/example/server/model/CRDTDocument.java:73-76 | one sibling's character and subtree text consume exactly its share of the text still to append |
| Linear.LastVisibleId | client/src/main/java/client/model/CRDTDocument.java:69-82 | `findLastVisibleCharId` is the last shown id, or `"HEAD"` when nothing shows |
| Linear.IndexOf | client/src/main/java/client/model/CRDTDocument.java:106 | the first index holding the id, or -1 exactly when it is absent |
| Linear.IndexOfAfter | client/src/main/java/client/model/CRDTDocument.java:106 | an id first found after a prefix that lacks it sits at the prefix's length |
| Linear.PositionOfAbsent | client/src/main/java/client/model/CRDTDocument.java:101-113 | `findPositionOfChar` is -1 exactly for ids that are not walked, tombstoned or `'\0'` |
| Linear.PositionThenId | client/src/main/java/client/model/CRDTDocument.java:84-113 | the position of a shown id leads back to that id through `findCharIdAtPosition` |
| Linear.IdThenPosition | client/src/main/java/client/model/CRDTDocument.java:84-113 | when no id shows twice, the id at a valid position leads back to that position |
| ClientState.EmptyWf | client/src/main/java/client/model/CRDTDocument.java:12-16 | the new document (HEAD indexed with an empty child list) is well formed |
| ClientState.InsertTree | client/src/main/java/client/model/CRDTDocument.java:23-34 | a fresh insert adds the parent (null means HEAD) and the id as keys, splices the id into its parent's list, keeps an existing child list of the id, and changes no other list |
| ClientState.InsertMembers | client/src/main/java/client/model/CRDTDocument.java:23-34 | every listed child after an insert is the new id or an old child |
| ClientState.AddChildSorted | client/src/main/java/client/model/CRDTDocument.java:24-32 | the splice keeps every sibling list sorted |
| ClientState.InsertSorted | client/src/main/java/client/model/CRDTDocument.java:19-36 | every sibling list stays sorted after `applyInsert` |
| ClientState.InsertWf | client/src/main/java/client/model/CRDTDocument.java:19-36 | `applyInsert` keeps the document well formed: ids indexed under themselves, lists sorted, every listed child indexed |
| ClientState.DeleteWf | client/src/main/java/client/model/CRDTDocument.java:38-44 | `applyDelete` keeps the document well formed |
| ClientState.InsertEffect | client/src/main/java/client/model/CRDTDocument.java:19-36 | a fresh id is indexed and sits exactly once in its parent's sorted list and in no other list; a child list that orphans made for it is kept; nothing else changes |
| ClientState.InsertListedOnce | client/src/main/java/client/model/CRDTDocument.java:24-34 | a fresh id is listed under its parent only |
| ClientState.InsertIdempotent | client/src/main/java/client/model/CRDTDocument.java:20-21 | delivering an insert twice equals delivering it once |
| ClientState.DeleteIdempotent | client/src/main/java/client/model/CRDTDocument.java:38-44 | delivering a delete twice equals delivering it once |
| ClientState.ApplyIdempotent | client/src/main/java/client/model/CRDTDocument.java:59-67 | applying the same message twice equals applying it once |
| ClientState.DeleteEffect | client/src/main/java/client/model/CRDTDocument.java:38-44 | a delete changes only that id's visibility, removes nothing, and is a no-op on an unknown id |
| ClientState.PutIfAbsentCommutes | client/src/main/java/client/model/CRDTDocument.java:24 | two `putIfAbsent`s commute |
| ClientState.PutIfAbsentAddChild | client/src/main/java/client/model/CRDTDocument.java:24-34 | `putIfAbsent` commutes with a splice |
| ClientState.AddChildCommutes | client/src/main/java/client/model/CRDTDocument.java:27-32 | splices of two ids commute, whether under one parent or two |
| ClientState.AddChildDisjoint | client/src/main/java/client/model/CRDTDocument.java:27-32 | splices under two different parents commute |
| ClientState.InsertCommutes | client/src/main/java/client/model/CRDTDocument.java:19-36 | two inserts of distinct ids give the same document in either arrival order |
| ClientState.DeleteInsertCommute | client/src/main/java/client/model/CRDTDocument.java:19-44 | a delete of one id and an insert of another commute |
| ClientState.MergeKeepsTombstone | client/src/main/java/client/model/CRDTDocument.java:137-145 | `mergeRemoteOperations` never makes a tombstone visible again |
| ClientState.ApplyKeepsTombstone | client/src/main/java/client/model/CRDTDocument.java:59-67 | no insert or delete message makes a tombstone visible again |
| ClientState.EmptyParented | client/src/main/java/client/model/CRDTDocument.java:12-16 | the new document lists no id, so each listed id has its own parent trivially |
| ClientState.InsertParented | client/src/main/java/client/model/CRDTDocument.java:19-36 | `applyInsert` keeps every listed id a known character other than HEAD, listed only under its own parent (`ParentKey`) |
| ClientState.DeleteParented | client/src/main/java/client/model/CRDTDocument.java:38-44 | `applyDelete` keeps the same property: it only hides a character |
| ClientState.ParentedLinearizeComplete | client/src/main/java/client/model/CRDTDocument.java:116-129 | on a well-formed state whose ids are listed under their own parents, the walk from HEAD cut at the key count is the complete walk |
| ClientState.OrphansCanFormCycle | client/src/main/java/client/model/CRDTDocument.java:23-34 | two orphans naming each other as parent close a cycle in the tree; it is unreachable from HEAD, so the walk from HEAD is empty, as the Java walk is |
| ClientDocument.Document.constructor | client/src/main/java/client/model/CRDTDocument.java:12-16 | the new document holds only HEAD and its cache is dirty |
| ClientDocument.Document.ApplyInsert | client/src/main/java/client/model/CRDTDocument.java:19-36 | the document follows `ClientState.Insert`, stays valid, is untouched for a known id, and is otherwise marked dirty |
| ClientDocument.Document.Attach | client/src/main/java/client/model/CRDTDocument.java:23-34 | the fresh-id branch puts the parent list in place, splices, indexes and keeps the id's child list, as `ClientState.Insert` says |
| ClientDocument.Document.ApplyDelete | client/src/main/java/client/model/CRDTDocument.java:38-44 | the document follows `ClientState.Delete`; an unknown id changes nothing, a known one marks the cache dirty |
| ClientDocument.Document.Apply | client/src/main/java/client/model/CRDTDocument.java:59-67 | the document follows `ClientState.Apply` and the cache is dirty |
| ClientDocument.Document.RebuildCacheIfNeeded | client/src/main/java/client/model/CRDTDocument.java:116-122 | afterwards the cache is clean and equals the pre-order walk of the current tree |
| ClientDocument.Document.LinearizeComplete | client/src/main/java/client/model/CRDTDocument.java:116-129 | on a valid document any depth bound at least the key count gives the walk the cache holds, so the cut is never reached |
| ClientDocument.Document.FlattenDfs | client/src/main/java/client/model/CRDTDocument.java:124-129 | appends the pre-order walk below the id to the list |
| ClientDocument.Document.GetVisibleText | client/src/main/java/client/model/CRDTDocument.java:47-56 | the text is the values of the shown characters in walk order |
| ClientDocument.Document.GetAllCharacters | client/src/main/java/client/model/CRDTDocument.java:132-135 | returns the characters of the pre-order walk, tombstones included |
| ClientDocument.Document.FindLastVisibleCharId | client/src/main/java/client/model/CRDTDocument.java:69-82 | the last shown id, or `"HEAD"` |
| ClientDocument.Document.FindCharIdAtPosition | client/src/main/java/client/model/CRDTDocument.java:84-99 | null for a negative position or one at or past the shown count, else the id of the p-th shown character |
| ClientDocument.Document.FindPositionOfChar | client/src/main/java/client/model/CRDTDocument.java:101-113 | the position of the id among the shown characters, or -1 |
| ClientDocument.Document.MergeRemoteOperations | client/src/main/java/client/model/CRDTDocument.java:137-145 | unknown ids are inserted and known invisible ones deleted, in list order, as `ClientState.Merge` says |
| ServerState.FreshWf | server/src/main/java/com/example/server/model/CRDTDocument.java:11-15 | the new document is well formed |
| ServerState.InsertTree | server/src/main/java/com/example/server/model/CRDTDocument.java:47-57 | an insert adds the parent and the id as keys, splices the id into the parent list, replaces the id's own list with an empty one, and changes no other list |
| ServerState.InsertMembers | server/src/main/java/com/example/server/model/CRDTDocument.java:47-57 | every listed child after an insert is the new id or an old child |
| ServerState.InsertWf | server/src/main/java/com/example/server/model/CRDTDocument.java:44-58 | `insertCharacter` keeps the document well formed |
| ServerState.DeleteWf | server/src/main/java/com/example/server/model/CRDTDocument.java:60-63 | `deleteCharacter` keeps the document well formed |
| ServerState.InsertAddsEntry | server/src/main/java/com/example/server/model/CRDTDocument.java:44-57 | no duplicate check: every insert adds one more copy of the id to its parent's list, the null parent's list included, even when the id is already listed there; an id named as its own parent is the exception, since `tree.put` (line 57) then replaces the grown list with an empty one |
| ServerState.InsertResetsChildren | server/src/main/java/com/example/server/model/CRDTDocument.java:56-57 | the inserted id's child list becomes empty, while every indexed id stays indexed |
| ServerState.DeleteEffect | server/src/main/java/com/example/server/model/CRDTDocument.java:25-31 | `delete` returns the tombstoned character exactly for known ids and changes nothing else |
| ServerState.ApplyOtherKind | server/src/main/java/com/example/server/model/CRDTDocument.java:39-41 | any other message type leaves the document as it was |
| ServerState.ApplyKeepsTombstone | server/src/main/java/com/example/server/model/CRDTDocument.java:33-42 | deletes and inserts of other ids never make a tombstone visible |
| ServerState.InsertStamped | server/src/main/java/com/example/server/model/CRDTDocument.java:44-58 | every insert keeps the stamps increasing along each parent-to-child edge |
| ServerState.RestampKeys | server/src/main/java/com/example/server/model/CRDTDocument.java:48-57 | the new stamps cover the new keys, the inserted id gets the newest stamp and every other stamp is kept |
| ServerState.InsertEdges | server/src/main/java/com/example/server/model/CRDTDocument.java:55-57 | an insert adds edges only into the new id and none out of it |
| ServerState.StampStep | server/src/main/java/com/example/server/model/CRDTDocument.java:44-58 | adding only edges into the newest stamp keeps the stamping |
| ServerState.StampedRanked | server/src/main/java/com/example/server/model/CRDTDocument.java:86-91 | a stamped tree has a depth labelling bounded by its key count |
| ServerState.ServerLinearizeComplete | server/src/main/java/com/example/server/model/CRDTDocument.java:80-91 | on a stamped tree the walk cut at the key count is the complete walk |
| ServerDocument.Document.constructor | server/src/main/java/com/example/server/model/CRDTDocument.java:11-15 | the new document holds only HEAD |
| ServerDocument.Document.Insert | server/src/main/java/com/example/server/model/CRDTDocument.java:17-21 | the document follows `ServerState.Insert` and the very character given is returned |
| ServerDocument.Document.InsertCharacter | server/src/main/java/com/example/server/model/CRDTDocument.java:44-58 | the document follows `ServerState.Insert` and stays valid and stamped |
| ServerDocument.Document.Attach | server/src/main/java/com/example/server/model/CRDTDocument.java:47-57 | the field updates of `insertCharacter`, as `ServerState.Insert` says |
| ServerDocument.Document.Delete | server/src/main/java/com/example/server/model/CRDTDocument.java:25-31 | the document follows `ServerState.Delete` and the tombstoned character or null is returned |
| ServerDocument.Document.DeleteCharacter | server/src/main/java/com/example/server/model/CRDTDocument.java:60-63 | the document follows `ServerState.Delete` |
| ServerDocument.Document.Apply | server/src/main/java/com/example/server/model/CRDTDocument.java:33-42 | the document follows `ServerState.Apply` |
| ServerDocument.Document.LinearizeComplete | server/src/main/java/com/example/server/model/CRDTDocument.java:80-91 | on a valid document no depth bound past the key count changes the walk |
| ServerDocument.Document.GetVisibleText | server/src/main/java/com/example/server/model/CRDTDocument.java:65-69 | the text is the values of the shown characters in pre-order |
| ServerDocument.Document.DfsBuildText | server/src/main/java/com/example/server/model/CRDTDocument.java:71-78 | appends the text of the subtree below the id, child by child |
| ServerDocument.Document.GetAllCharacters | server/src/main/java/com/example/server/model/CRDTDocument.java:80-84 | the characters of the pre-order walk, tombstones included |
| ServerDocument.Document.FlattenDfs | server/src/main/java/com/example/server/model/CRDTDocument.java:86-91 | appends the pre-order walk below the id |
| Divergence.NullParentDiverges | server/src/main/java/com/example/server/model/CRDTDocument.java:47-48 | a null parent shows under HEAD on the client but never in the server's walk |
| Divergence.DuplicateDiverges | server/src/main/java/com/example/server/model/CRDTDocument.java:17-21 | a re-delivered insert shows once on the client and twice on the server |
| Divergence.DuplicateClient | client/src/main/java/client/model/CRDTDocument.java:20-21 | the client ignores the second delivery |
| Divergence.DuplicateServer | server/src/main/java/com/example/server/model/CRDTDocument.java:44-57 | the server lists the id twice under HEAD |
| Divergence.TombstoneDiverges | server/src/main/java/com/example/server/model/CRDTDocument.java:44-63 | insert, delete, then the same insert again: the client keeps the tombstone and shows nothing; the server indexes the visible copy and lists the id twice under HEAD; the model's server text is "aa" (Java shows "a", see "## Left out") |
| Divergence.TombstoneClient | client/src/main/java/client/model/CRDTDocument.java:19-21 | the client's second insert is ignored, so the deleted character stays hidden |
| Divergence.TombstoneServer | server/src/main/java/com/example/server/model/CRDTDocument.java:55-56 | `idMap.put` indexes the visible copy and the id is listed a second time under HEAD; with characters as values both entries read that copy, so the model's text is "aa" |
| Divergence.OrphanDiverges | server/src/main/java/com/example/server/model/CRDTDocument.java:57 | an orphan that arrives before its parent shows on the client but drops out of the server's walk while staying indexed |
| EditorSpec.MintedIdInjective | client/src/main/java/client/Main.java:857-865 | different counters give different ids for one client |
| EditorSpec.IdIndex | client/src/main/java/client/Main.java:567-574 | the first index holding the id, or -1 exactly when no entry has it |
| EditorSpec.InsertLandsAfterParent | client/src/main/java/client/Main.java:567-574 | the new entry lands right after the first entry of its parent, or last when the parent is absent or null; the rest keeps its order |
| EditorSpec.RemoveIdMembers | client/src/main/java/client/Main.java:605-607 | `removeIf` drops exactly the entries with that id |
| EditorSpec.RemoveIdAppend | client/src/main/java/client/Main.java:605-607 | removal keeps the relative order of the rest |
| EditorSpec.RemoveIdNoId | client/src/main/java/client/Main.java:605-607 | removing an absent id changes nothing |
| EditorSpec.VisibleCharsAppend | client/src/main/java/client/Main.java:635-643 | the visible entries of a concatenation are the concatenation of the visible entries |
| EditorSpec.TextMatchesVisible | client/src/main/java/client/Main.java:635-643 | the text is the visible entries' values, one for one |
| EditorSpec.VisibleCharsMembers | client/src/main/java/client/Main.java:635-643 | the visible entries are exactly the list's visible members |
| EditorSpec.ParentAtCaretIsCharAt | client/src/main/java/client/Main.java:497-518 | inside the text, the parent at a visible index is the character `findCharacterAtPosition` finds there |
| EditorSpec.VisibleCaretIsMin | client/src/main/java/client/Main.java:623-633 | for a caret `p >= 0` the visible anchor is `min(p, visible count)` |
| EditorSpec.CaretWithinText | client/src/main/java/client/Main.java:609-656 | after a redraw the caret lies within the new text, whatever the last operation was |
| EditorSpec.InverseOfInsert | client/src/main/java/client/Main.java:819-821 | the inverse of an insert is a delete of that id with a `'\0'`, invisible character |
| EditorSpec.InverseOfDelete | client/src/main/java/client/Main.java:822-831 | the inverse of a delete exists exactly while an entry has that id, and re-inserts a visible copy of the first such entry |
| EditorSpec.UndoInsertRemoves | client/src/main/java/client/Main.java:815-855 | undoing an insert removes every entry with its id and nothing else |
| EditorSpec.UndoLocalDeleteRestoresNothing | client/src/main/java/client/Main.java:707-723 | after `sendDelete` removed the only entry with an id, the inverse of its delete is null and undoing it leaves the list as it is |
| EditorSpec.UndoInsertsRemovesAll | client/src/main/java/client/Main.java:758-770 | undoing a paste removes every pasted id and adds nothing |
| EditorSpec.UndoThenRedoInsert | client/src/main/java/client/Main.java:772-813 | redoing an undone insert puts its character back |
| EditorSpec.ReverseReverse | client/src/main/java/client/Main.java:758-808 | pushing a batch in reverse and then in order restores the order |
| EditorSpec.ReverseAppend | client/src/main/java/client/Main.java:798-808 | pushing one more entry puts it on top of the reversed run |
| EditorSpec.ElementIndex | client/src/main/java/client/Main.java:713 | `indexOf` gives the first equal entry, or -1 exactly when there is none |
| EditorSpec.CharAtPositionInList | client/src/main/java/client/Main.java:709-713 | the character found at a caret is a visible entry of the list |
| EditorSpec.DeleteIndexFinds | client/src/main/java/client/Main.java:707-714 | `sendDelete` finds an index exactly when a character is at the caret, and removes that visible entry |
| EditorSpec.ReceiveIdempotent | client/src/main/java/client/Main.java:576-607 | a re-delivered remote insert or delete changes nothing the second time |
| EditorSpec.ChainAt | client/src/main/java/client/Main.java:520-534 | in a paste chain each insert carries its character under the previous insert's id, the first under the caret's parent |
| EditorSpec.ChainSnoc | client/src/main/java/client/Main.java:533 | one more insert under the last id extends the chain |
| EditorSpec.PasteStep | client/src/main/java/client/Main.java:524-534 | a kept character extends the paste chain |
| EditorSpec.PasteSkip | client/src/main/java/client/Main.java:525-526 | a control character other than a line break is skipped |
| EditorSpec.RedoListSnoc | client/src/main/java/client/Main.java:547-552 | applying one more operation extends the list's history |
| EditorSpec.MintedStep | client/src/main/java/client/Main.java:857-865 | an id minted from a later counter extends the record of minted ids |
| EditorSpec.MintedBounds | client/src/main/java/client/Main.java:857-865 | the minted counters strictly increase and stay below the clock |
| EditorSpec.PasteInvKeep | client/src/main/java/client/Main.java:524-534 | sending a kept character keeps the paste loop's invariant |
| EditorSpec.PasteInvSkip | client/src/main/java/client/Main.java:525-526 | skipping a character keeps the paste loop's invariant |
| EditorSpec.MintedDistinct | client/src/main/java/client/Main.java:857-865 | ids minted from increasing counters are pairwise distinct |
| Editor.Editor.constructor | client/src/main/java/client/Main.java:46-62 | the field initialisers: last operation `"remote"`, empty undo and redo stacks, no undo or redo in progress, counter 0, an empty list of visible characters, and an empty text area with the caret at 0; `clientId` is the login name that line 92 assigns, taken as a parameter |
| Editor.Editor.GenerateUniqueId | client/src/main/java/client/Main.java:857-865 | the counter strictly grows: it jumps to the clock when the clock is ahead, and otherwise it goes up by exactly one; the id is `clientId + "_" + counter` |
| Editor.Editor.FindInsertIndex | client/src/main/java/client/Main.java:567-574 | right after the first entry with the parent's id, else the list's length |
| Editor.Editor.GetParentIdFromVisibleCaret | client/src/main/java/client/Main.java:497-518 | `"HEAD"` for a negative index, else the visible entry there, else the last visible one, else `"HEAD"` |
| Editor.Editor.FindParentIdForInsert | client/src/main/java/client/Main.java:688-705 | `"HEAD"` for caret 0, an empty list or caret 1; else the visible entry two places before the caret; past the text, the last visible one |
| Editor.Editor.FindCharacterAtPosition | client/src/main/java/client/Main.java:725-736 | the visible entry at that index, or null |
| Editor.Editor.CalculateVisibleCaretPosition | client/src/main/java/client/Main.java:623-633 | the caret if it is within the visible entries, else their count |
| Editor.Editor.BuildVisibleText | client/src/main/java/client/Main.java:635-643 | the values of the visible entries, in order |
| Editor.Editor.CalculateNewCaretPosition | client/src/main/java/client/Main.java:645-656 | capped at the text length after an insert or remote update, at least 0 after a delete, else the anchor |
| Editor.Editor.FindOriginalCharacter | client/src/main/java/client/Main.java:833-840 | a visible copy of the first entry with that id, or null |
| Editor.Editor.CreateInverseOperation | client/src/main/java/client/Main.java:815-831 | the inverse as `EditorSpec.Inverse` gives it: a delete for an insert, a re-insert for a delete while the id is listed, otherwise null |
| Editor.Editor.HandleInsertOperation | client/src/main/java/client/Main.java:594-603 | a listed id is ignored, otherwise the character goes in after its parent |
| Editor.Editor.HandleDeleteOperation | client/src/main/java/client/Main.java:605-607 | every entry with the id is removed |
| Editor.Editor.ApplyLocalOperation | client/src/main/java/client/Main.java:842-855 | null does nothing; an insert goes in after its parent; a delete removes the id |
| Editor.Editor.UpdateTextFromCrdt | client/src/main/java/client/Main.java:609-621 | the shown text is the visible text and the caret is re-placed by the last operation's rule |
| Editor.Editor.ApplyServerUpdate | client/src/main/java/client/Main.java:576-592 | dropped while an undo or redo runs or without a character, otherwise applied and redrawn |
| Editor.Editor.SendInsertAt | client/src/main/java/client/Main.java:547-565 | a freshly minted id goes in after the parent; it joins the given batch, or with a null list is pushed on the undo stack and the redo stack is cleared |
| Editor.Editor.SendInsert | client/src/main/java/client/Main.java:670-686 | one insert under the caret's parent, exactly one undo entry, redo cleared |
| Editor.Editor.SendDelete | client/src/main/java/client/Main.java:707-723 | nothing at the caret changes nothing; otherwise that entry is removed, one delete is pushed for undo and redo is cleared |
| Editor.Editor.IndexOf | client/src/main/java/client/Main.java:713 | the first entry equal to the character |
| Editor.Editor.PasteTextAtCaret | client/src/main/java/client/Main.java:520-545 | the inserts chain the kept characters from the caret's parent with distinct ids; exactly one batch entry is pushed and redo cleared only if something was inserted |
| Editor.Editor.PasteChars | client/src/main/java/client/Main.java:524-534 | the paste loop sends one chained insert per kept character and leaves the stacks alone |
| Editor.Editor.Undo | client/src/main/java/client/Main.java:738-756 | a no-op on an empty stack; otherwise the top entry's inverses are applied last to first, its operations go on the redo stack with the first on top, and the in-progress flag is cleared |
| Editor.Editor.UndoBatchOperation | client/src/main/java/client/Main.java:758-770 | the inverses applied from last to first, each original pushed on the redo stack |
| Editor.Editor.UndoSingleOperation | client/src/main/java/client/Main.java:772-776 | the inverse applied and the original pushed on the redo stack |
| Editor.Editor.Redo | client/src/main/java/client/Main.java:778-796 | a no-op on an empty stack; otherwise the top entry's operations are re-applied in order and pushed on the undo stack, and the in-progress flag is cleared |
| Editor.Editor.RedoBatchOperation | client/src/main/java/client/Main.java:798-808 | the operations re-applied in order, each pushed on the undo stack |
| Editor.Editor.RedoSingleOperation | client/src/main/java/client/Main.java:810-813 | the operation re-applied and pushed on the undo stack |
| Services.AddUserEffect | server/src/main/java/com/example/server/service/UserSessionService.java:12-14 | adding puts the user in the document's set, once, keeps no empty set and leaves other documents alone |
| Services.RemoveUserEffect | server/src/main/java/com/example/server/service/UserSessionService.java:16-24 | removing takes only that user out, drops an emptied document and leaves other documents alone |
| Services.JoinLeaveRoundTrip | server/src/main/java/com/example/server/service/UserSessionService.java:12-24 | adding a new user and removing it restores the registry |
| Services.UpdateThenGet | server/src/main/java/com/example/server/service/CursorService.java:14-21 | an updated cursor reads back, and no other cursor moves |
| Services.RemoveThenGet | server/src/main/java/com/example/server/service/CursorService.java:27-35 | a removed cursor reads as null, emptied documents are dropped, and no other cursor moves |
| Services.UpdateRemoveRoundTrip | server/src/main/java/com/example/server/service/CursorService.java:14-35 | placing a new cursor and removing it restores the registry |
| Services.DocumentService.constructor | server/src/main/java/com/example/server/service/DocumentService.java:12 | an empty registry |
| Services.DocumentService.GetDocument | server/src/main/java/com/example/server/service/DocumentService.java:14-16 | a registered id returns the same document and changes nothing; an unknown id registers a fresh empty document |
| Services.DocumentService.RemoveDocument | server/src/main/java/com/example/server/service/DocumentService.java:18-20 | the id is gone and every other id keeps its document |
| Services.DocumentService.Exists | server/src/main/java/com/example/server/service/DocumentService.java:22-24 | true exactly for registered ids, changing nothing |
| Services.UserSessionService.constructor | server/src/main/java/com/example/server/service/UserSessionService.java:10 | an empty registry |
| Services.UserSessionService.AddUser | server/src/main/java/com/example/server/service/UserSessionService.java:12-14 | the registry follows `WithUser` |
| Services.UserSessionService.RemoveUser | server/src/main/java/com/example/server/service/UserSessionService.java:16-24 | the registry follows `WithoutUser`, which takes the user out and drops an emptied document |
| Services.UserSessionService.GetUsers | server/src/main/java/com/example/server/service/UserSessionService.java:26-28 | the document's users, empty for an unknown document |
| Services.UserSessionService.HasUsers | server/src/main/java/com/example/server/service/UserSessionService.java:30-32 | true exactly when the document has users, which is exactly when it is a key |
| Services.CursorService.constructor | server/src/main/java/com/example/server/service/CursorService.java:12 | an empty registry |
| Services.CursorService.UpdateCursor | server/src/main/java/com/example/server/service/CursorService.java:14-17 | the registry follows `WithCursor` |
| Services.CursorService.GetCursor | server/src/main/java/com/example/server/service/CursorService.java:19-21 | the stored position, or null exactly when the document or user is unknown |
| Services.CursorService.GetCursorsForDoc | server/src/main/java/com/example/server/service/CursorService.java:23-25 | the document's cursors, empty for an unknown document |
| Services.CursorService.RemoveCursor | server/src/main/java/com/example/server/service/CursorService.java:27-35 | the registry follows `WithoutCursor`, which removes the cursor and drops an emptied document |
| Controller.ErrorReplyIff | server/src/main/java/com/example/server/MessageController.java:53-73 | the reply is "error" exactly for an unknown type or a delete of an unknown id, and then carries null and the document is unchanged |
| Controller.ReplyEchoes | server/src/main/java/com/example/server/MessageController.java:54-65 | a successful reply has the message's type and id; a delete reply carries the tombstone the document now holds |
| Controller.SyncMessages | server/src/main/java/com/example/server/MessageController.java:88-90 | one insert message per character, in order |
| Controller.ApplyEdit | server/src/main/java/com/example/server/MessageController.java:52-74 | the document takes the edit as `ServerState.Apply` says and the reply is `EditReply` of the old state |
| Controller.MessageController.constructor | server/src/main/java/com/example/server/MessageController.java:33-40 | the controller holds the services it is given |
| Controller.MessageController.HandleEdit | server/src/main/java/com/example/server/MessageController.java:42-75 | the registry gains `docId` if it lacked it and changes in no other way; that document takes the edit as `ServerState.Apply` says from its old state (a fresh one for a new id); every other registered document keeps its state; the reply is `EditReply` of the state before the edit |
| Controller.MessageController.EditRegistered | server/src/main/java/com/example/server/MessageController.java:52-74 | the synchronized block on a registered document: it takes the edit and the reply is `EditReply` of its old state, every other registered document keeps its state, and the registry stays valid |
| Controller.MessageController.HandleSyncRequest | server/src/main/java/com/example/server/MessageController.java:77-91 | the registry gains `docId` if it lacked it and changes in no other way; an existing document is the same one, in the same state, and a new one is fresh; the reply is one insert per character of its pre-order walk, tombstones included, in walk order |
| Controller.MessageController.HandleCreate | server/src/main/java/com/example/server/MessageController.java:93-97 | the registry gains `docId` if it lacked it and changes in no other way; an existing document is kept in its state, a new one is fresh |
| Controller.MessageController.HandleExistCheck | server/src/main/java/com/example/server/MessageController.java:99-106 | answers whether the document exists, creating nothing |
| Controller.MessageController.HandleJoin | server/src/main/java/com/example/server/MessageController.java:108-112 | the user joins the document's set and the broadcast list contains them |
| Controller.MessageController.HandleLeave | server/src/main/java/com/example/server/MessageController.java:114-120 | the user leaves the document's set and the broadcast list lacks them |

## Left out

- The JavaFX user interface (screens, text area, clipboard, file chooser, notifications) and the import callback are not part of this model. The text area is the fields `text` and `caret`, and the pasted text and the clock are parameters.
- Transport is not modelled: STOMP connect, subscribe and `sendMessage`, Spring routing, and the `messagingTemplate` broadcast. A handler's reply, or the user set it broadcasts, is its return value.
- `System.currentTimeMillis` is a parameter, and `Thread.sleep` in the paste loop is dropped.
- Concurrency (`synchronized`, `ConcurrentHashMap`) is not modelled: every class runs sequentially.
- Console logging is not modelled, and neither is the unreachable null branch of `handleSyncRequest`: `getDocument` never returns null.
- Characters are values. Visibility lives in each document's id index instead of in a shared `CRDTCharacter` object. On the server, a re-inserted id's older tree entry therefore shows the latest indexed character, where Java would keep the older object.
- `String.compareTo` compares UTF-16 code units. The model compares Dafny characters, which are Unicode scalar values, so the order can differ for characters outside the Basic Multilingual Plane.
- Editor.Editor.PasteTextAtCaret, Editor.Editor.PasteChars: the Java loop walks the pasted text's UTF-16 code units (client/src/main/java/client/Main.java:524), so a character outside the Basic Multilingual Plane becomes two inserts, one per surrogate; the model inserts one character per Dafny character, a Unicode scalar value, and a lone surrogate cannot be written as a Dafny character at all.
- Editor.Editor.UpdateTextFromCrdt, Editor.Editor.CalculateVisibleCaretPosition, Editor.Editor.CalculateNewCaretPosition: text lengths and caret positions count UTF-16 code units in Java (`visibleText.length()`, client/src/main/java/client/Main.java:615) and Dafny characters in the model; the two agree only on text inside the Basic Multilingual Plane.
- The server's general rule that a character is walked only when its parent chain reaches HEAD holds by how the walk is defined. It is shown on the concrete runs in `Divergence` rather than as a lemma of its own.
- Editor.Editor.GenerateUniqueId: the counter is an unbounded natural, so the `long` overflow of `incrementAndGet` is not modelled.
- Editor.Editor.SendDelete: `indexOf` and `remove` compare entries by value, where Java compares object identity.
- Editor.Editor.UndoBatchOperation: null batch lists and null entries inside a batch cannot occur in the model, so the Java null checks have no counterpart.
- Divergence.TombstoneDiverges, Divergence.TombstoneServer: on the run insert, delete, insert of the same id, Java's server shows "a", not the model's "aa": the delete hides the first `CRDTCharacter` object itself, which stays listed beside the new visible one, while the model's characters are values read through the id index (see the line above on characters as values).
- ClientState.Apply, ClientDocument.Document.Apply, ServerState.Apply, ServerDocument.Document.Apply: require an insert or delete message to carry a character. In Java a null character throws `NullPointerException` (client `CRDTDocument.apply` at `applyInsert` or at `message.getCharacter().getId()`, line 65; server at `insertCharacter` line 47 or `apply` line 37); on the client the cache has by then already been marked dirty (line 60).
- Controller.MessageController.HandleEdit: requires an insert or delete message to carry a character. In Java a null character throws `NullPointerException`.
- Controller.ApplyEdit: same requirement as HandleEdit.
- Services.UserSessionService.GetUsers: returns a set. The Java array's iteration order is unspecified.
- Services.CursorService.GetCursorsForDoc: returns a value. Java returns the live inner map, so later updates show through it.
