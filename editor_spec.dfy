/** What the editor window's bookkeeping computes, as functions of its flat
    character list `localVisibleChars`: list edits, caret-to-character
    resolution, caret arithmetic, inverse operations and the effect of
    undoing or redoing a sequence of operations. The `Editor` class in
    editor.dfy is proved to follow these functions. */
module EditorSpec {
  import opened CrdtTypes
  import opened JavaStrings

  /** `clientId + "_" + n` */
  function MintedId(clientId: string, n: nat): string
  {
    clientId + "_" + NatToString(n)
  }

  /** Different counters give different ids for the same client. */
  lemma MintedIdInjective(clientId: string, m: nat, n: nat)
    requires MintedId(clientId, m) == MintedId(clientId, n)
    ensures m == n
  {
    var k := |clientId| + 1;
    assert MintedId(clientId, m)[k..] == NatToString(m);
    assert MintedId(clientId, n)[k..] == NatToString(n);
    NatToStringInjective(m, n);
  }

  // ---- the flat list ----

  /** Index of the first character with this id, or -1. */
  function IdIndex(cs: seq<CharNode>, id: string): (r: int)
    ensures -1 <= r < |cs|
    ensures r == -1 <==> forall k :: 0 <= k < |cs| ==> cs[k].id != id
    ensures r >= 0 ==> cs[r].id == id && forall k :: 0 <= k < r ==> cs[k].id != id
  {
    if cs == [] then -1
    else if cs[0].id == id then 0
    else var k := IdIndex(cs[1..], id); if k < 0 then -1 else k + 1
  }

  /** `findInsertIndex(parentId)`: just after the first character with that
      id, or at the end when there is none (a null parent never matches). */
  function InsertIndex(cs: seq<CharNode>, parentId: Option<string>): nat
  {
    if parentId.Some? && IdIndex(cs, parentId.value) >= 0 then IdIndex(cs, parentId.value) + 1 else |cs|
  }

  /** `list.add(i, c)` */
  function InsertAt(cs: seq<CharNode>, i: nat, c: CharNode): seq<CharNode>
    requires i <= |cs|
  {
    cs[..i] + [c] + cs[i..]
  }

  /** `list.removeIf(c -> c.getId().equals(id))` */
  function RemoveId(cs: seq<CharNode>, id: string): seq<CharNode>
  {
    if cs == [] then [] else (if cs[0].id == id then [] else [cs[0]]) + RemoveId(cs[1..], id)
  }

  /** The new character lands right after its parent, or last when the
      parent is not in the list; everything else keeps its place. */
  lemma InsertLandsAfterParent(cs: seq<CharNode>, parentId: Option<string>, c: CharNode)
    ensures var i := InsertIndex(cs, parentId); var r := InsertAt(cs, i, c);
      && |r| == |cs| + 1 && r[i] == c
      && r[..i] == cs[..i] && r[i + 1..] == cs[i..]
      && (parentId.Some? && IdIndex(cs, parentId.value) >= 0 ==> i > 0 && r[i - 1].id == parentId.value)
      && (parentId.None? || IdIndex(cs, parentId.value) < 0 ==> i == |cs|)
  {
    var i := InsertIndex(cs, parentId);
    var r := InsertAt(cs, i, c);
    assert r[..i] == cs[..i];
    assert r[i + 1..] == cs[i..];
  }

  /** Removal drops exactly the characters with that id. */
  lemma {:induction false} RemoveIdMembers(cs: seq<CharNode>, id: string, x: CharNode)
    ensures x in RemoveId(cs, id) <==> x in cs && x.id != id
  {
    if cs != [] {
      RemoveIdMembers(cs[1..], id, x);
      assert cs == [cs[0]] + cs[1..];
    }
  }

  /** Removal keeps the relative order: removing from a concatenation
      removes from each part. */
  lemma {:induction false} RemoveIdAppend(a: seq<CharNode>, b: seq<CharNode>, id: string)
    ensures RemoveId(a + b, id) == RemoveId(a, id) + RemoveId(b, id)
  {
    if a != [] {
      assert (a + b)[1..] == a[1..] + b;
      RemoveIdAppend(a[1..], b, id);
    } else {
      assert a + b == b;
    }
  }

  lemma {:induction false} RemoveIdNoId(cs: seq<CharNode>, id: string)
    requires forall k :: 0 <= k < |cs| ==> cs[k].id != id
    ensures RemoveId(cs, id) == cs
  {
    if cs != [] {
      RemoveIdNoId(cs[1..], id);
      assert cs == [cs[0]] + cs[1..];
    }
  }

  // ---- the visible characters ----

  /** The characters of the list that are visible, in order. */
  function VisibleChars(cs: seq<CharNode>): seq<CharNode>
  {
    if cs == [] then []
    else VisibleChars(cs[..|cs| - 1]) + (if cs[|cs| - 1].visible then [cs[|cs| - 1]] else [])
  }

  /** `buildVisibleText`: the values of the visible characters. */
  function Text(cs: seq<CharNode>): string
  {
    if cs == [] then []
    else Text(cs[..|cs| - 1]) + (if cs[|cs| - 1].visible then [cs[|cs| - 1].value] else [])
  }

  lemma {:induction false} VisibleCharsAppend(a: seq<CharNode>, b: seq<CharNode>)
    ensures VisibleChars(a + b) == VisibleChars(a) + VisibleChars(b)
    decreases |b|
  {
    if b == [] {
      assert a + b == a;
    } else {
      assert (a + b)[..|a + b| - 1] == a + b[..|b| - 1];
      VisibleCharsAppend(a, b[..|b| - 1]);
    }
  }

  /** The text is the visible characters' values, one for one. */
  lemma {:induction false} TextMatchesVisible(cs: seq<CharNode>)
    ensures |Text(cs)| == |VisibleChars(cs)|
    ensures forall i :: 0 <= i < |Text(cs)| ==> Text(cs)[i] == VisibleChars(cs)[i].value
  {
    if cs != [] {
      TextMatchesVisible(cs[..|cs| - 1]);
    }
  }

  /** Every visible character is a visible member of the list. */
  lemma {:induction false} VisibleCharsMembers(cs: seq<CharNode>, x: CharNode)
    ensures x in VisibleChars(cs) <==> x in cs && x.visible
  {
    if cs != [] {
      VisibleCharsMembers(cs[..|cs| - 1], x);
      assert cs == cs[..|cs| - 1] + [cs[|cs| - 1]];
    }
  }

  /** `findCharacterAtPosition(p)`: the p-th visible character. */
  function CharAtPosition(cs: seq<CharNode>, p: int): Option<CharNode>
  {
    var v := VisibleChars(cs);
    if 0 <= p < |v| then Some(v[p]) else None
  }

  /** `getParentIdFromVisibleCaret(t)`: `"HEAD"` for a negative index, else
      the t-th visible character, else the last visible one, else `"HEAD"`. */
  function ParentAtCaret(cs: seq<CharNode>, t: int): string
  {
    var v := VisibleChars(cs);
    if t < 0 then Head
    else if t < |v| then v[t].id
    else if |v| > 0 then v[|v| - 1].id
    else Head
  }

  /** `findParentIdForInsert(c)`: for a caret within the text, the character
      two places before it (`"HEAD"` for the first two positions); for a
      caret beyond the text or a negative one, the last visible character. */
  function ParentForInsert(cs: seq<CharNode>, c: int): string
  {
    var v := VisibleChars(cs);
    var k := if 1 <= c <= |v| then c - 1 else |v|;
    if c == 0 || cs == [] || k == 0 then Head else v[k - 1].id
  }

  /** `calculateVisibleCaretPosition(p)` */
  function VisibleCaret(cs: seq<CharNode>, p: int): int
  {
    var v := VisibleChars(cs);
    if 0 <= p < |v| then p else |v|
  }

  /** `calculateNewCaretPosition(anchor, textLength)` for the last operation
      type. */
  function NewCaret(lastOperationType: string, anchor: int, textLength: int): int
  {
    if lastOperationType == "insert" || lastOperationType == "remote" then
      (if anchor < textLength then anchor else textLength)
    else if lastOperationType == "delete" then
      (if anchor > 0 then anchor else 0)
    else anchor
  }

  /** The two caret resolutions agree inside the text: the parent at a
      visible index is the character found at that position. */
  lemma ParentAtCaretIsCharAt(cs: seq<CharNode>, t: int)
    requires CharAtPosition(cs, t).Some?
    ensures ParentAtCaret(cs, t) == CharAtPosition(cs, t).value.id
  {
  }

  /** The visible anchor is `min(p, visible count)` for `p >= 0`. */
  lemma VisibleCaretIsMin(cs: seq<CharNode>, p: int)
    requires p >= 0
    ensures VisibleCaret(cs, p) == if p < |VisibleChars(cs)| then p else |VisibleChars(cs)|
    ensures 0 <= VisibleCaret(cs, p) <= |VisibleChars(cs)|
  {
  }

  /** After `updateTextFromCRDT` the caret lies within the new text,
      whatever the last operation was. */
  lemma CaretWithinText(cs: seq<CharNode>, oldCaret: int, lastOperationType: string)
    ensures var anchor := VisibleCaret(cs, oldCaret);
      0 <= NewCaret(lastOperationType, anchor, |Text(cs)|) <= |Text(cs)|
  {
    TextMatchesVisible(cs);
  }

  // ---- inverse operations and local application ----

  /** `findOriginalCharacter(id)`: a visible copy of the first character
      with that id. */
  function OriginalChar(cs: seq<CharNode>, id: string): Option<CharNode>
  {
    var k := IdIndex(cs, id);
    if k >= 0 then Some(cs[k].(visible := true)) else None
  }

  /** The delete message `sendDelete` builds and that undoing an insert
      sends. */
  function DeleteMessage(id: string): Message
  {
    SingleMessage("delete", Some(CharNode(NullChar, id, None, false)))
  }

  /** `createInverseOperation(original)`; `None` stands for null. */
  function Inverse(cs: seq<CharNode>, original: Message): Option<Message>
  {
    if original.character.None? then None
    else if original.kind == "insert" then Some(DeleteMessage(original.character.value.id))
    else if original.kind == "delete" then
      var o := OriginalChar(cs, original.character.value.id);
      if o.Some? then Some(SingleMessage("insert", o)) else None
    else None
  }

  /** `applyLocalOperation(msg)` on the list; null does nothing. */
  function ApplyLocal(cs: seq<CharNode>, msg: Option<Message>): seq<CharNode>
  {
    if msg.None? || msg.value.character.None? then cs
    else
      var ch := msg.value.character.value;
      if msg.value.kind == "insert" then InsertAt(cs, InsertIndex(cs, ch.parentId), ch)
      else if msg.value.kind == "delete" then RemoveId(cs, ch.id)
      else cs
  }

  /** The inverse of an insert deletes that id. */
  lemma InverseOfInsert(cs: seq<CharNode>, c: CharNode)
    ensures Inverse(cs, SingleMessage("insert", Some(c)))
      == Some(SingleMessage("delete", Some(CharNode(NullChar, c.id, None, false))))
  {
  }

  /** The inverse of a delete exists exactly while a character with that id
      is still in the list, and re-inserts a visible copy of it. */
  lemma InverseOfDelete(cs: seq<CharNode>, c: CharNode)
    ensures Inverse(cs, SingleMessage("delete", Some(c))).Some?
      <==> exists k :: 0 <= k < |cs| && cs[k].id == c.id
    ensures Inverse(cs, SingleMessage("delete", Some(c))).Some? ==>
      var k := IdIndex(cs, c.id);
      Inverse(cs, SingleMessage("delete", Some(c))).value == SingleMessage("insert", Some(cs[k].(visible := true)))
  {
  }

  /** Undoing an insert removes every character with its id. */
  lemma UndoInsertRemoves(cs: seq<CharNode>, m: Message)
    requires IsInsert(m)
    ensures var r := ApplyLocal(cs, Inverse(cs, m));
      forall x :: x in r <==> x in cs && x.id != m.character.value.id
  {
    var r := ApplyLocal(cs, Inverse(cs, m));
    forall x
      ensures x in r <==> x in cs && x.id != m.character.value.id
    {
      RemoveIdMembers(cs, m.character.value.id, x);
    }
  }

  /** `sendDelete` removes the one list entry holding the character, so
      when no other entry has its id the inverse of its delete message is
      null: undoing a local delete restores nothing. */
  lemma UndoLocalDeleteRestoresNothing(cs: seq<CharNode>, i: nat)
    requires i < |cs|
    requires forall k :: 0 <= k < |cs| && k != i ==> cs[k].id != cs[i].id
    ensures var after := cs[..i] + cs[i + 1..];
      && Inverse(after, DeleteMessage(cs[i].id)) == None
      && ApplyLocal(after, Inverse(after, DeleteMessage(cs[i].id))) == after
  {
    var after := cs[..i] + cs[i + 1..];
    forall k | 0 <= k < |after|
      ensures after[k].id != cs[i].id
    {
      if k < i {
        assert after[k] == cs[k];
      } else {
        assert after[k] == cs[k + 1];
      }
    }
  }

  // ---- undo and redo of operation sequences ----

  /** The operations a stack entry stands for: a batch's list, or itself. */
  function OpsOf(m: Message): seq<Message>
  {
    if m.kind == "batch" then m.batch else [m]
  }

  /** `undoBatchOperation`: the inverses applied from the last operation to
      the first, each computed on the list as it then is. */
  function UndoList(cs: seq<CharNode>, ops: seq<Message>): seq<CharNode>
  {
    if ops == [] then cs
    else var before := UndoList(cs, ops[1..]); ApplyLocal(before, Inverse(before, ops[0]))
  }

  /** `redoBatchOperation`: the operations applied from first to last. */
  function RedoList(cs: seq<CharNode>, ops: seq<Message>): seq<CharNode>
  {
    if ops == [] then cs
    else ApplyLocal(RedoList(cs, ops[..|ops| - 1]), Some(ops[|ops| - 1]))
  }

  function Reverse(s: seq<Message>): seq<Message>
  {
    if s == [] then [] else Reverse(s[1..]) + [s[0]]
  }

  /** An insert message carrying a character. */
  predicate IsInsert(m: Message)
  {
    m.kind == "insert" && m.character.Some?
  }

  /** Undoing a paste (a batch of inserts) removes every pasted id and adds
      nothing. */
  lemma {:induction false} UndoInsertsRemovesAll(cs: seq<CharNode>, ops: seq<Message>)
    requires forall k :: 0 <= k < |ops| ==> IsInsert(ops[k])
    ensures forall x :: x in UndoList(cs, ops) ==> x in cs
    ensures forall x, k :: 0 <= k < |ops| && x in UndoList(cs, ops) ==>
      ops[k].character.Some? && x.id != ops[k].character.value.id
  {
    if ops != [] {
      var before := UndoList(cs, ops[1..]);
      UndoInsertsRemovesAll(cs, ops[1..]);
      UndoInsertRemoves(before, ops[0]);
      forall x, k | 0 <= k < |ops| && x in UndoList(cs, ops)
        ensures ops[k].character.Some? && x.id != ops[k].character.value.id
      {
        if k > 0 {
          assert ops[1..][k - 1] == ops[k];
        }
      }
    }
  }

  /** Redoing an insert that was undone puts its character back. */
  lemma UndoThenRedoInsert(cs: seq<CharNode>, c: CharNode)
    ensures var m := SingleMessage("insert", Some(c));
      c in RedoList(UndoList(cs, [m]), [m])
  {
    var m := SingleMessage("insert", Some(c));
    var mid := UndoList(cs, [m]);
    assert [m][1..] == [] && [m][..0] == [];
    InsertLandsAfterParent(mid, c.parentId, c);
  }

  /** Undoing a batch pushes its operations so that the first ends on top;
      redoing pushes them back in reverse. */
  lemma {:induction false} ReverseReverse(s: seq<Message>)
    ensures Reverse(Reverse(s)) == s
  {
    if s != [] {
      ReverseReverse(s[1..]);
      ReverseAppend(Reverse(s[1..]), [s[0]]);
      assert s == [s[0]] + s[1..];
    }
  }

  lemma {:induction false} ReverseAppend(a: seq<Message>, b: seq<Message>)
    ensures Reverse(a + b) == Reverse(b) + Reverse(a)
  {
    if a == [] {
      assert a + b == b;
    } else {
      assert (a + b)[1..] == a[1..] + b;
      ReverseAppend(a[1..], b);
    }
  }

  // ---- helpers for the editor's loops ----

  /** A prefix's visible characters are a prefix of the whole list's. */
  lemma VisibleSplit(cs: seq<CharNode>, i: nat)
    requires i <= |cs|
    ensures VisibleChars(cs) == VisibleChars(cs[..i]) + VisibleChars(cs[i..])
  {
    assert cs == cs[..i] + cs[i..];
    VisibleCharsAppend(cs[..i], cs[i..]);
  }

  /** One more element of the prefix. */
  lemma VisibleStep(cs: seq<CharNode>, i: nat)
    requires i < |cs|
    ensures VisibleChars(cs[..i + 1]) == VisibleChars(cs[..i]) + (if cs[i].visible then [cs[i]] else [])
    ensures Text(cs[..i + 1]) == Text(cs[..i]) + (if cs[i].visible then [cs[i].value] else [])
  {
    assert cs[..i + 1][..i] == cs[..i];
  }

  /** A visible element sits at the index its prefix's visible count gives. */
  lemma VisibleAt(cs: seq<CharNode>, i: nat)
    requires i < |cs| && cs[i].visible
    ensures |VisibleChars(cs[..i])| < |VisibleChars(cs)|
    ensures VisibleChars(cs)[|VisibleChars(cs[..i])|] == cs[i]
    ensures VisibleChars(cs)[..|VisibleChars(cs[..i])|] == VisibleChars(cs[..i])
  {
    VisibleStep(cs, i);
    VisibleSplit(cs, i + 1);
  }

  lemma {:induction false} NoneVisible(cs: seq<CharNode>)
    requires forall k :: 0 <= k < |cs| ==> !cs[k].visible
    ensures VisibleChars(cs) == []
  {
    if cs != [] {
      NoneVisible(cs[..|cs| - 1]);
    }
  }

  /** A visible element with none visible after it is the last visible one. */
  lemma LastVisibleAt(cs: seq<CharNode>, i: nat)
    requires i < |cs| && cs[i].visible
    requires forall k :: i < k < |cs| ==> !cs[k].visible
    ensures |VisibleChars(cs)| > 0 && VisibleChars(cs)[|VisibleChars(cs)| - 1] == cs[i]
  {
    VisibleStep(cs, i);
    VisibleSplit(cs, i + 1);
    NoneVisible(cs[i + 1..]);
  }

  /** Removing one visible entry removes one visible character. */
  lemma RemoveVisibleAt(cs: seq<CharNode>, i: nat)
    requires i < |cs| && cs[i].visible
    ensures |VisibleChars(cs[..i] + cs[i + 1..])| == |VisibleChars(cs)| - 1
    ensures |Text(cs[..i] + cs[i + 1..])| == |Text(cs)| - 1
  {
    VisibleCharsAppend(cs[..i], cs[i + 1..]);
    VisibleStep(cs, i);
    VisibleSplit(cs, i + 1);
    TextMatchesVisible(cs);
    TextMatchesVisible(cs[..i] + cs[i + 1..]);
  }

  /** `list.indexOf(x)`: the first entry equal to `x`, or -1. */
  function ElementIndex(cs: seq<CharNode>, x: CharNode): (r: int)
    ensures -1 <= r < |cs|
    ensures r == -1 <==> x !in cs
    ensures r >= 0 ==> cs[r] == x && x !in cs[..r]
  {
    if cs == [] then -1
    else if cs[0] == x then 0
    else
      var k := ElementIndex(cs[1..], x);
      assert k >= 0 ==> cs[..k + 1] == [cs[0]] + cs[1..][..k];
      if k < 0 then -1 else k + 1
  }

  /** The character found at a caret is a visible entry of the list. */
  lemma CharAtPositionInList(cs: seq<CharNode>, p: int)
    requires CharAtPosition(cs, p).Some?
    ensures var i := ElementIndex(cs, CharAtPosition(cs, p).value);
      0 <= i && cs[i].visible
  {
    var v := VisibleChars(cs);
    assert v[p] in v;
    VisibleCharsMembers(cs, v[p]);
  }

  /** Where `sendDelete` removes: the list index of the character at the
      caret, or -1 when there is none. */
  function DeleteIndex(cs: seq<CharNode>, caretPos: int): int
  {
    var x := CharAtPosition(cs, caretPos);
    if x.Some? then ElementIndex(cs, x.value) else -1
  }

  /** The index is found exactly when a character is at the caret, and the
      entry there is that character, visible. */
  lemma DeleteIndexFinds(cs: seq<CharNode>, caretPos: int)
    ensures DeleteIndex(cs, caretPos) >= 0 <==> CharAtPosition(cs, caretPos).Some?
    ensures DeleteIndex(cs, caretPos) >= 0 ==>
      cs[DeleteIndex(cs, caretPos)] == CharAtPosition(cs, caretPos).value && cs[DeleteIndex(cs, caretPos)].visible
  {
    if CharAtPosition(cs, caretPos).Some? {
      CharAtPositionInList(cs, caretPos);
    }
  }

  /** `new CRDTMessage("insert", new CRDTCharacter(c, id, parentId, true))` */
  function InsertMessage(c: char, id: string, parentId: string): Message
  {
    SingleMessage("insert", Some(CharNode(c, id, Some(parentId), true)))
  }

  /** The id carried by an operation ("" when it carries none). */
  function IdOf(m: Message): string
  {
    if m.character.Some? then m.character.value.id else ""
  }

  /** `handleInsertOperation(ch)`: a known id is ignored, otherwise the
      character goes in after its parent. */
  function ReceiveInsert(cs: seq<CharNode>, ch: CharNode): seq<CharNode>
  {
    if IdIndex(cs, ch.id) >= 0 then cs else InsertAt(cs, InsertIndex(cs, ch.parentId), ch)
  }

  /** `applyServerUpdate(msg)` on the list. */
  function Receive(cs: seq<CharNode>, m: Message): seq<CharNode>
  {
    if m.character.None? then cs
    else if m.kind == "insert" then ReceiveInsert(cs, m.character.value)
    else if m.kind == "delete" then RemoveId(cs, m.character.value.id)
    else cs
  }

  /** A re-delivered insert or delete changes nothing the second time. */
  lemma ReceiveIdempotent(cs: seq<CharNode>, m: Message)
    ensures Receive(Receive(cs, m), m) == Receive(cs, m)
  {
    if m.character.Some? {
      var ch := m.character.value;
      if m.kind == "insert" && IdIndex(cs, ch.id) < 0 {
        var r := ReceiveInsert(cs, ch);
        InsertLandsAfterParent(cs, ch.parentId, ch);
        assert r[InsertIndex(cs, ch.parentId)].id == ch.id;
      } else if m.kind == "delete" {
        var r := RemoveId(cs, ch.id);
        forall k | 0 <= k < |r|
          ensures r[k].id != ch.id
        {
          RemoveIdMembers(cs, ch.id, r[k]);
        }
        RemoveIdNoId(r, ch.id);
      }
    }
  }

  /** The characters a paste keeps: `c < 32` is skipped unless it is a line
      break. */
  predicate KeepChar(c: char)
  {
    !((c as int) < 32 && c != '\n')
  }

  function Kept(s: string): string
  {
    if s == [] then [] else Kept(s[..|s| - 1]) + (if KeepChar(s[|s| - 1]) then [s[|s| - 1]] else [])
  }

  /** A paste's operations: one visible insert per kept character, the first
      under `first`, each later one under the one before it. */
  ghost predicate PasteChain(ops: seq<Message>, first: string, pasted: string)
  {
    ChainFrom(ops, first, Kept(pasted))
  }

  /** `ops` insert `chars` in order, the first under `parent` and each later
      one under the id of the one before. */
  ghost predicate ChainFrom(ops: seq<Message>, parent: string, chars: string)
  {
    if ops == [] then chars == []
    else
      && chars != []
      && ops[0] == InsertMessage(chars[0], IdOf(ops[0]), parent)
      && ChainFrom(ops[1..], IdOf(ops[0]), chars[1..])
  }

  /** The id of the last operation, or `parent` when there is none. */
  function LastIdOr(ops: seq<Message>, parent: string): string
  {
    if ops == [] then parent else IdOf(ops[|ops| - 1])
  }

  /** The chain, read index by index. */
  lemma {:induction false} ChainAt(ops: seq<Message>, parent: string, chars: string)
    requires ChainFrom(ops, parent, chars)
    ensures |ops| == |chars|
    ensures forall k :: 0 <= k < |ops| ==>
      ops[k] == InsertMessage(chars[k], IdOf(ops[k]), if k == 0 then parent else IdOf(ops[k - 1]))
  {
    if ops != [] {
      ChainAt(ops[1..], IdOf(ops[0]), chars[1..]);
      forall k | 0 < k < |ops|
        ensures ops[k] == InsertMessage(chars[k], IdOf(ops[k]), IdOf(ops[k - 1]))
      {
        assert ops[1..][k - 1] == ops[k];
        assert k - 1 > 0 ==> ops[1..][k - 2] == ops[k - 1];
      }
    }
  }

  /** One more insert, under the last one, extends the chain. */
  lemma {:induction false} ChainSnoc(ops: seq<Message>, parent: string, chars: string, c: char, id: string)
    requires ChainFrom(ops, parent, chars)
    ensures ChainFrom(ops + [InsertMessage(c, id, LastIdOr(ops, parent))], parent, chars + [c])
  {
    var m := InsertMessage(c, id, LastIdOr(ops, parent));
    if ops == [] {
      assert ops + [m] == [m] && chars + [c] == [c];
      assert [m][1..] == [] && [c][1..] == [];
    } else {
      ChainSnoc(ops[1..], IdOf(ops[0]), chars[1..], c, id);
      assert (ops + [m])[1..] == ops[1..] + [m];
      assert (chars + [c])[1..] == chars[1..] + [c];
    }
  }

  /** Appending a kept character extends the chain by one insert under the
      previous one. */
  lemma PasteStep(ops: seq<Message>, first: string, s: string, c: char, newId: string, parentId: string)
    requires PasteChain(ops, first, s) && KeepChar(c)
    requires parentId == LastIdOr(ops, first)
    ensures PasteChain(ops + [InsertMessage(c, newId, parentId)], first, s + [c])
  {
    assert (s + [c])[..|s|] == s;
    assert Kept(s + [c]) == Kept(s) + [c];
    ChainSnoc(ops, first, Kept(s), c, newId);
  }

  /** A skipped character leaves the chain as it is. */
  lemma PasteSkip(ops: seq<Message>, first: string, s: string, c: char)
    requires PasteChain(ops, first, s) && !KeepChar(c)
    ensures PasteChain(ops, first, s + [c])
  {
    assert (s + [c])[..|s|] == s;
    assert Kept(s + [c]) == Kept(s);
  }

  lemma RedoListSnoc(cs: seq<CharNode>, ops: seq<Message>, m: Message)
    ensures RedoList(cs, ops + [m]) == ApplyLocal(RedoList(cs, ops), Some(m))
  {
    assert (ops + [m])[..|ops|] == ops;
  }

  /** `ops` carry ids minted from strictly increasing counters, all below
      `bound`. */
  ghost predicate Minted(ops: seq<Message>, counters: seq<nat>, clientId: string, bound: nat)
  {
    && |counters| == |ops|
    && (ops != [] ==>
      var n := |ops| - 1;
      && IdOf(ops[n]) == MintedId(clientId, counters[n]) && counters[n] < bound
      && Minted(ops[..n], counters[..n], clientId, counters[n]))
  }

  /** An id minted from a counter at or above the bound extends the record. */
  lemma MintedStep(ops: seq<Message>, counters: seq<nat>, clientId: string, bound: nat, m: Message, next: nat)
    requires Minted(ops, counters, clientId, bound) && bound <= next
    requires IdOf(m) == MintedId(clientId, next)
    ensures Minted(ops + [m], counters + [next], clientId, next + 1)
  {
    assert (ops + [m])[..|ops|] == ops;
    assert (counters + [next])[..|ops|] == counters;
  }

  /** The record, read index by index. */
  lemma {:induction false} MintedBounds(ops: seq<Message>, counters: seq<nat>, clientId: string, bound: nat)
    requires Minted(ops, counters, clientId, bound)
    ensures forall k :: 0 <= k < |ops| ==> IdOf(ops[k]) == MintedId(clientId, counters[k]) && counters[k] < bound
    ensures forall j, k :: 0 <= j < k < |ops| ==> counters[j] < counters[k]
  {
    if ops != [] {
      var n := |ops| - 1;
      MintedBounds(ops[..n], counters[..n], clientId, counters[n]);
      forall k | 0 <= k < n
        ensures IdOf(ops[k]) == MintedId(clientId, counters[k]) && counters[k] < counters[n]
      {
        assert ops[..n][k] == ops[k] && counters[..n][k] == counters[k];
      }
      forall j, k | 0 <= j < k < n
        ensures counters[j] < counters[k]
      {
        assert counters[..n][j] == counters[j] && counters[..n][k] == counters[k];
      }
    }
  }

  /** What the paste loop keeps after reading `chars`: its operations chain
      the kept characters under `first`, `parentId` is the last id sent, the
      list is the starting list with those operations applied, and every id
      was minted from a counter no later than the clock `ts`. */
  ghost predicate PasteInv(cs0: seq<CharNode>, chars: string, first: string, ops: seq<Message>, counters: seq<nat>,
                           parentId: string, list: seq<CharNode>, clientId: string, ts: nat)
  {
    && PasteChain(ops, first, chars)
    && parentId == LastIdOr(ops, first)
    && list == RedoList(cs0, ops)
    && Minted(ops, counters, clientId, ts + 1)
  }

  /** A kept character sent with a freshly minted id extends the chain. */
  lemma PasteInvKeep(cs0: seq<CharNode>, chars: string, first: string, ops: seq<Message>, counters: seq<nat>,
                     parentId: string, list: seq<CharNode>, clientId: string, ts: nat, c: char, newId: string, ts': nat)
    requires PasteInv(cs0, chars, first, ops, counters, parentId, list, clientId, ts)
    requires KeepChar(c) && ts < ts' && newId == MintedId(clientId, ts')
    ensures var m := InsertMessage(c, newId, parentId);
      PasteInv(cs0, chars + [c], first, ops + [m], counters + [ts'], newId, ApplyLocal(list, Some(m)), clientId, ts')
  {
    var m := InsertMessage(c, newId, parentId);
    PasteStep(ops, first, chars, c, newId, parentId);
    RedoListSnoc(cs0, ops, m);
    MintedStep(ops, counters, clientId, ts + 1, m, ts');
  }

  /** A dropped control character changes nothing but the input read. */
  lemma PasteInvSkip(cs0: seq<CharNode>, chars: string, first: string, ops: seq<Message>, counters: seq<nat>,
                     parentId: string, list: seq<CharNode>, clientId: string, ts: nat, c: char)
    requires PasteInv(cs0, chars, first, ops, counters, parentId, list, clientId, ts)
    requires !KeepChar(c)
    ensures PasteInv(cs0, chars + [c], first, ops, counters, parentId, list, clientId, ts)
  {
    PasteSkip(ops, first, chars, c);
  }

  /** No two of the messages carry the same id. */
  ghost predicate DistinctIds(ops: seq<Message>)
  {
    forall j, k :: 0 <= j < k < |ops| ==> IdOf(ops[j]) != IdOf(ops[k])
  }

  /** Ids minted from increasing counters are pairwise distinct. */
  lemma MintedDistinct(ops: seq<Message>, counters: seq<nat>, clientId: string, bound: nat)
    requires Minted(ops, counters, clientId, bound)
    ensures DistinctIds(ops)
  {
    MintedBounds(ops, counters, clientId, bound);
    forall j, k | 0 <= j < k < |ops|
      ensures IdOf(ops[j]) != IdOf(ops[k])
    {
      if IdOf(ops[j]) == IdOf(ops[k]) {
        MintedIdInjective(clientId, counters[j], counters[k]);
      }
    }
  }
}
