/** The editor window's non-UI state: its own flat list of characters
    (`localVisibleChars`), the undo and redo stacks, the id clock and the
    text area's text and caret. Each method is proved to follow the
    functions of `EditorSpec`. */
module Editor {
  import opened CrdtTypes
  import opened EditorSpec

  class Editor {
    /** `localVisibleChars`, which also holds tombstones received in a sync */
    var localVisibleChars: seq<CharNode>
    /** `undoStack`; the top is at index 0 */
    var undoStack: seq<Message>
    /** `redoStack`; the top is at index 0 */
    var redoStack: seq<Message>
    /** `isUndoRedoInProgress` */
    var undoRedoInProgress: bool
    /** `lastTimestamp` */
    var lastTimestamp: nat
    var clientId: string
    /** `"insert"`, `"delete"`, `"remote"` or `"none"` */
    var lastOperationType: string
    /** The text area's text */
    var text: string
    /** The text area's caret position */
    var caret: int

    constructor(clientId: string)
      ensures this.clientId == clientId && localVisibleChars == []
      ensures undoStack == [] && redoStack == [] && !undoRedoInProgress
      ensures lastTimestamp == 0 && lastOperationType == "remote" && text == "" && caret == 0
    {
      this.clientId := clientId;
      localVisibleChars := [];
      undoStack := [];
      redoStack := [];
      undoRedoInProgress := false;
      lastTimestamp := 0;
      lastOperationType := "remote";
      text := "";
      caret := 0;
    }

    /** The text area shows the visible characters and its caret lies
        within that text. */
    ghost predicate Displayed()
      reads this
    {
      text == Text(localVisibleChars) && 0 <= caret <= |text|
    }

    // ---- ids ----

    /** `generateUniqueId()`, with the wall clock reading `now` as a
        parameter: the counter always moves forward, so the ids one editor
        mints are pairwise distinct (`MintedIdInjective`). */
    method GenerateUniqueId(now: nat) returns (id: string)
      modifies this`lastTimestamp
      ensures old(lastTimestamp) < lastTimestamp
      ensures now > old(lastTimestamp) ==> lastTimestamp == now
      ensures now <= old(lastTimestamp) ==> lastTimestamp == old(lastTimestamp) + 1
      ensures id == MintedId(clientId, lastTimestamp)
    {
      var t := now;
      if t <= lastTimestamp {
        lastTimestamp := lastTimestamp + 1;
        t := lastTimestamp;
      } else {
        lastTimestamp := t;
      }
      id := clientId + "_" + JavaStrings.NatToString(t);
    }

    // ---- queries on the list ----

    /** `findInsertIndex(parentId)` */
    method FindInsertIndex(parentId: Option<string>) returns (r: nat)
      ensures r == InsertIndex(localVisibleChars, parentId)
      ensures r <= |localVisibleChars|
    {
      var i := 0;
      while i < |localVisibleChars|
        invariant 0 <= i <= |localVisibleChars|
        invariant parentId.Some? ==> forall j :: 0 <= j < i ==> localVisibleChars[j].id != parentId.value
      {
        if parentId.Some? && localVisibleChars[i].id == parentId.value {
          return i + 1;
        }
        i := i + 1;
      }
      return |localVisibleChars|;
    }

    /** `getParentIdFromVisibleCaret(targetIndex)` */
    method GetParentIdFromVisibleCaret(targetIndex: int) returns (r: string)
      ensures r == ParentAtCaret(localVisibleChars, targetIndex)
    {
      var cs := localVisibleChars;
      if targetIndex < 0 {
        return Head;
      }
      var visibleIdx := 0;
      var i := 0;
      while i < |cs|
        invariant 0 <= i <= |cs|
        invariant visibleIdx == |VisibleChars(cs[..i])| <= targetIndex
      {
        VisibleStep(cs, i);
        if cs[i].visible {
          if visibleIdx == targetIndex {
            VisibleAt(cs, i);
            return cs[i].id;
          }
          visibleIdx := visibleIdx + 1;
        }
        i := i + 1;
      }
      assert cs[..i] == cs;
      i := |cs| - 1;
      while i >= 0
        invariant -1 <= i < |cs|
        invariant forall k :: i < k < |cs| ==> !cs[k].visible
      {
        if cs[i].visible {
          LastVisibleAt(cs, i);
          return cs[i].id;
        }
        i := i - 1;
      }
      NoneVisible(cs);
      return Head;
    }

    /** `findParentIdForInsert(caretPos)` */
    method FindParentIdForInsert(caretPos: int) returns (parentId: string)
      ensures parentId == ParentForInsert(localVisibleChars, caretPos)
    {
      var cs := localVisibleChars;
      if caretPos == 0 || |cs| == 0 {
        return Head;
      }
      var visibleCount := 0;
      parentId := Head;
      var i := 0;
      while i < |cs|
        invariant 0 <= i <= |cs|
        invariant visibleCount == |VisibleChars(cs[..i])|
        invariant caretPos < 0 || visibleCount < caretPos
        invariant parentId == if visibleCount == 0 then Head else VisibleChars(cs[..i])[visibleCount - 1].id
      {
        VisibleStep(cs, i);
        if cs[i].visible {
          visibleCount := visibleCount + 1;
          if visibleCount == caretPos {
            VisibleAt(cs, i);
            assert VisibleChars(cs)[..caretPos - 1] == VisibleChars(cs[..i]);
            return;
          }
          parentId := cs[i].id;
        }
        i := i + 1;
      }
      assert cs[..i] == cs;
    }

    /** `findCharacterAtPosition(caretPos)`; `None` stands for null. */
    method FindCharacterAtPosition(caretPos: int) returns (r: Option<CharNode>)
      ensures r == CharAtPosition(localVisibleChars, caretPos)
    {
      var cs := localVisibleChars;
      var visibleCount := 0;
      var i := 0;
      while i < |cs|
        invariant 0 <= i <= |cs|
        invariant visibleCount == |VisibleChars(cs[..i])|
        invariant caretPos < 0 || visibleCount <= caretPos
      {
        VisibleStep(cs, i);
        if cs[i].visible {
          if visibleCount == caretPos {
            VisibleAt(cs, i);
            return Some(cs[i]);
          }
          visibleCount := visibleCount + 1;
        }
        i := i + 1;
      }
      assert cs[..i] == cs;
      return None;
    }

    /** `calculateVisibleCaretPosition(oldPos)` */
    method CalculateVisibleCaretPosition(oldPos: int) returns (visibleCount: int)
      ensures visibleCount == VisibleCaret(localVisibleChars, oldPos)
    {
      var cs := localVisibleChars;
      visibleCount := 0;
      var i := 0;
      while i < |cs|
        invariant 0 <= i <= |cs|
        invariant visibleCount == |VisibleChars(cs[..i])|
        invariant oldPos < 0 || visibleCount <= oldPos
      {
        VisibleStep(cs, i);
        if cs[i].visible {
          if visibleCount == oldPos {
            VisibleAt(cs, i);
            return;
          }
          visibleCount := visibleCount + 1;
        }
        i := i + 1;
      }
      assert cs[..i] == cs;
    }

    /** `buildVisibleText()` */
    method BuildVisibleText() returns (sb: string)
      ensures sb == Text(localVisibleChars)
    {
      var cs := localVisibleChars;
      sb := "";
      var i := 0;
      while i < |cs|
        invariant 0 <= i <= |cs|
        invariant sb == Text(cs[..i])
      {
        VisibleStep(cs, i);
        if cs[i].visible {
          sb := sb + [cs[i].value];
        }
        i := i + 1;
      }
      assert cs[..i] == cs;
    }

    /** `calculateNewCaretPosition(anchor, textLength)`: an insert or remote
        update clamps the anchor to the text, a delete clamps it at zero. */
    method CalculateNewCaretPosition(anchor: int, textLength: int) returns (r: int)
      ensures r == NewCaret(lastOperationType, anchor, textLength)
      ensures (lastOperationType == "insert" || lastOperationType == "remote") ==> r <= textLength && (r == anchor || r == textLength)
      ensures lastOperationType == "delete" ==> r >= 0 && (r == anchor || r == 0)
    {
      if lastOperationType == "insert" || lastOperationType == "remote" {
        r := if anchor < textLength then anchor else textLength;
      } else if lastOperationType == "delete" {
        r := if anchor > 0 then anchor else 0;
      } else {
        r := anchor;
      }
    }

    /** `findOriginalCharacter(id)` */
    method FindOriginalCharacter(id: string) returns (r: Option<CharNode>)
      ensures r == OriginalChar(localVisibleChars, id)
    {
      var i := 0;
      while i < |localVisibleChars|
        invariant 0 <= i <= |localVisibleChars|
        invariant forall j :: 0 <= j < i ==> localVisibleChars[j].id != id
      {
        var ch := localVisibleChars[i];
        if ch.id == id {
          return Some(CharNode(ch.value, ch.id, ch.parentId, true));
        }
        i := i + 1;
      }
      return None;
    }

    /** `createInverseOperation(original)`; `None` stands for null. */
    method CreateInverseOperation(original: Message) returns (r: Option<Message>)
      ensures r == Inverse(localVisibleChars, original)
    {
      if original.character.None? {
        return None;
      }
      var ch := original.character.value;
      if original.kind == "insert" {
        return Some(SingleMessage("delete", Some(CharNode(NullChar, ch.id, None, false))));
      } else if original.kind == "delete" {
        var originalChar := FindOriginalCharacter(ch.id);
        if originalChar.Some? {
          return Some(SingleMessage("insert", originalChar));
        }
      }
      return None;
    }

    // ---- changes to the list ----

    /** `handleInsertOperation(ch)` */
    method HandleInsertOperation(ch: CharNode)
      modifies this`localVisibleChars
      ensures localVisibleChars == ReceiveInsert(old(localVisibleChars), ch)
    {
      var i := 0;
      while i < |localVisibleChars|
        invariant 0 <= i <= |localVisibleChars|
        invariant forall j :: 0 <= j < i ==> localVisibleChars[j].id != ch.id
      {
        if localVisibleChars[i].id == ch.id {
          return;
        }
        i := i + 1;
      }
      var insertIdx := FindInsertIndex(ch.parentId);
      localVisibleChars := localVisibleChars[..insertIdx] + [ch] + localVisibleChars[insertIdx..];
    }

    /** `handleDeleteOperation(ch)` */
    method HandleDeleteOperation(ch: CharNode)
      modifies this`localVisibleChars
      ensures localVisibleChars == RemoveId(old(localVisibleChars), ch.id)
    {
      localVisibleChars := RemoveId(localVisibleChars, ch.id);
    }

    /** `applyLocalOperation(msg)`; sending the message is not modelled. */
    method ApplyLocalOperation(msg: Option<Message>)
      modifies this`localVisibleChars
      ensures localVisibleChars == ApplyLocal(old(localVisibleChars), msg)
    {
      if msg.None? || msg.value.character.None? {
        return;
      }
      var ch := msg.value.character.value;
      if msg.value.kind == "insert" {
        var insertIdx := FindInsertIndex(ch.parentId);
        localVisibleChars := localVisibleChars[..insertIdx] + [ch] + localVisibleChars[insertIdx..];
      } else if msg.value.kind == "delete" {
        localVisibleChars := RemoveId(localVisibleChars, ch.id);
      }
    }

    /** `updateTextFromCRDT()`: the text area shows the visible text and the
        caret stays within it. */
    method UpdateTextFromCrdt()
      modifies this`text, this`caret, this`lastOperationType
      ensures text == Text(localVisibleChars)
      ensures caret == NewCaret(old(lastOperationType), VisibleCaret(localVisibleChars, old(caret)), |text|)
      ensures Displayed() && lastOperationType == "none"
    {
      var oldCaretPos := caret;
      var visibleCaretAnchor := CalculateVisibleCaretPosition(oldCaretPos);
      var visibleText := BuildVisibleText();
      text := visibleText;
      var newCaretPos := CalculateNewCaretPosition(visibleCaretAnchor, |visibleText|);
      caret := newCaretPos;
      CaretWithinText(localVisibleChars, oldCaretPos, lastOperationType);
      lastOperationType := "none";
    }

    /** `applyServerUpdate(msg)`: dropped while an undo or redo is under way. */
    method ApplyServerUpdate(msg: Option<Message>)
      modifies this`localVisibleChars, this`text, this`caret, this`lastOperationType
      ensures old(undoRedoInProgress) || msg.None? || msg.value.character.None? ==>
        unchanged(this)
      ensures !old(undoRedoInProgress) && msg.Some? && msg.value.character.Some? ==>
        && localVisibleChars == Receive(old(localVisibleChars), msg.value)
        && Displayed() && lastOperationType == "none"
    {
      if undoRedoInProgress || msg.None? {
        return;
      }
      if msg.value.character.None? {
        return;
      }
      var ch := msg.value.character.value;
      if msg.value.kind == "insert" {
        HandleInsertOperation(ch);
      } else if msg.value.kind == "delete" {
        HandleDeleteOperation(ch);
      }
      lastOperationType := "remote";
      UpdateTextFromCrdt();
    }

    // ---- local edits ----

    /** `sendInsertAt(c, parentId, operationList)`: `None` for a null list
        pushes the insert on the undo stack instead. */
    method SendInsertAt(c: char, parentId: string, now: nat, operationList: Option<seq<Message>>)
      returns (newId: string, ops: Option<seq<Message>>)
      modifies this`lastTimestamp, this`localVisibleChars, this`undoStack, this`redoStack
      ensures old(lastTimestamp) < lastTimestamp && newId == MintedId(clientId, lastTimestamp)
      ensures localVisibleChars == ApplyLocal(old(localVisibleChars), Some(InsertMessage(c, newId, parentId)))
      ensures operationList.Some? ==>
        ops == Some(operationList.value + [InsertMessage(c, newId, parentId)])
        && undoStack == old(undoStack) && redoStack == old(redoStack)
      ensures operationList.None? ==>
        ops == None && undoStack == [InsertMessage(c, newId, parentId)] + old(undoStack) && redoStack == []
    {
      newId := GenerateUniqueId(now);
      var newChar := CharNode(c, newId, Some(parentId), true);
      var insertIdx := FindInsertIndex(Some(parentId));
      localVisibleChars := localVisibleChars[..insertIdx] + [newChar] + localVisibleChars[insertIdx..];
      var msg := SingleMessage("insert", Some(newChar));
      if operationList.Some? {
        ops := Some(operationList.value + [msg]);
      } else {
        ops := None;
        undoStack := [msg] + undoStack;
        redoStack := [];
      }
    }

    /** `sendInsert(c)`: a new visible character under the parent the caret
        gives, recorded for undo. */
    method SendInsert(c: char, now: nat)
      modifies this`lastTimestamp, this`localVisibleChars, this`undoStack, this`redoStack
      modifies this`text, this`caret, this`lastOperationType
      ensures old(lastTimestamp) < lastTimestamp
      ensures var m := InsertMessage(c, MintedId(clientId, lastTimestamp), ParentForInsert(old(localVisibleChars), old(caret)));
        && localVisibleChars == ApplyLocal(old(localVisibleChars), Some(m))
        && undoStack == [m] + old(undoStack) && redoStack == []
      ensures Displayed() && lastOperationType == "none"
    {
      var caretPos := caret;
      var parentId := FindParentIdForInsert(caretPos);
      var newId := GenerateUniqueId(now);
      var newChar := CharNode(c, newId, Some(parentId), true);
      var insertIdx := FindInsertIndex(Some(parentId));
      localVisibleChars := localVisibleChars[..insertIdx] + [newChar] + localVisibleChars[insertIdx..];
      var msg := SingleMessage("insert", Some(newChar));
      undoStack := [msg] + undoStack;
      redoStack := [];
      lastOperationType := "insert";
      UpdateTextFromCrdt();
    }

    /** `sendDelete()`: removes the list entry of the character at the caret
        and records a delete for undo; nothing at the caret, nothing done. */
    method SendDelete()
      modifies this`localVisibleChars, this`undoStack, this`redoStack
      modifies this`text, this`caret, this`lastOperationType
      ensures DeleteIndex(old(localVisibleChars), old(caret)) < 0 ==> unchanged(this)
      ensures DeleteIndex(old(localVisibleChars), old(caret)) >= 0 ==>
        var i := DeleteIndex(old(localVisibleChars), old(caret));
        && localVisibleChars == old(localVisibleChars)[..i] + old(localVisibleChars)[i + 1..]
        && undoStack == [DeleteMessage(old(localVisibleChars)[i].id)] + old(undoStack) && redoStack == []
        && Displayed() && lastOperationType == "none"
    {
      var cs := localVisibleChars;
      var caretPos := caret;
      var toDelete := FindCharacterAtPosition(caretPos);
      DeleteIndexFinds(cs, caretPos);
      if toDelete.None? {
        return;
      }
      var deleteIndex := IndexOf(toDelete.value);
      localVisibleChars := cs[..deleteIndex] + cs[deleteIndex + 1..];
      var deleteChar := CharNode(NullChar, toDelete.value.id, None, false);
      var msg := SingleMessage("delete", Some(deleteChar));
      undoStack := [msg] + undoStack;
      redoStack := [];
      lastOperationType := "delete";
      UpdateTextFromCrdt();
    }

    /** `localVisibleChars.indexOf(x)`, comparing values. */
    method IndexOf(x: CharNode) returns (r: int)
      ensures r == ElementIndex(localVisibleChars, x)
    {
      var i := 0;
      while i < |localVisibleChars|
        invariant 0 <= i <= |localVisibleChars|
        invariant x !in localVisibleChars[..i]
      {
        if localVisibleChars[i] == x {
          return i;
        }
        assert localVisibleChars[..i + 1] == localVisibleChars[..i] + [localVisibleChars[i]];
        i := i + 1;
      }
      assert localVisibleChars[..i] == localVisibleChars;
      return -1;
    }

    /** `pasteTextAtCaret(pastedText, caretPos)`, with `clock[i]` the wall
        clock when character `i` is inserted: the kept characters become one
        chain of inserts, each under the one before, pushed as a single
        batch. */
    method PasteTextAtCaret(pastedText: string, caretPos: int, clock: seq<nat>) returns (ghost ops: seq<Message>)
      requires |clock| == |pastedText|
      modifies this`lastTimestamp, this`localVisibleChars, this`undoStack, this`redoStack
      modifies this`text, this`caret, this`lastOperationType
      ensures PasteChain(ops, ParentAtCaret(old(localVisibleChars), caretPos - 1), pastedText)
      ensures DistinctIds(ops)
      ensures localVisibleChars == RedoList(old(localVisibleChars), ops)
      ensures ops != [] ==> undoStack == [BatchMessage(ops)] + old(undoStack) && redoStack == []
      ensures ops == [] ==> undoStack == old(undoStack) && redoStack == old(redoStack)
      ensures old(lastTimestamp) <= lastTimestamp
      ensures Displayed() && lastOperationType == "none"
    {
      var parentId := GetParentIdFromVisibleCaret(caretPos - 1);
      var pasteOperations;
      ghost var counters;
      pasteOperations, ops, counters := PasteChars(pastedText, parentId, clock);
      MintedDistinct(ops, counters, clientId, lastTimestamp + 1);
      if |pasteOperations| > 0 {
        undoStack := [BatchMessage(pasteOperations)] + undoStack;
        redoStack := [];
      }
      lastOperationType := "insert";
      UpdateTextFromCrdt();
    }

    /** The loop of `pasteTextAtCaret`: each kept character is sent under the
        one before it, starting under `first`, and collected in one list. */
    method PasteChars(pastedText: string, first: string, clock: seq<nat>)
      returns (pasteOperations: seq<Message>, ghost ops: seq<Message>, ghost counters: seq<nat>)
      requires |clock| == |pastedText|
      modifies this`lastTimestamp, this`localVisibleChars, this`undoStack, this`redoStack
      ensures ops == pasteOperations
      ensures PasteChain(ops, first, pastedText)
      ensures Minted(ops, counters, clientId, lastTimestamp + 1)
      ensures localVisibleChars == RedoList(old(localVisibleChars), ops)
      ensures undoStack == old(undoStack) && redoStack == old(redoStack)
      ensures old(lastTimestamp) <= lastTimestamp
    {
      ghost var cs0, undo0, redo0, time0 := localVisibleChars, undoStack, redoStack, lastTimestamp;
      var parentId := first;
      pasteOperations := [];
      counters := [];
      var i := 0;
      while i < |pastedText|
        invariant 0 <= i <= |pastedText|
        invariant PasteInv(cs0, pastedText[..i], first, pasteOperations, counters, parentId, localVisibleChars, clientId, lastTimestamp)
        invariant undoStack == undo0 && redoStack == redo0
        invariant time0 <= lastTimestamp
      {
        var c := pastedText[i];
        assert pastedText[..i + 1] == pastedText[..i] + [c];
        if KeepChar(c) {
          ghost var list, ts := localVisibleChars, lastTimestamp;
          var newId, newOps := SendInsertAt(c, parentId, clock[i], Some(pasteOperations));
          PasteInvKeep(cs0, pastedText[..i], first, pasteOperations, counters, parentId, list, clientId, ts, c, newId, lastTimestamp);
          pasteOperations := newOps.value;
          counters := counters + [lastTimestamp];
          parentId := newId;
        } else {
          PasteInvSkip(cs0, pastedText[..i], first, pasteOperations, counters, parentId, localVisibleChars, clientId, lastTimestamp, c);
        }
        i := i + 1;
      }
      assert pastedText[..i] == pastedText;
      ops := pasteOperations;
    }

    // ---- undo and redo ----

    /** `undo()`: pops the top entry, applies the inverses of its operations
        from last to first, and pushes the operations on the redo stack so
        that the first ends on top. */
    method Undo()
      modifies this`localVisibleChars, this`undoStack, this`redoStack, this`undoRedoInProgress
      modifies this`text, this`caret, this`lastOperationType
      ensures old(undoStack) == [] ==> unchanged(this)
      ensures old(undoStack) != [] ==>
        var m := old(undoStack)[0];
        && undoStack == old(undoStack)[1..]
        && redoStack == OpsOf(m) + old(redoStack)
        && localVisibleChars == UndoList(old(localVisibleChars), OpsOf(m))
        && Displayed() && lastOperationType == "none"
        && !undoRedoInProgress
    {
      if |undoStack| == 0 {
        return;
      }
      undoRedoInProgress := true;
      var lastAction := undoStack[0];
      undoStack := undoStack[1..];
      if lastAction.kind == "batch" {
        UndoBatchOperation(lastAction);
      } else {
        UndoSingleOperation(lastAction);
      }
      UpdateTextFromCrdt();
      undoRedoInProgress := false;
    }

    /** `undoBatchOperation(batch)` */
    method UndoBatchOperation(batch: Message)
      requires batch.kind == "batch"
      modifies this`localVisibleChars, this`redoStack
      ensures redoStack == batch.batch + old(redoStack)
      ensures localVisibleChars == UndoList(old(localVisibleChars), batch.batch)
    {
      var operations := batch.batch;
      var i := |operations| - 1;
      while i >= 0
        invariant -1 <= i < |operations|
        invariant redoStack == operations[i + 1..] + old(redoStack)
        invariant localVisibleChars == UndoList(old(localVisibleChars), operations[i + 1..])
      {
        var msg := operations[i];
        assert operations[i..][1..] == operations[i + 1..];
        var inverse := CreateInverseOperation(msg);
        ApplyLocalOperation(inverse);
        redoStack := [msg] + redoStack;
        assert operations[i..] == [msg] + operations[i + 1..];
        i := i - 1;
      }
    }

    /** `undoSingleOperation(msg)` */
    method UndoSingleOperation(msg: Message)
      modifies this`localVisibleChars, this`redoStack
      ensures redoStack == [msg] + old(redoStack)
      ensures localVisibleChars == UndoList(old(localVisibleChars), [msg])
    {
      var inverse := CreateInverseOperation(msg);
      ApplyLocalOperation(inverse);
      redoStack := [msg] + redoStack;
      assert [msg][1..] == [];
    }

    /** `redo()`: pops the top entry, re-applies its operations from first to
        last, and pushes each on the undo stack. */
    method Redo()
      modifies this`localVisibleChars, this`undoStack, this`redoStack, this`undoRedoInProgress
      modifies this`text, this`caret, this`lastOperationType
      ensures old(redoStack) == [] ==> unchanged(this)
      ensures old(redoStack) != [] ==>
        var m := old(redoStack)[0];
        && redoStack == old(redoStack)[1..]
        && undoStack == Reverse(OpsOf(m)) + old(undoStack)
        && localVisibleChars == RedoList(old(localVisibleChars), OpsOf(m))
        && Displayed() && lastOperationType == "none"
        && !undoRedoInProgress
    {
      if |redoStack| == 0 {
        return;
      }
      undoRedoInProgress := true;
      var lastUndone := redoStack[0];
      redoStack := redoStack[1..];
      if lastUndone.kind == "batch" {
        RedoBatchOperation(lastUndone);
      } else {
        RedoSingleOperation(lastUndone);
      }
      UpdateTextFromCrdt();
      undoRedoInProgress := false;
    }

    /** `redoBatchOperation(batch)` */
    method RedoBatchOperation(batch: Message)
      requires batch.kind == "batch"
      modifies this`localVisibleChars, this`undoStack
      ensures undoStack == Reverse(batch.batch) + old(undoStack)
      ensures localVisibleChars == RedoList(old(localVisibleChars), batch.batch)
    {
      var operations := batch.batch;
      var i := 0;
      while i < |operations|
        invariant 0 <= i <= |operations|
        invariant undoStack == Reverse(operations[..i]) + old(undoStack)
        invariant localVisibleChars == RedoList(old(localVisibleChars), operations[..i])
      {
        var msg := operations[i];
        assert operations[..i + 1][..i] == operations[..i];
        ApplyLocalOperation(Some(msg));
        undoStack := [msg] + undoStack;
        assert operations[..i + 1] == operations[..i] + [msg];
        ReverseAppend(operations[..i], [msg]);
        i := i + 1;
      }
      assert operations[..i] == operations;
    }

    /** `redoSingleOperation(msg)` */
    method RedoSingleOperation(msg: Message)
      modifies this`localVisibleChars, this`undoStack
      ensures undoStack == [msg] + old(undoStack)
      ensures localVisibleChars == RedoList(old(localVisibleChars), [msg])
    {
      ApplyLocalOperation(Some(msg));
      undoStack := [msg] + undoStack;
      assert [msg][..0] == [];
    }
  }
}
