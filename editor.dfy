/**
 * The application state as the program holds it: the line map and the id counter, updated in place,
 * and the `UndoStack` object whose two vectors the operations push to and pop from. Every method is
 * proved to move the state exactly as the matching function on `History.Store` does, and to keep the
 * invariant `Consistent` together with the map that undoing everything leads back to.
 */
module Editor {
  import opened Text
  import opened Lines
  import opened History

  /** `UndoStack`: the undo and redo vectors, top of each stack at the end. */
  class UndoStack {
    var undos: seq<UndoEntry>
    var redos: seq<RedoEntry>

    /** `UndoStack::new`: both stacks empty. */
    constructor()
      ensures undos == [] && redos == []
    {
      undos := [];
      redos := [];
    }

    /** `push_and_clear_redos`: records a forward action; nothing can be redone after it. */
    method PushAndClearRedos(entry: UndoEntry)
      modifies this
      ensures undos == old(undos) + [entry] && redos == []
    {
      undos := undos + [entry];
      redos := [];
    }
  }

  /** The lines signal, the id counter of the paste observer and the undo stack signal of the app. */
  class App {
    var lines: LineMap
    var nextId: nat
    const stack: UndoStack
    /** The map reached by undoing everything; no operation moves it. */
    ghost const origin: LineMap

    /** The whole state as a value. */
    function Snapshot(): Store
      reads this, stack
    {
      Store(lines, stack.undos, stack.redos, nextId)
    }

    ghost predicate Valid()
      reads this, stack
    {
      Consistent(Snapshot()) && Origin(Snapshot()) == origin
    }

    /**
     * Start-up: the stored lines are renumbered by `normalize_line_map`, the stacks are empty and the
     * counter starts at the number of lines.
     */
    constructor(stored: LineMap)
      ensures Valid() && fresh(stack)
      ensures Snapshot() == Load(stored)
      ensures origin == NormalizeLineMap(stored)
    {
      var normalized := NormalizeLineMap(stored);
      lines := normalized;
      nextId := |normalized|;
      stack := new UndoStack();
      origin := normalized;
      new;
      LoadConsistent(stored);
    }

    /** `clear`: an empty map is left alone; otherwise the whole map is taken and recorded. */
    method Clear()
      requires Valid()
      modifies this, stack
      ensures Valid()
      ensures Snapshot() == ClearLines(old(Snapshot()))
    {
      ClearKeepsConsistent(Snapshot());
      if lines == map[] {
        return;
      }
      var taken := lines;
      lines := map[];
      stack.PushAndClearRedos(ReplaceAll(taken));
    }

    /** `undo`: pops the top undo entry, if any, reverses its action and pushes the redo entry. */
    method Undo()
      requires Valid()
      modifies this, stack
      ensures Valid()
      ensures Snapshot() == UndoStep(old(Snapshot()))
    {
      UndoKeepsConsistent(Snapshot());
      if stack.undos == [] {
        return;
      }
      var entry := stack.undos[|stack.undos| - 1];
      stack.undos := stack.undos[..|stack.undos| - 1];
      var redo: RedoEntry;
      match entry {
        case Add(id, line) =>
          lines := lines[id := line];
          redo := RedoEntry.Remove(id);
        case Remove(id) =>
          var line := lines[id];
          lines := lines - {id};
          redo := RedoEntry.Add(id, line);
        case Edit(id, oldText) =>
          var line := lines[id];
          lines := lines[id := Line(line.version - 1, oldText)];
          redo := RedoEntry.Edit(id, line.text);
        case ReplaceAll(previous) =>
          lines := previous;
          redo := RedoEntry.Clear;
      }
      stack.redos := stack.redos + [redo];
    }

    /** `redo`: pops the top redo entry, if any, repeats its action and pushes the undo entry. */
    method Redo()
      requires Valid()
      modifies this, stack
      ensures Valid()
      ensures Snapshot() == RedoStep(old(Snapshot()))
    {
      RedoKeepsConsistent(Snapshot());
      if stack.redos == [] {
        return;
      }
      var entry := stack.redos[|stack.redos| - 1];
      stack.redos := stack.redos[..|stack.redos| - 1];
      var undo: UndoEntry;
      match entry {
        case Add(id, line) =>
          lines := lines[id := line];
          undo := UndoEntry.Remove(id);
        case Remove(id) =>
          var line := lines[id];
          lines := lines - {id};
          undo := UndoEntry.Add(id, line);
        case Edit(id, newText) =>
          var line := lines[id];
          lines := lines[id := Line(line.version + 1, newText)];
          undo := UndoEntry.Edit(id, line.text);
        case Clear =>
          var taken := lines;
          lines := map[];
          undo := ReplaceAll(taken);
      }
      stack.undos := stack.undos + [undo];
    }

    /**
     * The `set_text` callback of the line with this id: the new text is trimmed; `changed` is false,
     * and nothing happens, when the line already holds it.
     */
    method SetText(id: nat, raw: string) returns (changed: bool)
      requires Valid() && id in lines
      modifies this, stack
      ensures Valid()
      ensures Snapshot() == History.SetText(old(Snapshot()), id, raw)
      ensures changed <==> EditChanges(old(Snapshot()), id, raw)
    {
      ghost var before := Snapshot();
      var text := Trim(raw);
      var line := lines[id];
      changed := line.text != text;
      if changed {
        lines := lines[id := Line(line.version + 1, text)];
        stack.PushAndClearRedos(UndoEntry.Edit(id, line.text));
        assert Snapshot() == Record(before, lines, UndoEntry.Edit(id, line.text));
      }
      SetTextKeepsConsistent(before, id, raw);
    }

    /** The `remove` callback of the line with this id: the line is taken out and recorded. */
    method Remove(id: nat)
      requires Valid() && id in lines
      modifies this, stack
      ensures Valid()
      ensures Snapshot() == RemoveLine(old(Snapshot()), id)
    {
      RemoveKeepsConsistent(Snapshot(), id);
      var line := lines[id];
      lines := lines - {id};
      stack.PushAndClearRedos(UndoEntry.Add(id, line));
    }

    /** `add_entry`: the text becomes a new line under the next id, and its removal is recorded. */
    method AddEntry(text: string)
      requires Valid()
      modifies this, stack
      ensures Valid()
      ensures Snapshot() == History.AddEntry(old(Snapshot()), text)
    {
      AddEntryKeepsConsistent(Snapshot(), text);
      var id := nextId;
      nextId := nextId + 1;
      lines := lines[id := NewLine(text)];
      stack.PushAndClearRedos(UndoEntry.Remove(id));
    }

    /**
     * One paragraph added to the page by a paste: trimmed, dropped when empty or when it is the selected
     * page text, added as a line otherwise; `added` says which.
     */
    method Ingest(raw: string, selected: string, normalize: string -> string) returns (added: bool)
      requires Valid()
      modifies this, stack
      ensures Valid()
      ensures Snapshot() == History.Ingest(old(Snapshot()), raw, selected, normalize)
      ensures added <==> IngestedText(raw, selected, normalize).Some?
    {
      var text := Trim(raw);
      if text == [] {
        return false;
      }
      if normalize(selected) == normalize(text) {
        return false;
      }
      AddEntry(text);
      added := true;
    }
  }
}
