/**
 * The line store with its linear undo/redo history, as values: a `Store` is the map of lines, the two
 * stacks (top = last element) and the id counter, and each operation is a function from store to store.
 */
module History {
  import opened Text
  import opened Lines

  /** `UndoEntry`: what undoing the most recent action has to do. */
  datatype UndoEntry =
    | Add(id: nat, line: Line)
    | Remove(id: nat)
    | Edit(id: nat, text: string)
    | ReplaceAll(lines: LineMap)

  /** `RedoEntry`: what redoing the most recently undone action has to do. */
  datatype RedoEntry =
    | Add(id: nat, line: Line)
    | Remove(id: nat)
    | Edit(id: nat, text: string)
    | Clear

  /** The `unwrap()`s and the `version -= 1` of undo succeed: the line is there, at a version above 0. */
  predicate UndoDefined(lines: LineMap, e: UndoEntry)
  {
    match e
    case Add(_, _) => true
    case Remove(id) => id in lines
    case Edit(id, _) => id in lines && lines[id].version > 0
    case ReplaceAll(_) => true
  }

  /** One arm of `undo`: the new map and the redo entry it pushes. */
  function ApplyUndo(lines: LineMap, e: UndoEntry): (LineMap, RedoEntry)
    requires UndoDefined(lines, e)
  {
    match e
    case Add(id, line) => (lines[id := line], RedoEntry.Remove(id))
    case Remove(id) => (lines - {id}, RedoEntry.Add(id, lines[id]))
    case Edit(id, oldText) =>
      (lines[id := Line(lines[id].version - 1, oldText)], RedoEntry.Edit(id, lines[id].text))
    case ReplaceAll(previous) => (previous, RedoEntry.Clear)
  }

  /** The `unwrap()`s of redo succeed: the line is there. */
  predicate RedoDefined(lines: LineMap, e: RedoEntry)
  {
    match e
    case Add(_, _) => true
    case Remove(id) => id in lines
    case Edit(id, _) => id in lines
    case Clear => true
  }

  /** One arm of `redo`: the new map and the undo entry it pushes. */
  function ApplyRedo(lines: LineMap, e: RedoEntry): (LineMap, UndoEntry)
    requires RedoDefined(lines, e)
  {
    match e
    case Add(id, line) => (lines[id := line], UndoEntry.Remove(id))
    case Remove(id) => (lines - {id}, UndoEntry.Add(id, lines[id]))
    case Edit(id, newText) =>
      (lines[id := Line(lines[id].version + 1, newText)], UndoEntry.Edit(id, lines[id].text))
    case Clear => (map[], UndoEntry.ReplaceAll(lines))
  }

  /**
   * An undo entry that exactly reverses the action that produced `lines`: beyond being defined, a line
   * to re-add is absent and a whole map to restore replaces an empty one.
   */
  predicate Undoable(lines: LineMap, e: UndoEntry)
  {
    && UndoDefined(lines, e)
    && (e.Add? ==> e.id !in lines)
    && (e.ReplaceAll? ==> lines == map[])
  }

  /** A redo entry that exactly repeats an action undone to reach `lines`. */
  predicate Redoable(lines: LineMap, e: RedoEntry)
  {
    RedoDefined(lines, e) && (e.Add? ==> e.id !in lines)
  }

  /** Undoing an entry and redoing what that pushed gives back the map and the entry. */
  lemma UndoEntryThenRedo(lines: LineMap, e: UndoEntry)
    requires Undoable(lines, e)
    ensures Redoable(ApplyUndo(lines, e).0, ApplyUndo(lines, e).1)
    ensures ApplyRedo(ApplyUndo(lines, e).0, ApplyUndo(lines, e).1) == (lines, e)
  {
    match e
    case Add(id, line) =>
      assert lines[id := line] - {id} == lines;
    case Remove(id) =>
      assert (lines - {id})[id := lines[id]] == lines;
    case Edit(id, oldText) =>
      assert lines[id := Line(lines[id].version - 1, oldText)][id := Line(lines[id].version, lines[id].text)] == lines;
    case ReplaceAll(_) =>
  }

  /** Redoing an entry and undoing what that pushed gives back the map and the entry. */
  lemma RedoEntryThenUndo(lines: LineMap, e: RedoEntry)
    requires Redoable(lines, e)
    ensures Undoable(ApplyRedo(lines, e).0, ApplyRedo(lines, e).1)
    ensures ApplyUndo(ApplyRedo(lines, e).0, ApplyRedo(lines, e).1) == (lines, e)
  {
    match e
    case Add(id, line) =>
      assert lines[id := line] - {id} == lines;
    case Remove(id) =>
      assert (lines - {id})[id := lines[id]] == lines;
    case Edit(id, newText) =>
      assert lines[id := Line(lines[id].version + 1, newText)][id := Line(lines[id].version, lines[id].text)] == lines;
    case Clear =>
  }

  /** The lines, the `UndoStack` and the id counter of the application. */
  datatype Store = Store(lines: LineMap, undos: seq<UndoEntry>, redos: seq<RedoEntry>, nextId: nat)

  /** Every undo entry, from the top down, can be undone in turn, each exactly reversing its action. */
  predicate UndoChain(lines: LineMap, undos: seq<UndoEntry>)
    decreases |undos|
  {
    undos == [] ||
    var e := undos[|undos| - 1];
    Undoable(lines, e) && UndoChain(ApplyUndo(lines, e).0, undos[..|undos| - 1])
  }

  /** The map reached by undoing every entry of the stack. */
  function Rewind(lines: LineMap, undos: seq<UndoEntry>): LineMap
    requires UndoChain(lines, undos)
    decreases |undos|
  {
    if undos == [] then lines
    else Rewind(ApplyUndo(lines, undos[|undos| - 1]).0, undos[..|undos| - 1])
  }

  /** Every redo entry, from the top down, can be redone in turn, each exactly repeating an undone action. */
  predicate RedoChain(lines: LineMap, redos: seq<RedoEntry>)
    decreases |redos|
  {
    redos == [] ||
    var e := redos[|redos| - 1];
    Redoable(lines, e) && RedoChain(ApplyRedo(lines, e).0, redos[..|redos| - 1])
  }

  predicate KeysBelow(lines: LineMap, n: nat)
  {
    forall k :: k in lines ==> k < n
  }

  predicate UndoBelow(e: UndoEntry, n: nat)
  {
    match e
    case Add(id, _) => id < n
    case Remove(id) => id < n
    case Edit(id, _) => id < n
    case ReplaceAll(previous) => KeysBelow(previous, n)
  }

  predicate RedoBelow(e: RedoEntry, n: nat)
  {
    match e
    case Add(id, _) => id < n
    case Remove(id) => id < n
    case Edit(id, _) => id < n
    case Clear => true
  }

  /**
   * What holds of every store the application reaches: all ids, in the map and in both stacks, are
   * below the counter, and both stacks can be replayed from the current map.
   */
  predicate Consistent(s: Store)
  {
    && KeysBelow(s.lines, s.nextId)
    && (forall i :: 0 <= i < |s.undos| ==> UndoBelow(s.undos[i], s.nextId))
    && (forall i :: 0 <= i < |s.redos| ==> RedoBelow(s.redos[i], s.nextId))
    && UndoChain(s.lines, s.undos)
    && RedoChain(s.lines, s.redos)
  }

  /** The map the history leads back to when everything is undone. */
  function Origin(s: Store): LineMap
    requires UndoChain(s.lines, s.undos)
  {
    Rewind(s.lines, s.undos)
  }

  /** The store at start-up: the loaded lines renumbered, empty stacks, the counter at the number of lines. */
  function Load(stored: LineMap): Store
  {
    var lines := NormalizeLineMap(stored);
    Store(lines, [], [], |lines|)
  }

  /** `UndoStack::push_and_clear_redos` applied after a forward action that left the map at `lines`. */
  function Record(s: Store, lines: LineMap, e: UndoEntry): Store
  {
    s.(lines := lines, undos := s.undos + [e], redos := [])
  }

  /** `undo`: pops the top undo entry, applies it, pushes its inverse onto the redos. */
  function UndoStep(s: Store): (r: Store)
    requires s.undos != [] ==> UndoDefined(s.lines, s.undos[|s.undos| - 1])
    ensures s.undos == [] ==> r == s
    ensures s.undos != [] ==>
              && r.undos == s.undos[..|s.undos| - 1]
              && |r.redos| == |s.redos| + 1
              && r.redos[..|s.redos|] == s.redos
              && r.nextId == s.nextId
  {
    if s.undos == [] then s
    else
      var (lines, e) := ApplyUndo(s.lines, s.undos[|s.undos| - 1]);
      s.(lines := lines, undos := s.undos[..|s.undos| - 1], redos := s.redos + [e])
  }

  /** `redo`: pops the top redo entry, applies it, pushes its inverse onto the undos. */
  function RedoStep(s: Store): (r: Store)
    requires s.redos != [] ==> RedoDefined(s.lines, s.redos[|s.redos| - 1])
    ensures s.redos == [] ==> r == s
    ensures s.redos != [] ==>
              && r.redos == s.redos[..|s.redos| - 1]
              && |r.undos| == |s.undos| + 1
              && r.undos[..|s.undos|] == s.undos
              && r.nextId == s.nextId
  {
    if s.redos == [] then s
    else
      var (lines, e) := ApplyRedo(s.lines, s.redos[|s.redos| - 1]);
      s.(lines := lines, undos := s.undos + [e], redos := s.redos[..|s.redos| - 1])
  }

  /** `clear`: nothing on an empty map; otherwise empties it and records the whole old map. */
  function ClearLines(s: Store): (r: Store)
    ensures s.lines == map[] ==> r == s
    ensures s.lines != map[] ==>
              r.lines == map[] && r.undos == s.undos + [ReplaceAll(s.lines)] && r.redos == [] && r.nextId == s.nextId
  {
    if s.lines == map[] then s
    else Record(s, map[], ReplaceAll(s.lines))
  }

  /** The edit of line `id` to `raw` (trimmed) changes its text. */
  predicate EditChanges(s: Store, id: nat, raw: string)
    requires id in s.lines
  {
    s.lines[id].text != Trim(raw)
  }

  /**
   * `set_text` of the line with this id: afterwards the line holds the trimmed text; when that is a
   * change, its version goes up by one, the old text is recorded and the redos are dropped; otherwise
   * nothing changes. No other line is touched.
   */
  function SetText(s: Store, id: nat, raw: string): (r: Store)
    requires id in s.lines
    ensures id in r.lines && r.lines[id].text == Trim(raw)
    ensures r.lines.Keys == s.lines.Keys
    ensures forall k :: k in s.lines && k != id ==> r.lines[k] == s.lines[k]
    ensures r.nextId == s.nextId
    ensures !EditChanges(s, id, raw) ==> r == s
    ensures EditChanges(s, id, raw) ==>
              && r.lines[id].version == s.lines[id].version + 1
              && r.undos == s.undos + [UndoEntry.Edit(id, s.lines[id].text)]
              && r.redos == []
  {
    var text := Trim(raw);
    var line := s.lines[id];
    if line.text == text then s
    else Record(s, s.lines[id := Line(line.version + 1, text)], UndoEntry.Edit(id, line.text))
  }

  /** `remove` of the line with this id: the line is gone, recorded whole, and the redos are dropped. */
  function RemoveLine(s: Store, id: nat): (r: Store)
    requires id in s.lines
    ensures r.lines == s.lines - {id} && |r.lines| == |s.lines| - 1
    ensures r.undos == s.undos + [UndoEntry.Add(id, s.lines[id])] && r.redos == []
    ensures r.nextId == s.nextId
  {
    Record(s, s.lines - {id}, UndoEntry.Add(id, s.lines[id]))
  }

  /** `add_entry`: a version-0 line under the next id, the counter advanced, `Remove(id)` recorded. */
  function AddEntry(s: Store, text: string): (r: Store)
    ensures r.nextId == s.nextId + 1
    ensures s.nextId in r.lines && r.lines[s.nextId] == Line(0, text)
    ensures r.lines == s.lines[s.nextId := Line(0, text)]
    ensures r.undos == s.undos + [UndoEntry.Remove(s.nextId)] && r.redos == []
  {
    var id := s.nextId;
    Record(s.(nextId := id + 1), s.lines[id := NewLine(text)], UndoEntry.Remove(id))
  }

  /** A pasted paragraph: added as a new line when the ingestion filter lets it through. */
  function Ingest(s: Store, raw: string, selected: string, normalize: string -> string): Store
  {
    match IngestedText(raw, selected, normalize)
    case None => s
    case Some(text) => AddEntry(s, text)
  }

  // ----- Round trips -----

  /** Clearing a non-empty map and undoing it restores the map and the undo stack, leaving `Clear` to redo. */
  lemma ClearThenUndo(s: Store)
    requires s.lines != map[]
    ensures UndoStep(ClearLines(s)) == s.(redos := [RedoEntry.Clear])
  {
    assert (s.undos + [ReplaceAll(s.lines)])[..|s.undos|] == s.undos;
  }

  /** Changing a line's text and undoing it restores the map, versions included. */
  lemma SetTextThenUndo(s: Store, id: nat, raw: string)
    requires id in s.lines && EditChanges(s, id, raw)
    ensures UndoStep(SetText(s, id, raw)) == s.(redos := [RedoEntry.Edit(id, Trim(raw))])
  {
    var line := s.lines[id];
    assert (s.undos + [UndoEntry.Edit(id, line.text)])[..|s.undos|] == s.undos;
    assert s.lines[id := Line(line.version + 1, Trim(raw))][id := Line(line.version, line.text)] == s.lines;
  }

  /** Removing a line and undoing it puts the same line back under the same id. */
  lemma RemoveThenUndo(s: Store, id: nat)
    requires id in s.lines
    ensures UndoStep(RemoveLine(s, id)) == s.(redos := [RedoEntry.Remove(id)])
  {
    assert (s.undos + [UndoEntry.Add(id, s.lines[id])])[..|s.undos|] == s.undos;
    assert (s.lines - {id})[id := s.lines[id]] == s.lines;
  }

  /**
   * When the id `add_entry` takes is fresh, as it is in every consistent store, the new line overwrites
   * nothing, so the map gains exactly one line, and undoing the addition restores the map (the counter
   * stays advanced, so the id is never handed out again).
   */
  lemma AddEntryThenUndo(s: Store, text: string)
    requires s.nextId !in s.lines
    ensures AddEntry(s, text).lines.Keys == s.lines.Keys + {s.nextId}
    ensures |AddEntry(s, text).lines| == |s.lines| + 1
    ensures UndoStep(AddEntry(s, text)) == s.(nextId := s.nextId + 1, redos := [RedoEntry.Add(s.nextId, Line(0, text))])
  {
    var id := s.nextId;
    assert (s.undos + [UndoEntry.Remove(id)])[..|s.undos|] == s.undos;
    assert s.lines[id := NewLine(text)] - {id} == s.lines;
  }

  /** Undoing and then redoing restores the whole store: the map, both stacks and the counter. */
  lemma UndoThenRedo(s: Store)
    requires Consistent(s) && s.undos != []
    ensures RedoStep(UndoStep(s)) == s
  {
    var n := |s.undos|;
    var e := s.undos[n - 1];
    UndoEntryThenRedo(s.lines, e);
    var u := UndoStep(s);
    assert u.redos[..|u.redos| - 1] == s.redos;
    assert s.undos[..n - 1] + [e] == s.undos;
  }

  /** Redoing and then undoing restores the whole store: the map, both stacks and the counter. */
  lemma RedoThenUndo(s: Store)
    requires Consistent(s) && s.redos != []
    ensures UndoStep(RedoStep(s)) == s
  {
    var n := |s.redos|;
    var e := s.redos[n - 1];
    RedoEntryThenUndo(s.lines, e);
    var r := RedoStep(s);
    assert r.undos[..|r.undos| - 1] == s.undos;
    assert s.redos[..n - 1] + [e] == s.redos;
  }

  // ----- The invariant -----

  /** Raising the bound keeps every id of a consistent store below it. */
  lemma BelowGrows(s: Store, n: nat)
    requires Consistent(s) && s.nextId <= n
    ensures KeysBelow(s.lines, n)
    ensures forall i :: 0 <= i < |s.undos| ==> UndoBelow(s.undos[i], n)
  {
    forall i | 0 <= i < |s.undos|
      ensures UndoBelow(s.undos[i], n)
    {
      assert UndoBelow(s.undos[i], s.nextId);
    }
  }

  /** A forward action that the pushed entry exactly reverses keeps the store consistent and the origin fixed. */
  lemma RecordConsistent(s: Store, t: Store, e: UndoEntry)
    requires Consistent(s)
    requires s.nextId <= t.nextId && t.undos == s.undos + [e] && t.redos == []
    requires KeysBelow(t.lines, t.nextId) && UndoBelow(e, t.nextId)
    requires Undoable(t.lines, e) && ApplyUndo(t.lines, e).0 == s.lines
    ensures Consistent(t) && Origin(t) == Origin(s)
  {
    BelowGrows(s, t.nextId);
    assert t.undos[..|t.undos| - 1] == s.undos;
    forall i | 0 <= i < |t.undos|
      ensures UndoBelow(t.undos[i], t.nextId)
    {
      if i < |s.undos| {
        assert t.undos[i] == s.undos[i];
      }
    }
  }

  /** Always undoable, and the origin never moves: a store keeps its invariant through `clear`. */
  lemma ClearKeepsConsistent(s: Store)
    requires Consistent(s)
    ensures Consistent(ClearLines(s)) && Origin(ClearLines(s)) == Origin(s)
  {
    if s.lines != map[] {
      RecordConsistent(s, ClearLines(s), ReplaceAll(s.lines));
    }
  }

  /** A store keeps its invariant and its origin through `set_text`. */
  lemma SetTextKeepsConsistent(s: Store, id: nat, raw: string)
    requires Consistent(s) && id in s.lines
    ensures Consistent(SetText(s, id, raw)) && Origin(SetText(s, id, raw)) == Origin(s)
  {
    if EditChanges(s, id, raw) {
      var t := SetText(s, id, raw);
      var line := s.lines[id];
      assert t.lines[id := Line(line.version, line.text)] == s.lines;
      RecordConsistent(s, t, UndoEntry.Edit(id, line.text));
    }
  }

  /** A store keeps its invariant and its origin through `remove`. */
  lemma RemoveKeepsConsistent(s: Store, id: nat)
    requires Consistent(s) && id in s.lines
    ensures Consistent(RemoveLine(s, id)) && Origin(RemoveLine(s, id)) == Origin(s)
  {
    assert (s.lines - {id})[id := s.lines[id]] == s.lines;
    RecordConsistent(s, RemoveLine(s, id), UndoEntry.Add(id, s.lines[id]));
  }

  /** The next id is never in use, and a store keeps its invariant and its origin through `add_entry`. */
  lemma AddEntryKeepsConsistent(s: Store, text: string)
    requires Consistent(s)
    ensures s.nextId !in s.lines
    ensures Consistent(AddEntry(s, text)) && Origin(AddEntry(s, text)) == Origin(s)
  {
    var id := s.nextId;
    assert id !in s.lines;
    assert s.lines[id := NewLine(text)] - {id} == s.lines;
    RecordConsistent(s, AddEntry(s, text), UndoEntry.Remove(id));
  }

  /** A store keeps its invariant and its origin through `undo`. */
  lemma UndoKeepsConsistent(s: Store)
    requires Consistent(s)
    ensures Consistent(UndoStep(s)) && Origin(UndoStep(s)) == Origin(s)
  {
    if s.undos != [] {
      var n := |s.undos|;
      var e := s.undos[n - 1];
      var (lines, r) := ApplyUndo(s.lines, e);
      var u := UndoStep(s);
      UndoEntryThenRedo(s.lines, e);
      assert UndoBelow(e, s.nextId);
      assert u.redos[..|u.redos| - 1] == s.redos;
      assert KeysBelow(lines, s.nextId);
      forall i | 0 <= i < |u.redos|
        ensures RedoBelow(u.redos[i], u.nextId)
      {
        if i < |s.redos| {
          assert u.redos[i] == s.redos[i];
        }
      }
      forall i | 0 <= i < |u.undos|
        ensures UndoBelow(u.undos[i], u.nextId)
      {
        assert u.undos[i] == s.undos[i];
      }
    }
  }

  /** A store keeps its invariant and its origin through `redo`. */
  lemma RedoKeepsConsistent(s: Store)
    requires Consistent(s)
    ensures Consistent(RedoStep(s)) && Origin(RedoStep(s)) == Origin(s)
  {
    if s.redos != [] {
      var n := |s.redos|;
      var e := s.redos[n - 1];
      var (lines, u) := ApplyRedo(s.lines, e);
      var r := RedoStep(s);
      RedoEntryThenUndo(s.lines, e);
      assert RedoBelow(e, s.nextId);
      assert r.undos[..|r.undos| - 1] == s.undos;
      assert KeysBelow(lines, s.nextId);
      forall i | 0 <= i < |r.undos|
        ensures UndoBelow(r.undos[i], r.nextId)
      {
        if i < |s.undos| {
          assert r.undos[i] == s.undos[i];
        }
      }
      forall i | 0 <= i < |r.redos|
        ensures RedoBelow(r.redos[i], r.nextId)
      {
        assert r.redos[i] == s.redos[i];
      }
    }
  }

  /** The store at start-up is consistent, and everything undone leads back to the loaded lines. */
  lemma LoadConsistent(stored: LineMap)
    ensures Consistent(Load(stored)) && Origin(Load(stored)) == NormalizeLineMap(stored)
  {
    NormalizeLineMapKeys(stored);
  }

  /**
   * A pasted paragraph that passes the filter becomes one new version-0 line under a fresh id, with
   * `Remove(id)` recorded and the redos dropped; one that does not changes nothing.
   */
  lemma IngestSpec(s: Store, raw: string, selected: string, normalize: string -> string)
    requires Consistent(s)
    ensures Consistent(Ingest(s, raw, selected, normalize))
    ensures Origin(Ingest(s, raw, selected, normalize)) == Origin(s)
    ensures IngestedText(raw, selected, normalize).None? ==> Ingest(s, raw, selected, normalize) == s
    ensures IngestedText(raw, selected, normalize).Some? ==>
              var t := IngestedText(raw, selected, normalize).value;
              var r := Ingest(s, raw, selected, normalize);
              && s.nextId !in s.lines
              && r.lines == s.lines[s.nextId := Line(0, t)]
              && r.nextId == s.nextId + 1
              && r.undos == s.undos + [UndoEntry.Remove(s.nextId)]
              && r.redos == []
  {
    match IngestedText(raw, selected, normalize)
    case None =>
    case Some(t) =>
      AddEntryKeepsConsistent(s, t);
  }

  // ----- Undoing everything -----

  /** The store after `n` undos. */
  function UndoTimes(s: Store, n: nat): (r: Store)
    requires Consistent(s)
    ensures Consistent(r) && Origin(r) == Origin(s)
    decreases n
  {
    if n == 0 then s
    else
      UndoKeepsConsistent(s);
      UndoTimes(UndoStep(s), n - 1)
  }

  /** Undoing until the undo stack is empty yields the origin, whatever actions came before. */
  lemma {:induction false} UndoAllRestoresOrigin(s: Store)
    requires Consistent(s)
    ensures UndoTimes(s, |s.undos|).undos == []
    ensures UndoTimes(s, |s.undos|).lines == Origin(s)
    decreases |s.undos|
  {
    if s.undos != [] {
      UndoKeepsConsistent(s);
      UndoAllRestoresOrigin(UndoStep(s));
    }
  }
}
