# texthooker line store, in Dafny

texthooker is a browser page that collects text pasted into it (typically from a text hooker) as a
list of lines. The user can edit each line, remove it, or clear the whole list, and can undo and redo
any of these actions. This project models that line store, whose history is linear:

- the ordered map of lines (`BTreeMap<Id, Line>`, where each `Line` is a version and a text);
- the `UndoStack`, with its `undos` and `redos` vectors of `UndoEntry` / `RedoEntry`;
- the id counter that hands out ids to new lines;
- the operations on them: `clear`, `undo`, `redo`, the `set_text` and `remove` callbacks of a line,
  `add_entry`, the filter that decides whether a pasted paragraph becomes a line, and
  `normalize_line_map`, which runs at start-up.

The model has four modules:

- `Text` (`text.dfy`): Rust's `str::trim`, over the Unicode White_Space characters, and the ingestion
  filter.
- `Lines` (`lines.dfy`): `Line`, the line map, its ascending iteration order and `normalize_line_map`.
- `History` (`history.dfy`): the two entry types and the whole state as a value, `Store`. Each
  operation is a function from store to store, and the properties are lemmas about these functions.
  The central invariant is `Consistent`. It says that every id, whether in the map or in either stack,
  is below the counter. It also says that both stacks can be replayed from the current map, each
  entry exactly reversing, or repeating, the action that produced it. This is what makes every
  `unwrap()` in `undo`/`redo` succeed and keeps the `version -= 1` of an undone edit from going
  below 0. `Origin` is the map you reach by undoing everything, and no operation changes it.
- `Editor` (`editor.dfy`): the state as the program holds it. `UndoStack` is a class with its two
  vectors as `seq` fields. `App` holds the line map and the counter as fields, plus a reference to the
  `UndoStack`. Its methods change these in place in the same steps as the closures (pop, match on the
  entry, insert/remove/replace, push). Each method is proved to leave `Snapshot()` equal to the
  matching `History` function applied to the old snapshot. Each also keeps `Valid()`, which is
  `Consistent` plus a ghost, unchanging `origin`.

In the model, the current page selection and the line-ending normaliser are parameters of
`Ingest`. The normaliser is the `normalize_line_endings` crate; in the model it is any function
`string -> string`.

The model has no history cap, batch operation, label/content split or selection-to-line mapper,
because the code has none: `UndoStack` grows without bound (`src/main.rs:319-336`) and `Line` holds
only a version and a text (`src/main.rs:308-311`).

## Model

| member | source | states |
|---|---|---|
| Text.IsWhitespace | src/main.rs:280 | `char::is_whitespace`: exactly the characters with the Unicode White_Space property |
| Text.LeadingWhitespace | src/main.rs:280 | counts exactly the whitespace the string starts with: every counted character is whitespace and the first uncounted one is not |
| Text.TrailingWhitespace | src/main.rs:280 | counts exactly the whitespace the string ends with: every counted character is whitespace and the last uncounted one is not |
| Text.Trim | src/main.rs:280 | the result is no longer than the input, neither starts nor ends with whitespace, and is empty exactly when the input is whitespace throughout; `Text.TrimIsSlice` states that it is the part of the input between the whitespace at both ends |
| Text.TrimIsSlice | src/main.rs:280 | the trim is the slice of the input between a whitespace-only prefix and a whitespace-only suffix |
| Text.TrimOfTrimmed | src/main.rs:280 | a string with no whitespace at either end is unchanged by trimming |
| Text.TrimIdempotent | src/main.rs:280 | trimming twice gives the same result as trimming once |
| Text.IngestedText | src/main.rs:279-290 | a pasted paragraph is kept exactly when its trim is non-empty and differs from the selection after both are normalised; what is kept is the trim |
| Lines.NewLine | src/main.rs:314-316 | `Line::new`: a line at version 0 holding the text; its use by `add_entry` is stated by `History.AddEntry` |
| Lines.NormalizeLineMap | src/main.rs:202-212 | `normalize_line_map`: the values in ascending key order, renumbered from 0 with versions reset; its properties are `Lines.NormalizeLineMapKeys` and `Lines.NormalizeLineMapMoves` |
| Lines.Ascending | src/main.rs:205-209 | the iteration order of a `BTreeMap`: every key exactly once, strictly increasing |
| Lines.AscendingIndexOf | src/main.rs:205-209 | every key of the map occurs in the iteration order |
| Lines.RankOfAscending | src/main.rs:205-209 | the i-th key in iteration order has exactly i smaller keys |
| Lines.NormalizeLineMapKeys | src/main.rs:202-212 | after `normalize_line_map` the keys are exactly 0..n-1, n is the old number of lines, and every version is 0 |
| Lines.NormalizeLineMapMoves | src/main.rs:202-212 | the line with id k ends up under its rank, the number of smaller ids, with its text unchanged |
| History.ApplyUndo | src/main.rs:50-69 | the four arms of `undo`: the new map and the redo entry pushed; `History.UndoEntryThenRedo` states that the redo entry reverses it |
| History.ApplyRedo | src/main.rs:78-97 | the four arms of `redo`: the new map and the undo entry pushed; `History.RedoEntryThenUndo` states that the undo entry reverses it |
| History.UndoEntryThenRedo | src/main.rs:44-99 | applying an undo entry, then the redo entry that this pushes, gives back the same map and the same undo entry, for all four entry kinds and including the version going down and back up |
| History.RedoEntryThenUndo | src/main.rs:44-99 | applying a redo entry, then the undo entry that this pushes, gives back the same map and the same redo entry |
| History.Load | src/main.rs:28-30 | the state at start-up: normalised lines, empty stacks and the counter at the number of lines (`src/main.rs:240`); `History.LoadConsistent` states its properties |
| History.Record | src/main.rs:332-335 | `push_and_clear_redos` after a forward action: the entry appended to the undos, the redos emptied; `History.RecordConsistent` states what it preserves |
| History.UndoStep | src/main.rs:44-71 | `undo` with no undos changes nothing; otherwise it pops exactly one undo, pushes exactly one redo on the redos it found, and leaves the counter alone |
| History.RedoStep | src/main.rs:72-99 | `redo` with no redos changes nothing; otherwise it pops exactly one redo, pushes exactly one undo on the undos it found, and leaves the counter alone |
| History.ClearLines | src/main.rs:34-43 | clearing an empty map changes nothing; otherwise the map is empty, `ReplaceAll` of the exact previous map is the new top of the undos, and the redos are dropped |
| History.SetText | src/main.rs:169-182 | the line ends up holding the trimmed text with its key set and all other lines untouched; an unchanged text changes nothing; a change bumps the version by 1, pushes `Edit(id, old text)` and drops the redos |
| History.RemoveLine | src/main.rs:183-188 | the line is gone, the map is one line shorter, `Add(id, line)` is pushed and the redos are dropped |
| History.AddEntry | src/main.rs:242-253 | the map is the old map with a version-0 line holding the text under the old counter value, the counter goes up by one, `Remove(id)` is pushed and the redos are dropped |
| History.Ingest | src/main.rs:279-290 | the ingestion path: `add_entry` of the filtered text when the filter keeps it, nothing otherwise; `History.IngestSpec` states its effect |
| History.ClearThenUndo | src/main.rs:34-67 | clearing a non-empty map and then undoing restores the map and the undos exactly, and leaves `Clear` as the only redo |
| History.SetTextThenUndo | src/main.rs:59-63 | a changing edit followed by undo restores the map exactly, versions included |
| History.RemoveThenUndo | src/main.rs:51-53 | remove followed by undo restores the map exactly |
| History.AddEntryThenUndo | src/main.rs:247-252 | with a fresh id, `add_entry` gains exactly one line and overwrites none, and undoing it restores the map while the counter stays advanced |
| History.UndoThenRedo | src/main.rs:44-99 | in a consistent store, undo followed by redo restores the map, both stacks and the counter exactly |
| History.RedoThenUndo | src/main.rs:44-99 | in a consistent store, redo followed by undo restores the map, both stacks and the counter exactly |
| History.RecordConsistent | src/main.rs:332-335 | a forward action whose pushed entry exactly reverses it keeps the store consistent and the origin unchanged |
| History.ClearKeepsConsistent | src/main.rs:34-43 | `clear` keeps the invariant and the origin |
| History.SetTextKeepsConsistent | src/main.rs:169-182 | `set_text` keeps the invariant and the origin |
| History.RemoveKeepsConsistent | src/main.rs:183-188 | `remove` keeps the invariant and the origin |
| History.AddEntryKeepsConsistent | src/main.rs:240-252 | the counter never names a line already in the map, and `add_entry` keeps the invariant and the origin |
| History.UndoKeepsConsistent | src/main.rs:44-71 | `undo` keeps the invariant and the origin, so its `unwrap()`s and `version -= 1` cannot fail |
| History.RedoKeepsConsistent | src/main.rs:72-99 | `redo` keeps the invariant and the origin, so its `unwrap()`s cannot fail |
| History.LoadConsistent | src/main.rs:28-30 | the state at start-up (normalised lines, empty stacks, counter at the number of lines) is consistent, and undoing everything leads back to the normalised lines |
| History.IngestSpec | src/main.rs:279-290 | a paragraph the filter drops changes nothing; one it keeps becomes a version-0 line under a fresh id, with the counter advanced, `Remove(id)` pushed and the redos dropped |
| History.UndoTimes | src/main.rs:44-71 | any number of undos keeps the invariant and the origin |
| History.UndoAllRestoresOrigin | src/main.rs:44-71 | undoing as many times as there are undos empties the undo stack and yields the origin |
| Editor.UndoStack.constructor | src/main.rs:325-330 | both stacks start empty |
| Editor.UndoStack.PushAndClearRedos | src/main.rs:332-335 | the entry becomes the new top of the undos and the redos are emptied |
| Editor.App.constructor | src/main.rs:202-212 | the state starts as the normalised stored lines, empty stacks and the counter at the number of lines, and is valid |
| Editor.App.Clear | src/main.rs:34-43 | changes the state exactly as `History.ClearLines` and keeps it valid |
| Editor.App.Undo | src/main.rs:44-71 | changes the state exactly as `History.UndoStep` and keeps it valid |
| Editor.App.Redo | src/main.rs:72-99 | changes the state exactly as `History.RedoStep` and keeps it valid |
| Editor.App.SetText | src/main.rs:169-182 | changes the state exactly as `History.SetText`, keeps it valid, and returns true exactly when the trimmed text differs from the old one |
| Editor.App.Remove | src/main.rs:183-188 | changes the state exactly as `History.RemoveLine` and keeps it valid |
| Editor.App.AddEntry | src/main.rs:242-253 | changes the state exactly as `History.AddEntry` and keeps it valid |
| Editor.App.Ingest | src/main.rs:279-290 | changes the state exactly as `History.Ingest`, keeps it valid, and returns true exactly when the filter keeps the paragraph |

## Left out

- The Leptos view, the reactive signals and `StoredValue`: signals become plain fields of `App`, and the markup, `For` keying, `LineView` focus handling and `FontControl` are not part of this model.
- The keyboard listeners for undo and redo: they only dispatch to `undo`/`redo`, which are modelled.
- The `MutationObserver` setup, its filtering of mutation records and its removal of the pasted `P` node. `Ingest` models what happens to the text of one pasted paragraph.
- The browser selection API: the current selection is the `selected` parameter of `Ingest`.
- The `normalize_line_endings` crate: it is foreign code, so it becomes the `normalize` parameter of `Ingest`, and only the equality of its two results matters.
- Auto-scroll after `add_entry`: it uses floating-point window geometry and `request_animation_frame`, and it has no effect on the state.
- Persistence through `use_local_storage` and JSON: the constructor of `App` takes the stored map as a value.
- `usize` overflow: ids and versions are unbounded `nat`s, so overflow of the counter or of `version += 1` is not modelled.
- Panics: the `unwrap()`s in `undo`, `redo`, `set_text` and `remove` become preconditions. For `undo`/`redo` the invariant discharges them; for `set_text`/`remove` the caller must pass an id that is in the map.
- Lines.NormalizeLineMapKeys: idempotence of `normalize_line_map` (normalising twice changes nothing more) is not proved.
