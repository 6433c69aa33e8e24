# Undo/redo history of the rich-text editor

The editor's `App` component adds its own undo/redo history on top of the
editor engine. It keeps two stacks of serialised document snapshots:
`undoStack`, whose top is meant to be the document on screen, and
`redoStack`, which holds undone snapshots. Four handlers change them:

- the update notification records the current document;
- the ready effect seeds the undo stack;
- the undo button's handler;
- the redo button's handler.

Each button is enabled from the length of its stack.

This project models that history in Dafny:

- `history.dfy` (module `History`) holds the state as a value
  (`State(undo, redo, doc)`). Each handler is a function from the old state
  to the new one. The lemmas prove the properties of these functions, alone
  and over sequences of events.
- `app.dfy` (module `EditorApp`) holds the component as a class `App`. Its
  fields `undo`, `redo` and `doc` are replaced by the handler methods. Each
  method is proved to produce exactly the state that the function in
  `History` gives.

A snapshot is an opaque string. Loading a snapshot into the editor is
modelled as `doc := snapshot`, and serialising the editor as reading `doc`.
So the serialiser and the parser are taken to be inverse on snapshots.

Three behaviours of the code differ from what an undo/redo history usually does:

- An update notification empties the redo stack even when its snapshot
  repeats the top of the undo stack and nothing is recorded (App.tsx:24).
- The ready effect resets only the undo stack. The redo stack is left as it
  is (App.tsx:33).
- Redo pushes the editor's pre-redo document onto the undo stack, not the
  snapshot it pops (App.tsx:65), when its statements run in source order.
  Then "the top of the undo stack is the current document" does not hold
  after a redo, and neither does "no two adjacent undo entries are equal".
  See Findings.

## Model

| member | source | states |
|---|---|---|
| `History.Record` | src/App.tsx:14-25 | after a notification the redo stack is empty and the document is unchanged; the top of the undo stack is the current document; the old undo stack is a prefix of the new one, which is at most one longer; it keeps its length exactly when its old top already was the current document |
| `History.Initialize` | src/App.tsx:29-34 | without an editor nothing changes; with one the undo stack is exactly `[doc]`, undo is disabled, and the redo stack and the document are as before |
| `History.Undo` | src/App.tsx:42-56 | with one or no undo entries nothing changes; otherwise the top undo entry moves to the top of the redo stack, the editor shows the new top of the undo stack, and the total number of snapshots is kept |
| `History.Redo` | src/App.tsx:58-71 | with an empty redo stack nothing changes; otherwise the top of the redo stack becomes the document, the pre-redo document is appended to the undo stack, and the total number of snapshots is kept |
| `History.Edit` | src/App.tsx:14-25 | after a user edit and its notification the editor shows the edit, the redo stack is empty and the top of the undo stack is the edit; the old undo stack is a prefix of the new one, at most one longer, and keeps its length exactly when its old top equals the edit |
| `History.RecordDuplicate` | src/App.tsx:19 | a notification repeating the top of the undo stack leaves the undo stack unchanged; recording twice equals recording once |
| `History.RecordDistinct` | src/App.tsx:20 | a notification that differs from the top (or meets an empty undo stack) appends exactly that snapshot and keeps every earlier entry |
| `History.UndoDisabledExactly` | src/App.tsx:80 | undo changes nothing if and only if the undo button is disabled (one or no entries) |
| `History.RedoDisabledExactly` | src/App.tsx:83 | redo changes nothing if and only if the redo button is disabled (empty redo stack) |
| `History.UndoThenRedo` | src/App.tsx:42-71 | after an undo and then a redo, the undo stack has its old length, the redo stack is as before and the editor shows the undone snapshot; the top two undo entries are then the same snapshot |
| `History.EditAllAppends` | src/App.tsx:17-21 | from a synced state, consecutive distinct edits are appended to the undo stack in order, the redo stack is empty and the editor shows the last edit |
| `History.UndoTimesPops` | src/App.tsx:45-52 | `k` undos leave the undo stack without its top `k` entries, and the editor shows its new top |
| `History.UndoTimesPushesRedo` | src/App.tsx:50 | `k` undos push the top `k` undo entries onto the redo stack, most recent first |
| `History.EditsThenUndosRestoreStart` | src/App.tsx:29-56 | after the ready effect on `d0` and `n` consecutive distinct edits, the undo stack is `[d0]` followed by the edits; then `n` undos bring back `d0` with the undo stack `[d0]` and the edits, reversed, on the redo stack |
| `History.RunKeepsUndoNonEmpty` | src/App.tsx:14-71 | once the undo stack has an entry, no sequence of notifications, ready effects, undos and redos empties it |
| `History.UndoKeepsTimeline` | src/App.tsx:45-52 | undo keeps the sequence "undo stack, then redo stack top-down" unchanged: it only moves the cursor |
| `History.RedoAsWrittenLosesSnapshot` | src/App.tsx:61-67 | start on "a", edit to "b", then undo, redo, undo, redo: the editor ends on "a", and the history holds ["a", "a"], so "b" is lost |
| `History.RedoFixed` | src/App.tsx:61-67 | the intended redo: the popped snapshot becomes the document and is appended to the undo stack, which stays synced; the total number of snapshots is kept |
| `History.RedoFixedRoundTrip` | src/App.tsx:42-71 | the intended redo keeps the timeline; on synced states undo then redo, and redo then undo, each give back the starting state |
| `History.RunFixedKeepsSynced` | src/App.tsx:14-71 | with the intended redo, every sequence of events keeps the top of the undo stack equal to the current document |
| `EditorApp.App.constructor` | src/App.tsx:8-9 | both stacks start empty and the editor shows its initial content |
| `EditorApp.App.OnUpdate` | src/App.tsx:14-25 | the new state is `Record` of the old one: a repeated snapshot leaves the undo stack as it was; otherwise the snapshot is appended; the redo stack is emptied either way |
| `EditorApp.App.InitializeEffect` | src/App.tsx:29-34 | the new state is `Initialize` of the old one: with an editor the undo stack becomes `[doc]`; the redo stack and the document are unchanged |
| `EditorApp.App.HandleUndo` | src/App.tsx:42-56 | the new state is `Undo` of the old one: with one or no undo entries nothing changes; otherwise the popped top goes onto the redo stack and the editor shows the new top |
| `EditorApp.App.HandleRedo` | src/App.tsx:58-71 | the new state is `Redo` of the old one: with an empty redo stack nothing changes; otherwise the popped top becomes the document and the old document is appended to the undo stack |
| `EditorApp.App.UndoDisabled` | src/App.tsx:80 | the undo button is disabled exactly when pressing it would change nothing |
| `EditorApp.App.RedoDisabled` | src/App.tsx:83 | the redo button is disabled exactly when pressing it would change nothing |
| `EditorApp.App.UserEdit` | src/App.tsx:14-25 | an edit followed by its notification gives `Edit` of the old state: the document is the edit, the redo stack is empty, and the edit is appended unless it repeats the top |

## Left out

- The toolbar component (src/TipTap.tsx) is not part of this model. It only passes commands to the editor engine and asks the user for a URL with a prompt. It has no logic of its own.
- Serialising the editor and parsing snapshots back (`JSON.stringify`, `JSON.parse`, `getJSON`). A snapshot is an opaque string, and loading one is assignment to `doc`.
- The framework's state machinery: state hooks, effect scheduling and re-rendering. Each handler is modelled as one atomic update. The guards are taken to read the same stacks that the update callbacks see.
- The setter calls nested inside update callbacks (App.tsx:50, 65). Under batching they could lose updates. That is a framework concurrency question, so it is not modelled. Each handler runs its statements in source order, so the undo-stack update at App.tsx:65 reads the document before `setContent` at App.tsx:67 replaces it. If the framework defers that updater until after `setContent`, redo pushes the popped snapshot instead, which is `History.RedoFixed`.
- Whether loading a snapshot into the editor fires the update notification itself. That is the editor engine's behaviour, which the code does not show.
- Editor configuration: the extension list, the initial HTML content and the text-input property (App.tsx:12-13, 39).
- The handlers dereference the editor without a null check. The model assumes the buttons are only pressed once the editor exists. Only the ready effect has a guard (App.tsx:30), and it is modelled as the `editorReady` parameter.

## Findings

| source | as written | input that shows it | evidently intended | confidence | as-written member | corrected member |
|---|---|---|---|---|---|---|
| src/App.tsx:65 | with the updater at :65 run before `setContent` at :67, as the model runs them, redo pushes the editor's pre-redo document onto the undo stack, so the top of the undo stack no longer matches the document on screen | start on "a", edit to "b", then undo, redo, undo, redo: the editor ends on "a" instead of "b", and "b" is in neither stack | push the snapshot being restored, so that undo and redo are inverse and every recorded snapshot stays reachable | low; depends on when React runs the updater at :65; not executed | `History.RedoAsWrittenLosesSnapshot` | `History.RedoFixedRoundTrip` |

The class `EditorApp.App` runs App.tsx's statements in source order, so its
`HandleRedo` pushes the pre-redo document. The corrected redo is `History.RedoFixed`. The
event runner `History.RunFixed` uses it, and `History.RunFixedKeepsSynced`
proves that every event keeps the top of the undo stack equal to the document.
