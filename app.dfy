/**
 * The `App` component's state and handlers, as a class whose fields the
 * handlers replace: the two snapshot stacks and the editor's document.
 * Each handler is one atomic update, proved to follow the function of the
 * same purpose in module History.
 */
module EditorApp {
  import opened History

  class App {
    /** `undoStack`: snapshots, oldest first. */
    var undo: seq<Snapshot>
    /** `redoStack`: undone snapshots, oldest first. */
    var redo: seq<Snapshot>
    /** The document the editor shows, in its serialised form. */
    var doc: Snapshot

    /** The three fields as one value. */
    function Current(): State
      reads this
    {
      State(undo, redo, doc)
    }

    /** Both stacks start empty; the editor starts on its initial content. */
    constructor (initial: Snapshot)
      ensures undo == [] && redo == [] && doc == initial
    {
      undo := [];
      redo := [];
      doc := initial;
    }

    /** The editor's update notification: record the serialised document
        unless it repeats the top of the undo stack, and always empty the
        redo stack. */
    method OnUpdate()
      modifies this
      ensures Current() == Record(old(Current()))
      ensures doc == old(doc) && redo == [] && Synced(Current())
      ensures |old(undo)| > 0 && old(undo)[|old(undo)| - 1] == doc ==> undo == old(undo)
      ensures !(|old(undo)| > 0 && old(undo)[|old(undo)| - 1] == doc) ==> undo == old(undo) + [doc]
    {
      var json := doc;
      if !(|undo| > 0 && undo[|undo| - 1] == json) {
        undo := undo + [json];
      }
      redo := [];
    }

    /** The effect that runs once the editor exists: seed the undo stack with
        the current document. The redo stack is not touched. */
    method InitializeEffect(editorReady: bool)
      modifies this
      ensures Current() == Initialize(old(Current()), editorReady)
      ensures editorReady ==> undo == [doc]
      ensures redo == old(redo) && doc == old(doc)
    {
      if !editorReady {
        return;
      }
      var initial := doc;
      undo := [initial];
    }

    /** The undo button's handler. */
    method HandleUndo()
      modifies this
      ensures Current() == Undo(old(Current()))
      ensures |old(undo)| <= 1 ==> unchanged(this)
      ensures |old(undo)| > 1 ==>
        && undo == old(undo)[..|old(undo)| - 1]
        && redo == old(redo) + [old(undo)[|old(undo)| - 1]]
        && doc == undo[|undo| - 1]
    {
      if |undo| <= 1 {
        return;
      }
      var copy := undo;
      var current := copy[|copy| - 1];
      copy := copy[..|copy| - 1];
      var previous := copy[|copy| - 1];
      redo := redo + [current];
      doc := previous;
      undo := copy;
    }

    /** The redo button's handler. */
    method HandleRedo()
      modifies this
      ensures Current() == Redo(old(Current()))
      ensures |old(redo)| == 0 ==> unchanged(this)
      ensures |old(redo)| > 0 ==>
        && redo == old(redo)[..|old(redo)| - 1]
        && doc == old(redo)[|old(redo)| - 1]
        && undo == old(undo) + [old(doc)]
    {
      if |redo| == 0 {
        return;
      }
      var copy := redo;
      var next := copy[|copy| - 1];
      copy := copy[..|copy| - 1];
      undo := undo + [doc];
      doc := next;
      redo := copy;
    }

    /** Whether the undo button is disabled: exactly when undo would change
        nothing. */
    function UndoDisabled(): (disabled: bool)
      reads this
      ensures disabled <==> Undo(Current()) == Current()
    {
      UndoDisabledExactly(Current());
      |undo| <= 1
    }

    /** Whether the redo button is disabled: exactly when redo would change
        nothing. */
    function RedoDisabled(): (disabled: bool)
      reads this
      ensures disabled <==> Redo(Current()) == Current()
    {
      RedoDisabledExactly(Current());
      |redo| == 0
    }

    /** A user edit, done by the editor: its document becomes `content`, then
        it sends the update notification. */
    method UserEdit(content: Snapshot)
      modifies this
      ensures Current() == Edit(old(Current()), content)
      ensures doc == content && redo == []
      ensures |old(undo)| > 0 && old(undo)[|old(undo)| - 1] == content ==> undo == old(undo)
      ensures !(|old(undo)| > 0 && old(undo)[|old(undo)| - 1] == content) ==> undo == old(undo) + [content]
    {
      doc := content;
      OnUpdate();
    }
  }

  /** The walk-through of the history: start on S0, edit to S1, send the same
      notification again, undo, redo. */
  method Scenario() {
    var s0, s1 := "a", "ab";
    var app := new App(s0);
    app.InitializeEffect(true);
    assert app.undo == [s0];
    app.UserEdit(s1);
    assert app.undo == [s0, s1] && app.redo == [];
    app.OnUpdate();
    assert app.undo == [s0, s1];
    app.HandleUndo();
    assert app.doc == s0 && app.undo == [s0] && app.redo == [s1];
    app.HandleRedo();
    assert app.doc == s1 && app.redo == [] && app.undo == [s0, s0];
  }
}
