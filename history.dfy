/**
 * The undo/redo history of the text editor's `App` component, as values.
 *
 * The component keeps two stacks of document snapshots beside the editor's
 * current document. A `State` holds all three; each handler of the component
 * is a function from the state before to the state after, and the class in
 * module EditorApp is proved to follow these functions.
 *
 * Snapshots are the serialised documents the component stores. The editor's
 * serialiser and parser are taken to be inverse on them, so loading a snapshot
 * into the editor is `doc := snapshot` and serialising the editor reads `doc`.
 */
module History {

  /** An opaque serialised document, compared by string equality. */
  type Snapshot = string

  /** `undo` and `redo` are the two stacks, oldest first; `doc` is the
      document the editor currently shows. */
  datatype State = State(undo: seq<Snapshot>, redo: seq<Snapshot>, doc: Snapshot)

  function Last<T>(s: seq<T>): T
    requires |s| > 0
  {
    s[|s| - 1]
  }

  function DropLast<T>(s: seq<T>): (r: seq<T>)
    requires |s| > 0
    ensures r + [Last(s)] == s
  {
    s[..|s| - 1]
  }

  /** The undo button is enabled: the undo stack has more than one entry. */
  predicate CanUndo(s: State) {
    |s.undo| > 1
  }

  /** The redo button is enabled: the redo stack is not empty. */
  predicate CanRedo(s: State) {
    |s.redo| > 0
  }

  /** The top of the undo stack is the document the editor shows. */
  predicate Synced(s: State) {
    |s.undo| > 0 && Last(s.undo) == s.doc
  }

  /** The update notification: the editor's document has changed and its
      serialisation is recorded unless it equals the top of the undo stack.
      The redo stack is emptied in both cases. */
  function Record(s: State): (r: State)
    ensures r.doc == s.doc && r.redo == []
    ensures Synced(r)
    ensures s.undo <= r.undo && |r.undo| <= |s.undo| + 1
    ensures |r.undo| == |s.undo| <==> Synced(s)
  {
    var undo := if |s.undo| > 0 && Last(s.undo) == s.doc then s.undo else s.undo + [s.doc];
    State(undo, [], s.doc)
  }

  /** The effect run once the editor exists: it seeds the undo stack with the
      current document and leaves the redo stack as it is. Before the editor
      exists it does nothing. */
  function Initialize(s: State, editorReady: bool): (r: State)
    ensures !editorReady ==> r == s
    ensures editorReady ==> r.undo == [s.doc] && Synced(r) && !CanUndo(r)
    ensures r.redo == s.redo && r.doc == s.doc
  {
    if editorReady then State([s.doc], s.redo, s.doc) else s
  }

  /** The undo handler: guarded by `CanUndo`; otherwise moves the top of the
      undo stack onto the redo stack and loads the new top into the editor. */
  function Undo(s: State): (r: State)
    ensures !CanUndo(s) ==> r == s
    ensures CanUndo(s) ==>
      && r.undo + [Last(s.undo)] == s.undo
      && r.redo == s.redo + [Last(s.undo)]
      && Synced(r)
    ensures |r.undo| + |r.redo| == |s.undo| + |s.redo|
  {
    if !CanUndo(s) then s
    else
      var current := Last(s.undo);
      var copy := DropLast(s.undo);
      State(copy, s.redo + [current], Last(copy))
  }

  /** The redo handler: guarded by `CanRedo`; otherwise pops the redo stack,
      pushes the editor's pre-redo document (not the popped snapshot) onto the
      undo stack, and loads the popped snapshot into the editor. */
  function Redo(s: State): (r: State)
    ensures !CanRedo(s) ==> r == s
    ensures CanRedo(s) ==>
      && r.redo + [r.doc] == s.redo
      && r.undo == s.undo + [s.doc]
    ensures |r.undo| + |r.redo| == |s.undo| + |s.redo|
  {
    if !CanRedo(s) then s
    else
      var next := Last(s.redo);
      State(s.undo + [s.doc], DropLast(s.redo), next)
  }

  /** A notification for a snapshot equal to the top of the undo stack leaves
      the undo stack as it is; recording twice is recording once. */
  lemma RecordDuplicate(s: State)
    ensures Synced(s) ==> Record(s).undo == s.undo
    ensures Record(Record(s)) == Record(s)
  {
  }

  /** A notification for a snapshot that differs from the top of the undo
      stack (or for an empty undo stack) appends exactly that snapshot. */
  lemma RecordDistinct(s: State)
    requires !Synced(s)
    ensures Record(s).undo == s.undo + [s.doc]
  {
  }

  /** The undo button is disabled exactly when pressing it changes nothing. */
  lemma UndoDisabledExactly(s: State)
    ensures Undo(s) == s <==> !CanUndo(s)
  {
    if CanUndo(s) {
      assert |Undo(s).undo| < |s.undo|;
    }
  }

  /** The redo button is disabled exactly when pressing it changes nothing. */
  lemma RedoDisabledExactly(s: State)
    ensures Redo(s) == s <==> !CanRedo(s)
  {
    if CanRedo(s) {
      assert |Redo(s).redo| < |s.redo|;
    }
  }

  /** An undo followed by a redo: the undo stack regains its length, the
      redo stack is back as it was and the editor shows the undone snapshot;
      but the top two entries of the undo stack are now the same snapshot,
      the one the undo had restored. */
  lemma UndoThenRedo(s: State)
    requires CanUndo(s)
    ensures var t := Redo(Undo(s));
      && |t.undo| == |s.undo|
      && t.redo == s.redo
      && t.doc == Last(s.undo)
      && t.undo == DropLast(s.undo) + [Last(DropLast(s.undo))]
      && t.undo[|t.undo| - 2] == Last(t.undo)
  {
  }

  // ----- Sequences of events -------------------------------------------------

  /** A user edit: the editor's document becomes `content`, then the editor
      sends its update notification. */
  function Edit(s: State, content: Snapshot): (r: State)
    ensures r.doc == content && r.redo == [] && Synced(r)
    ensures s.undo <= r.undo && |r.undo| <= |s.undo| + 1
    ensures |r.undo| == |s.undo| <==> (|s.undo| > 0 && Last(s.undo) == content)
  {
    Record(s.(doc := content))
  }

  /** Each edit differs from the one before it, the first from `d`. */
  predicate ChainDistinct(d: Snapshot, es: seq<Snapshot>)
    decreases |es|
  {
    es == [] || (es[0] != d && ChainDistinct(es[0], es[1..]))
  }

  function EditAll(s: State, es: seq<Snapshot>): State
    decreases |es|
  {
    if es == [] then s else EditAll(Edit(s, es[0]), es[1..])
  }

  function UndoTimes(s: State, k: nat): State
    decreases k
  {
    if k == 0 then s else UndoTimes(Undo(s), k - 1)
  }

  function Reversed<T>(s: seq<T>): (r: seq<T>)
    ensures |r| == |s|
    ensures forall i :: 0 <= i < |s| ==> r[i] == s[|s| - 1 - i]
  {
    if s == [] then [] else [Last(s)] + Reversed(DropLast(s))
  }

  /** From a synced state, distinct consecutive edits are each appended to the
      undo stack, in order. */
  lemma {:induction false} EditAllAppends(s: State, es: seq<Snapshot>)
    requires Synced(s) && ChainDistinct(s.doc, es)
    ensures EditAll(s, es).undo == s.undo + es
    ensures Synced(EditAll(s, es))
    ensures es != [] ==> EditAll(s, es).redo == [] && EditAll(s, es).doc == Last(es)
    decreases |es|
  {
    if es != [] {
      var t := Edit(s, es[0]);
      assert t.undo == s.undo + [es[0]];
      EditAllAppends(t, es[1..]);
      assert s.undo + [es[0]] + es[1..] == s.undo + es;
      if es[1..] == [] {
        assert es == [es[0]];
      } else {
        assert Last(es[1..]) == Last(es);
      }
    }
  }

  /** `k` undos pop the top `k` entries off the undo stack, and the editor
      shows the new top. */
  lemma {:induction false} UndoTimesPops(s: State, k: nat)
    requires k < |s.undo|
    decreases k
    ensures UndoTimes(s, k).undo == s.undo[..|s.undo| - k]
    ensures k > 0 ==> Synced(UndoTimes(s, k))
  {
    var n := |s.undo|;
    if k > 0 {
      var u := Undo(s);
      assert u.undo == s.undo[..n - 1];
      UndoTimesPops(u, k - 1);
      assert u.undo[..n - 1 - (k - 1)] == s.undo[..n - k];
    }
  }

  /** `k` undos push those `k` entries onto the redo stack, most recent
      first. */
  lemma {:induction false} UndoTimesPushesRedo(s: State, k: nat)
    requires k < |s.undo|
    decreases k
    ensures UndoTimes(s, k).redo == s.redo + Reversed(s.undo[|s.undo| - k..])
  {
    var n := |s.undo|;
    if k == 0 {
      assert s.undo[n..] == [];
    } else {
      var u := Undo(s);
      assert u.undo == s.undo[..n - 1] && u.redo == s.redo + [s.undo[n - 1]];
      UndoTimesPushesRedo(u, k - 1);
      PopSlices(s.undo, s.redo, k);
    }
  }

  /** The sequence arithmetic of one step of `UndoTimesPushesRedo`. */
  lemma PopSlices(w: seq<Snapshot>, r: seq<Snapshot>, k: nat)
    requires 0 < k < |w|
    ensures r + [w[|w| - 1]] + Reversed(w[..|w| - 1][|w| - 1 - (k - 1)..]) == r + Reversed(w[|w| - k..])
  {
    var n := |w|;
    assert w[..n - 1][n - 1 - (k - 1)..] == w[n - k..n - 1];
    ReversedSnoc(w[n - k..n - 1], w[n - 1]);
    assert w[n - k..n - 1] + [w[n - 1]] == w[n - k..];
  }

  lemma ReversedSnoc<T>(a: seq<T>, x: T)
    ensures Reversed(a + [x]) == [x] + Reversed(a)
  {
    assert DropLast(a + [x]) == a;
  }

  /** After initialisation with the document `d0` and `n` distinct consecutive
      edits, the undo stack holds `n + 1` entries, and `n` undos bring the
      editor back to `d0` with the undo stack down to `[d0]` and the edits on
      the redo stack, latest at the bottom. */
  lemma EditsThenUndosRestoreStart(s: State, es: seq<Snapshot>)
    requires ChainDistinct(s.doc, es)
    ensures var t := EditAll(Initialize(s, true), es);
      && t.undo == [s.doc] + es
      && UndoTimes(t, |es|).undo == [s.doc]
      && UndoTimes(t, |es|).doc == s.doc
      && (es != [] ==> UndoTimes(t, |es|).redo == Reversed(es))
  {
    var i := Initialize(s, true);
    EditAllAppends(i, es);
    var t := EditAll(i, es);
    UndoTimesPops(t, |es|);
    assert t.undo[..|t.undo| - |es|] == [s.doc];
    if es != [] {
      UndoTimesPushesRedo(t, |es|);
      assert t.undo[|t.undo| - |es|..] == es;
    }
  }

  /** The events the component reacts to. */
  datatype Event = Update(content: Snapshot) | Ready(editorReady: bool) | UndoClick | RedoClick

  function Step(s: State, e: Event): State {
    match e
    case Update(content) => Edit(s, content)
    case Ready(editorReady) => Initialize(s, editorReady)
    case UndoClick => Undo(s)
    case RedoClick => Redo(s)
  }

  function Run(s: State, evs: seq<Event>): State
    decreases |evs|
  {
    if evs == [] then s else Run(Step(s, evs[0]), evs[1..])
  }

  /** Once the undo stack holds an entry, no sequence of events empties it. */
  lemma {:induction false} RunKeepsUndoNonEmpty(s: State, evs: seq<Event>)
    requires |s.undo| > 0
    ensures |Run(s, evs).undo| > 0
    decreases |evs|
  {
    if evs != [] {
      RunKeepsUndoNonEmpty(Step(s, evs[0]), evs[1..]);
    }
  }

  // ----- The snapshot timeline and the redo handler ----------------------------

  /** Every snapshot the two stacks hold, in history order: the undo stack,
      then the redo stack from its top down. */
  function Timeline(s: State): seq<Snapshot> {
    s.undo + Reversed(s.redo)
  }

  /** Undo only moves the cursor along the timeline. */
  lemma UndoKeepsTimeline(s: State)
    ensures Timeline(Undo(s)) == Timeline(s)
  {
    if CanUndo(s) {
      var u := Undo(s);
      var x := Last(s.undo);
      assert DropLast(u.redo) == s.redo;
      assert Reversed(u.redo) == [x] + Reversed(s.redo);
      assert s.undo == u.undo + [x];
    }
  }

  /** The redo handler as written: it stores the pre-redo document in place of
      the snapshot it restores. Initialise with "a", edit to "b", then undo,
      redo, undo, redo: the editor ends on "a", and the timeline ["a", "b"]
      has become ["a", "a"], so "b" can no longer be reached. */
  lemma RedoAsWrittenLosesSnapshot()
    ensures var s := Edit(Initialize(State([], [], "a"), true), "b");
      && s == State(["a", "b"], [], "b")
      && Redo(Undo(s)).doc == "b"
      && Redo(Undo(Redo(Undo(s)))).doc == "a"
      && Timeline(Redo(Undo(Redo(Undo(s))))) == ["a", "a"]
  {
    var s := Edit(Initialize(State([], [], "a"), true), "b");
    assert s == State(["a", "b"], [], "b");
    var u1 := Undo(s);
    assert u1 == State(["a"], ["b"], "a");
    var r1 := Redo(u1);
    assert r1 == State(["a", "a"], [], "b");
    var u2 := Undo(r1);
    assert u2 == State(["a"], ["a"], "a");
    var r2 := Redo(u2);
    assert r2 == State(["a", "a"], [], "a");
    assert Reversed(r2.redo) == [];
  }

  /** The redo handler as evidently intended: it pushes the snapshot it
      restores, so the top of the undo stack stays the current document. */
  function RedoFixed(s: State): (r: State)
    ensures !CanRedo(s) ==> r == s
    ensures CanRedo(s) ==>
      && r.redo + [r.doc] == s.redo
      && r.undo == s.undo + [r.doc]
      && Synced(r)
    ensures |r.undo| + |r.redo| == |s.undo| + |s.redo|
  {
    if !CanRedo(s) then s
    else
      var next := Last(s.redo);
      State(s.undo + [next], DropLast(s.redo), next)
  }

  /** With the intended redo, undo and redo are inverse on synced states and
      the timeline is kept, so every recorded snapshot stays reachable. */
  lemma RedoFixedRoundTrip(s: State)
    ensures Timeline(RedoFixed(s)) == Timeline(s)
    ensures Synced(s) && CanUndo(s) ==> RedoFixed(Undo(s)) == s
    ensures Synced(s) && CanRedo(s) ==> Undo(RedoFixed(s)) == s
  {
    if CanRedo(s) {
      var r := RedoFixed(s);
      assert s.redo == r.redo + [r.doc];
      assert DropLast(s.redo) == r.redo;
      assert Reversed(s.redo) == [r.doc] + Reversed(r.redo);
      assert r.undo == s.undo + [r.doc];
    }
    if Synced(s) && CanUndo(s) {
      var u := Undo(s);
      assert DropLast(u.redo) == s.redo;
    }
  }

  /** The intended redo keeps the current document on top of the undo stack,
      which the redo as written does not: see `RedoAsWrittenLosesSnapshot`. */
  lemma {:induction false} RunFixedKeepsSynced(s: State, evs: seq<Event>)
    requires Synced(s)
    ensures Synced(RunFixed(s, evs))
    decreases |evs|
  {
    if evs != [] {
      RunFixedKeepsSynced(StepFixed(s, evs[0]), evs[1..]);
    }
  }

  function StepFixed(s: State, e: Event): (r: State)
    requires Synced(s)
    ensures Synced(r)
  {
    match e
    case Update(content) => Edit(s, content)
    case Ready(editorReady) => Initialize(s, editorReady)
    case UndoClick => Undo(s)
    case RedoClick => RedoFixed(s)
  }

  function RunFixed(s: State, evs: seq<Event>): State
    requires Synced(s)
    decreases |evs|
  {
    if evs == [] then s else RunFixed(StepFixed(s, evs[0]), evs[1..])
  }
}
