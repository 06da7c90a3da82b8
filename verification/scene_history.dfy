/** The bounded undo history of the scene editor (`src/app/scenes.rs`), driven frame by frame
    as `src/app/ui.rs` does, against a cursor moving on one timeline. */
module SceneHistories {
  import opened Wrappers

  const SCENE_HISTORY_LIMIT: nat := 64

  /** The content of a scene, and the name of the saved scene it came from. Two snapshots are
      the same scene when their contents agree. */
  datatype Snapshot<C> = Snapshot(content: C, activeName: Option<nat>)

  datatype Editing<C> = Editing(
    current: Snapshot<C>,
    undo: seq<Snapshot<C>>,
    redo: seq<Snapshot<C>>,
    pending: Option<Snapshot<C>>,
    skipCommit: bool)

  // ---- Operations as functions ----------------------------------------------------------------------

  function PushBounded<T>(stack: seq<T>, item: T): (pushed: seq<T>)
    ensures 0 < |pushed| <= |stack| + 1 && pushed[|pushed| - 1] == item
    ensures |stack| <= SCENE_HISTORY_LIMIT ==> |pushed| <= SCENE_HISTORY_LIMIT
    ensures |stack| != SCENE_HISTORY_LIMIT ==> pushed == stack + [item]
    ensures |stack| == SCENE_HISTORY_LIMIT ==> pushed == stack[1..] + [item]
  {
    (if |stack| == SCENE_HISTORY_LIMIT then stack[1..] else stack) + [item]
  }

  function Committed<C(==)>(s: Editing<C>, before: Snapshot<C>): Editing<C> {
    if s.skipCommit then s.(skipCommit := false)
    else if before.content == s.current.content then s
    else
      var name := if before.activeName == s.current.activeName then None else s.current.activeName;
      s.(current := s.current.(activeName := name), undo := PushBounded(s.undo, before), redo := [])
  }

  /** While the pointer is down the first change sets the baseline and nothing is recorded. */
  function Finished<C(==)>(s: Editing<C>, before: Snapshot<C>, pointerDown: bool): Editing<C> {
    if !pointerDown then
      Committed(s.(pending := None), if s.pending.Some? then s.pending.value else before)
    else if before.content != s.current.content && s.pending.None? then s.(pending := Some(before))
    else s
  }

  function Undone<C>(s: Editing<C>): Editing<C> {
    if |s.undo| == 0 then s
    else
      var last := |s.undo| - 1;
      Editing(s.undo[last], s.undo[..last], PushBounded(s.redo, s.current), s.pending, true)
  }

  function Redone<C>(s: Editing<C>): Editing<C> {
    if |s.redo| == 0 then s
    else
      var last := |s.redo| - 1;
      Editing(s.redo[last], PushBounded(s.undo, s.current), s.redo[..last], s.pending, true)
  }

  /** What a panel does in one frame: set the scene, or press an undo or redo button. */
  datatype PanelStep<C> = Change(scene: Snapshot<C>) | UndoButton | RedoButton

  datatype Shortcut<C> = NoKey | UndoKey | RedoKey | MoveKey(content: C)

  /** One frame: a keyboard shortcut, then the panels, then the bookkeeping. */
  datatype Frame<C> = Frame(shortcut: Shortcut<C>, panel: seq<PanelStep<C>>, pointerDown: bool)

  function AfterShortcut<C(==)>(s: Editing<C>, shortcut: Shortcut<C>): Editing<C> {
    match shortcut
    case NoKey => s
    case UndoKey => Undone(s)
    case RedoKey => Redone(s)
    case MoveKey(content) => Committed(s.(current := s.current.(content := content)), s.current)
  }

  function AfterPanelStep<C>(s: Editing<C>, step: PanelStep<C>): Editing<C> {
    match step
    case Change(scene) => s.(current := scene)
    case UndoButton => Undone(s)
    case RedoButton => Redone(s)
  }

  function AfterPanel<C>(s: Editing<C>, panel: seq<PanelStep<C>>): Editing<C>
    decreases |panel|
  {
    if |panel| == 0 then s else AfterPanel(AfterPanelStep(s, panel[0]), panel[1..])
  }

  function AfterFrame<C(==)>(s: Editing<C>, frame: Frame<C>): Editing<C> {
    var started := AfterShortcut(s, frame.shortcut);
    Finished(AfterPanel(started, frame.panel), started.current, frame.pointerDown)
  }

  function AfterFrames<C(==)>(s: Editing<C>, frames: seq<Frame<C>>): Editing<C>
    decreases |frames|
  {
    if |frames| == 0 then s else AfterFrames(AfterFrame(s, frames[0]), frames[1..])
  }

  // ---- The editor --------------------------------------------------------------------------------------

  class SceneEditor<C(==)> {
    var current: Snapshot<C>
    var undoStack: seq<Snapshot<C>>
    var redoStack: seq<Snapshot<C>>
    var pendingSceneEdit: Option<Snapshot<C>>
    var skipHistoryCommit: bool

    function State(): Editing<C>
      reads this
    {
      Editing(current, undoStack, redoStack, pendingSceneEdit, skipHistoryCommit)
    }

    constructor (scene: Snapshot<C>)
      ensures State() == Editing(scene, [], [], None, false)
    {
      current := scene;
      undoStack, redoStack, pendingSceneEdit, skipHistoryCommit := [], [], None, false;
    }

    method CommitSceneHistory(before: Snapshot<C>)
      modifies this
      ensures State() == Committed(old(State()), before)
    {
      if skipHistoryCommit {
        skipHistoryCommit := false;
        return;
      }
      if before.content == current.content {
        return;
      }
      if before.activeName == current.activeName {
        current := current.(activeName := None);
      }
      undoStack := PushBounded(undoStack, before);
      redoStack := [];
    }

    method FinishSceneHistory(before: Snapshot<C>, pointerDown: bool)
      modifies this
      ensures State() == Finished(old(State()), before, pointerDown)
    {
      var changed := before.content != current.content;
      if pointerDown {
        if changed && pendingSceneEdit.None? {
          pendingSceneEdit := Some(before);
        }
      } else {
        var baseline := if pendingSceneEdit.Some? then pendingSceneEdit.value else before;
        pendingSceneEdit := None;
        CommitSceneHistory(baseline);
      }
    }

    method UndoSceneEdit() returns (restored: bool)
      modifies this
      ensures State() == Undone(old(State()))
      ensures restored <==> |old(undoStack)| > 0
    {
      if |undoStack| == 0 {
        return false;
      }
      var previous := undoStack[|undoStack| - 1];
      undoStack := undoStack[..|undoStack| - 1];
      redoStack := PushBounded(redoStack, current);
      current := previous;
      skipHistoryCommit := true;
      restored := true;
    }

    method RedoSceneEdit() returns (restored: bool)
      modifies this
      ensures State() == Redone(old(State()))
      ensures restored <==> |old(redoStack)| > 0
    {
      if |redoStack| == 0 {
        return false;
      }
      var next := redoStack[|redoStack| - 1];
      redoStack := redoStack[..|redoStack| - 1];
      undoStack := PushBounded(undoStack, current);
      current := next;
      skipHistoryCommit := true;
      restored := true;
    }

    method HandleShortcut(shortcut: Shortcut<C>)
      modifies this
      ensures State() == AfterShortcut(old(State()), shortcut)
    {
      match shortcut {
        case NoKey =>
        case UndoKey => var _ := UndoSceneEdit();
        case RedoKey => var _ := RedoSceneEdit();
        case MoveKey(content) =>
          var before := current;
          current := current.(content := content);
          CommitSceneHistory(before);
      }
    }

    method RunFrame(frame: Frame<C>)
      modifies this
      ensures State() == AfterFrame(old(State()), frame)
    {
      HandleShortcut(frame.shortcut);
      var before := current;
      ghost var started := State();
      var i := 0;
      while i < |frame.panel|
        invariant 0 <= i <= |frame.panel|
        invariant AfterPanel(started, frame.panel) == AfterPanel(State(), frame.panel[i..])
      {
        match frame.panel[i] {
          case Change(scene) => current := scene;
          case UndoButton => var _ := UndoSceneEdit();
          case RedoButton => var _ := RedoSceneEdit();
        }
        i := i + 1;
      }
      FinishSceneHistory(before, frame.pointerDown);
    }
  }

  // ---- One timeline and a cursor --------------------------------------------------------------------------

  /** The nearest past state is last in `past`, the nearest undone one first in `future`. */
  datatype Cursor<C> = Cursor(past: seq<C>, present: C, future: seq<C>) {
    function Timeline(): seq<C> {
      past + [present] + future
    }
    function Position(): nat {
      |past|
    }
  }

  function Latest<T>(items: seq<T>): seq<T> {
    if |items| <= SCENE_HISTORY_LIMIT then items else items[|items| - SCENE_HISTORY_LIMIT..]
  }

  function Edited<C(==)>(c: Cursor<C>, content: C): Cursor<C> {
    if content == c.present then c else Cursor(Latest(c.past + [c.present]), content, [])
  }

  function Back<C>(c: Cursor<C>): Cursor<C> {
    if |c.past| == 0 then c
    else Cursor(c.past[..|c.past| - 1], c.past[|c.past| - 1], [c.present] + c.future)
  }

  function Forth<C>(c: Cursor<C>): Cursor<C> {
    if |c.future| == 0 then c else Cursor(c.past + [c.present], c.future[0], c.future[1..])
  }

  function Contents<C>(stack: seq<Snapshot<C>>): (contents: seq<C>)
    ensures |contents| == |stack|
  {
    seq(|stack|, i requires 0 <= i < |stack| => stack[i].content)
  }

  function TopFirst<C>(stack: seq<Snapshot<C>>): (contents: seq<C>)
    ensures |contents| == |stack|
  {
    seq(|stack|, i requires 0 <= i < |stack| => stack[|stack| - 1 - i].content)
  }

  function CursorOf<C>(s: Editing<C>): Cursor<C> {
    Cursor(Contents(s.undo), s.current.content, TopFirst(s.redo))
  }

  /** Going back and forth never changes the timeline, only the position on it, and each
      undoes the other. */
  lemma BackAndForth<C>(c: Cursor<C>)
    ensures Back(c).Timeline() == c.Timeline() && Forth(c).Timeline() == c.Timeline()
    ensures |c.past| > 0 ==> Back(c).Position() == c.Position() - 1 && Forth(Back(c)) == c
    ensures |c.future| > 0 ==> Forth(c).Position() == c.Position() + 1 && Back(Forth(c)) == c
  {
  }

  /** The two stacks share one budget, so neither undo nor redo ever evicts. */
  predicate Bounded<C>(s: Editing<C>) {
    |s.undo| + |s.redo| <= SCENE_HISTORY_LIMIT
  }

  lemma UndoIsBack<C>(s: Editing<C>)
    requires Bounded(s)
    ensures CursorOf(Undone(s)) == Back(CursorOf(s)) && Bounded(Undone(s))
  {
  }

  lemma RedoIsForth<C>(s: Editing<C>)
    requires Bounded(s)
    ensures CursorOf(Redone(s)) == Forth(CursorOf(s)) && Bounded(Redone(s))
  {
  }

  /** The sixty-fourth edit is still kept; the sixty-fifth drops the oldest entry only. */
  lemma OldestEntryGoesAtSixtyFour<T>(stack: seq<T>, item: T)
    requires |stack| <= 64
    ensures PushBounded(stack, item) == (if |stack| < 64 then stack else stack[1..]) + [item]
  {
  }

  lemma CommitIsEdit<C>(s: Editing<C>, before: Snapshot<C>)
    requires Bounded(s) && !s.skipCommit
    ensures var t := Committed(s, before);
            && Bounded(t)
            && CursorOf(t) == Edited(CursorOf(s.(current := before)), s.current.content)
            && t.current.content == s.current.content && t.pending == s.pending && !t.skipCommit
  {
  }

  // ---- Every frame -----------------------------------------------------------------------------------------

  lemma {:induction false} PanelKeepsBounded<C>(s: Editing<C>, panel: seq<PanelStep<C>>)
    requires Bounded(s)
    ensures Bounded(AfterPanel(s, panel))
    decreases |panel|
  {
    if |panel| > 0 {
      UndoIsBack(s);
      RedoIsForth(s);
      PanelKeepsBounded(AfterPanelStep(s, panel[0]), panel[1..]);
    }
  }

  /** However edits, undos, redos and drags mix, undo and redo entries together stay within
      the limit, so undo and redo move along the timeline exactly. */
  lemma {:induction false} HistoryStaysBounded<C>(s: Editing<C>, frames: seq<Frame<C>>)
    requires Bounded(s)
    ensures var t := AfterFrames(s, frames);
            && Bounded(t) && |t.undo| + |t.redo| <= 64
            && CursorOf(Undone(t)) == Back(CursorOf(t)) && CursorOf(Redone(t)) == Forth(CursorOf(t))
    decreases |frames|
  {
    if |frames| == 0 {
      UndoIsBack(s);
      RedoIsForth(s);
    } else {
      var started := AfterShortcut(s, frames[0].shortcut);
      UndoIsBack(s);
      RedoIsForth(s);
      PanelKeepsBounded(started, frames[0].panel);
      hide AfterPanel, CursorOf, Undone, Redone;
      HistoryStaysBounded(AfterFrame(s, frames[0]), frames[1..]);
    }
  }

  // ---- Frames with the pointer up -----------------------------------------------------------------------------

  predicate Calm<C>(s: Editing<C>) {
    Bounded(s) && s.pending.None? && !s.skipCommit
  }

  predicate OnlyChanges<C>(panel: seq<PanelStep<C>>) {
    forall k :: 0 <= k < |panel| ==> panel[k].Change?
  }

  /** Only presses of the undo and redo buttons, any number of them. */
  predicate OnlyJumps<C(==)>(panel: seq<PanelStep<C>>) {
    forall k :: 0 <= k < |panel| ==> !panel[k].Change?
  }

  /** The frame moves along the timeline, as often as it likes, or it edits; a frame that
      does both is treated below. */
  predicate OneIntent<C(==)>(frame: Frame<C>) {
    || OnlyJumps(frame.panel)
    || (OnlyChanges(frame.panel) && (frame.shortcut.NoKey? || frame.shortcut.MoveKey?))
  }

  function LastContent<C>(panel: seq<PanelStep<C>>, content: C): C {
    if |panel| > 0 && panel[|panel| - 1].Change? then panel[|panel| - 1].scene.content else content
  }

  function Keyed<C(==)>(c: Cursor<C>, shortcut: Shortcut<C>): Cursor<C> {
    match shortcut
    case NoKey => c
    case UndoKey => Back(c)
    case RedoKey => Forth(c)
    case MoveKey(content) => Edited(c, content)
  }

  function Jumped<C>(c: Cursor<C>, panel: seq<PanelStep<C>>): Cursor<C>
    decreases |panel|
  {
    if |panel| == 0 then c
    else Jumped(if panel[0].UndoButton? then Back(c) else if panel[0].RedoButton? then Forth(c) else c, panel[1..])
  }

  /** What such a frame does to the cursor. */
  function Moved<C(==)>(c: Cursor<C>, frame: Frame<C>): Cursor<C> {
    var keyed := Keyed(c, frame.shortcut);
    if OnlyJumps(frame.panel) then Jumped(keyed, frame.panel)
    else Edited(keyed, LastContent(frame.panel, keyed.present))
  }

  lemma {:induction false} ChangesOnlyTheScene<C>(s: Editing<C>, panel: seq<PanelStep<C>>)
    requires OnlyChanges(panel)
    ensures var t := AfterPanel(s, panel);
            t == s.(current := t.current) && t.current.content == LastContent(panel, s.current.content)
    decreases |panel|
  {
    if |panel| > 0 {
      ChangesOnlyTheScene(AfterPanelStep(s, panel[0]), panel[1..]);
    }
  }

  lemma ShortcutMovesCursor<C>(s: Editing<C>, shortcut: Shortcut<C>)
    requires Calm(s)
    ensures var t := AfterShortcut(s, shortcut);
            && Bounded(t) && t.pending.None? && CursorOf(t) == Keyed(CursorOf(s), shortcut)
            && (t.skipCommit ==> shortcut.UndoKey? || shortcut.RedoKey?)
  {
    match shortcut {
      case NoKey =>
      case UndoKey => UndoIsBack(s);
      case RedoKey => RedoIsForth(s);
      case MoveKey(content) =>
        CommitIsEdit(s.(current := s.current.(content := content)), s.current);
        assert s.(current := s.current.(content := content)).(current := s.current) == s;
    }
  }

  /** Undoing and redoing either goes nowhere or raises the flag. */
  lemma {:induction false} JumpsMoveCursor<C>(s: Editing<C>, panel: seq<PanelStep<C>>)
    requires Bounded(s) && OnlyJumps(panel)
    ensures var t := AfterPanel(s, panel);
            Bounded(t) && t.pending == s.pending && (t == s || t.skipCommit) && CursorOf(t) == Jumped(CursorOf(s), panel)
    decreases |panel|
  {
    if |panel| > 0 {
      UndoIsBack(s);
      RedoIsForth(s);
      hide CursorOf, Back, Forth;
      JumpsMoveCursor(AfterPanelStep(s, panel[0]), panel[1..]);
    }
  }

  lemma CursorIgnoresFlags<C>(s: Editing<C>)
    ensures CursorOf(s.(skipCommit := false)) == CursorOf(s) && CursorOf(s.(pending := None)) == CursorOf(s)
    ensures CursorOf(s.(pending := None, skipCommit := false)) == CursorOf(s)
  {
  }

  lemma JumpFrameMovesCursor<C>(s: Editing<C>, frame: Frame<C>)
    requires Calm(s) && OnlyJumps(frame.panel) && !frame.pointerDown
    ensures Calm(AfterFrame(s, frame)) && CursorOf(AfterFrame(s, frame)) == Moved(CursorOf(s), frame)
  {
    var started := AfterShortcut(s, frame.shortcut);
    ShortcutMovesCursor(s, frame.shortcut);
    JumpsMoveCursor(started, frame.panel);
    hide CursorOf, Keyed, Jumped, AfterPanel, AfterShortcut;
    CursorIgnoresFlags(AfterPanel(started, frame.panel));
  }

  lemma EditFrameMovesCursor<C>(s: Editing<C>, frame: Frame<C>)
    requires Calm(s) && OnlyChanges(frame.panel) && !OnlyJumps(frame.panel) && !frame.pointerDown
    requires frame.shortcut.NoKey? || frame.shortcut.MoveKey?
    ensures Calm(AfterFrame(s, frame)) && CursorOf(AfterFrame(s, frame)) == Moved(CursorOf(s), frame)
  {
    var started := AfterShortcut(s, frame.shortcut);
    ShortcutMovesCursor(s, frame.shortcut);
    assert Calm(started);
    ChangesOnlyTheScene(started, frame.panel);
    CommitIsEdit(AfterPanel(started, frame.panel), started.current);
    hide AfterPanel, Edited, Contents, TopFirst, Committed, Keyed, AfterShortcut;
    assert AfterPanel(started, frame.panel).(current := started.current) == started;
  }

  lemma FrameMovesCursor<C>(s: Editing<C>, frame: Frame<C>)
    requires Calm(s) && OneIntent(frame) && !frame.pointerDown
    ensures Calm(AfterFrame(s, frame)) && CursorOf(AfterFrame(s, frame)) == Moved(CursorOf(s), frame)
  {
    hide AfterFrame, CursorOf, Moved;
    if OnlyJumps(frame.panel) {
      JumpFrameMovesCursor(s, frame);
    } else {
      EditFrameMovesCursor(s, frame);
    }
  }

  function MovedBy<C(==)>(c: Cursor<C>, frames: seq<Frame<C>>): Cursor<C>
    decreases |frames|
  {
    if |frames| == 0 then c else MovedBy(Moved(c, frames[0]), frames[1..])
  }

  predicate PointerUpOneIntent<C(==)>(frame: Frame<C>) {
    OneIntent(frame) && !frame.pointerDown
  }

  /** With the pointer up, any run of edits, undos and redos is a cursor moving on a
      timeline that only edits rewrite. */
  lemma {:induction false} RunMovesCursor<C>(s: Editing<C>, frames: seq<Frame<C>>)
    requires Calm(s) && forall k :: 0 <= k < |frames| ==> PointerUpOneIntent(frames[k])
    ensures Calm(AfterFrames(s, frames)) && CursorOf(AfterFrames(s, frames)) == MovedBy(CursorOf(s), frames)
    decreases |frames|
  {
    if |frames| > 0 {
      assert PointerUpOneIntent(frames[0]);
      FrameMovesCursor(s, frames[0]);
      hide Calm, CursorOf, AfterFrame, Moved, OneIntent;
      RunMovesCursor(AfterFrame(s, frames[0]), frames[1..]);
    }
  }

  // ---- Drags ------------------------------------------------------------------------------------------------

  predicate DragFrame<C>(frame: Frame<C>) {
    frame.shortcut.NoKey? && OnlyChanges(frame.panel) && frame.pointerDown
  }

  /** Since the drag began from `s`: nothing recorded, and the baseline is the scene it found. */
  predicate Dragging<C(==)>(s: Editing<C>, t: Editing<C>) {
    && t.undo == s.undo && t.redo == s.redo && !t.skipCommit
    && (if t.pending.Some? then t.pending.value else t.current).content == s.current.content
  }

  function LastOfAll<C>(frames: seq<Frame<C>>, content: C): C
    decreases |frames|
  {
    if |frames| == 0 then content else LastOfAll(frames[1..], LastContent(frames[0].panel, content))
  }

  lemma {:induction false} DragRecordsNothing<C>(s: Editing<C>, t: Editing<C>, frames: seq<Frame<C>>)
    requires Dragging(s, t) && forall k :: 0 <= k < |frames| ==> DragFrame(frames[k])
    ensures var u := AfterFrames(t, frames);
            Dragging(s, u) && u.current.content == LastOfAll(frames, t.current.content)
    decreases |frames|
  {
    if |frames| > 0 {
      assert DragFrame(frames[0]);
      ChangesOnlyTheScene(t, frames[0].panel);
      hide AfterPanel;
      DragRecordsNothing(s, AfterFrame(t, frames[0]), frames[1..]);
    }
  }

  /** A whole drag, however many frames it lasts, is one edit from the scene before its first
      change to the scene it leaves: at most one entry, holding the former. */
  lemma {:induction false} DragIsOneEdit<C>(s: Editing<C>, frames: seq<Frame<C>>, release: Frame<C>)
    requires Calm(s) && forall k :: 0 <= k < |frames| ==> DragFrame(frames[k])
    requires release.shortcut.NoKey? && OnlyChanges(release.panel) && !release.pointerDown
    ensures var t := AfterFrame(AfterFrames(s, frames), release);
            && Calm(t)
            && CursorOf(t) == Edited(CursorOf(s), LastContent(release.panel, LastOfAll(frames, s.current.content)))
  {
    DragRecordsNothing(s, s, frames);
    var dragged := AfterFrames(s, frames);
    ChangesOnlyTheScene(dragged, release.panel);
    var dropped := AfterPanel(dragged, release.panel);
    var baseline := if dragged.pending.Some? then dragged.pending.value else dragged.current;
    hide AfterPanel, AfterFrames, LastOfAll, LastContent;
    CommitIsEdit(dropped.(pending := None), baseline);
    SameCursor(s, dropped.(pending := None, current := baseline));
    hide Edited, CursorOf, Committed;
  }

  lemma SameCursor<C>(s: Editing<C>, t: Editing<C>)
    requires s.undo == t.undo && s.redo == t.redo && s.current.content == t.current.content
    ensures CursorOf(s) == CursorOf(t)
  {
  }

  // ---- When an edit is lost -------------------------------------------------------------------------------------

  /** A full history that holds nothing but this content: the one in which recording an edit
      of it leaves the history looking as it was. */
  predicate OnlyRepeats<C(==)>(s: Editing<C>, content: C) {
    |s.undo| == SCENE_HISTORY_LIMIT && forall k :: 0 <= k < |s.undo| ==> s.undo[k].content == content
  }

  /** The flag that keeps an undo or redo from being recorded as an edit is cleared by the
      next frame that ends with the pointer up, and by then swallows an edit. From any state
      and after any shortcut, a frame of changes is recorded as one edit if the flag is down;
      if it is up the scene changes and neither stack does. */
  lemma EditRecordedExactlyWhenFlagDown<C>(s: Editing<C>, frame: Frame<C>)
    requires Bounded(s) && OnlyChanges(frame.panel) && !frame.pointerDown
    ensures var started := AfterShortcut(s, frame.shortcut); var t := AfterFrame(s, frame);
            var baseline := if started.pending.Some? then started.pending.value else started.current;
            var final := LastContent(frame.panel, started.current.content);
            && Calm(t) && t.current.content == final
            && (!started.skipCommit ==> CursorOf(t) == Edited(CursorOf(started.(current := baseline)), final))
            && (started.skipCommit ==> t.undo == started.undo && t.redo == started.redo)
            && (final != baseline.content && !OnlyRepeats(started, baseline.content) ==>
                  (CursorOf(t) == Edited(CursorOf(started.(current := baseline)), final) <==> !started.skipCommit))
  {
    var started := AfterShortcut(s, frame.shortcut);
    var baseline := if started.pending.Some? then started.pending.value else started.current;
    ShortcutKeepsBounded(s, frame.shortcut);
    ChangesOnlyTheScene(started, frame.panel);
    var changed := AfterPanel(started, frame.panel).(pending := None);
    SameCursor(started.(current := baseline), changed.(current := baseline));
    hide AfterPanel, LastContent, AfterShortcut;
    if !started.skipCommit {
      CommitIsEdit(changed, baseline);
      hide CursorOf, Edited;
    } else {
      if changed.current.content != baseline.content {
        UnrecordedShows(started, baseline, changed.current);
      }
      hide CursorOf, Edited;
      SameCursor(started.(current := changed.current), AfterFrame(s, frame));
    }
  }

  /** Without a jump that succeeds a panel changes the scene alone. */
  lemma {:induction false} PanelWithoutJump<C>(s: Editing<C>, panel: seq<PanelStep<C>>)
    ensures var t := AfterPanel(s, panel);
            t.pending == s.pending && (t.skipCommit || t == s.(current := t.current))
    ensures s.skipCommit ==> AfterPanel(s, panel).skipCommit
    decreases |panel|
  {
    if |panel| > 0 {
      PanelWithoutJump(AfterPanelStep(s, panel[0]), panel[1..]);
    }
  }

  /** Any frame at all that ends with the pointer up, from any state: where no jump is waiting
      it records one edit, from the baseline to the scene it leaves; where one is, it leaves
      the stacks as the jumps made them. */
  lemma PointerUpFrameRecordsOrKeeps<C>(s: Editing<C>, frame: Frame<C>)
    requires Bounded(s) && !frame.pointerDown
    ensures var started := AfterShortcut(s, frame.shortcut); var u := AfterPanel(started, frame.panel);
            var t := AfterFrame(s, frame);
            var baseline := if started.pending.Some? then started.pending.value else started.current;
            && Calm(t) && t.current.content == u.current.content
            && (u.skipCommit ==> CursorOf(t) == CursorOf(u))
            && (!u.skipCommit ==> CursorOf(t) == Edited(CursorOf(started.(current := baseline)), u.current.content))
  {
    var started := AfterShortcut(s, frame.shortcut);
    var u := AfterPanel(started, frame.panel);
    var baseline := if started.pending.Some? then started.pending.value else started.current;
    ShortcutKeepsBounded(s, frame.shortcut);
    PanelKeepsBounded(started, frame.panel);
    PanelWithoutJump(started, frame.panel);
    hide AfterPanel, AfterShortcut;
    if u.skipCommit {
      SameCursor(u, AfterFrame(s, frame));
    } else {
      CommitIsEdit(u.(pending := None), baseline);
      SameCursor(started.(current := baseline), u.(pending := None, current := baseline));
    }
    hide CursorOf, Edited;
  }

  lemma ShortcutKeepsBounded<C>(s: Editing<C>, shortcut: Shortcut<C>)
    requires Bounded(s)
    ensures Bounded(AfterShortcut(s, shortcut))
  {
    UndoIsBack(s);
    RedoIsForth(s);
  }

  /** Leaving the stacks alone never looks like recording an edit, but in that one case. */
  lemma UnrecordedShows<C>(s: Editing<C>, before: Snapshot<C>, scene: Snapshot<C>)
    requires Bounded(s) && scene.content != before.content
    ensures CursorOf(s.(current := scene)) == Edited(CursorOf(s.(current := before)), scene.content) ==>
              OnlyRepeats(s, before.content)
  {
    if CursorOf(s.(current := scene)) == Edited(CursorOf(s.(current := before)), scene.content) {
      var past := Contents(s.undo);
      assert |past| == SCENE_HISTORY_LIMIT && past == past[1..] + [before.content];
      ShiftedIntoItself(past, before.content);
      forall k | 0 <= k < |s.undo| ensures s.undo[k].content == before.content {
        assert past[k] == before.content;
      }
    }
  }

  lemma ShiftedIntoItself<T>(items: seq<T>, item: T)
    requires |items| > 0 && items == items[1..] + [item]
    ensures forall k :: 0 <= k < |items| ==> items[k] == item
  {
    var k := |items| - 1;
    while k > 0
      invariant 0 <= k < |items|
      invariant forall j :: k <= j < |items| ==> items[j] == item
    {
      assert items[k - 1] == (items[1..] + [item])[k - 1] == items[k];
      k := k - 1;
    }
  }

  /** No drag is needed: an undo by key and an edit in the same frame lose the scene the undo
      had restored. */
  lemma EditAfterUndoLosesTheScene<C>(earlier: Snapshot<C>, now: Snapshot<C>, edited: Snapshot<C>)
    requires edited.content != earlier.content
    ensures var s := Editing(now, [earlier], [], None, false);
            var t := AfterFrame(s, Frame(UndoKey, [Change(edited)], false));
            && Calm(s) && Calm(t) && CursorOf(t) == Cursor([], edited.content, [now.content])
            && CursorOf(t) != Edited(Back(CursorOf(s)), edited.content)
  {
    var s := Editing(now, [earlier], [], None, false);
    var started := AfterShortcut(s, UndoKey);
    assert started == Editing(earlier, [], [now], None, true);
    var panel := [Change(edited)];
    ChangesOnlyTheScene(started, panel);
    var t := AfterFrame(s, Frame(UndoKey, panel, false));
    assert t == Editing(edited, [], [now], None, false);
  }

  /** An undo by key during a drag does exactly that: what the drag then changes is recorded
      nowhere, and going back does not return to it. */
  lemma UndoDuringDragLosesTheEdit<C>(earlier: Snapshot<C>, now: Snapshot<C>, dragged: Snapshot<C>)
    requires dragged.content != earlier.content
    ensures var s := Editing(now, [earlier], [], None, false);
            var frames := [Frame(UndoKey, [], true), Frame(NoKey, [Change(dragged)], true), Frame(NoKey, [], false)];
            var t := AfterFrame(AfterFrame(AfterFrame(s, frames[0]), frames[1]), frames[2]);
            Calm(t) && CursorOf(t) == Cursor([], dragged.content, [now.content])
  {
    var s := Editing(now, [earlier], [], None, false);
    var s1 := AfterFrame(s, Frame(UndoKey, [], true));
    assert s1 == Editing(earlier, [], [now], None, true);
    var panel := [Change(dragged)];
    assert panel[1..] == [];
    ChangesOnlyTheScene(s1, panel);
    var s2 := AfterFrame(s1, Frame(NoKey, panel, true));
    assert s2 == Editing(dragged, [], [now], Some(earlier), true);
    var s3 := AfterFrame(s2, Frame(NoKey, [], false));
    assert s3 == Editing(dragged, [], [now], None, false);
  }
}
