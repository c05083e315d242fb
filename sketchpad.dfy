/** The drawing program's module-level state and its event handlers, one
    method per handler, each handler taken as one atomic step. */
module DrawingApp {
  import opened Commands
  import UndoRedo

  datatype Option<T> = None | Some(value: T)

  /** How JavaScript tests a `string | null` in an `if`: neither null nor "". */
  predicate Truthy(s: Option<string>)
  {
    s.Some? && s.value != ""
  }

  /** An entry of the display list or of the redo stack: a reference to the
      stroke or stamp object, which the mouse handlers keep changing. */
  datatype Command = StrokeCommand(stroke: BrushStroke) | StampCommand(stamp: Stamp)

  function Obj(c: Command): object
  {
    match c
    case StrokeCommand(s) => s
    case StampCommand(t) => t
  }

  function Objects(cs: seq<Command>): set<object>
  {
    set c | c in cs :: Obj(c)
  }

  /** What the command's `display` draws right now. */
  function ViewOf(c: Command): Shape
    reads Obj(c)
  {
    match c
    case StrokeCommand(s) => s.View()
    case StampCommand(t) => t.View()
  }

  /** What replaying `cs` draws, one shape per command, in order. */
  function Views(cs: seq<Command>): (r: seq<Shape>)
    reads Objects(cs)
    ensures |r| == |cs|
    decreases |cs|
  {
    if cs == [] then []
    else
      var n := |cs| - 1;
      assert Objects(cs[..n]) <= Objects(cs) by {
        forall c | c in cs[..n] ensures c in cs { }
      }
      Views(cs[..n]) + [ViewOf(cs[n])]
  }

  lemma {:induction false} ViewsAt(cs: seq<Command>, i: nat)
    requires i < |cs|
    ensures Views(cs)[i] == ViewOf(cs[i])
    decreases |cs|
  {
    var n := |cs| - 1;
    if i < n {
      ViewsAt(cs[..n], i);
    }
  }

  /** Every entry of Views(cs) is the view of the command at that index. */
  lemma ViewsEach(cs: seq<Command>)
    ensures forall i :: 0 <= i < |cs| ==> Views(cs)[i] == ViewOf(cs[i])
  {
    forall i | 0 <= i < |cs| ensures Views(cs)[i] == ViewOf(cs[i]) {
      ViewsAt(cs, i);
    }
  }

  lemma ViewsSnoc(cs: seq<Command>, c: Command)
    ensures Views(cs + [c]) == Views(cs) + [ViewOf(c)]
  {
    assert (cs + [c])[..|cs|] == cs;
  }

  /** Replaying commands whose objects did not change draws the same. */
  twostate lemma ViewsUnchanged(cs: seq<Command>)
    requires forall c :: c in cs ==> unchanged(Obj(c))
    ensures Views(cs) == old(Views(cs))
    decreases |cs|
  {
    if cs != [] {
      ViewsUnchanged(cs[..|cs| - 1]);
    }
  }

  /** What a history of commands draws: the picture, and what redo can
      bring back. */
  function Drawn(h: UndoRedo.History<Command>): (r: UndoRedo.History<Shape>)
    reads Objects(h.drawingData), Objects(h.redoStack)
    ensures |r.drawingData| == |h.drawingData| && |r.redoStack| == |h.redoStack|
  {
    UndoRedo.History(Views(h.drawingData), Views(h.redoStack))
  }

  /** Undo moves a command between the stacks without changing any command
      object, so what is drawn undoes in step. */
  twostate lemma UndoRedraws(h: UndoRedo.History<Command>)
    requires forall c :: c in h.drawingData ==> unchanged(Obj(c))
    requires forall c :: c in h.redoStack ==> unchanged(Obj(c))
    ensures Drawn(UndoRedo.Undo(h)) == UndoRedo.Undo(old(Drawn(h)))
  {
    var d, u := h.drawingData, h.redoStack;
    ViewsUnchanged(d);
    ViewsUnchanged(u);
    if d != [] {
      var n := |d| - 1;
      ViewsUnchanged(d[..n]);
      ViewsSnoc(u, d[n]);
      assert ViewOf(d[n]) == old(ViewOf(d[n]));
    }
  }

  /** Redo moves a command between the stacks without changing any command
      object, so what is drawn redoes in step. */
  twostate lemma RedoRedraws(h: UndoRedo.History<Command>)
    requires forall c :: c in h.drawingData ==> unchanged(Obj(c))
    requires forall c :: c in h.redoStack ==> unchanged(Obj(c))
    ensures Drawn(UndoRedo.Redo(h)) == UndoRedo.Redo(old(Drawn(h)))
  {
    var d, u := h.drawingData, h.redoStack;
    ViewsUnchanged(d);
    ViewsUnchanged(u);
    if u != [] {
      var m := |u| - 1;
      ViewsUnchanged(u[..m]);
      ViewsSnoc(d, u[m]);
      assert ViewOf(u[m]) == old(ViewOf(u[m]));
    }
  }

  /** When only the target's object changed, and every occurrence of the
      target was dragged to `p`, replaying `cs` draws the dragged shape
      wherever the target occurs and the old shape everywhere else.
      (`target` and `p` are `new` parameters only because Dafny 4.11 crashes
      the solver on a twostate lemma with more than one parameter that must
      be allocated in the old state.) */
  twostate lemma DragRedraws(cs: seq<Command>, new target: Option<Command>, new p: Point)
    requires forall i :: 0 <= i < |cs| ==> old(Views(cs))[i] == old(ViewOf(cs[i]))
    requires forall c :: c in cs && Some(c) != target ==> unchanged(Obj(c))
    requires forall i :: 0 <= i < |cs| && Some(cs[i]) == target ==>
      ViewOf(cs[i]) == Dragged(old(ViewOf(cs[i])), p)
    ensures |Views(cs)| == |cs|
    ensures forall i :: 0 <= i < |cs| ==>
      Views(cs)[i] == if Some(cs[i]) == target then Dragged(old(Views(cs))[i], p) else old(Views(cs))[i]
  {
    forall i | 0 <= i < |cs|
      ensures Views(cs)[i] == if Some(cs[i]) == target then Dragged(old(Views(cs))[i], p) else old(Views(cs))[i]
    {
      ViewsAt(cs, i);
    }
  }

  /** When the dragged command is the last entry and occurs nowhere else,
      only the last shape changes. */
  lemma DraggedLastOnly(cs: seq<Command>, before: seq<Shape>, after: seq<Shape>, p: Point)
    requires cs != [] && UndoRedo.Last(cs) !in cs[..|cs| - 1]
    requires |before| == |after| == |cs|
    requires forall i :: 0 <= i < |cs| ==>
      after[i] == if cs[i] == UndoRedo.Last(cs) then Dragged(before[i], p) else before[i]
    ensures after == before[..|cs| - 1] + [Dragged(before[|cs| - 1], p)]
  {
    var n := |cs| - 1;
    forall i | 0 <= i < n ensures after[i] == before[i] {
      assert cs[i] == cs[..n][i];
    }
  }

  /** When the dragged command does not occur in `cs`, nothing changes. */
  lemma DraggedNowhere(cs: seq<Command>, target: Command, before: seq<Shape>, after: seq<Shape>, p: Point)
    requires target !in cs
    requires |before| == |after| == |cs|
    requires forall i :: 0 <= i < |cs| ==>
      after[i] == if cs[i] == target then Dragged(before[i], p) else before[i]
    ensures after == before
  {
  }

  const InitialStamps: seq<string> := ["\U{1F9AD}", "\U{2728}", "\U{1F9FF}"]

  class Sketchpad {
    var drawingData: seq<Command>
    var redoStack: seq<Command>
    var currentLine: BrushStroke?
    var currentStamp: Stamp?
    var drawing: bool
    var lineWidth: Width
    var currentStampType: Option<string>
    var stamps: seq<string>

    function Stacks(): UndoRedo.History<Command>
      reads this`drawingData, this`redoStack
    {
      UndoRedo.History(drawingData, redoStack)
    }

    /** What the canvas shows after a repaint. */
    function Picture(): seq<Shape>
      reads this`drawingData, Objects(drawingData)
    {
      Views(drawingData)
    }

    /** What redo can bring back, bottom of the stack first. */
    function Undone(): seq<Shape>
      reads this`redoStack, Objects(redoStack)
    {
      Views(redoStack)
    }

    /** The command that a mouse move drags, if any. */
    function Target(): Option<Command>
      reads this
    {
      if drawing && currentLine != null then Some(StrokeCommand(currentLine))
      else if currentStamp != null then Some(StampCommand(currentStamp))
      else None
    }

    /** No command object is in the history twice, and every stamp glyph is
        a non-empty string. */
    ghost predicate Valid()
      reads this`drawingData, this`redoStack, this`stamps
    {
      UndoRedo.NoDuplicates(Stacks()) && "" !in stamps
    }

    /** The state when the page loads: nothing drawn, the fine brush, the
        three built-in stamps. */
    constructor ()
      ensures Valid()
      ensures drawingData == [] && redoStack == []
      ensures currentLine == null && currentStamp == null && !drawing
      ensures lineWidth == Fine && currentStampType == None && stamps == InitialStamps
    {
      drawingData := [];
      redoStack := [];
      currentLine := null;
      currentStamp := null;
      drawing := false;
      lineWidth := Fine;
      currentStampType := None;
      stamps := InitialStamps;
    }

    /** Mousedown: with a stamp selected, places a new stamp; otherwise starts
        a new stroke of the current width. Either way the new command is drawn
        last and the redo stack is emptied. The new command is the one later
        mouse moves drag, except when a stamp is placed while a stroke whose
        mouseup was never heard is still being drawn: that stroke stays the
        target. */
    method MouseDown(x: int, y: int)
      requires Valid()
      modifies this`drawingData, this`redoStack, this`currentLine, this`currentStamp, this`drawing
      ensures Valid()
      ensures Truthy(currentStampType) ==>
        currentStamp != null && fresh(currentStamp) &&
        Stacks() == UndoRedo.Start(old(Stacks()), StampCommand(currentStamp)) &&
        Picture() == old(Picture()) + [Glyph(Point(x, y), currentStampType.value)] &&
        drawing == old(drawing) && currentLine == old(currentLine)
      ensures !Truthy(currentStampType) ==>
        currentLine != null && fresh(currentLine) &&
        Stacks() == UndoRedo.Start(old(Stacks()), StrokeCommand(currentLine)) &&
        Picture() == old(Picture()) + [Line([Point(x, y)], lineWidth)] &&
        drawing && currentStamp == old(currentStamp)
      ensures !(Truthy(currentStampType) && drawing && currentLine != null) ==>
        Target() == Some(UndoRedo.Last(drawingData))
    {
      if Truthy(currentStampType) {
        PlaceStamp(x, y);
      } else {
        BeginStroke(x, y);
      }
    }

    /** The stamp branch of mousedown. */
    method PlaceStamp(x: int, y: int)
      requires Valid() && Truthy(currentStampType)
      modifies this`drawingData, this`redoStack, this`currentStamp
      ensures Valid() && currentStamp != null && fresh(currentStamp)
      ensures Stacks() == UndoRedo.Start(old(Stacks()), StampCommand(currentStamp))
      ensures Picture() == old(Picture()) + [Glyph(Point(x, y), currentStampType.value)]
    {
      var s := new Stamp(x, y, currentStampType.value);
      currentStamp := s;
      assert ViewOf(StampCommand(s)) == Glyph(Point(x, y), currentStampType.value);
      ViewsUnchanged(drawingData);
      Record(StampCommand(s));
    }

    /** The brush branch of mousedown. */
    method BeginStroke(x: int, y: int)
      requires Valid()
      modifies this`drawingData, this`redoStack, this`currentLine, this`drawing
      ensures Valid() && drawing && currentLine != null && fresh(currentLine)
      ensures Stacks() == UndoRedo.Start(old(Stacks()), StrokeCommand(currentLine))
      ensures Picture() == old(Picture()) + [Line([Point(x, y)], lineWidth)]
    {
      drawing := true;
      var l := new BrushStroke(x, y, lineWidth);
      currentLine := l;
      assert ViewOf(StrokeCommand(l)) == Line([Point(x, y)], lineWidth);
      ViewsUnchanged(drawingData);
      Record(StrokeCommand(l));
    }

    /** What both branches of mousedown end with: push the new command and
        empty the redo stack. */
    method Record(c: Command)
      requires Valid() && c !in drawingData
      modifies this`drawingData, this`redoStack
      ensures Valid() && Stacks() == UndoRedo.Start(old(Stacks()), c)
      ensures Picture() == old(Picture()) + [old(ViewOf(c))]
    {
      UndoRedo.StartKeepsNoDuplicates(Stacks(), c);
      drawingData := drawingData + [c];
      redoStack := [];
      ViewsUnchanged(old(drawingData));
      ViewsSnoc(old(drawingData), c);
    }

    /** Mouseup: the gesture ends and nothing is dragged any more. */
    method MouseUp()
      requires Valid()
      modifies this`drawing, this`currentLine, this`currentStamp
      ensures Valid()
      ensures !drawing && currentLine == null && currentStamp == null && Target() == None
    {
      drawing := false;
      currentLine := null;
      currentStamp := null;
    }

    /** Mousemove: drags the current stroke while drawing, else the current
        stamp. Only that one object changes, wherever it now is. */
    method MouseMove(x: int, y: int)
      requires Valid()
      modifies currentLine, currentStamp
      ensures Valid()
      ensures Target().Some? ==> ViewOf(Target().value) == Dragged(old(ViewOf(Target().value)), Point(x, y))
      ensures |Picture()| == |drawingData|
      ensures forall i :: 0 <= i < |drawingData| ==>
        Picture()[i] == if Some(drawingData[i]) == Target()
                        then Dragged(old(Picture())[i], Point(x, y)) else old(Picture())[i]
      ensures forall j :: 0 <= j < |redoStack| ==>
        Undone()[j] == if Some(redoStack[j]) == Target()
                       then Dragged(old(Undone())[j], Point(x, y)) else old(Undone())[j]
      ensures drawingData != [] && Target() == Some(UndoRedo.Last(drawingData)) ==>
        Picture() == old(Picture())[..|drawingData| - 1] +
                     [Dragged(old(Picture())[|drawingData| - 1], Point(x, y))] &&
        Undone() == old(Undone())
    {
      ViewsEach(drawingData);
      ViewsEach(redoStack);
      DragTarget(Point(x, y));
      DragRedraws(drawingData, Target(), Point(x, y));
      DragRedraws(redoStack, Target(), Point(x, y));
      if drawingData != [] && Target() == Some(UndoRedo.Last(drawingData)) {
        UndoRedo.LastDrawnIsUnique(Stacks());
        DraggedLastOnly(drawingData, old(Picture()), Picture(), Point(x, y));
        DraggedNowhere(redoStack, Target().value, old(Undone()), Undone(), Point(x, y));
      }
    }

    /** The dragging half of mousemove: the stroke while drawing, otherwise
        the stamp; no other object changes. */
    method DragTarget(p: Point)
      modifies currentLine, currentStamp
      ensures Target() == old(Target())
      ensures Target().Some? ==> ViewOf(Target().value) == Dragged(old(ViewOf(Target().value)), p)
      ensures forall c: Command :: old(allocated(c)) && Some(c) != Target() ==> unchanged(Obj(c))
    {
      if drawing && currentLine != null {
        currentLine.Drag(p.x, p.y);
      } else if currentStamp != null {
        currentStamp.Drag(p.x, p.y);
      }
    }

    /** The Clear button empties the display list and the redo stack. */
    method Clear()
      requires Valid()
      modifies this`drawingData, this`redoStack
      ensures Valid()
      ensures drawingData == [] && redoStack == [] && Picture() == []
    {
      drawingData := [];
      redoStack := [];
    }

    /** The Undo button. */
    method Undo()
      requires Valid()
      modifies this`drawingData, this`redoStack
      ensures Valid()
      ensures Stacks() == UndoRedo.Undo(old(Stacks()))
      ensures Drawn(Stacks()) == UndoRedo.Undo(old(Drawn(Stacks())))
      ensures old(drawingData) == [] ==> Picture() == old(Picture()) && Undone() == old(Undone())
      ensures old(drawingData) != [] ==>
        Picture() == old(Picture())[..|old(drawingData)| - 1] &&
        Undone() == old(Undone()) + [old(Picture())[|old(drawingData)| - 1]]
    {
      ghost var before := Drawn(Stacks());
      assert before == UndoRedo.History(Picture(), Undone());
      UndoRedo.ButtonsKeepNoDuplicates(Stacks());
      if |drawingData| > 0 {
        var n := |drawingData|;
        var lastItem := drawingData[n - 1];
        drawingData := drawingData[..n - 1];
        redoStack := redoStack + [lastItem];
        assert Stacks() == UndoRedo.Undo(old(Stacks()));
      }
      UndoRedraws(old(Stacks()));
      assert UndoRedo.History(Picture(), Undone()) == UndoRedo.Undo(before);
    }

    /** The Redo button. */
    method Redo()
      requires Valid()
      modifies this`drawingData, this`redoStack
      ensures Valid()
      ensures Stacks() == UndoRedo.Redo(old(Stacks()))
      ensures Drawn(Stacks()) == UndoRedo.Redo(old(Drawn(Stacks())))
      ensures old(redoStack) == [] ==> Picture() == old(Picture()) && Undone() == old(Undone())
      ensures old(redoStack) != [] ==>
        Picture() == old(Picture()) + [old(Undone())[|old(redoStack)| - 1]] &&
        Undone() == old(Undone())[..|old(redoStack)| - 1]
    {
      ghost var before := Drawn(Stacks());
      assert before == UndoRedo.History(Picture(), Undone());
      UndoRedo.ButtonsKeepNoDuplicates(Stacks());
      if |redoStack| > 0 {
        var m := |redoStack|;
        var lastItem := redoStack[m - 1];
        redoStack := redoStack[..m - 1];
        drawingData := drawingData + [lastItem];
        assert Stacks() == UndoRedo.Redo(old(Stacks()));
      }
      RedoRedraws(old(Stacks()));
      assert UndoRedo.History(Picture(), Undone()) == UndoRedo.Redo(before);
    }

    /** The Fine Brush button: brush strokes from now on are 1.5 wide. */
    method SelectFineBrush()
      requires Valid()
      modifies this`lineWidth, this`currentStampType
      ensures Valid()
      ensures lineWidth == Fine && currentStampType == None
    {
      lineWidth := Fine;
      currentStampType := None;
    }

    /** The Bold Brush button: brush strokes from now on are 4 wide. */
    method SelectBoldBrush()
      requires Valid()
      modifies this`lineWidth, this`currentStampType
      ensures Valid()
      ensures lineWidth == Bold && currentStampType == None
    {
      lineWidth := Bold;
      currentStampType := None;
    }

    /** A stamp button: the next mousedown places this glyph. Every glyph on
        a button is non-empty, so choosing one arms the stamp tool. */
    method SelectStamp(stamp: string)
      requires Valid()
      modifies this`currentStampType
      ensures Valid()
      ensures currentStampType == Some(stamp)
      ensures stamp in stamps ==> Truthy(currentStampType)
    {
      currentStampType := Some(stamp);
    }

    /** The Create Custom Stamp button, given what the prompt returned
        (None when it was cancelled). Only a non-empty answer is added. */
    method AddCustomStamp(answer: Option<string>)
      requires Valid()
      modifies this`stamps
      ensures Valid()
      ensures stamps == if Truthy(answer) then old(stamps) + [answer.value] else old(stamps)
    {
      if Truthy(answer) {
        stamps := stamps + [answer.value];
      }
    }
  }

  /** The mouseup handler listens on the canvas only, so a stroke whose button
      is released off the canvas stays current. Undo then moves it to the redo
      stack, the next mouse move still extends it there, and redo brings it
      back with the extra point. */
  method StrokeDraggedWhileUndone()
  {
    var pad := new Sketchpad();
    assert !Truthy(pad.currentStampType) && pad.lineWidth == Fine;
    pad.MouseDown(0, 0);
    assert !Truthy(pad.currentStampType) && pad.lineWidth == Fine;
    var line := pad.currentLine;
    assert line != null && pad.drawing && pad.currentStamp == null;
    assert pad.drawingData == [StrokeCommand(line)];
    ghost var before := pad.Picture();
    assert before == [Line([Point(0, 0)], Fine)];
    UndoWhileDrawing(pad, line, 5, 5);
    assert pad.Picture() == before[..0] + [Dragged(before[0], Point(5, 5))];
    assert [Point(0, 0)] + [Point(5, 5)] == [Point(0, 0), Point(5, 5)];
    assert pad.Picture() == [Line([Point(0, 0), Point(5, 5)], Fine)];
  }

  /** Undo, a mouse move and redo while the last drawn stroke is still being
      drawn (its mouseup was never heard): both stacks end as they were, and
      the stroke is back on the canvas extended by the move. */
  method UndoWhileDrawing(pad: Sketchpad, line: BrushStroke, x: int, y: int)
    requires pad.Valid() && pad.drawing && pad.currentLine == line
    requires pad.drawingData != [] && UndoRedo.Last(pad.drawingData) == StrokeCommand(line)
    modifies pad, line, pad.currentStamp
    ensures pad.Valid() && pad.Stacks() == old(pad.Stacks())
    ensures pad.Picture() == old(pad.Picture())[..|old(pad.drawingData)| - 1] +
                             [Dragged(old(pad.Picture())[|old(pad.drawingData)| - 1], Point(x, y))]
  {
    ghost var n := |pad.drawingData|;
    ghost var shown := pad.Picture();
    UndoRedo.UndoThenRedo(pad.Stacks());
    pad.Undo();
    assert pad.Undone()[|pad.redoStack| - 1] == shown[n - 1];
    ghost var kept := pad.Picture();
    assert kept == shown[..n - 1];
    MoveThenRedo(pad, line, x, y);
    assert pad.Picture() == kept + [Dragged(shown[n - 1], Point(x, y))];
  }

  /** A mouse move then redo while the stroke on top of the redo stack is still
      being drawn: the move extends it there, and redo draws it with the
      extra point. */
  method MoveThenRedo(pad: Sketchpad, line: BrushStroke, x: int, y: int)
    requires pad.Valid() && pad.drawing && pad.currentLine == line
    requires pad.redoStack != [] && UndoRedo.Last(pad.redoStack) == StrokeCommand(line)
    modifies pad, line, pad.currentStamp
    ensures pad.Valid() && pad.Stacks() == UndoRedo.Redo(old(pad.Stacks()))
    ensures pad.Picture() == old(pad.Picture()) +
                             [Dragged(old(pad.Undone())[|old(pad.redoStack)| - 1], Point(x, y))]
  {
    UndoRedo.LastUndoneIsUnique(pad.Stacks());
    pad.MouseMove(x, y);
    assert pad.Target() == Some(StrokeCommand(line));
    DraggedNowhere(pad.drawingData, StrokeCommand(line), old(pad.Picture()), pad.Picture(), Point(x, y));
    pad.Redo();
  }
}
