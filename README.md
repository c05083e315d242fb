# Drawing Deluxe: the drawing history as a verified Dafny model

Drawing Deluxe is a small browser sketchpad. The user draws freehand brush
strokes or places emoji stamps on a canvas. Undo, redo and clear act on
what has been drawn, and a prompt adds custom stamps. Its state lives in
module-level variables of `src/main.ts`:

- the display list `drawingData`;
- the `redoStack`;
- the command being dragged, `currentLine` or `currentStamp`;
- the `drawing` flag;
- the selected tool, `lineWidth` and `currentStampType`;
- the list of stamp glyphs, `stamps`.

Every event handler updates these variables in place. This project models
that state and the handlers, and proves what the handlers do to it.

Three modules:

- `UndoRedo` (`undo_redo.dfy`) is the history as a value. `History` holds
  `drawingData` and `redoStack`, with the top of a stack at its end, as with
  JavaScript `push`/`pop`. Pure functions `Start`, `Undo` and `Redo` act on it.
  The timeline `drawingData + Reverse(redoStack)` lists every command reachable
  through the buttons, in drawing order. Undo and redo preserve it. Undo then
  redo, any click sequence, and `k` undos followed by `k` redos are proved
  correct against it. `NoDuplicates` says that no command object is held twice.
- `Commands` (`commands.dfy`) has the two command classes, `BrushStroke` and
  `Stamp`. Their `drag` methods change them in place. Each also has a value
  view, `Shape`, which is what `display` draws. `Dragged` says what one mouse
  move does to a shape. `StrokeGesture` and `StampGesture` say what a whole
  gesture does.
- `DrawingApp` (`sketchpad.dfy`) has the `Sketchpad` class, with one field per
  module-level variable and one method per handler. `MouseDown`, `Undo` and
  `Redo` are specified against the `UndoRedo` functions `Start`, `Undo` and
  `Redo`, for the command references. Every handler that touches the stacks or
  the command objects is also specified against `Picture()` and `Undone()`, the
  shapes that the display list and the redo stack draw. The tool handlers state
  the new tool fields directly.

The display list holds references. Mouse moves change the current command
object wherever it sits, so the model keeps these references and
reasons about them. The `mouseup` listener is registered on the canvas only
(`src/main.ts:167`). If the button is released off the canvas, `drawing` and
`currentLine` stay set, and later moves keep extending that stroke even
after Undo has moved it to the redo stack, or after Clear has dropped it.
Redo then brings it back with the extra points. `Sketchpad.MouseMove` is
therefore specified entry by entry over both stacks: the dragged command
changes wherever it occurs, and nothing else changes. In the usual case the
dragged command is the last drawn entry, and there only that entry
changes. `UndoWhileDrawing` states the off-canvas case in general: when undo,
a move and redo follow each other while the last drawn stroke is still
being drawn, both stacks end as they were, and the stroke comes back
extended by the move. `StrokeDraggedWhileUndone` plays it out on a one-point
stroke.

## Model

| member | source | states |
|---|---|---|
| UndoRedo.Start | src/main.ts:153-164 | a new command becomes the last entry of the display list, every earlier entry is kept, and the redo stack is empty, so the timeline is the old display list plus the new command |
| UndoRedo.Undo | src/main.ts:222-230 | with an empty display list nothing changes; otherwise the display list loses one entry, the redo stack's top becomes the last drawn command, and the timeline is unchanged |
| UndoRedo.Redo | src/main.ts:233-241 | with an empty redo stack nothing changes; otherwise the display list grows by one, its last entry is the old top of the redo stack, and the timeline is unchanged |
| UndoRedo.UndoThenRedo | src/main.ts:222-241 | undo followed by redo on a non-empty display list restores both stacks exactly |
| UndoRedo.RedoThenUndo | src/main.ts:222-241 | redo followed by undo on a non-empty redo stack restores both stacks exactly |
| UndoRedo.PressKeepsTimeline | src/main.ts:222-241 | any sequence of undo and redo clicks preserves the timeline and the total number of commands |
| UndoRedo.UndoManyThenRedoMany | src/main.ts:222-241 | `k` undos remove exactly the last `k` drawn commands, and `k` redos afterwards restore both stacks |
| UndoRedo.LastDrawnIsUnique | src/main.ts:153-164 | in a history without duplicates, the last drawn command occurs neither earlier in the display list nor on the redo stack |
| UndoRedo.StartKeepsNoDuplicates | src/main.ts:153-164 | pushing a command not already on the display list, and emptying the redo stack, creates no duplicate |
| UndoRedo.ButtonsKeepNoDuplicates | src/main.ts:222-241 | undo and redo keep the history free of duplicates |
| UndoRedo.LastUndoneIsUnique | src/main.ts:233-241 | in a history without duplicates, the top of the redo stack is not on the display list |
| Commands.Dragged | src/main.ts:62-93 | a drag appends the mouse point to a stroke, keeping its earlier points and width and leaving it non-empty; a drag moves a stamp to the mouse point, keeping its glyph |
| Commands.StrokeGesture | src/main.ts:179-181 | after any series of moves, a stroke is its original points followed by every move, in order, with its width unchanged |
| Commands.StampGesture | src/main.ts:182-184 | after any series of moves, a stamp sits at the last move (or where it was placed) with its glyph unchanged |
| Commands.BrushStroke.constructor | src/main.ts:57-60 | a new stroke holds exactly the pressed point, with the given width |
| Commands.BrushStroke.Drag | src/main.ts:62-64 | the stroke's view becomes `Dragged` of the old view; the old points are a prefix of the new ones, and the points are never empty |
| Commands.Stamp.constructor | src/main.ts:84-88 | a new stamp shows its glyph at the pressed point |
| Commands.Stamp.Drag | src/main.ts:90-93 | the stamp's view becomes `Dragged` of the old view: new position, same glyph |
| DrawingApp.Views | src/main.ts:200-202 | replaying a list draws one shape per command |
| DrawingApp.ViewsEach | src/main.ts:200-202 | the `i`-th shape drawn is the view of the `i`-th command |
| DrawingApp.ViewsSnoc | src/main.ts:200-202 | appending a command appends its view to what is drawn |
| DrawingApp.ViewsUnchanged | src/main.ts:200-202 | when no command object of the list changed, the list draws the same |
| DrawingApp.UndoRedraws | src/main.ts:222-230 | because undo changes no command object, what the stacks draw undoes exactly as the commands do |
| DrawingApp.RedoRedraws | src/main.ts:233-241 | because redo changes no command object, what the stacks draw redoes exactly as the commands do |
| DrawingApp.DragRedraws | src/main.ts:179-184 | when only the target object changed, by one drag, the dragged shape appears wherever the target occurs and every other shape is unchanged |
| DrawingApp.DraggedLastOnly | src/main.ts:179-184 | when the target is the last entry and occurs nowhere else, only the last shape changes |
| DrawingApp.Sketchpad.constructor | src/main.ts:22-31 | the initial state: empty stacks, nothing current, not drawing, the fine brush, no stamp selected, the three built-in glyphs |
| DrawingApp.Sketchpad.MouseDown | src/main.ts:148-165 | with a truthy stamp type, a fresh stamp of that glyph at the point; otherwise, with `drawing` set, a fresh stroke at the point with the current width. Either way the stacks become `Start` of the old ones, the picture gains exactly that shape at the end, and unless a stroke from an unheard mouseup is still being drawn, the new command is the one later moves drag |
| DrawingApp.Sketchpad.PlaceStamp | src/main.ts:153-157 | the stamp branch of mousedown: the stacks become `Start` with a fresh stamp, and the picture gains its glyph |
| DrawingApp.Sketchpad.BeginStroke | src/main.ts:158-164 | the brush branch of mousedown: `drawing` is set, the stacks become `Start` with a fresh stroke, and the picture gains a one-point line |
| DrawingApp.Sketchpad.Record | src/main.ts:153-164 | pushing the new command and emptying the redo stack is `Start`, keeps the history free of duplicates, and appends the command's view to the picture |
| DrawingApp.Sketchpad.MouseUp | src/main.ts:167-172 | `drawing` is cleared, `currentLine` and `currentStamp` are null, and no command is a drag target |
| DrawingApp.Sketchpad.MouseMove | src/main.ts:174-193 | the stroke is dragged while drawing, otherwise the current stamp. On both stacks the dragged shape appears wherever that command occurs and every other shape is unchanged. When the command is the last drawn entry, only that entry changes and the redo stack draws the same |
| DrawingApp.Sketchpad.DragTarget | src/main.ts:179-185 | the target's view becomes `Dragged` of its old view, the target stays the same, and every other command object is unchanged |
| DrawingApp.Sketchpad.Clear | src/main.ts:215-219 | both stacks and the picture are empty |
| DrawingApp.Sketchpad.Undo | src/main.ts:222-230 | the stacks become `Undo` of the old ones, and so does what they draw: the last shape leaves the picture and goes on top of the undone shapes, and with nothing drawn nothing changes |
| DrawingApp.Sketchpad.Redo | src/main.ts:233-241 | the stacks become `Redo` of the old ones, and so does what they draw: the top undone shape is drawn last again, and with nothing undone nothing changes |
| DrawingApp.Sketchpad.SelectFineBrush | src/main.ts:246-252 | the width becomes Fine (1.5) and no stamp is selected |
| DrawingApp.Sketchpad.SelectBoldBrush | src/main.ts:254-260 | the width becomes Bold (4) and no stamp is selected |
| DrawingApp.Sketchpad.SelectStamp | src/main.ts:45-51 | the stamp type becomes the chosen glyph, and choosing a glyph from the list arms the stamp tool |
| DrawingApp.Sketchpad.AddCustomStamp | src/main.ts:263-276 | the glyph list gains the answer at its end exactly when the prompt returned a non-empty string, and every glyph stays non-empty |
| DrawingApp.UndoWhileDrawing | src/main.ts:174-241 | for any history whose last drawn entry is the stroke still being drawn, and any point: after undo, a move to the point and redo, both stacks are as they were, every earlier shape is unchanged, and the last shape is the old one dragged to the point |
| DrawingApp.MoveThenRedo | src/main.ts:174-241 | for any history whose redo-stack top is the stroke still being drawn, and any point: after a move to the point and redo, the stacks are `Redo` of the old ones, and the picture is the old picture followed by the undone stroke dragged to the point |

## Left out

- DOM construction, button labels and ids, and the `selectedTool` class toggling (src/main.ts:4-18, 32-43, 47-50, 249-251, 257-259, 267-274) are page markup, not state.
- All canvas rendering is left out: `display`, `draw`, `ToolPreview`, `StampPreview` and the `drawing-changed`/`tool-moved` repaints (src/main.ts:66-76, 95-98, 101-145, 195-211). A command's drawing is modelled as its value view, `Shape`. The `forEach` replay of the display list in the repaint (src/main.ts:200-202) is kept, abstracted to `Views`.
- The `toolPreview` variable is write-only outside rendering, so it is not part of the state.
- The PNG export (src/main.ts:278-296) only renders and downloads.
- Coordinates are integers, and the width is the two-value `Width` (Fine = 1.5, Bold = 4). No floating point and no `getBoundingClientRect` arithmetic are modelled.
- `prompt` becomes the parameter of `AddCustomStamp`, with `None` for a cancelled prompt. The mouse handlers exist only when the canvas has a 2D context (src/main.ts:147-212), which the model takes for granted. The button handlers are registered either way.
- Event dispatch is not modelled. Each handler is one atomic step, and a sequence of steps is a sequence of method calls.
- DrawingApp.Sketchpad.MouseMove: the branch with no drag target only replaces the preview (src/main.ts:185-191), so the model states that nothing else changes.
- DrawingApp.Sketchpad.SelectStamp: a glyph with no button makes the `classList` access throw after `currentStampType` is already set (src/main.ts:50). Only the state change is modelled, not the exception.
- DrawingApp.Sketchpad.AddCustomStamp: the new button and its click handler are not modelled. Clicking it is `SelectStamp`.
- Commands.BrushStroke.Drag: the width is a `const` field. The source never reassigns it.
- DrawingApp.Sketchpad.Valid: a stroke's points are non-empty by the constructor and `Drag` contracts of each object. The Sketchpad invariant does not restate this.
