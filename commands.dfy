/** The two kinds of drawable command kept in the display list: a freehand
    brush stroke and a stamped glyph. Both are objects that the mouse handlers
    change in place while the button is held. */
module Commands {

  /** A canvas position; the floating-point coordinates become integers. */
  datatype Point = Point(x: int, y: int)

  /** The two brush widths: Fine is 1.5 pixels, Bold is 4. */
  datatype Width = Fine | Bold

  /** What a command draws when the display list is replayed. */
  datatype Shape =
    | Line(points: seq<Point>, width: Width)
    | Glyph(at: Point, glyph: string)

  /** A stroke draws a path through its points, so it must have one. */
  predicate WellFormed(s: Shape)
  {
    s.Line? ==> s.points != []
  }

  /** The effect of one mouse move on the shape under the mouse. */
  function Dragged(s: Shape, p: Point): (r: Shape)
    ensures r.Line? <==> s.Line?
    ensures WellFormed(r) && (r.Line? ==> r.points[|r.points| - 1] == p)
    ensures r.Line? ==> r.width == s.width && |r.points| == |s.points| + 1 &&
                        r.points[..|s.points|] == s.points
    ensures r.Glyph? ==> r.at == p && r.glyph == s.glyph
  {
    match s
    case Line(points, width) => Line(points + [p], width)
    case Glyph(_, glyph) => Glyph(p, glyph)
  }

  /** The shape after the mouse has moved through `moves`, first to last. */
  function DraggedThrough(s: Shape, moves: seq<Point>): Shape
    decreases |moves|
  {
    if moves == [] then s else DraggedThrough(Dragged(s, moves[0]), moves[1..])
  }

  /** A whole gesture with the brush: the stroke is the point pressed on
      followed by every point the mouse moved through, in order, with the
      width chosen when it started. */
  lemma {:induction false} StrokeGesture(points: seq<Point>, width: Width, moves: seq<Point>)
    ensures DraggedThrough(Line(points, width), moves) == Line(points + moves, width)
    decreases |moves|
  {
    if moves != [] {
      assert points + [moves[0]] + moves[1..] == points + moves;
      StrokeGesture(points + [moves[0]], width, moves[1..]);
    }
  }

  /** A whole gesture with a stamp: the glyph ends where the mouse last was,
      and the glyph itself never changes. */
  lemma {:induction false} StampGesture(at: Point, glyph: string, moves: seq<Point>)
    ensures DraggedThrough(Glyph(at, glyph), moves) ==
            Glyph(if moves == [] then at else moves[|moves| - 1], glyph)
    decreases |moves|
  {
    if moves != [] {
      StampGesture(moves[0], glyph, moves[1..]);
    }
  }

  /** A freehand stroke: the points the mouse went through while the button
      was held, and the brush width at the moment it started. */
  class BrushStroke {
    var points: seq<Point>
    const width: Width

    function View(): Shape
      reads this
    {
      Line(points, width)
    }

    /** A stroke starts at the point pressed on. */
    constructor (x: int, y: int, width: Width)
      ensures View() == Line([Point(x, y)], width) && WellFormed(View())
    {
      points := [Point(x, y)];
      this.width := width;
    }

    /** Extends the stroke to the mouse position. */
    method Drag(x: int, y: int)
      modifies this`points
      ensures View() == Dragged(old(View()), Point(x, y))
      ensures points[..|old(points)|] == old(points) && points != []
    {
      points := points + [Point(x, y)];
    }
  }

  /** A glyph placed on the canvas; dragging moves it. */
  class Stamp {
    var x: int
    var y: int
    const glyph: string

    function View(): Shape
      reads this
    {
      Glyph(Point(x, y), glyph)
    }

    constructor (x: int, y: int, glyph: string)
      ensures View() == Glyph(Point(x, y), glyph)
    {
      this.x := x;
      this.y := y;
      this.glyph := glyph;
    }

    /** Moves the glyph to the mouse position. */
    method Drag(x: int, y: int)
      modifies this`x, this`y
      ensures View() == Dragged(old(View()), Point(x, y))
    {
      this.x := x;
      this.y := y;
    }
  }
}
