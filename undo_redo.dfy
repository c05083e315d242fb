/** The undo/redo history of the sketchpad as a value: the display list
    `drawingData` (the entry drawn last is at the end) and `redoStack` (its top
    is at the end, as with a JavaScript array used through push and pop).
    The handlers of the Sketchpad class are specified by the functions here. */
module UndoRedo {

  datatype History<T> = History(drawingData: seq<T>, redoStack: seq<T>)

  function Last<T>(s: seq<T>): T
    requires s != []
  {
    s[|s| - 1]
  }

  /** `s` in the opposite order. */
  function Reverse<T>(s: seq<T>): (r: seq<T>)
    ensures |r| == |s|
    ensures forall i :: 0 <= i < |s| ==> r[i] == s[|s| - 1 - i]
  {
    if s == [] then [] else Reverse(s[1..]) + [s[0]]
  }

  lemma {:induction false} ReverseSnoc<T>(s: seq<T>, x: T)
    ensures Reverse(s + [x]) == [x] + Reverse(s)
  {
    var l, r := Reverse(s + [x]), [x] + Reverse(s);
    assert |l| == |r|;
    forall i | 0 <= i < |l| ensures l[i] == r[i] {
      if i > 0 {
        assert (s + [x])[|s| - i] == s[|s| - 1 - (i - 1)];
      }
    }
  }

  /** Every command still reachable through the buttons, in drawing order:
      the visible ones, then the undone ones in the order redo brings them back. */
  function Timeline<T>(h: History<T>): seq<T>
  {
    h.drawingData + Reverse(h.redoStack)
  }

  /** No command appears twice. */
  predicate Distinct<T(==)>(s: seq<T>)
  {
    forall i :: 0 <= i < |s| ==> multiset(s)[s[i]] == 1
  }

  /** Reordering a sequence without duplicates creates none. */
  lemma DistinctPermutation<T>(a: seq<T>, b: seq<T>)
    requires Distinct(a) && multiset(a) == multiset(b)
    ensures Distinct(b)
  {
    forall i | 0 <= i < |b| ensures multiset(b)[b[i]] == 1 {
      assert b[i] in multiset(a);
      var j :| 0 <= j < |a| && a[j] == b[i];
    }
  }

  /** No command is both drawn and undone, or in either place twice. */
  predicate NoDuplicates<T(==)>(h: History<T>)
  {
    Distinct(h.drawingData + h.redoStack)
  }

  /** Without duplicates, the last drawn command occurs nowhere else: neither
      earlier in the display list nor on the redo stack. */
  lemma LastDrawnIsUnique<T>(h: History<T>)
    requires NoDuplicates(h) && h.drawingData != []
    ensures Last(h.drawingData) !in h.drawingData[..|h.drawingData| - 1]
    ensures Last(h.drawingData) !in h.redoStack
  {
    var d, x := h.drawingData, Last(h.drawingData);
    var n := |d|;
    assert d == d[..n - 1] + [x];
    assert (d + h.redoStack)[n - 1] == x;
    assert multiset(d + h.redoStack) == multiset(d[..n - 1]) + multiset{x} + multiset(h.redoStack);
  }

  /** Mousedown: a new command is drawn after all others and the redo branch is
      thrown away. */
  function Start<T>(h: History<T>, c: T): (r: History<T>)
    ensures |r.drawingData| == |h.drawingData| + 1
    ensures r.drawingData[..|h.drawingData|] == h.drawingData && Last(r.drawingData) == c
    ensures r.redoStack == [] && Timeline(r) == h.drawingData + [c]
  {
    History(h.drawingData + [c], [])
  }

  /** Starting a command that is not already on the display list creates
      no duplicate. */
  lemma StartKeepsNoDuplicates<T>(h: History<T>, c: T)
    requires NoDuplicates(h) && c !in h.drawingData
    ensures NoDuplicates(Start(h, c))
  {
    var d, u, n := h.drawingData, h.redoStack, |h.drawingData|;
    var t := Start(h, c).drawingData + Start(h, c).redoStack;
    assert t == d + [c];
    assert multiset(d + u) == multiset(d) + multiset(u);
    forall i | 0 <= i < n + 1 ensures multiset(t)[t[i]] == 1 {
      if i < n {
        assert t[i] == (d + u)[i];
      }
    }
  }

  /** The Undo button. Together with the length, the preserved timeline pins
      the result down: the last drawn command becomes the top of the redo stack. */
  function Undo<T>(h: History<T>): (r: History<T>)
    ensures h.drawingData == [] ==> r == h
    ensures h.drawingData != [] ==>
      |r.drawingData| == |h.drawingData| - 1 && r.redoStack != [] &&
      Last(r.redoStack) == Last(h.drawingData)
    ensures Timeline(r) == Timeline(h)
  {
    if h.drawingData == [] then h
    else
      var n := |h.drawingData|;
      ReverseSnoc(h.redoStack, h.drawingData[n - 1]);
      assert h.drawingData[..n - 1] + [h.drawingData[n - 1]] == h.drawingData;
      History(h.drawingData[..n - 1], h.redoStack + [h.drawingData[n - 1]])
  }

  /** The Redo button: the top of the redo stack is drawn again, last. */
  function Redo<T>(h: History<T>): (r: History<T>)
    ensures h.redoStack == [] ==> r == h
    ensures h.redoStack != [] ==>
      |r.drawingData| == |h.drawingData| + 1 && Last(r.drawingData) == Last(h.redoStack)
    ensures Timeline(r) == Timeline(h)
  {
    if h.redoStack == [] then h
    else
      var m := |h.redoStack|;
      ReverseSnoc(h.redoStack[..m - 1], h.redoStack[m - 1]);
      assert h.redoStack[..m - 1] + [h.redoStack[m - 1]] == h.redoStack;
      History(h.drawingData + [h.redoStack[m - 1]], h.redoStack[..m - 1])
  }

  /** Undo and redo only move commands between the two stacks, so they
      create no duplicate either. */
  lemma {:induction false} ButtonsKeepNoDuplicates<T>(h: History<T>)
    requires NoDuplicates(h)
    ensures NoDuplicates(Undo(h)) && NoDuplicates(Redo(h))
  {
    var d, u := h.drawingData, h.redoStack;
    if d != [] {
      var n := |d|;
      assert d == d[..n - 1] + [d[n - 1]];
      DistinctPermutation(d + u, Undo(h).drawingData + Undo(h).redoStack);
    }
    if u != [] {
      var m := |u|;
      assert u == u[..m - 1] + [u[m - 1]];
      DistinctPermutation(d + u, Redo(h).drawingData + Redo(h).redoStack);
    }
  }

  /** Without duplicates, the top of the redo stack is not on the display
      list: redo would make it the last drawn command, which occurs nowhere
      else. */
  lemma LastUndoneIsUnique<T>(h: History<T>)
    requires NoDuplicates(h) && h.redoStack != []
    ensures Last(h.redoStack) !in h.drawingData
  {
    ButtonsKeepNoDuplicates(h);
    var r := Redo(h);
    LastDrawnIsUnique(r);
    assert r.drawingData[..|r.drawingData| - 1] == h.drawingData;
  }

  /** Undo then redo puts both stacks back exactly as they were. */
  lemma UndoThenRedo<T>(h: History<T>)
    requires h.drawingData != []
    ensures Redo(Undo(h)) == h
  {
    var n := |h.drawingData|;
    assert h.drawingData[..n - 1] + [h.drawingData[n - 1]] == h.drawingData;
  }

  /** Redo then undo puts both stacks back exactly as they were. */
  lemma RedoThenUndo<T>(h: History<T>)
    requires h.redoStack != []
    ensures Undo(Redo(h)) == h
  {
    var m := |h.redoStack|;
    assert h.redoStack[..m - 1] + [h.redoStack[m - 1]] == h.redoStack;
  }

  datatype Button = UndoButton | RedoButton

  function Click<T>(h: History<T>, b: Button): History<T>
  {
    if b == UndoButton then Undo(h) else Redo(h)
  }

  /** The history after the buttons in `clicks` are pressed, first to last. */
  function Press<T>(h: History<T>, clicks: seq<Button>): History<T>
    decreases |clicks|
  {
    if clicks == [] then h else Press(Click(h, clicks[0]), clicks[1..])
  }

  lemma {:induction false} PressSnoc<T>(h: History<T>, clicks: seq<Button>, b: Button)
    ensures Press(h, clicks + [b]) == Click(Press(h, clicks), b)
    decreases |clicks|
  {
    if clicks == [] {
      assert ([] + [b])[1..] == [];
    } else {
      assert (clicks + [b])[1..] == clicks[1..] + [b];
      PressSnoc(Click(h, clicks[0]), clicks[1..], b);
    }
  }

  /** However the two buttons are pressed, the timeline is the same and so is
      the number of commands. */
  lemma {:induction false} PressKeepsTimeline<T>(h: History<T>, clicks: seq<Button>)
    ensures Timeline(Press(h, clicks)) == Timeline(h)
    ensures |Press(h, clicks).drawingData| + |Press(h, clicks).redoStack| ==
            |h.drawingData| + |h.redoStack|
    decreases |clicks|
  {
    if clicks != [] {
      PressKeepsTimeline(Click(h, clicks[0]), clicks[1..]);
    }
  }

  function Repeat(b: Button, k: nat): (r: seq<Button>)
    ensures |r| == k && forall i :: 0 <= i < k ==> r[i] == b
  {
    if k == 0 then [] else [b] + Repeat(b, k - 1)
  }

  /** Undoing `k` commands takes exactly the last `k` drawn commands off the
      display list; redoing `k` times then restores both stacks. */
  lemma {:induction false} UndoManyThenRedoMany<T>(h: History<T>, k: nat)
    requires k <= |h.drawingData|
    ensures Press(h, Repeat(UndoButton, k)).drawingData == h.drawingData[..|h.drawingData| - k]
    ensures Press(Press(h, Repeat(UndoButton, k)), Repeat(RedoButton, k)) == h
    decreases k
  {
    if k > 0 {
      var u := Undo(h);
      var n := |h.drawingData|;
      assert Repeat(UndoButton, k)[1..] == Repeat(UndoButton, k - 1);
      UndoManyThenRedoMany(u, k - 1);
      var mid := Press(u, Repeat(UndoButton, k - 1));
      assert u.drawingData == h.drawingData[..n - 1];
      assert u.drawingData[..n - 1 - (k - 1)] == h.drawingData[..n - k];
      assert Repeat(RedoButton, k) == Repeat(RedoButton, k - 1) + [RedoButton];
      PressSnoc(mid, Repeat(RedoButton, k - 1), RedoButton);
      UndoThenRedo(h);
    }
  }
}
