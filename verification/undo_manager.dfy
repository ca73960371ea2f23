/** The undo/redo manager: two bounded stacks of (snapshot, tag) pairs, the
    most recent entry last. It is generic in the snapshot type; the tool
    stores deep copies of patches in it. */
module UndoManagement {
  import opened Common

  /** Each stack holds at most this many entries. */
  const MAX_SIZE: nat := 20

  /** The tag whose repeated pushes are dropped outright. */
  const THRESHOLD_ADJUST: string := "threshold_adjust"

  /** The word that marks a tag as an in-progress adjustment. */
  const ADJUST: string := "adjust"

  datatype Entry<T> = Entry(snapshot: T, tag: string)

  datatype UndoManager<T> = UndoManager(undoStack: seq<Entry<T>>, redoStack: seq<Entry<T>>)

  /** What `undo()` and `redo()` hand back: the popped entry (`None` for the
      `(None, None)` pair of an empty stack) and the manager afterwards. */
  datatype Popped<T> = Popped(entry: Option<Entry<T>>, manager: UndoManager<T>)

  /** A freshly constructed manager. */
  function Empty<T>(): (m: UndoManager<T>)
    ensures |m.undoStack| == 0 && |m.redoStack| == 0
  {
    UndoManager([], [])
  }

  /** `undo_empty()`. */
  predicate UndoEmpty<T>(m: UndoManager<T>) {
    |m.undoStack| == 0
  }

  /** `redo_empty()`. */
  predicate RedoEmpty<T>(m: UndoManager<T>) {
    |m.redoStack| == 0
  }

  /** Neither stack exceeds `MAX_SIZE`. */
  predicate Bounded<T>(m: UndoManager<T>) {
    |m.undoStack| <= MAX_SIZE && |m.redoStack| <= MAX_SIZE
  }

  /** A push of `tag` onto `stack` is absorbed by the entry on top: the top
      carries the same tag and the tag is an adjustment tag. */
  predicate Coalesces<T>(stack: seq<Entry<T>>, tag: string) {
    |stack| > 0 && stack[|stack| - 1].tag == tag && Contains(tag, ADJUST)
  }

  /** No two neighbouring entries would have coalesced: the shape every
      stack built by `AddToUndoStack` keeps. */
  predicate NoRepeatedAdjust<T>(stack: seq<Entry<T>>) {
    forall i :: 0 < i < |stack| ==> !Coalesces(stack[..i], stack[i].tag)
  }

  lemma ThresholdAdjustIsAdjust()
    ensures Contains(THRESHOLD_ADJUST, ADJUST)
  {
    var s := THRESHOLD_ADJUST;
    assert OccursAt(s, ADJUST, 10);
  }

  /** Append `e` and, when the stack grows past `MAX_SIZE`, drop the oldest
      entry (index 0). */
  function PushEvicting<T>(stack: seq<Entry<T>>, e: Entry<T>): (r: seq<Entry<T>>)
    ensures |r| > 0 && r[|r| - 1] == e
    ensures |stack| < MAX_SIZE ==> r == stack + [e]
    ensures |stack| == MAX_SIZE ==> r == stack[1..] + [e]
    ensures |stack| <= MAX_SIZE ==> |r| <= MAX_SIZE
  {
    var s := stack + [e];
    if |s| > MAX_SIZE then s[1..] else s
  }

  /** `add_to_undo_stack(patch, operation)`. A repeated `threshold_adjust`
      is dropped; a repeated tag containing `adjust` re-pushes the entry
      already on top (keeping the older snapshot); anything else is pushed.
      The redo stack is never touched. */
  function AddToUndoStack<T>(m: UndoManager<T>, snapshot: T, tag: string): (r: UndoManager<T>)
    ensures r.redoStack == m.redoStack
    ensures Coalesces(m.undoStack, tag) && |m.undoStack| <= MAX_SIZE ==> r.undoStack == m.undoStack
    ensures !Coalesces(m.undoStack, tag) ==> r.undoStack == PushEvicting(m.undoStack, Entry(snapshot, tag))
    ensures Bounded(m) ==> Bounded(r)
  {
    var u := m.undoStack;
    if tag == THRESHOLD_ADJUST && |u| > 0 then
      ThresholdAdjustIsAdjust();
      if u[|u| - 1].tag == tag then m
      else m.(undoStack := PushEvicting(u, Entry(snapshot, tag)))
    else if Contains(tag, ADJUST) && |u| > 0 && u[|u| - 1].tag == tag then
      var kept := u[|u| - 1];
      assert u[..|u| - 1] + [Entry(kept.snapshot, tag)] == u;
      m.(undoStack := PushEvicting(u[..|u| - 1], Entry(kept.snapshot, tag)))
    else
      m.(undoStack := PushEvicting(u, Entry(snapshot, tag)))
  }

  /** `undo()`: pop the undo stack, or `(None, None)` when it is empty. */
  function Undo<T>(m: UndoManager<T>): (r: Popped<T>)
    ensures UndoEmpty(m) ==> r.entry.None? && r.manager == m
    ensures !UndoEmpty(m) ==>
      && r.entry == Some(m.undoStack[|m.undoStack| - 1])
      && r.manager.undoStack + [r.entry.value] == m.undoStack
      && r.manager.redoStack == m.redoStack
  {
    if |m.undoStack| == 0 then Popped(None, m)
    else
      var n := |m.undoStack| - 1;
      Popped(Some(m.undoStack[n]), m.(undoStack := m.undoStack[..n]))
  }

  /** `add_to_redo_stack(patch, operation)`: a plain bounded push. */
  function AddToRedoStack<T>(m: UndoManager<T>, snapshot: T, tag: string): (r: UndoManager<T>)
    ensures r.undoStack == m.undoStack
    ensures r.redoStack == PushEvicting(m.redoStack, Entry(snapshot, tag))
    ensures Bounded(m) ==> Bounded(r)
  {
    m.(redoStack := PushEvicting(m.redoStack, Entry(snapshot, tag)))
  }

  /** `redo()`: pop the redo stack, or `(None, None)` when it is empty. */
  function Redo<T>(m: UndoManager<T>): (r: Popped<T>)
    ensures RedoEmpty(m) ==> r.entry.None? && r.manager == m
    ensures !RedoEmpty(m) ==>
      && r.entry == Some(m.redoStack[|m.redoStack| - 1])
      && r.manager.redoStack + [r.entry.value] == m.redoStack
      && r.manager.undoStack == m.undoStack
  {
    if |m.redoStack| == 0 then Popped(None, m)
    else
      var n := |m.redoStack| - 1;
      Popped(Some(m.redoStack[n]), m.(redoStack := m.redoStack[..n]))
  }

  /** `undo_empty()` and `redo_empty()` hold exactly when the matching pop
      hands back nothing and changes nothing. */
  lemma EmptinessMatchesPop<T>(m: UndoManager<T>)
    ensures UndoEmpty(m) <==> Undo(m).entry.None?
    ensures RedoEmpty(m) <==> Redo(m).entry.None?
    ensures Undo(m).entry.None? ==> Undo(m).manager == m
    ensures Redo(m).entry.None? ==> Redo(m).manager == m
  {
  }

  /** `clear_undos()`: both stacks emptied. */
  function ClearUndos<T>(m: UndoManager<T>): (r: UndoManager<T>)
    ensures UndoEmpty(r) && RedoEmpty(r)
  {
    Empty()
  }

  /** Every operation keeps both stacks within `MAX_SIZE`. */
  lemma OperationsStayBounded<T>(m: UndoManager<T>, snapshot: T, tag: string)
    requires Bounded(m)
    ensures Bounded(AddToUndoStack(m, snapshot, tag))
    ensures Bounded(AddToRedoStack(m, snapshot, tag))
    ensures Bounded(Undo(m).manager) && Bounded(Redo(m).manager)
    ensures Bounded(ClearUndos(m))
  {
  }

  /** A push that is not absorbed, onto a stack with room, is undone by the
      next `undo()`: it hands back the pushed pair and the old manager. */
  lemma PushThenUndo<T>(m: UndoManager<T>, snapshot: T, tag: string)
    requires !Coalesces(m.undoStack, tag) && |m.undoStack| < MAX_SIZE
    ensures Undo(AddToUndoStack(m, snapshot, tag)) == Popped(Some(Entry(snapshot, tag)), m)
  {
    var m' := AddToUndoStack(m, snapshot, tag);
    assert m'.undoStack[..|m'.undoStack| - 1] == m.undoStack;
  }

  /** Likewise for the redo stack. */
  lemma PushThenRedo<T>(m: UndoManager<T>, snapshot: T, tag: string)
    requires |m.redoStack| < MAX_SIZE
    ensures Redo(AddToRedoStack(m, snapshot, tag)) == Popped(Some(Entry(snapshot, tag)), m)
  {
    var m' := AddToRedoStack(m, snapshot, tag);
    assert m'.redoStack[..|m'.redoStack| - 1] == m.redoStack;
  }

  /** Dropping the oldest entries keeps the no-repeated-adjust shape. */
  lemma NoRepeatedAdjustSuffix<T>(s: seq<Entry<T>>, k: nat)
    requires k <= |s| && NoRepeatedAdjust(s)
    ensures NoRepeatedAdjust(s[k..])
  {
    forall i | 0 < i < |s[k..]|
      ensures !Coalesces(s[k..][..i], s[k..][i].tag)
    {
      assert s[k..][..i][i - 1] == s[..k + i][k + i - 1];
      assert !Coalesces(s[..k + i], s[k + i].tag);
    }
  }

  /** Removing the newest entry keeps the shape too. */
  lemma NoRepeatedAdjustPrefix<T>(s: seq<Entry<T>>, k: nat)
    requires k <= |s| && NoRepeatedAdjust(s)
    ensures NoRepeatedAdjust(s[..k])
  {
    forall i | 0 < i < |s[..k]|
      ensures !Coalesces(s[..k][..i], s[..k][i].tag)
    {
      assert s[..k][..i] == s[..i];
      assert !Coalesces(s[..i], s[i].tag);
    }
  }

  /** A bounded push keeps only entries that were there before, and the new
      one. */
  lemma PushEvictingMembers<T>(stack: seq<Entry<T>>, e: Entry<T>)
    ensures forall x | x in PushEvicting(stack, e) :: x in stack || x == e
  {
    var s := stack + [e];
    if |s| > MAX_SIZE {
      forall x | x in s[1..] ensures x in stack || x == e {
        var i :| 0 <= i < |s[1..]| && s[1..][i] == x;
        assert x == s[i + 1];
      }
    }
  }

  /** Every entry `add_to_undo_stack` leaves on the stack was there before or
      is the pushed pair; every entry a pop leaves was there before. */
  lemma StackMembers<T>(m: UndoManager<T>, snapshot: T, tag: string)
    requires |m.undoStack| <= MAX_SIZE
    ensures forall x | x in AddToUndoStack(m, snapshot, tag).undoStack :: x in m.undoStack || x == Entry(snapshot, tag)
    ensures forall x | x in AddToRedoStack(m, snapshot, tag).redoStack :: x in m.redoStack || x == Entry(snapshot, tag)
    ensures forall x | x in Undo(m).manager.undoStack :: x in m.undoStack
    ensures forall x | x in Redo(m).manager.redoStack :: x in m.redoStack
  {
    PushEvictingMembers(m.undoStack, Entry(snapshot, tag));
    PushEvictingMembers(m.redoStack, Entry(snapshot, tag));
    forall x | x in Undo(m).manager.undoStack ensures x in m.undoStack {
      assert Undo(m).manager.undoStack + [Undo(m).entry.value] == m.undoStack;
    }
    forall x | x in Redo(m).manager.redoStack ensures x in m.redoStack {
      assert Redo(m).manager.redoStack + [Redo(m).entry.value] == m.redoStack;
    }
  }

  /** The undo stack never holds two neighbouring entries that would have
      coalesced, whatever sequence of pushes and pops built it. */
  lemma {:induction false} AddKeepsNoRepeatedAdjust<T>(m: UndoManager<T>, snapshot: T, tag: string)
    requires Bounded(m) && NoRepeatedAdjust(m.undoStack)
    ensures NoRepeatedAdjust(AddToUndoStack(m, snapshot, tag).undoStack)
    ensures NoRepeatedAdjust(Undo(m).manager.undoStack)
  {
    var u := m.undoStack;
    var e := Entry(snapshot, tag);
    if !Coalesces(u, tag) {
      var s := u + [e];
      forall i | 0 < i < |s|
        ensures !Coalesces(s[..i], s[i].tag)
      {
        if i < |u| {
          assert s[..i] == u[..i];
        } else {
          assert s[..i] == u;
        }
      }
      if |s| > MAX_SIZE {
        NoRepeatedAdjustSuffix(s, 1);
      }
    }
    if |u| > 0 {
      NoRepeatedAdjustPrefix(u, |u| - 1);
    }
  }
}
