/** The interaction controller: a drag flag toggled by pointer-down and
    pointer-up, and a scratch mask that pointer-move marks in place while
    dragging. The value-level `Step` says what one event does; the class
    `ScratchCard` holds the state in place and is proved against it. */
module Interaction {
  import opened Grid
  import opened Compositor

  /** The controller's state: the scratch mask and whether the pointer is pressed. */
  datatype CardState = CardState(mask: seq<bool>, dragging: bool)

  /** A pointer event, with pointer-move already mapped to a candidate cell index. */
  datatype PointerEvent = PointerDown | PointerUp | PointerMove(index: nat)

  /** A state whose mask covers the grid. */
  predicate WellFormed(s: CardState)
  {
    |s.mask| == AREA
  }

  /** The state at startup: nothing scratched, pointer up. */
  function Initial(): (s: CardState)
    ensures WellFormed(s) && !s.dragging
    ensures forall k :: 0 <= k < AREA ==> !s.mask[k]
  {
    CardState(Blank(), false)
  }

  /** The effect of one event. */
  function Step(s: CardState, e: PointerEvent): (t: CardState)
    requires WellFormed(s)
    ensures WellFormed(t)
  {
    match e
    case PointerDown => s.(dragging := true)
    case PointerUp => s.(dragging := false)
    case PointerMove(i) => if s.dragging && i < AREA then s.(mask := s.mask[i := true]) else s
  }

  /** The effect of a sequence of events, dispatched one at a time in order. */
  function Run(s: CardState, events: seq<PointerEvent>): (t: CardState)
    requires WellFormed(s)
    ensures WellFormed(t)
    decreases |events|
  {
    if events == [] then s else Run(Step(s, events[0]), events[1..])
  }

  /** Pointer-down and pointer-up set and clear the drag flag and leave the mask alone. */
  lemma PressAndRelease(s: CardState)
    requires WellFormed(s)
    ensures Step(s, PointerDown) == CardState(s.mask, true)
    ensures Step(s, PointerUp) == CardState(s.mask, false)
  {
  }

  /** Pointer-move marks cell `i` exactly when dragging and `i < AREA`,
      leaves every other cell as it was, and does not touch the drag flag. */
  lemma MoveMarksOnlyTarget(s: CardState, i: nat)
    requires WellFormed(s)
    ensures Step(s, PointerMove(i)).dragging == s.dragging
    ensures forall k :: 0 <= k < AREA ==>
      Step(s, PointerMove(i)).mask[k] == (s.mask[k] || (s.dragging && i < AREA && k == i))
  {
  }

  /** Pointer-move changes nothing while the pointer is up or off the grid. */
  lemma MoveIgnoredWhenIdleOrOutside(s: CardState, i: nat)
    requires WellFormed(s)
    requires !s.dragging || i >= AREA
    ensures Step(s, PointerMove(i)) == s
  {
  }

  /** Scratching the same cell twice is the same as scratching it once. */
  lemma MoveIsIdempotent(s: CardState, i: nat)
    requires WellFormed(s)
    ensures Step(Step(s, PointerMove(i)), PointerMove(i)) == Step(s, PointerMove(i))
  {
  }

  /** Scratching is monotone: a scratched cell stays scratched, whatever events follow. */
  lemma {:induction false} RunKeepsScratches(s: CardState, events: seq<PointerEvent>, k: nat)
    requires WellFormed(s) && k < AREA && s.mask[k]
    ensures Run(s, events).mask[k]
    decreases |events|
  {
    if events != [] {
      RunKeepsScratches(Step(s, events[0]), events[1..], k);
    }
  }

  /** A cell no pointer-move event names keeps its state through a run. */
  lemma {:induction false} RunChangesOnlyTargets(s: CardState, events: seq<PointerEvent>, k: nat)
    requires WellFormed(s) && k < AREA
    requires forall j :: 0 <= j < |events| ==> events[j] != PointerMove(k)
    ensures Run(s, events).mask[k] == s.mask[k]
    decreases |events|
  {
    if events != [] {
      var rest := events[1..];
      assert forall j :: 0 <= j < |rest| ==> rest[j] == events[j + 1];
      RunChangesOnlyTargets(Step(s, events[0]), rest, k);
    }
  }

  /** While the pointer is up, any number of pointer-move events leaves the state unchanged. */
  lemma {:induction false} IdleMovesChangeNothing(s: CardState, events: seq<PointerEvent>)
    requires WellFormed(s) && !s.dragging
    requires forall j :: 0 <= j < |events| ==> events[j].PointerMove?
    ensures Run(s, events) == s
    decreases |events|
  {
    if events != [] {
      var rest := events[1..];
      assert forall j :: 0 <= j < |rest| ==> rest[j] == events[j + 1];
      IdleMovesChangeNothing(Step(s, events[0]), rest);
    }
  }

  /** Press, move over cell 45, release, move over cell 50: exactly cell 45
      is scratched and the pointer is up. */
  lemma DragThenReleaseScenario()
    ensures Run(Initial(), [PointerDown, PointerMove(45), PointerUp, PointerMove(50)])
         == CardState(Initial().mask[45 := true], false)
  {
    var events := [PointerDown, PointerMove(45), PointerUp, PointerMove(50)];
    assert events[1..] == [PointerMove(45), PointerUp, PointerMove(50)];
    assert events[2..] == [PointerUp, PointerMove(50)];
    assert events[3..] == [PointerMove(50)];
  }

  /** After a scratching move the next frame differs from the previous one
      in the scratched cell only, which now shows its scratched character. */
  lemma MoveRedrawsOneCell(s: CardState, i: nat)
    requires WellFormed(s) && s.dragging && i < AREA
    ensures Compose(Step(s, PointerMove(i)).mask) == Compose(s.mask)[i := CellChar(true, i)]
  {
    ComposeUpdateIsLocal(s.mask, i, true);
  }

  /** The card's state as it lives in the running page: the mask array the
      move handler writes in place and the drag flag the three handlers share. */
  class ScratchCard {
    var mask: array<bool>
    var dragging: bool

    ghost predicate Valid()
      reads this
    {
      mask.Length == AREA
    }

    /** The abstract state the fields hold. */
    ghost function State(): (s: CardState)
      reads this, mask
      requires Valid()
      ensures WellFormed(s)
    {
      CardState(mask[..], dragging)
    }

    /** Startup: an all-false mask and the pointer up. */
    constructor ()
      ensures Valid() && fresh(mask)
      ensures State() == Initial()
    {
      mask := new bool[AREA](_ => false);
      dragging := false;
      new;
      assert mask[..] == Initial().mask;
    }

    /** The `pointerdown` handler. */
    method PointerDown()
      requires Valid()
      modifies this`dragging
      ensures Valid() && mask == old(mask)
      ensures State() == Step(old(State()), PointerEvent.PointerDown)
    {
      dragging := true;
    }

    /** The `pointerup` handler. */
    method PointerUp()
      requires Valid()
      modifies this`dragging
      ensures Valid() && mask == old(mask)
      ensures State() == Step(old(State()), PointerEvent.PointerUp)
    {
      dragging := false;
    }

    /** The `pointermove` handler, given the cell index the pointer position maps to. */
    method PointerMove(index: nat)
      requires Valid()
      modifies mask
      ensures Valid() && dragging == old(dragging)
      ensures State() == Step(old(State()), PointerEvent.PointerMove(index))
    {
      if dragging && index < AREA {
        mask[index] := true;
      }
    }
  }

  /** A client of the class: the press, move, release, move scenario. */
  method DragThenReleaseClient()
  {
    var card := new ScratchCard();
    card.PointerDown();
    card.PointerMove(45);
    card.PointerUp();
    card.PointerMove(50);
    assert card.mask[45] && !card.mask[50];
    assert card.mask[..] == Initial().mask[45 := true];
  }
}
