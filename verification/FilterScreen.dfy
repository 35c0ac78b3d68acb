/** The screen that edits a filter: a list of buttons, one for each step, and a last one that
    adds a step. Every button knows its position in the list. */
module FilterScreen {
  import opened FilterSteps
  import opened Texts

  // --- What the keys do to the steps -------------------------------------------------------

  datatype Key = DeleteKey | UpKey | DownKey

  function Dropped(s: seq<Step>, i: nat): seq<Step> { if i < |s| then s[..i] + s[i + 1..] else s }

  function MovedUp(s: seq<Step>, i: nat): seq<Step> { if 0 < i < |s| then s[i - 1 := s[i]][i := s[i - 1]] else s }

  function Pressed(s: seq<Step>, key: Key, i: nat): seq<Step> {
    match key
    case DeleteKey => Dropped(s, i)
    case UpKey => MovedUp(s, i)
    case DownKey => MovedUp(s, i + 1)
  }

  /** The keys on the button of step y, after step x: DELETE takes out y alone, UP puts it before
      x, and DOWN on x does the same. At the ends of the list moving does nothing. */
  lemma KeysMean(a: seq<Step>, x: Step, y: Step, b: seq<Step>)
    ensures var s, i := a + [x, y] + b, |a| + 1;
      Pressed(s, DeleteKey, i) == a + [x] + b && Pressed(s, UpKey, i) == a + [y, x] + b &&
      Pressed(s, DownKey, i - 1) == a + [y, x] + b && Pressed(s, UpKey, 0) == s && Pressed(s, DownKey, |s| - 1) == s
  {
    var s, i := a + [x, y] + b, |a| + 1;
    assert Pressed(s, UpKey, i) == a + [y, x] + b;
  }

  /** Moving a step down takes back moving it up, and moving keeps the steps there are. */
  lemma UpThenDown(s: seq<Step>, i: nat)
    requires 0 < i < |s|
    ensures Pressed(Pressed(s, UpKey, i), DownKey, i - 1) == s
    ensures multiset(MovedUp(s, i)) == multiset(s)
  {
  }

  /** Adding a step at the end, where the Add button has it, and deleting it changes nothing. */
  lemma AddThenDelete(s: seq<Step>, step: Step)
    ensures Pressed(s + [step], DeleteKey, |s|) == s
  {
  }

  // One thing done on the screen: a key pressed on the i-th button, or a step added.
  datatype Edit = Press(key: Key, i: nat) | AddStep(step: Step)

  function Edited(s: seq<Step>, edit: Edit): seq<Step> {
    match edit
    case Press(key, i) => Pressed(s, key, i)
    case AddStep(step) => s + [step]
  }

  function RunOf(s: seq<Step>, edits: seq<Edit>): seq<Step> {
    if edits == [] then s else Edited(RunOf(s, edits[..|edits| - 1]), edits[|edits| - 1])
  }

  lemma EditKeepsSavable(s: seq<Step>, edit: Edit)
    requires AllSavable(s) && (edit.AddStep? ==> Savable(edit.step))
    ensures AllSavable(Edited(s, edit))
  {
    hide Savable;
  }

  lemma {:induction false} RunKeepsSavable(s: seq<Step>, edits: seq<Edit>)
    requires AllSavable(s) && forall k :: 0 <= k < |edits| && edits[k].AddStep? ==> Savable(edits[k].step)
    ensures AllSavable(RunOf(s, edits))
  {
    hide Savable;
    if edits != [] {
      RunKeepsSavable(s, edits[..|edits| - 1]);
      EditKeepsSavable(RunOf(s, edits[..|edits| - 1]), edits[|edits| - 1]);
    }
  }

  /** Whatever filter the screen was opened for, and whatever was done on it since with the
      steps that it can make, saving it and reading it again gives the same steps, without the
      fields that they do not use. */
  lemma RunComesBack(filter: string, edits: seq<Edit>)
    requires Bytes(filter) && forall k :: 0 <= k < |edits| && edits[k].AddStep? ==> Savable(edits[k].step)
    ensures var steps := RunOf(StepsOf(filter), edits); StepsOf(FilterText(steps)) == UsedAll(steps)
  {
    hide StepsOf, FilterText, UsedAll;
    StepsOfSavable(filter);
    RunKeepsSavable(StepsOf(filter), edits);
    FilterRoundTrip(RunOf(StepsOf(filter), edits));
  }

  // --- The screen --------------------------------------------------------------------------

  class Button {
    const isAddButton: bool
    var step: Step
    var row: int
    var myPos: Cell?

    constructor (isAdd: bool, s: Step)
      ensures isAddButton == isAdd && step == s && myPos == null
    {
      isAddButton, step, row, myPos := isAdd, s, 0, null;
    }
  }

  // A place in the list of buttons.
  class Cell {
    var button: Button

    constructor (b: Button)
      ensures button == b
    {
      button := b;
    }
  }

  const FIRST_ROW := 3

  ghost function Exchanged(i: nat, j: nat): int { if j == i then i - 1 else if j == i - 1 then i else j }

  class EditScreen {
    var buttons: seq<Cell>
    var saveRow: int

    // The cells and buttons in use, and the steps that the buttons show.
    ghost var objects: set<object>
    ghost var steps: seq<Step>

    // Every button knows its place, and the places are distinct.
    ghost predicate Linked()
      reads this`buttons, this`objects, objects
    {
      this !in objects &&
      (forall i, j :: 0 <= i < j < |buttons| ==> buttons[i] != buttons[j]) &&
      (forall i :: 0 <= i < |buttons| ==> buttons[i] in objects && buttons[i].button in objects) &&
      (forall i :: 0 <= i < |buttons| ==> buttons[i].button.myPos == buttons[i])
    }

    // The first buttons have these steps.
    ghost predicate Holds(s: seq<Step>)
      requires |s| <= |buttons| && Linked()
      reads this`buttons, this`objects, objects
    {
      forall i :: 0 <= i < |s| ==> !buttons[i].button.isAddButton && buttons[i].button.step == s[i]
    }

    ghost predicate Rowed()
      requires Linked()
      reads this`buttons, this`objects, objects
    {
      forall i :: 0 <= i < |buttons| ==> buttons[i].button.row == FIRST_ROW + i
    }

    // There is one Add button, and it is the last; rows follow the list, and the Save button
    // comes after a blank row.
    ghost predicate Valid()
      reads this, objects
    {
      Linked() && |buttons| == |steps| + 1 && Holds(steps) && buttons[|steps|].button.isAddButton && Rowed() &&
      saveRow == FIRST_ROW + |buttons| + 1
    }

    /** A screen for a saved filter. */
    constructor (filter: string)
      ensures Valid() && fresh(objects) && steps == StepsOf(filter)
    {
      buttons, saveRow, objects, steps := [], 0, {}, [];
      new;
      Init(filter);
    }

    method Init(filter: string)
      requires buttons == [] && objects == {} && steps == []
      modifies this
      ensures Valid() && fresh(objects) && steps == StepsOf(filter)
    {
      hide StepsOf;
      ReadSteps(filter);
      PushButton(true, NO_STEP);
      NumberRows();
      saveRow := FIRST_ROW + |buttons| + 1;
    }

    // A button for each line of the saved filter.
    method ReadSteps(filter: string)
      requires buttons == [] && objects == {} && steps == []
      modifies this`buttons, this`objects, this`steps
      ensures Linked() && fresh(objects) && |buttons| == |steps| && Holds(steps) && steps == StepsOf(filter)
    {
      hide StepsOf, StepOf;
      var s, b := 0, 0;
      assert filter[0..] == filter;
      while b < |filter|
        invariant s <= b <= |filter|
        invariant '\n' !in filter[s..b]
        invariant steps + StepsOf(filter[s..]) == StepsOf(filter)
        invariant Linked() && fresh(objects) && |buttons| == |steps| && Holds(steps)
      {
        if filter[b] != '\n' {
          NoBreakYet(filter, s, b);
          b := b + 1;
        } else {
          StepRead(filter, s, b);
          var step := StepOf(filter[s..b]);
          b := b + 1;
          s := b;
          PushButton(false, step);
          steps := steps + [step];
        }
      }
      StepsEnd(filter, s);
    }

    // A new button at the end of the list.
    method PushButton(isAdd: bool, step: Step)
      requires Linked()
      modifies this`buttons, this`objects
      ensures Linked() && fresh(objects - old(objects)) && |buttons| == old(|buttons|) + 1
      ensures buttons[..|buttons| - 1] == old(buttons) && old(objects) <= objects
      ensures var b := buttons[|buttons| - 1].button; b.isAddButton == isAdd && b.step == step
    {
      var b := new Button(isAdd, step);
      var c := new Cell(b);
      buttons := buttons + [c];
      objects := objects + {c, b};
      b.myPos := c;
    }

    method NumberRows()
      requires Linked() && |buttons| == |steps| + 1 && Holds(steps) && buttons[|steps|].button.isAddButton
      modifies objects
      ensures Linked() && Holds(steps) && Rowed() && buttons[|steps|].button.isAddButton
    {
      var row, i := FIRST_ROW, 0;
      while i < |buttons|
        invariant i <= |buttons| && row == FIRST_ROW + i && Linked() && Holds(steps) && buttons[|steps|].button.isAddButton
        invariant forall j :: 0 <= j < i ==> buttons[j].button.row == FIRST_ROW + j
      {
        buttons[i].button.row := row;
        row := row + 1;
        i := i + 1;
      }
    }

    /** What is saved. */
    method Text() returns (filter: string)
      requires Valid()
      ensures filter == FilterText(steps)
    {
      filter := "";
      var b := 0;
      while b < |buttons|
        invariant b <= |buttons|
        invariant filter == FilterText(steps[..if b < |buttons| then b else b - 1])
      {
        if !buttons[b].button.isAddButton {
          AppendStep(steps, b);
          filter := filter + StepText(buttons[b].button.step);
          filter := filter + "\n";
        }
        b := b + 1;
      }
      assert steps[..|steps|] == steps;
    }

    /** A new step, before the Add button. */
    method Add(newStep: Step)
      requires Valid()
      modifies this, objects
      ensures Valid() && fresh(objects - old(objects))
      ensures steps == old(steps) + [newStep]
    {
      var addButton := buttons[|buttons| - 1];
      saveRow := saveRow + 1;
      InsertStep(newStep);
      addButton.button.row := addButton.button.row + 1;
    }

    // The new button gets the row of the Add button.
    method InsertStep(newStep: Step)
      requires Linked() && |buttons| == |steps| + 1 && Holds(steps) && buttons[|steps|].button.isAddButton && Rowed()
      modifies this`buttons, this`objects, this`steps
      ensures fresh(objects - old(objects)) && old(objects) <= objects && steps == old(steps) + [newStep]
      ensures Linked() && |buttons| == |steps| + 1 && Holds(steps)
      ensures buttons[|steps|] == old(buttons[|steps|]) && buttons[|steps|].button.isAddButton
      ensures forall i :: 0 <= i < |steps| ==> buttons[i].button.row == FIRST_ROW + i
      ensures buttons[|steps|].button.row == FIRST_ROW + |steps| - 1
    {
      var n := |buttons| - 1;
      var c := NewPlace(newStep, buttons[n].button.row);
      InsertBefore(n, c);
      steps := steps + [newStep];
    }

    // A place with a new button for a step.
    method NewPlace(step: Step, row: int) returns (c: Cell)
      ensures fresh(c) && fresh(c.button) && c.button.myPos == c
      ensures !c.button.isAddButton && c.button.step == step && c.button.row == row
    {
      var newButton := new Button(false, step);
      c := new Cell(newButton);
      newButton.myPos := c;
      newButton.row := row;
    }

    // Where a place is in the list.
    method Find(p: Cell) returns (i: nat)
      requires p in buttons
      ensures i < |buttons| && buttons[i] == p
    {
      i := 0;
      while buttons[i] != p
        invariant i < |buttons| && p !in buttons[..i]
        decreases |buttons| - i
      {
        i := i + 1;
      }
    }

    /** A key pressed on a button goes to the place that the button knows. */
    method ProcessKeyInFocus(b: Button, key: Key, ghost i: nat)
      requires Valid() && i < |buttons| && buttons[i].button == b
      modifies this, objects
      ensures Valid() && objects == old(objects)
      ensures steps == Pressed(old(steps), key, i)
    {
      match key
      case DeleteKey => Del(b.myPos, i);
      case UpKey => MoveUp(b.myPos, i);
      case DownKey => MoveDown(b.myPos, i);
    }

    method Del(p: Cell, ghost at: nat)
      requires Valid() && at < |buttons| && buttons[at] == p
      modifies this, objects
      ensures Valid() && objects == old(objects)
      ensures steps == Dropped(old(steps), at)
    {
      if p.button.isAddButton {
        return;
      }
      var i := Find(p);
      assert i == at;
      Remove(i);
    }

    method Remove(i: nat)
      requires Valid() && i < |steps|
      modifies this, objects
      ensures Valid() && objects == old(objects)
      ensures steps == Dropped(old(steps), i)
    {
      Erase(i);
      RaiseRows(i);
      saveRow := saveRow - 1;
    }

    // The buttons from i on go up by one row.
    method RaiseRows(i: nat)
      requires Linked() && |buttons| == |steps| + 1 && Holds(steps) && i <= |steps| && buttons[|steps|].button.isAddButton
      requires forall j :: 0 <= j < |buttons| ==> buttons[j].button.row == FIRST_ROW + if j < i then j else j + 1
      modifies objects
      ensures Linked() && Holds(steps) && Rowed() && buttons[|steps|].button.isAddButton
    {
      var q := i;
      while q < |buttons|
        invariant i <= q <= |buttons| && Linked() && Holds(steps) && buttons[|steps|].button.isAddButton
        invariant forall j :: 0 <= j < |buttons| ==> buttons[j].button.row == FIRST_ROW + if j < q then j else j + 1
      {
        buttons[q].button.row := buttons[q].button.row - 1;
        q := q + 1;
      }
    }

    // A place is taken out of the list.
    method Erase(i: nat)
      requires Linked() && |buttons| == |steps| + 1 && Holds(steps) && i < |steps|
      requires buttons[|steps|].button.isAddButton && Rowed()
      modifies this`buttons, this`steps
      ensures Linked() && |buttons| == |steps| + 1 && Holds(steps) && buttons[|steps|].button.isAddButton
      ensures steps == Dropped(old(steps), i)
      ensures forall j :: 0 <= j < |buttons| ==> buttons[j].button.row == FIRST_ROW + if j < i then j else j + 1
    {
      TakeOut(i);
      steps := steps[..i] + steps[i + 1..];
    }

    method TakeOut(i: nat)
      requires Linked() && i < |buttons|
      modifies this`buttons
      ensures Linked() && |buttons| == old(|buttons|) - 1
      ensures forall j :: 0 <= j < |buttons| ==> buttons[j] == old(buttons)[if j < i then j else j + 1]
    {
      buttons := buttons[..i] + buttons[i + 1..];
    }

    method MoveUp(p: Cell, ghost at: nat)
      requires Valid() && at < |buttons| && buttons[at] == p
      modifies objects, this`steps
      ensures Valid() && buttons == old(buttons) && objects == old(objects)
      ensures steps == MovedUp(old(steps), at)
    {
      DoMoveUp(p, at);
    }

    method MoveDown(p: Cell, ghost at: nat)
      requires Valid() && at < |buttons| && buttons[at] == p
      modifies objects, this`steps
      ensures Valid() && buttons == old(buttons) && objects == old(objects)
      ensures steps == MovedUp(old(steps), at + 1)
    {
      var i := Find(p);
      var q := i + 1;
      if q < |buttons| {
        DoMoveUp(buttons[q], q);
      }
    }

    // The buttons of a place and the one before it change places: the places stay, and
    // get each other's button.
    method DoMoveUp(p: Cell, ghost at: nat)
      requires Valid() && at < |buttons| && buttons[at] == p
      modifies objects, this`steps
      ensures Valid() && buttons == old(buttons) && objects == old(objects)
      ensures steps == MovedUp(old(steps), at)
    {
      var i := Find(p);
      if p.button.isAddButton || i == 0 {
        return;
      }
      var q := buttons[i - 1];
      SwapSteps(p, q, i);
      SwapRows(p, q, i);
    }

    method SwapRows(p: Cell, q: Cell, ghost i: nat)
      requires Linked() && 0 < i < |buttons| && buttons[i] == p && buttons[i - 1] == q
      requires forall j :: 0 <= j < |buttons| ==> buttons[j].button.row == FIRST_ROW + Exchanged(i, j)
      modifies p.button`row, q.button`row
      ensures Linked() && Rowed()
    {
      q.button.row := q.button.row - 1;
      p.button.row := p.button.row + 1;
    }

    // The rows are still those that the buttons had.
    method SwapSteps(p: Cell, q: Cell, ghost i: nat)
      requires Valid() && 0 < i < |steps| && buttons[i] == p && buttons[i - 1] == q
      modifies p`button, q`button, p.button`myPos, q.button`myPos, this`steps
      ensures Linked() && steps == MovedUp(old(steps), i) && Holds(steps) && buttons[|steps|].button.isAddButton
      ensures forall j :: 0 <= j < |buttons| ==> buttons[j].button.row == FIRST_ROW + Exchanged(i, j)
    {
      SwapButtons(p, q, i);
      steps := MovedUp(steps, i);
    }

    method SwapButtons(p: Cell, q: Cell, ghost i: nat)
      requires Linked() && 0 < i < |buttons| && buttons[i] == p && buttons[i - 1] == q
      modifies p`button, q`button, p.button`myPos, q.button`myPos
      ensures Linked() && p.button == old(q.button) && q.button == old(p.button)
      ensures forall j :: 0 <= j < |buttons| && j != i && j != i - 1 ==> buttons[j].button == old(buttons[j].button)
    {
      var r := p.button;
      p.button := q.button;
      q.button := r;
      p.button.myPos := p;
      q.button.myPos := q;
    }

    // A place is put into the list.
    method InsertBefore(n: nat, c: Cell)
      requires Linked() && n < |buttons| && c !in objects && c.button !in objects && c.button.myPos == c
      requires this as object !in {c, c.button}
      modifies this`buttons, this`objects
      ensures Linked() && buttons == old(buttons[..n] + [c] + buttons[n..]) && objects == old(objects) + {c, c.button}
    {
      buttons := buttons[..n] + [c] + buttons[n..];
      objects := objects + {c, c.button};
    }
  }

  lemma NoBreakYet(filter: string, s: nat, b: nat)
    requires s <= b < |filter| && '\n' !in filter[s..b] && filter[b] != '\n'
    ensures '\n' !in filter[s..b + 1]
  {
    assert filter[s..b + 1] == filter[s..b] + [filter[b]];
  }

  lemma StepRead(filter: string, s: nat, b: nat)
    requires s <= b < |filter| && '\n' !in filter[s..b] && filter[b] == '\n'
    ensures StepsOf(filter[s..]) == [StepOf(filter[s..b])] + StepsOf(filter[b + 1..])
  {
    hide StepsOf, StepOf;
    assert filter[s..] == filter[s..b] + "\n" + filter[b + 1..];
    FirstStep(filter[s..b], filter[b + 1..]);
  }

  lemma StepsEnd(filter: string, s: nat)
    requires s <= |filter| && '\n' !in filter[s..]
    ensures StepsOf(filter[s..]) == []
  {
    var t := filter[s..];
    assert LineEnd(t) < |t| ==> t[LineEnd(t)] in t;
  }

  lemma {:induction false} AppendStep(steps: seq<Step>, n: nat)
    requires n < |steps|
    ensures FilterText(steps[..n + 1]) == FilterText(steps[..n]) + StepText(steps[n]) + "\n"
  {
    assert steps[..n + 1] == steps[..n] + [steps[n]];
    TextConcat(steps[..n], steps[n]);
  }

  lemma {:induction false} TextConcat(steps: seq<Step>, step: Step)
    ensures FilterText(steps + [step]) == FilterText(steps) + StepText(step) + "\n"
  {
    hide StepText;
    if steps == [] {
      assert [step][1..] == [] && [] + [step] == [step];
      assert FilterText([step]) == StepText(step) + "\n" + FilterText([]);
    } else {
      TextConcat(steps[1..], step);
      assert (steps + [step])[1..] == steps[1..] + [step] && (steps + [step])[0] == steps[0];
    }
  }

  /** Saving a filter and opening the screen again shows the same steps, without the fields
      that they do not use, exactly when no tag has a line break in its name. */
  method Reopen(screen: EditScreen) returns (again: EditScreen)
    requires screen.Valid() && GoodSteps(screen.steps)
    ensures again.Valid() && fresh(again)
    ensures again.steps == UsedAll(screen.steps) <==> forall i :: 0 <= i < |screen.steps| ==> !BreaksLine(screen.steps[i])
  {
    hide StepsOf, FilterText;
    var filter := screen.Text();
    FilterRoundTrip(screen.steps);
    again := new EditScreen(filter);
  }
}
