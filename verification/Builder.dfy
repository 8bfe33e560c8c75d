/**
 * The drag-and-drop payment builder (frontend/components/PaymentBuilder.tsx): a reducer over
 * past, present and future lists of recipients, and the keyboard reordering of the rows.
 */
module Builder {
  import opened Lists
  import opened Options

  datatype Token = Token(code: string, issuer: Option<string>)

  datatype Recipient = Recipient(id: string, address: string, amount: string, memo: string, token: Token)

  type Recipients = seq<Recipient>

  /** `Partial<BuilderRecipient>`: the fields an update sets. */
  datatype Patch = Patch(
    id: Option<string>, address: Option<string>, amount: Option<string>, memo: Option<string>,
    token: Option<Token>)

  /** The id of a recipient that ADD creates comes from the clock and a random source. */
  datatype Action =
    | Add(newId: string)
    | Remove(id: string)
    | Update(id: string, patch: Patch)
    | Reorder(recipients: Recipients)
    | Undo
    | Redo
    | SetRecipients(recipients: Recipients)

  const MAX_RECIPIENTS: nat := 10

  const XLM := Token("XLM", None)

  datatype History = History(past: seq<Recipients>, present: Recipients, future: seq<Recipients>)
  {
    function Push(next: Recipients): History {
      History(past + [present], next, [])
    }
  }

  function Patched(r: Recipient, p: Patch): Recipient {
    Recipient(p.id.GetOr(r.id), p.address.GetOr(r.address), p.amount.GetOr(r.amount), p.memo.GetOr(r.memo),
              p.token.GetOr(r.token))
  }

  function HasOtherId(id: string): Recipient -> bool {
    (r: Recipient) => r.id != id
  }

  function WithoutId(rs: Recipients, id: string): Recipients {
    Filter(rs, HasOtherId(id))
  }

  /** A set field takes its new value, an unset one keeps the old. */
  predicate TakesOver<T(==)>(update: Option<T>, before: T, after: T) {
    if update.Some? then after == update.value else after == before
  }

  /** The recipient with the id gets the fields the patch sets; every other one stays. */
  function UpdatedAt(rs: Recipients, id: string, p: Patch): (r: Recipients)
    ensures |r| == |rs|
    ensures forall i :: 0 <= i < |rs| && rs[i].id != id ==> r[i] == rs[i]
    ensures forall i :: 0 <= i < |rs| && rs[i].id == id ==>
              && TakesOver(p.id, rs[i].id, r[i].id) && TakesOver(p.address, rs[i].address, r[i].address)
              && TakesOver(p.amount, rs[i].amount, r[i].amount) && TakesOver(p.memo, rs[i].memo, r[i].memo)
              && TakesOver(p.token, rs[i].token, r[i].token)
  {
    seq(|rs|, i requires 0 <= i < |rs| => if rs[i].id == id then Patched(rs[i], p) else rs[i])
  }

  /** `builderReducer` */
  function Reduce(state: History, action: Action): History {
    match action
    case Add(newId) =>
      if |state.present| >= MAX_RECIPIENTS then state
      else state.Push(state.present + [Recipient(newId, "", "", "", XLM)])
    case Remove(id) =>
      if |state.present| <= 1 then state else state.Push(WithoutId(state.present, id))
    case Update(id, patch) => state.Push(UpdatedAt(state.present, id, patch))
    case Reorder(recipients) => state.Push(recipients)
    case SetRecipients(recipients) => state.Push(recipients)
    case Undo =>
      if |state.past| == 0 then state
      else
        History(state.past[..|state.past| - 1], state.past[|state.past| - 1], [state.present] + state.future)
    case Redo =>
      if |state.future| == 0 then state
      else History(state.past + [state.present], state.future[0], state.future[1..])
  }

  function Run(state: History, actions: seq<Action>): History
    decreases |actions|
  {
    if actions == [] then state else Reduce(Run(state, actions[..|actions| - 1]), actions[|actions| - 1])
  }

  /** Undo takes the last of the past, redo the first of the future; neither drops a list. */
  lemma UndoAndRedoExchange(state: History)
    ensures |state.past| > 0 ==>
              var next := Reduce(state, Undo);
              next.past + [next.present] == state.past && next.future == [state.present] + state.future
    ensures |state.future| > 0 ==>
              var next := Reduce(state, Redo);
              next.past == state.past + [state.present] && [next.present] + next.future == state.future
    ensures |state.past| == 0 ==> Reduce(state, Undo) == state
    ensures |state.future| == 0 ==> Reduce(state, Redo) == state
  {}

  /**
   * An edit keeps the shown list as the newest of the past and forgets the future. It is refused,
   * and changes nothing, exactly when it adds to ten recipients or removes from one.
   */
  lemma EditsPushOrRefuse(state: History, action: Action)
    requires !action.Undo? && !action.Redo?
    ensures var next := Reduce(state, action);
            && (next != state ==> next.past == state.past + [state.present] && next.future == [])
            && (next == state <==> (action.Add? && |state.present| >= 10) || (action.Remove? && |state.present| <= 1))
            && (action.Add? && |state.present| < 10 ==>
                  next.present == state.present + [Recipient(action.newId, "", "", "", Token("XLM", None))])
            && (action.Reorder? ==> next.present == action.recipients)
  {
    assert |state.Push(state.present).past| == |state.past| + 1;
  }

  // ----- A flat editor: all snapshots and a cursor -----

  datatype Editor = Editor(snapshots: seq<Recipients>, cursor: nat)
  {
    ghost predicate Valid() {
      cursor < |snapshots|
    }

    function Current(): Recipients
      requires Valid()
    {
      snapshots[cursor]
    }
  }

  /** The list an edit proposes, or None when it is rejected; Undo and Redo are no edits. */
  function Proposal(current: Recipients, action: Action): Option<Recipients> {
    match action
    case Add(newId) =>
      if |current| < MAX_RECIPIENTS then Some(current + [Recipient(newId, "", "", "", XLM)]) else None
    case Remove(id) => if |current| > 1 then Some(WithoutId(current, id)) else None
    case Update(id, patch) => Some(UpdatedAt(current, id, patch))
    case Reorder(recipients) => Some(recipients)
    case SetRecipients(recipients) => Some(recipients)
    case Undo => None
    case Redo => None
  }

  /**
   * Undo and redo move the cursor inside the list; an accepted edit drops what is after the
   * cursor and appends; a rejected one changes nothing.
   */
  function EditorStep(e: Editor, action: Action): (e': Editor)
    requires e.Valid()
    ensures e'.Valid()
  {
    match action
    case Undo => if e.cursor > 0 then e.(cursor := e.cursor - 1) else e
    case Redo => if e.cursor + 1 < |e.snapshots| then e.(cursor := e.cursor + 1) else e
    case _ =>
      match Proposal(e.Current(), action)
      case None => e
      case Some(next) => Editor(e.snapshots[..e.cursor + 1] + [next], e.cursor + 1)
  }

  function EditorRun(e: Editor, actions: seq<Action>): (e': Editor)
    requires e.Valid()
    ensures e'.Valid()
    decreases |actions|
  {
    if actions == [] then e else EditorStep(EditorRun(e, actions[..|actions| - 1]), actions[|actions| - 1])
  }

  function Flat(state: History): (e: Editor)
    ensures e.Valid() && e.Current() == state.present
  {
    Editor(state.past + [state.present] + state.future, |state.past|)
  }

  /** Nothing is lost in the flat view. */
  lemma FlatIsInjective(a: History, b: History)
    requires Flat(a) == Flat(b)
    ensures a == b
  {
    var n := |a.past|;
    assert a.past == Flat(a).snapshots[..n] == Flat(b).snapshots[..n] == b.past;
    assert a.future == Flat(a).snapshots[n + 1..] == Flat(b).snapshots[n + 1..] == b.future;
    assert a.present == Flat(a).Current() == Flat(b).Current() == b.present;
  }

  /** One reducer step is one editor step. */
  lemma ReduceRefinesEditor(state: History, action: Action)
    ensures Flat(Reduce(state, action)) == EditorStep(Flat(state), action)
  {
    var e, state' := Flat(state), Reduce(state, action);
    if action.Undo? && |state.past| > 0 {
      var n := |state.past| - 1;
      assert state.past == state.past[..n] + [state.past[n]];
      assert Flat(state').snapshots == e.snapshots;
    } else if action.Redo? && |state.future| > 0 {
      assert state.future == [state.future[0]] + state.future[1..];
      assert Flat(state').snapshots == e.snapshots;
    } else if Proposal(state.present, action).Some? {
      assert e.snapshots[..e.cursor + 1] == state.past + [state.present];
      assert state' == state.Push(Proposal(state.present, action).value);
      assert Flat(state').snapshots == state.past + [state.present] + [state'.present];
    }
  }

  /** Every run of the reducer is the same run of the flat editor. */
  lemma {:induction false} RunRefinesEditor(state: History, actions: seq<Action>)
    ensures Flat(Run(state, actions)) == EditorRun(Flat(state), actions)
    decreases |actions|
  {
    if actions != [] {
      var n := |actions| - 1;
      RunRefinesEditor(state, actions[..n]);
      ReduceRefinesEditor(Run(state, actions[..n]), actions[n]);
    }
  }

  function Repeat(action: Action, k: nat): seq<Action> {
    seq(k, _ => action)
  }

  lemma {:induction false} RunOfRepeat(state: History, action: Action, k: nat)
    ensures Run(state, Repeat(action, k + 1)) == Reduce(Run(state, Repeat(action, k)), action)
  {
    assert Repeat(action, k + 1)[..k] == Repeat(action, k);
  }

  /** k undos move the cursor back by k, or to the first snapshot. */
  lemma {:induction false} UndosMoveCursor(state: History, k: nat)
    ensures var e := Flat(state);
            Flat(Run(state, Repeat(Undo, k)))
            == e.(cursor := if k <= e.cursor then e.cursor - k else 0)
    decreases k
  {
    if k > 0 {
      var before := Run(state, Repeat(Undo, k - 1));
      UndosMoveCursor(state, k - 1);
      RunOfRepeat(state, Undo, k - 1);
      ReduceRefinesEditor(before, Undo);
      assert Flat(Run(state, Repeat(Undo, k))) == EditorStep(Flat(before), Undo);
    }
  }

  /** k redos move the cursor forward by k, or to the last snapshot. */
  lemma {:induction false} RedosMoveCursor(state: History, k: nat)
    ensures var e := Flat(state);
            var last := |e.snapshots| - 1;
            Flat(Run(state, Repeat(Redo, k))) == e.(cursor := if e.cursor + k <= last then e.cursor + k else last)
    decreases k
  {
    if k > 0 {
      var before := Run(state, Repeat(Redo, k - 1));
      RedosMoveCursor(state, k - 1);
      RunOfRepeat(state, Redo, k - 1);
      ReduceRefinesEditor(before, Redo);
      assert Flat(Run(state, Repeat(Redo, k))) == EditorStep(Flat(before), Redo);
    }
  }

  /**
   * k undos then k redos restore the whole state exactly when there are k steps to undo, or
   * nothing to redo; and the other way round.
   */
  lemma UndoRedoRestores(state: History, k: nat)
    ensures Run(Run(state, Repeat(Undo, k)), Repeat(Redo, k)) == state
            <==> k <= |state.past| || state.future == []
    ensures Run(Run(state, Repeat(Redo, k)), Repeat(Undo, k)) == state
            <==> k <= |state.future| || state.past == []
  {
    var e := Flat(state);
    var undone, redone := Run(state, Repeat(Undo, k)), Run(state, Repeat(Redo, k));
    UndosMoveCursor(state, k);
    RedosMoveCursor(undone, k);
    RedosMoveCursor(state, k);
    UndosMoveCursor(redone, k);
    var a, b := Run(undone, Repeat(Redo, k)), Run(redone, Repeat(Undo, k));
    if Flat(a) == e {
      FlatIsInjective(a, state);
    }
    if Flat(b) == e {
      FlatIsInjective(b, state);
    }
  }

  // ----- Size and identity of every snapshot -----

  ghost predicate DistinctIds(rs: Recipients) {
    forall i, j :: 0 <= i < j < |rs| ==> rs[i].id != rs[j].id
  }

  ghost predicate WellFormed(rs: Recipients) {
    1 <= |rs| <= MAX_RECIPIENTS && DistinctIds(rs)
  }

  ghost predicate AllWellFormed(e: Editor) {
    forall i :: 0 <= i < |e.snapshots| ==> WellFormed(e.snapshots[i])
  }

  /**
   * The actions the component dispatches: ids of new recipients are fresh in the list, updates
   * never set an id, and reordering permutes. SET_RECIPIENTS is never dispatched.
   */
  ghost predicate Admissible(current: Recipients, action: Action) {
    match action
    case Add(newId) => forall r :: r in current ==> r.id != newId
    case Update(_, patch) => patch.id.None?
    case Reorder(recipients) => multiset(recipients) == multiset(current)
    case SetRecipients(_) => false
    case _ => true
  }

  ghost predicate AdmissibleRun(state: History, actions: seq<Action>) {
    forall k :: 0 <= k < |actions| ==> Admissible(Run(state, actions[..k]).present, actions[k])
  }

  ghost function Ids(rs: Recipients): set<string> {
    set r | r in rs :: r.id
  }

  lemma {:induction false} DistinctIffAsManyIds(rs: Recipients)
    ensures |Ids(rs)| <= |rs|
    ensures DistinctIds(rs) <==> |Ids(rs)| == |rs|
    decreases |rs|
  {
    if rs != [] {
      var n := |rs| - 1;
      var front, last := rs[..n], rs[n];
      assert rs == front + [last];
      DistinctIffAsManyIds(front);
      assert Ids(rs) == Ids(front) + {last.id};
      if last.id in Ids(front) {
        var r :| r in front && r.id == last.id;
        assert Ids(rs) == Ids(front);
      }
    }
  }

  lemma PermutationKeepsWellFormed(rs: Recipients, next: Recipients)
    requires WellFormed(rs) && multiset(next) == multiset(rs)
    ensures WellFormed(next)
  {
    assert |next| == |multiset(next)| == |rs|;
    assert forall r :: r in next <==> r in multiset(next);
    assert forall r :: r in rs <==> r in multiset(rs);
    assert Ids(next) == Ids(rs);
    DistinctIffAsManyIds(rs);
    DistinctIffAsManyIds(next);
  }

  /** Removing an id keeps exactly the recipients with other ids, in their order. */
  lemma WithoutIdKeepsOthers(rs: Recipients, id: string) returns (at: seq<nat>)
    ensures |at| == |WithoutId(rs, id)|
    ensures forall k :: 0 <= k < |at| ==> at[k] < |rs| && rs[at[k]].id != id && WithoutId(rs, id)[k] == rs[at[k]]
    ensures forall k, l :: 0 <= k < l < |at| ==> at[k] < at[l]
    ensures forall i: nat :: i < |rs| && rs[i].id != id ==> i in at
    ensures DistinctIds(rs) ==> DistinctIds(WithoutId(rs, id))
  {
    at := FilterKeepsInOrder(rs, HasOtherId(id));
  }

  /** Removing an id takes out at most one recipient, the one with that id. */
  lemma WithoutIdRemovesOne(rs: Recipients, id: string)
    requires DistinctIds(rs)
    ensures DistinctIds(WithoutId(rs, id))
    ensures |WithoutId(rs, id)| == |rs| - if id in Ids(rs) then 1 else 0
  {
    var at := WithoutIdKeepsOthers(rs, id);
    FilterMembers(rs, HasOtherId(id));
    DistinctIffAsManyIds(rs);
    DistinctIffAsManyIds(WithoutId(rs, id));
    assert Ids(WithoutId(rs, id)) == Ids(rs) - {id};
  }

  lemma ProposalIsWellFormed(current: Recipients, action: Action)
    requires WellFormed(current) && Admissible(current, action)
    requires Proposal(current, action).Some?
    ensures WellFormed(Proposal(current, action).value)
  {
    match action
    case Add(_) =>
    case Remove(id) => WithoutIdRemovesOne(current, id);
    case Update(id, patch) =>
    case Reorder(recipients) => PermutationKeepsWellFormed(current, recipients);
  }

  /** Over any admissible run, every snapshot - past, present and future - stays well-formed. */
  lemma {:induction false} EverySnapshotStaysWellFormed(state: History, actions: seq<Action>)
    requires AllWellFormed(Flat(state)) && AdmissibleRun(state, actions)
    ensures AllWellFormed(Flat(Run(state, actions)))
    decreases |actions|
  {
    if actions != [] {
      var n := |actions| - 1;
      assert forall k :: 0 <= k < n ==> actions[..n][..k] == actions[..k];
      EverySnapshotStaysWellFormed(state, actions[..n]);
      StepKeepsWellFormed(Run(state, actions[..n]), actions[n]);
    }
  }

  lemma StepKeepsWellFormed(state: History, action: Action)
    requires AllWellFormed(Flat(state)) && Admissible(state.present, action)
    ensures AllWellFormed(Flat(Reduce(state, action)))
  {
    ReduceRefinesEditor(state, action);
    assert state.present == Flat(state).snapshots[|state.past|];
    if Proposal(state.present, action).Some? {
      ProposalIsWellFormed(state.present, action);
    }
  }

  /** Size bound and distinct ids, spelled out for the three parts of the state. */
  lemma SnapshotsAreBoundedAndDistinct(state: History, actions: seq<Action>, rs: Recipients)
    requires AllWellFormed(Flat(state)) && AdmissibleRun(state, actions)
    requires var state' := Run(state, actions); rs in state'.past || rs == state'.present || rs in state'.future
    ensures 1 <= |rs| <= 10
    ensures forall i, j :: 0 <= i < |rs| && 0 <= j < |rs| && rs[i].id == rs[j].id ==> i == j
  {
    EverySnapshotStaysWellFormed(state, actions);
    var state' := Run(state, actions);
    assert rs in Flat(state').snapshots;
  }

  // ----- Keyboard reordering -----

  datatype Key = Space | Enter | ArrowUp | ArrowDown | Escape | OtherKey

  function Swapped(rs: Recipients, i: nat, j: nat): (r: Recipients)
    requires i < |rs| && j < |rs|
  {
    rs[i := rs[j]][j := rs[i]]
  }

  /** Takes the row out and puts it back one place further: two splices on a copy. */
  method MoveRow(rs: Recipients, index: nat, target: nat) returns (next: Recipients)
    requires index < |rs| && target < |rs| && (target == index + 1 || target + 1 == index)
    ensures next == Swapped(rs, index, target)
  {
    next := rs;
    var item := next[index];
    next := next[..index] + next[index + 1..];
    next := next[..target] + [item] + next[target..];
  }

  /** An arrow key moves the row at `index` when some row is picked up and there is room. */
  predicate Moves(rs: Recipients, pickedUp: Option<nat>, key: Key, index: nat) {
    pickedUp.Some? && ((key == ArrowUp && index > 0) || (key == ArrowDown && index + 1 < |rs|))
  }

  function Target(key: Key, index: nat): nat
    requires key == ArrowUp ==> index > 0
  {
    if key == ArrowUp then index - 1 else index + 1
  }

  class PaymentBuilder {
    var state: History
    var pickedUpIndex: Option<nat>

    /** Without initial recipients the list starts with one empty row. */
    constructor (initial: Recipients, newId: string)
      ensures state.past == [] && state.future == [] && pickedUpIndex == None
      ensures initial != [] ==> state.present == initial
      ensures initial == [] ==> state.present == [Recipient(newId, "", "", "", XLM)]
    {
      state := History([], if |initial| > 0 then initial else [Recipient(newId, "", "", "", XLM)], []);
      pickedUpIndex := None;
    }

    /** `handleDragHandleKeyDown` on the handle of the row at `index`. */
    method HandleDragHandleKeyDown(key: Key, index: nat)
      requires index < |state.present|
      modifies this
      ensures Moves(old(state).present, old(pickedUpIndex), key, index) ==>
                var target := Target(key, index);
                && state == Reduce(old(state), Reorder(Swapped(old(state).present, index, target)))
                && pickedUpIndex == Some(target)
                && state.present[target] == old(state).present[index]
      ensures !Moves(old(state).present, old(pickedUpIndex), key, index) ==>
                && state == old(state)
                && pickedUpIndex == match key {
                     case Space | Enter => if old(pickedUpIndex) == None then Some(index) else None
                     case Escape => None
                     case _ => old(pickedUpIndex)
                   }
    {
      if key == Space || key == Enter {
        if pickedUpIndex == None {
          pickedUpIndex := Some(index);
        } else {
          pickedUpIndex := None;
        }
      } else if pickedUpIndex != None {
        if key == ArrowUp {
          if index > 0 {
            var next := MoveRow(state.present, index, index - 1);
            state := Reduce(state, Reorder(next));
            pickedUpIndex := Some(index - 1);
          }
        } else if key == ArrowDown {
          if index + 1 < |state.present| {
            var next := MoveRow(state.present, index, index + 1);
            state := Reduce(state, Reorder(next));
            pickedUpIndex := Some(index + 1);
          }
        } else if key == Escape {
          pickedUpIndex := None;
        }
      }
    }

    /** Moving the picked-up row and pressing the opposite key at its new place restores the list. */
    method MoveThereAndBack(key: Key, index: nat)
      requires index < |state.present| && Moves(state.present, pickedUpIndex, key, index)
      modifies this
      ensures state.present == old(state).present && pickedUpIndex == Some(index)
      ensures |state.past| == |old(state).past| + 2
    {
      var target := Target(key, index);
      SwapIsPermutation(state.present, index, target);
      HandleDragHandleKeyDown(key, index);
      HandleDragHandleKeyDown(if key == ArrowUp then ArrowDown else ArrowUp, target);
    }
  }

  /** A swap permutes, is undone by the opposite swap, and is therefore an admissible reorder. */
  lemma SwapIsPermutation(rs: Recipients, i: nat, j: nat)
    requires i < |rs| && j < |rs|
    ensures |Swapped(rs, i, j)| == |rs| && Swapped(rs, i, j)[i] == rs[j] && Swapped(rs, i, j)[j] == rs[i]
    ensures forall k :: 0 <= k < |rs| && k != i && k != j ==> Swapped(rs, i, j)[k] == rs[k]
    ensures multiset(Swapped(rs, i, j)) == multiset(rs)
    ensures Swapped(Swapped(rs, i, j), j, i) == rs
    ensures Admissible(rs, Reorder(Swapped(rs, i, j)))
  {
    assert Swapped(Swapped(rs, i, j), j, i) == rs;
  }
}
