/** The editor multi-part-stack presenter: the ordered list of editor part
    stacks (one per split region of the editor area), the active editor and
    the active stack, and the transitions that add, activate and remove
    parts. The presenter is modelled as an immutable record and each of its
    mutating methods as a function from the old record to the new one. */
module EditorMultiPartStack {
  import opened Wrappers
  import opened Scan
  import opened PartStack
  import opened Lookups

  /** A placement constraint: the tab id of the part to split next to, and
      the side, which only the view interprets. */
  datatype Constraint = Constraint(relativeId: string, placement: string)

  /** The calls the presenter makes on its view, kept as a log. */
  datatype ViewCall =
    | ViewAdd(stack: StackId, relative: Option<StackId>, constraint: Option<Constraint>)
    | ViewRemove(stack: StackId)

  /** The one way a presenter call can fail: dereferencing the `null` that
      the stack lookup returns for a part no stack contains. */
  datatype Fault = NullPartStack

  /** Presenter state. `activeStack` names the active stack by id;
      `nextId` is the next id the stack factory hands out. */
  datatype Presenter = Presenter(
    stacks: seq<Stack>,
    activeEditor: Option<Part>,
    activeStack: Option<StackId>,
    nextId: StackId,
    view: seq<ViewCall>)

  /** The ids of `stacks`, in list order. */
  function Ids(stacks: seq<Stack>): seq<StackId> {
    seq(|stacks|, i requires 0 <= i < |stacks| => stacks[i].id)
  }

  /** Ids in a list of stacks are distinct, all below `nextId`, and the
      active id, when set, is one of them. */
  ghost predicate IdsValid(ids: seq<StackId>, active: Option<StackId>, nextId: StackId) {
    && (forall i, j | 0 <= i < j < |ids| :: ids[i] != ids[j])
    && (forall k | 0 <= k < |ids| :: ids[k] < nextId)
    && (active.Some? ==> active.value in ids)
  }

  /** The presenter's invariant: stacks are distinct objects, all made by
      the factory so far, and the active stack, when set, is in the list. */
  ghost predicate Valid(st: Presenter) {
    IdsValid(Ids(st.stacks), st.activeStack, st.nextId)
  }

  /** Taking one stack out of a valid list, and forgetting the active stack
      exactly when it was that one, keeps the ids valid. */
  lemma {:induction false} IdsValidWithout(ids: seq<StackId>, active: Option<StackId>, nextId: StackId, i: nat)
    requires i < |ids| && IdsValid(ids, active, nextId)
    ensures IdsValid(ids[..i] + ids[i + 1..], if active == Some(ids[i]) then None else active, nextId)
  {
    var rest := ids[..i] + ids[i + 1..];
    assert forall j | 0 <= j < |rest| :: rest[j] == ids[if j < i then j else j + 1];
    if active.Some? && active != Some(ids[i]) {
      var k :| 0 <= k < |ids| && ids[k] == active.value;
      assert rest[if k < i then k else k - 1] == active.value;
    }
  }

  /** In a valid presenter no two stacks share an id. */
  lemma ValidDistinct(st: Presenter)
    requires Valid(st)
    ensures forall i, j | 0 <= i < j < |st.stacks| :: st.stacks[i].id != st.stacks[j].id
  {
    forall i, j | 0 <= i < j < |st.stacks|
      ensures st.stacks[i].id != st.stacks[j].id
    {
      assert Ids(st.stacks)[i] != Ids(st.stacks)[j];
    }
  }

  /** Taking a stack out of the list takes its id out of the ids. */
  lemma IdsOfWithout(stacks: seq<Stack>, i: nat)
    requires i < |stacks|
    ensures Ids(Without(stacks, i)) == Ids(stacks)[..i] + Ids(stacks)[i + 1..]
  {
  }

  /** The freshly constructed presenter. */
  function Init(): (st: Presenter)
    ensures Valid(st)
    ensures |st.stacks| == 0 && st.activeEditor.None? && st.activeStack.None?
  {
    Presenter([], None, None, 0, [])
  }

  /** `i` is the first stack in the list whose id is `id`: `Scan.IsFirst`
      with the id test written out, so that quantifiers over it have a
      trigger of their own. */
  ghost predicate FirstWithId(stacks: seq<Stack>, id: StackId, i: int) {
    && 0 <= i < |stacks|
    && stacks[i].id == id
    && forall j | 0 <= j < i :: stacks[j].id != id
  }

  /** Position of the stack with id `id`. */
  function IndexOfId(stacks: seq<Stack>, id: StackId): (r: Option<nat>)
    ensures r.Some? <==> id in Ids(stacks)
    ensures r.Some? ==> FirstWithId(stacks, id, r.value)
  {
    var r := FirstIndex(stacks, (s: Stack) => s.id == id);
    assert r.None? ==> id !in Ids(stacks);
    assert r.Some? ==> Ids(stacks)[r.value] == id;
    r
  }

  /** `stacks` with position `i` taken out. */
  function Without(stacks: seq<Stack>, i: nat): seq<Stack>
    requires i < |stacks|
  {
    stacks[..i] + stacks[i + 1..]
  }

  /** `addEditorPartStack`: the factory makes a new stack, it is appended to
      the list and to the view, and `part` is added to it. */
  function AddEditorPartStack(st: Presenter, ops: StackOps, part: Part,
                              relative: Option<StackId>, constraint: Option<Constraint>): (r: Presenter)
    requires ops.Valid()
    ensures |r.stacks| == |st.stacks| + 1
    ensures r.stacks[..|st.stacks|] == st.stacks
    ensures r.stacks[|st.stacks|] == ops.add(NewStack(st.nextId), part)
    ensures r.stacks[|st.stacks|].id == st.nextId && r.stacks[|st.stacks|].Contains(part)
    ensures r.activeEditor == st.activeEditor && r.activeStack == st.activeStack
    ensures r.nextId == st.nextId + 1
    ensures r.view == st.view + [ViewAdd(st.nextId, relative, constraint)]
    ensures Valid(st) ==> Valid(r) && st.nextId !in Ids(st.stacks)
  {
    var created := NewStack(st.nextId);
    var r := st.(stacks := st.stacks + [ops.add(created, part)],
                 nextId := st.nextId + 1,
                 view := st.view + [ViewAdd(created.id, relative, constraint)]);
    assert Ids(r.stacks) == Ids(st.stacks) + [st.nextId];
    r
  }

  /** `addPart(part)`: with an active stack, the part goes to that stack and
      the list keeps its stacks and order; without one, exactly one new stack
      holding the part is appended and the active stack stays unset. */
  function AddPart(st: Presenter, ops: StackOps, part: Part): (r: Presenter)
    requires ops.Valid() && Valid(st)
    ensures Valid(r)
    ensures r.activeEditor == st.activeEditor && r.activeStack == st.activeStack
    ensures st.activeStack.Some? ==>
      && Ids(r.stacks) == Ids(st.stacks)
      && r.view == st.view && r.nextId == st.nextId
      && ContainsPart(r.stacks, part)
      && forall j | 0 <= j < |st.stacks| ::
           r.stacks[j] == if st.stacks[j].id == st.activeStack.value then ops.add(st.stacks[j], part) else st.stacks[j]
    ensures st.activeStack.None? ==>
      && |r.stacks| == |st.stacks| + 1
      && r.stacks[..|st.stacks|] == st.stacks
      && r.stacks[|st.stacks|] == ops.add(NewStack(st.nextId), part)
      && r.stacks[|st.stacks|].id == st.nextId && r.nextId == st.nextId + 1
      && r.stacks[|st.stacks|].id !in Ids(st.stacks)
      && r.stacks[|st.stacks|].Contains(part)
      && r.view == st.view + [ViewAdd(r.stacks[|st.stacks|].id, None, None)]
  {
    match st.activeStack
    case Some(id) =>
      var i := IndexOfId(st.stacks, id).value;
      ValidDistinct(st);
      var r := st.(stacks := st.stacks[i := ops.add(st.stacks[i], part)]);
      assert Ids(r.stacks) == Ids(st.stacks);
      assert r.stacks[i].Contains(part);
      r
    case None =>
      AddEditorPartStack(st, ops, part, None, None)
  }

  /** `addPart(part, constraint)`: a `null` constraint is `addPart(part)`; a
      constraint whose tab id no stack holds changes nothing; otherwise one
      new stack holding the part is appended, split off the first stack that
      holds the tab. */
  function AddPartAt(st: Presenter, ops: StackOps, part: Part, constraint: Option<Constraint>): (r: Presenter)
    requires ops.Valid() && Valid(st)
    ensures Valid(r)
    ensures constraint.None? ==> r == AddPart(st, ops, part)
    ensures constraint.Some? && (forall j | 0 <= j < |st.stacks| :: st.stacks[j].PartByTabId(constraint.value.relativeId).None?)
            ==> r == st
    ensures constraint.Some? ==> forall i | FirstWithTab(st.stacks, constraint.value.relativeId, i) ::
      && |r.stacks| == |st.stacks| + 1
      && r.stacks[..|st.stacks|] == st.stacks
      && r.stacks[|st.stacks|] == ops.add(NewStack(st.nextId), part)
      && r.stacks[|st.stacks|].id == st.nextId && r.nextId == st.nextId + 1
      && r.stacks[|st.stacks|].id !in Ids(st.stacks)
      && r.stacks[|st.stacks|].Contains(part)
      && r.activeEditor == st.activeEditor && r.activeStack == st.activeStack
      && r.view == st.view + [ViewAdd(r.stacks[|st.stacks|].id, Some(st.stacks[i].id), constraint)]
  {
    match constraint
    case None => AddPart(st, ops, part)
    case Some(c) =>
      match StackByTabId(st.stacks, c.relativeId)
      case None => st
      case Some(i) =>
        assert forall k | FirstWithTab(st.stacks, c.relativeId, k) :: k == i;
        AddEditorPartStack(st, ops, part, Some(st.stacks[i].id), constraint)
  }

  /** `setActivePart(part)`: the active editor always becomes `part`; the
      active stack becomes the first stack containing `part`, which is asked
      to activate it, and stays as it was when no stack contains `part`. */
  function SetActivePart(st: Presenter, ops: StackOps, part: Part): (r: Presenter)
    requires ops.Valid()
    ensures r.activeEditor == Some(part)
    ensures Ids(r.stacks) == Ids(st.stacks) && r.nextId == st.nextId && r.view == st.view
    ensures !ContainsPart(st.stacks, part) ==> r.stacks == st.stacks && r.activeStack == st.activeStack
    ensures forall i | FirstHolding(st.stacks, part, i) ::
      && r.activeStack == Some(st.stacks[i].id)
      && r.stacks == st.stacks[i := ops.activate(st.stacks[i], part)]
    ensures Valid(st) ==> Valid(r)
  {
    var st1 := st.(activeEditor := Some(part));
    match StackByPart(st.stacks, Some(part))
    case None => st1
    case Some(i) =>
      assert forall k | FirstHolding(st.stacks, part, k) :: k == i;
      var r := st1.(activeStack := Some(st.stacks[i].id),
                    stacks := st.stacks[i := ops.activate(st.stacks[i], part)]);
      assert Ids(r.stacks) == Ids(st.stacks);
      assert Ids(r.stacks)[i] == st.stacks[i].id;
      r
  }

  /** `LinkedList.remove(stack)`: drops the first stack with id `id`, keeping
      the others in order; a list without it is returned unchanged. */
  function RemoveFirstWithId(stacks: seq<Stack>, id: StackId): (r: seq<Stack>)
    ensures (forall j | 0 <= j < |stacks| :: stacks[j].id != id) ==> r == stacks
    ensures forall i | FirstWithId(stacks, id, i) :: r == Without(stacks, i)
  {
    if |stacks| == 0 then []
    else if stacks[0].id == id then
      assert forall i | FirstWithId(stacks, id, i) :: i == 0;
      stacks[1..]
    else
      var tail := RemoveFirstWithId(stacks[1..], id);
      assert forall i | FirstWithId(stacks, id, i) :: FirstWithId(stacks[1..], id, i - 1);
      assert forall i | 1 <= i <= |stacks| - 1 :: [stacks[0]] + Without(stacks[1..], i - 1) == Without(stacks, i);
      [stacks[0]] + tail
  }

  /** The fallback after a stack is removed: the last remaining stack, if
      any, reopens its previously active part. */
  function Fallback(stacks: seq<Stack>, ops: StackOps): (r: seq<Stack>)
    ensures |r| == |stacks|
    ensures forall j | 0 <= j < |stacks| - 1 :: r[j] == stacks[j]
    ensures |stacks| > 0 ==> r[|stacks| - 1] == ops.openPrevious(stacks[|stacks| - 1])
  {
    if |stacks| == 0 then stacks
    else stacks[|stacks| - 1 := ops.openPrevious(stacks[|stacks| - 1])]
  }

  /** `removePartStack`: takes the stack out of the list and the view,
      clears the active stack exactly when it was that stack, and asks only
      the last remaining stack to reopen its previous part. */
  function RemovePartStack(st: Presenter, ops: StackOps, id: StackId): (r: Presenter)
    requires ops.Valid()
    ensures st.activeStack == Some(id) ==> r.activeStack.None?
    ensures st.activeStack != Some(id) ==> r.activeStack == st.activeStack
    ensures r.activeEditor == st.activeEditor && r.nextId == st.nextId
    ensures r.view == st.view + [ViewRemove(id)]
    ensures forall i | FirstWithId(st.stacks, id, i) ::
      var rest := Without(st.stacks, i);
      && |r.stacks| == |rest|
      && Ids(r.stacks) == Ids(rest)
      && (forall j | 0 <= j < |rest| - 1 :: r.stacks[j] == rest[j])
      && (|rest| > 0 ==> r.stacks[|rest| - 1] == ops.openPrevious(rest[|rest| - 1]))
    ensures (forall j | 0 <= j < |st.stacks| :: st.stacks[j].id != id) ==> r.stacks == Fallback(st.stacks, ops)
    ensures Valid(st) ==> Valid(r)
  {
    var rest := RemoveFirstWithId(st.stacks, id);
    var r := st.(activeStack := if st.activeStack == Some(id) then None else st.activeStack,
                 view := st.view + [ViewRemove(id)],
                 stacks := Fallback(rest, ops));
    assert Ids(r.stacks) == Ids(rest);
    RemoveFirstWithIdKeepsValid(st, id);
    r
  }

  /** Removing a stack by id, and forgetting the active stack exactly when
      it was that one, keeps a valid presenter's ids valid. */
  lemma RemoveFirstWithIdKeepsValid(st: Presenter, id: StackId)
    ensures Valid(st) ==> IdsValid(Ids(RemoveFirstWithId(st.stacks, id)),
                     if st.activeStack == Some(id) then None else st.activeStack, st.nextId)
  {
    if Valid(st) {
      var rest := RemoveFirstWithId(st.stacks, id);
      match IndexOfId(st.stacks, id)
      case None =>
        assert rest == st.stacks;
        assert st.activeStack != Some(id);
      case Some(i) =>
        assert rest == Without(st.stacks, i);
        IdsOfWithout(st.stacks, i);
        IdsValidWithout(Ids(st.stacks), st.activeStack, st.nextId, i);
    }
  }

  /** `removePart(part)`: a `null` part or one no stack contains changes
      nothing. Otherwise the first stack holding it removes it; when that
      stack then has no active part it is removed as by `removePartStack`.
      The active editor is never touched. */
  function RemovePart(st: Presenter, ops: StackOps, part: Option<Part>): (r: Presenter)
    requires ops.Valid() && Valid(st)
    ensures Valid(r)
    ensures r.activeEditor == st.activeEditor && r.nextId == st.nextId
    ensures part.None? || !ContainsPart(st.stacks, part.value) ==> r == st
    ensures part.Some? ==> forall i | FirstHolding(st.stacks, part.value, i) ::
      var s := ops.remove(st.stacks[i], part.value);
      && (s.active.Some? ==> r == st.(stacks := st.stacks[i := s]))
      && (s.active.None? ==> r == RemovePartStack(st.(stacks := st.stacks[i := s]), ops, st.stacks[i].id))
      && (s.active.None? ==>
            && |r.stacks| + 1 == |st.stacks|
            && Ids(r.stacks) == Ids(Without(st.stacks, i))
            && (st.activeStack == Some(st.stacks[i].id) ==> r.activeStack.None?)
            && (st.activeStack != Some(st.stacks[i].id) ==> r.activeStack == st.activeStack)
            && r.view == st.view + [ViewRemove(st.stacks[i].id)])
  {
    match StackByPart(st.stacks, part)
    case None => st
    case Some(i) =>
      assert forall k | FirstHolding(st.stacks, part.value, k) :: k == i;
      var s := ops.remove(st.stacks[i], part.value);
      var st1 := st.(stacks := st.stacks[i := s]);
      assert Ids(st1.stacks) == Ids(st.stacks);
      ValidDistinct(st);
      if s.active.None? then
        assert FirstWithId(st1.stacks, s.id, i);
        assert Ids(Without(st1.stacks, i)) == Ids(Without(st.stacks, i));
        RemovePartStack(st1, ops, s.id)
      else st1
  }

  /** `onActivePartChanged`: an event whose part is not an editor (or is
      `null`) changes nothing; an editor part becomes the active editor and
      the active stack becomes the first stack containing it, or unset. */
  function OnActivePartChanged(st: Presenter, part: Option<Part>): (r: Presenter)
    ensures part.None? || !part.value.isEditor ==> r == st
    ensures part.Some? && part.value.isEditor ==>
      && r.activeEditor == part
      && r.stacks == st.stacks && r.view == st.view && r.nextId == st.nextId
      && (!ContainsPart(st.stacks, part.value) ==> r.activeStack.None?)
      && forall i | FirstHolding(st.stacks, part.value, i) :: r.activeStack == Some(st.stacks[i].id)
    ensures Valid(st) ==> Valid(r)
  {
    if part.Some? && part.value.isEditor then
      match StackByPart(st.stacks, part)
      case None => st.(activeEditor := part, activeStack := None)
      case Some(i) =>
        assert forall k | FirstHolding(st.stacks, part.value, k) :: k == i;
        assert Ids(st.stacks)[i] == st.stacks[i].id;
        st.(activeEditor := part, activeStack := Some(st.stacks[i].id))
    else st
  }

  /** `openPreviousActivePart` as written: with an active editor, the stack
      holding it reopens its previous part; when no stack holds the active
      editor the lookup yields `null` and the call fails. */
  function OpenPreviousActivePart(st: Presenter, ops: StackOps): (r: Result<Presenter, Fault>)
    requires ops.Valid()
    ensures r.Failure? <==> st.activeEditor.Some? && !ContainsPart(st.stacks, st.activeEditor.value)
    ensures st.activeEditor.None? ==> r == Success(st)
    ensures st.activeEditor.Some? ==> forall i | FirstHolding(st.stacks, st.activeEditor.value, i) ::
      r == Success(st.(stacks := st.stacks[i := ops.openPrevious(st.stacks[i])]))
    ensures r.Success? && Valid(st) ==> Valid(r.value)
  {
    if st.activeEditor.None? then Success(st)
    else match StackByPart(st.stacks, st.activeEditor)
      case None => Failure(NullPartStack)
      case Some(i) =>
        assert forall k | FirstHolding(st.stacks, st.activeEditor.value, k) :: k == i;
        var r := st.(stacks := st.stacks[i := ops.openPrevious(st.stacks[i])]);
        assert Ids(r.stacks) == Ids(st.stacks);
        Success(r)
  }

  /** `openPreviousActivePart` with the missing `null` check: when no stack
      holds the active editor nothing happens. It never fails, and agrees
      with the method as written wherever that succeeds. */
  function OpenPreviousActivePartGuarded(st: Presenter, ops: StackOps): (r: Presenter)
    requires ops.Valid()
    ensures OpenPreviousActivePart(st, ops).Success? ==> r == OpenPreviousActivePart(st, ops).value
    ensures OpenPreviousActivePart(st, ops).Failure? ==> r == st
    ensures Valid(st) ==> Valid(r)
  {
    match StackByPart(st.stacks, st.activeEditor)
    case None => st
    case Some(i) =>
      var r := st.(stacks := st.stacks[i := ops.openPrevious(st.stacks[i])]);
      assert Ids(r.stacks) == Ids(st.stacks);
      r
  }
}
