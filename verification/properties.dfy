/** Properties that relate several presenter calls: the invariant along any
    sequence of calls, the failure of `openPreviousActivePart` once the
    active editor has left every stack, and a worked scenario. */
module Properties {
  import opened Wrappers
  import opened PartStack
  import opened Lookups
  import opened EditorMultiPartStack

  /** The presenter's entry points, as commands. */
  datatype Command =
    | AddCmd(part: Part)
    | AddAtCmd(part: Part, constraint: Option<Constraint>)
    | SetActiveCmd(part: Part)
    | RemoveCmd(target: Option<Part>)
    | ActivePartChangedCmd(changed: Option<Part>)
    | OpenPreviousCmd

  /** One command applied to a valid presenter. */
  function Step(st: Presenter, ops: StackOps, cmd: Command): (r: Result<Presenter, Fault>)
    requires ops.Valid() && Valid(st)
    ensures r.Success? ==> Valid(r.value)
    ensures r.Failure? <==> cmd.OpenPreviousCmd? && st.activeEditor.Some? && !ContainsPart(st.stacks, st.activeEditor.value)
  {
    match cmd
    case AddCmd(p) => Success(AddPart(st, ops, p))
    case AddAtCmd(p, c) => Success(AddPartAt(st, ops, p, c))
    case SetActiveCmd(p) => Success(SetActivePart(st, ops, p))
    case RemoveCmd(p) => Success(RemovePart(st, ops, p))
    case ActivePartChangedCmd(p) => Success(OnActivePartChanged(st, p))
    case OpenPreviousCmd => OpenPreviousActivePart(st, ops)
  }

  /** Commands applied in order; the first failure stops the run. Every
      state reached from a valid presenter by any sequence of calls is
      valid: ids stay distinct and fresh, and the active stack is always in
      the list. */
  function Run(st: Presenter, ops: StackOps, cmds: seq<Command>): (r: Result<Presenter, Fault>)
    requires ops.Valid() && Valid(st)
    ensures r.Success? ==> Valid(r.value)
    decreases |cmds|
  {
    if |cmds| == 0 then Success(st)
    else match Step(st, ops, cmds[0])
      case Failure(e) => Failure(e)
      case Success(next) => Run(next, ops, cmds[1..])
  }

  /** The run stops at command `k`: the commands before it succeed and
      leave an active editor that no stack holds, and command `k` is an
      `openPreviousActivePart`. */
  ghost predicate StaleAt(st: Presenter, ops: StackOps, cmds: seq<Command>, k: int) {
    && ops.Valid() && Valid(st)
    && 0 <= k < |cmds|
    && cmds[k].OpenPreviousCmd?
    && Run(st, ops, cmds[..k]).Success?
    && var mid := Run(st, ops, cmds[..k]).value;
       mid.activeEditor.Some? && !ContainsPart(mid.stacks, mid.activeEditor.value)
  }

  /** A run fails only at an `openPreviousActivePart` issued while no stack
      holds the active editor of the state the run has reached. */
  lemma {:induction false} RunFailsOnlyOnStaleEditor(st: Presenter, ops: StackOps, cmds: seq<Command>)
    requires ops.Valid() && Valid(st)
    ensures Run(st, ops, cmds).Failure? ==> exists k :: StaleAt(st, ops, cmds, k)
    decreases |cmds|
  {
    if |cmds| > 0 {
      match Step(st, ops, cmds[0])
      case Failure(_) =>
        assert cmds[..0] == [];
        assert StaleAt(st, ops, cmds, 0);
      case Success(next) =>
        RunFailsOnlyOnStaleEditor(next, ops, cmds[1..]);
        if Run(st, ops, cmds).Failure? {
          var k :| StaleAt(next, ops, cmds[1..], k);
          var prefix := cmds[..k + 1];
          assert prefix[0] == cmds[0];
          assert prefix[1..] == cmds[1..][..k];
          assert Run(st, ops, prefix) == Run(next, ops, cmds[1..][..k]);
          assert StaleAt(st, ops, cmds, k + 1);
        }
    }
  }

  /** `setActivePart` with a part no stack contains, followed by
      `openPreviousActivePart`, dereferences `null`. */
  lemma OpenPreviousFailsAfterUnknownActivation(st: Presenter, ops: StackOps, p: Part)
    requires ops.Valid() && !ContainsPart(st.stacks, p)
    ensures OpenPreviousActivePart(SetActivePart(st, ops, p), ops).Failure?
    ensures OpenPreviousActivePartGuarded(SetActivePart(st, ops, p), ops) == SetActivePart(st, ops, p)
  {
  }

  /** An editor-part event for a part no stack contains, followed by
      `openPreviousActivePart`, dereferences `null` as well. */
  lemma OpenPreviousFailsAfterUnknownEvent(st: Presenter, ops: StackOps, p: Part)
    requires ops.Valid() && p.isEditor && !ContainsPart(st.stacks, p)
    ensures OpenPreviousActivePart(OnActivePartChanged(st, Some(p)), ops).Failure?
  {
  }

  /** `Erase(xs, p)`: `xs` without any occurrence of `p`. */
  function Erase(xs: seq<Part>, p: Part): (r: seq<Part>)
    ensures p !in r
    ensures forall q | q in xs && q != p :: q in r
    ensures forall q | q in r :: q in xs
  {
    if |xs| == 0 then []
    else (if xs[0] == p then [] else [xs[0]]) + Erase(xs[1..], p)
  }

  /** A concrete stack: `add` appends a part it lacks and activates it,
      `remove` drops the part and activates the last one left, and
      `openPrevious` changes nothing. */
  function SampleOps(): (ops: StackOps)
    ensures ops.Valid()
  {
    StackOps(
      (s: Stack, p: Part) => s.(parts := if p in s.parts then s.parts else s.parts + [p], active := Some(p)),
      (s: Stack, p: Part) =>
        var left := Erase(s.parts, p);
        s.(parts := left, active := if |left| == 0 then None else Some(left[|left| - 1])),
      (s: Stack, p: Part) => s.(active := Some(p)),
      (s: Stack) => s,
      (s: Stack, p: Part) => if p in s.parts then Some(EditorTab(p.id)) else None,
      (s: Stack, p: Part) => None,
      (s: Stack, p: Part) => None)
  }

  /** One presenter, under `SampleOps`, in which removing the active editor
      makes a following `openPreviousActivePart` dereference `null`: a
      single stack holding `a` and `b`, with `a` active. Its sample stack
      drops `a` and keeps `b` active, so the conditions of
      `RemovingActiveEditorFails`, which states the general case, are met. */
  lemma OpenPreviousFailsAfterRemovingActiveEditor()
    ensures var a := Part(1, "a", true);
            var b := Part(2, "b", true);
            var st := Presenter([Stack(0, [a, b], Some(a))], Some(a), Some(0), 1, []);
            && Valid(st)
            && !SampleOps().remove(st.stacks[0], a).Contains(a)
            && SampleOps().remove(st.stacks[0], a).active.Some?
            && OpenPreviousActivePart(st, SampleOps()).Success?
            && OpenPreviousActivePart(RemovePart(st, SampleOps(), Some(a)), SampleOps()).Failure?
  {
    var a := Part(1, "a", true);
    var b := Part(2, "b", true);
    var ops := SampleOps();
    var st := Presenter([Stack(0, [a, b], Some(a))], Some(a), Some(0), 1, []);
    assert Ids(st.stacks) == [0];
    assert FirstHolding(st.stacks, a, 0);
    assert [a, b][1..] == [b];
    assert Erase([b], a) == [b] + Erase([], a);
    assert Erase([a, b], a) == [b];
    var s := ops.remove(st.stacks[0], a);
    assert s.parts == [b];
    var r := RemovePart(st, ops, Some(a));
    assert r.stacks == [s];
    assert !ContainsPart(r.stacks, a);
  }

  /** Removing the active editor fails a following `openPreviousActivePart`
      whenever the stack holding it really drops it but keeps an active
      part, and no other stack holds it. */
  lemma RemovingActiveEditorFails(st: Presenter, ops: StackOps, a: Part, i: nat)
    requires ops.Valid() && Valid(st)
    requires st.activeEditor == Some(a) && FirstHolding(st.stacks, a, i)
    requires forall j | 0 <= j < |st.stacks| && j != i :: !st.stacks[j].Contains(a)
    requires !ops.remove(st.stacks[i], a).Contains(a) && ops.remove(st.stacks[i], a).active.Some?
    ensures OpenPreviousActivePart(RemovePart(st, ops, Some(a)), ops).Failure?
  {
  }

  /** Once an active stack is set by `setActivePart`, `addPart` opens new
      parts in that stack and creates no split. */
  lemma AddPartAfterActivationUsesThatStack(st: Presenter, ops: StackOps, p: Part, q: Part, i: nat)
    requires ops.Valid() && Valid(st) && FirstHolding(st.stacks, p, i)
    ensures var r := AddPart(SetActivePart(st, ops, p), ops, q);
            && Ids(r.stacks) == Ids(st.stacks)
            && r.stacks[i].Contains(q)
            && r.activeStack == Some(st.stacks[i].id)
  {
    var st1 := SetActivePart(st, ops, p);
    ValidDistinct(st1);
    assert Ids(st1.stacks)[i] == st.stacks[i].id;
  }

  /** Without an active stack every `addPart` opens a new split: two adds
      on a fresh presenter give two fresh stacks from the factory, the
      first handed `p` and the second handed `q`. */
  lemma TwoAddsOnFreshPresenterMakeTwoStacks(ops: StackOps, p: Part, q: Part)
    requires ops.Valid()
    ensures var r := AddPart(AddPart(Init(), ops, p), ops, q);
            && r.stacks == [ops.add(NewStack(0), p), ops.add(NewStack(1), q)]
            && r.stacks[0].Contains(p) && r.stacks[1].Contains(q)
            && r.activeStack.None?
  {
    var st1 := AddPart(Init(), ops, p);
    var r := AddPart(st1, ops, q);
    assert r.stacks[..1] == st1.stacks;
    assert r.stacks[0] == st1.stacks[0];
  }

  /** The parts and the constraint of the scenario below. */
  const E1 := Part(1, "t1", true)
  const E2 := Part(2, "t2", true)
  const Right := Constraint("t1", "right")

  /** The states of the scenario below, spelled out. */
  const Opened := Presenter([Stack(0, [E1], Some(E1))], None, None, 1, [ViewAdd(0, None, None)])
  const Activated := Opened.(activeEditor := Some(E1), activeStack := Some(0))
  const Split := Activated.(stacks := Activated.stacks + [Stack(1, [E2], Some(E2))], nextId := 2,
                            view := Activated.view + [ViewAdd(1, Some(0), Some(Right))])

  /** The first step of the scenario below: opening `E1` on a fresh presenter. */
  lemma ScenarioOpen()
    ensures AddPart(Init(), SampleOps(), E1) == Opened
  {
    var ops := SampleOps();
    assert ops.add(NewStack(0), E1) == Stack(0, [E1], Some(E1));
    assert AddPart(Init(), ops, E1) == AddEditorPartStack(Init(), ops, E1, None, None);
  }

  /** The second step: the event for `E1` makes its stack active. */
  lemma ScenarioActivate()
    ensures OnActivePartChanged(Opened, Some(E1)) == Activated
  {
    assert Ids(Opened.stacks) == [0];
    assert FirstHolding(Opened.stacks, E1, 0);
  }

  /** The third step: splitting `E2` off the tab of `E1`. */
  lemma ScenarioSplit()
    ensures Valid(Activated)
    ensures AddPartAt(Activated, SampleOps(), E2, Some(Right)) == Split
  {
    var ops := SampleOps();
    assert Ids(Activated.stacks) == [0];
    assert Activated.stacks[0].parts[0].tabId == "t1";
    assert FirstWithTab(Activated.stacks, "t1", 0);
    assert ops.add(NewStack(1), E2) == Stack(1, [E2], Some(E2));
    assert StackByTabId(Activated.stacks, "t1") == Some(0);
  }

  /** The last step: closing `E2` removes its stack again. */
  lemma ScenarioClose()
    ensures Valid(Split)
    ensures var s4 := RemovePart(Split, SampleOps(), Some(E2));
            && Ids(s4.stacks) == [0] && s4.activeStack == Some(0) && s4.activeEditor == Some(E1)
            && s4.view == Split.view + [ViewRemove(1)]
  {
    var ops := SampleOps();
    assert Ids(Split.stacks) == [0, 1];
    assert FirstHolding(Split.stacks, E2, 1);
    assert Erase([E2], E2) == [] + Erase([], E2);
    assert ops.remove(Split.stacks[1], E2).active.None?;
    assert Without(Split.stacks, 1) == [Split.stacks[0]];
  }

  /** A split and its undo, with the concrete stack above: opening `E1`
      creates the first stack but does not activate it; the event for `E1`
      does; splitting off `E1`'s tab appends a second stack for `E2` while
      the first stays active; closing `E2` removes the second stack and
      hands the fallback to the first. */
  lemma SplitThenCloseScenario()
    ensures var ops := SampleOps();
            var s1 := AddPart(Init(), ops, E1);
            var s2 := OnActivePartChanged(s1, Some(E1));
            && Ids(s1.stacks) == [0] && s1.activeStack.None?
            && s2.activeStack == Some(0)
            && s2 == Activated && Valid(s2)
            && var s3 := AddPartAt(s2, ops, E2, Some(Right));
               && Ids(s3.stacks) == [0, 1] && s3.activeStack == Some(0)
               && s3.view == [ViewAdd(0, None, None), ViewAdd(1, Some(0), Some(Right))]
               && s3 == Split && Valid(s3)
               && var s4 := RemovePart(s3, ops, Some(E2));
                  && Ids(s4.stacks) == [0] && s4.activeStack == Some(0) && s4.activeEditor == Some(E1)
                  && s4.view == s3.view + [ViewRemove(1)]
  {
    var ops := SampleOps();
    ScenarioOpen();
    var s1 := AddPart(Init(), ops, E1);
    assert s1 == Opened;
    ScenarioActivate();
    var s2 := OnActivePartChanged(s1, Some(E1));
    assert s2 == Activated;
    ScenarioSplit();
    var s3 := AddPartAt(s2, ops, E2, Some(Right));
    assert s3 == Split;
    ScenarioClose();
    assert Ids(Opened.stacks) == [0];
    assert Ids(Split.stacks) == [0, 1];
  }
}
