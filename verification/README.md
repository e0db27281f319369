# Editor multi-part-stack presenter, modelled in Dafny

This project models the split-area bookkeeping of the Che IDE's
`EditorMultiPartStackPresenter`: the ordered list of editor part stacks (one
per split region of the editor area), the active editor, the active stack,
and the calls that add parts (into the active stack or into a new split),
activate parts, remove parts and stacks, react to "active part changed"
events, and look parts, tabs and stacks up by first match in list order.

The presenter is an immutable record (`EditorMultiPartStack.Presenter`) and
each mutating method is a pure function from the old record to the new one.
A part stack is a record with a unique id (stacks are compared by reference
in the source), its parts and its active part. Membership and the per-stack
tab-id lookup are read off that record. Everything else a stack does
(`addPart`, `removePart`, `setActivePart`, `openPreviousActivePart`,
`getTabByPart`, `getNextFor`, `getPreviousFor`) is an uninterpreted
function in `PartStack.StackOps`. `StackOps.Valid` states all that is
assumed of them: a mutated stack keeps its id, and a stack asked to add a
part holds it afterwards. Whether a stack has an active part after
`removePart` is therefore an input. The stack factory is a counter of fresh
ids. Calls on the view are kept as a log of `ViewCall` values.

Modules, one per concern:

- `Wrappers`: `Option` (for `null`) and `Result`.
- `Scan`: the generic first-match scan.
- `PartStack`: parts, stacks and the stack operations.
- `Lookups`: the presenter's query family.
- `EditorMultiPartStack`: the state, its invariant and the transitions.
- `Properties`: the invariant along any call sequence, the
  `openPreviousActivePart` defect, and worked scenarios.

Points where the code behaves differently from what one might expect:

- Adding a part when no stack is active creates a new stack but does not
  make it active. `activeEditorPartStack` stays `null` (lines 83-84 and
  102-111). So two adds on a fresh presenter make two splits, as long as
  stacks publish no events back into the presenter.
- A stack is removed when it has no active part after `removePart`
  (line 155), not when it has no parts. The model keeps that test.
- The active editor need not belong to the active stack. `setActivePart`
  with an unknown part keeps the old active stack (lines 129-134).
- Adding a part with a constraint does not activate the new split.

## Model

| member | source | states |
|---|---|---|
| Scan.FirstIndex | ide/che-core-ide-app/src/main/java/org/eclipse/che/ide/part/editor/multipart/EditorMultiPartStackPresenter.java:199-204 | the result is the position of the first element that matches, and it is None exactly when no element matches |
| Lookups.ContainsPart | ide/che-core-ide-app/src/main/java/org/eclipse/che/ide/part/editor/multipart/EditorMultiPartStackPresenter.java:64-72 | true exactly when some stack's parts include the part |
| Lookups.StackByPart | ide/che-core-ide-app/src/main/java/org/eclipse/che/ide/part/editor/multipart/EditorMultiPartStackPresenter.java:193-205 | a null part gives None; otherwise the result is the first stack in list order containing the part, and None exactly when no stack contains it |
| Lookups.StackByTabId | ide/che-core-ide-app/src/main/java/org/eclipse/che/ide/part/editor/multipart/EditorMultiPartStackPresenter.java:207-216 | the first stack holding a part with the tab id, and None exactly when no stack has that tab |
| Lookups.PartByTabId | ide/che-core-ide-app/src/main/java/org/eclipse/che/ide/part/editor/multipart/EditorMultiPartStackPresenter.java:218-227 | the part the first stack having the tab gives for it, carrying that tab id and held by a stack; None exactly when no stack has the tab |
| Lookups.TabByPart | ide/che-core-ide-app/src/main/java/org/eclipse/che/ide/part/editor/multipart/EditorMultiPartStackPresenter.java:229-238 | the tab answered by the first stack that knows one; None exactly when every stack answers null; later stacks are not consulted |
| Lookups.NextFor | ide/che-core-ide-app/src/main/java/org/eclipse/che/ide/part/editor/multipart/EditorMultiPartStackPresenter.java:240-248 | the next part as answered by the first stack containing the part, even when that answer is null; None when no stack contains the part |
| Lookups.PreviousFor | ide/che-core-ide-app/src/main/java/org/eclipse/che/ide/part/editor/multipart/EditorMultiPartStackPresenter.java:250-258 | the previous part as answered by the first stack containing the part; None when no stack contains it |
| EditorMultiPartStack.Init | ide/che-core-ide-app/src/main/java/org/eclipse/che/ide/part/editor/multipart/EditorMultiPartStackPresenter.java:47-56 | the new presenter has no stacks, no active editor and no active stack, and satisfies the invariant |
| EditorMultiPartStack.AddEditorPartStack | ide/che-core-ide-app/src/main/java/org/eclipse/che/ide/part/editor/multipart/EditorMultiPartStackPresenter.java:102-111 | exactly one stack is appended: the fresh stack from the factory, with the next id, after it was handed the part; earlier stacks, the active editor and the active stack are unchanged; the view gets the stack with its relative stack and constraint |
| EditorMultiPartStack.AddPart | ide/che-core-ide-app/src/main/java/org/eclipse/che/ide/part/editor/multipart/EditorMultiPartStackPresenter.java:74-85 | with an active stack, the list keeps its ids and order and only the active stack is handed the part; without one, exactly one fresh stack from the factory, handed the part, is appended and the active stack stays unset; the invariant is kept |
| EditorMultiPartStack.AddPartAt | ide/che-core-ide-app/src/main/java/org/eclipse/che/ide/part/editor/multipart/EditorMultiPartStackPresenter.java:87-100 | a null constraint is exactly addPart; an unknown tab id leaves the whole state unchanged; otherwise one fresh stack from the factory, handed the part, is appended, split off the first stack holding the tab |
| EditorMultiPartStack.SetActivePart | ide/che-core-ide-app/src/main/java/org/eclipse/che/ide/part/editor/multipart/EditorMultiPartStackPresenter.java:126-135 | the active editor always becomes the part; the active stack becomes the first stack containing it, and only that stack is activated; with no such stack, the stacks and the active stack are unchanged |
| EditorMultiPartStack.RemoveFirstWithId | ide/che-core-ide-app/src/main/java/org/eclipse/che/ide/part/editor/multipart/EditorMultiPartStackPresenter.java:166 | the first stack with the id is taken out and the others keep their order; a list without it is unchanged |
| EditorMultiPartStack.RemovePartStack | ide/che-core-ide-app/src/main/java/org/eclipse/che/ide/part/editor/multipart/EditorMultiPartStackPresenter.java:160-172 | the stack is removed and the others keep their order; the active stack is cleared exactly when it was that stack; only the last remaining stack reopens its previous part; the invariant is kept |
| EditorMultiPartStack.RemovePart | ide/che-core-ide-app/src/main/java/org/eclipse/che/ide/part/editor/multipart/EditorMultiPartStackPresenter.java:145-158 | a null or unknown part changes nothing; otherwise the first stack holding it is asked to remove it; if that stack keeps an active part nothing else changes; if not, the state is exactly removePartStack of that stack, so it leaves the list, the active stack is cleared exactly when it was that stack, and the last remaining stack reopens its previous part; the active editor is never changed |
| EditorMultiPartStack.OnActivePartChanged | ide/che-core-ide-app/src/main/java/org/eclipse/che/ide/part/editor/multipart/EditorMultiPartStackPresenter.java:260-267 | a null or non-editor part changes nothing; an editor part becomes the active editor and the active stack becomes the first stack containing it, or unset; the stacks are unchanged |
| EditorMultiPartStack.OpenPreviousActivePart | ide/che-core-ide-app/src/main/java/org/eclipse/che/ide/part/editor/multipart/EditorMultiPartStackPresenter.java:174-179 | fails exactly when an active editor is set and no stack contains it; with no active editor nothing changes; otherwise only the first stack holding the active editor reopens its previous part |
| EditorMultiPartStack.OpenPreviousActivePartGuarded | ide/che-core-ide-app/src/main/java/org/eclipse/che/ide/part/editor/multipart/EditorMultiPartStackPresenter.java:174-179 | never fails; agrees with openPreviousActivePart whenever that succeeds and changes nothing where it would fail |
| Properties.Step | ide/che-core-ide-app/src/main/java/org/eclipse/che/ide/part/editor/multipart/EditorMultiPartStackPresenter.java:74-267 | one presenter call keeps the invariant, and only openPreviousActivePart can fail, exactly when an active editor is set that no stack holds |
| Properties.Run | ide/che-core-ide-app/src/main/java/org/eclipse/che/ide/part/editor/multipart/EditorMultiPartStackPresenter.java:40-45 | along any sequence of calls from a valid presenter, stack ids stay distinct and fresh and the active stack is always one of the listed stacks |
| Properties.RunFailsOnlyOnStaleEditor | ide/che-core-ide-app/src/main/java/org/eclipse/che/ide/part/editor/multipart/EditorMultiPartStackPresenter.java:174-179 | a failing call sequence has a position holding openPreviousActivePart such that the calls before it succeed and reach a state whose active editor no stack holds |
| Properties.OpenPreviousFailsAfterUnknownActivation | ide/che-core-ide-app/src/main/java/org/eclipse/che/ide/part/editor/multipart/EditorMultiPartStackPresenter.java:128-135 | setActivePart with a part no stack holds, then openPreviousActivePart, dereferences null |
| Properties.OpenPreviousFailsAfterUnknownEvent | ide/che-core-ide-app/src/main/java/org/eclipse/che/ide/part/editor/multipart/EditorMultiPartStackPresenter.java:261-267 | an editor-part event for a part no stack holds, then openPreviousActivePart, dereferences null |
| Properties.RemovingActiveEditorFails | ide/che-core-ide-app/src/main/java/org/eclipse/che/ide/part/editor/multipart/EditorMultiPartStackPresenter.java:147-158 | in any valid presenter, removing the active editor makes a following openPreviousActivePart fail when the stack holding it drops it but keeps an active part, and no other stack holds it |
| Properties.OpenPreviousFailsAfterRemovingActiveEditor | ide/che-core-ide-app/src/main/java/org/eclipse/che/ide/part/editor/multipart/EditorMultiPartStackPresenter.java:147-158 | the conditions of RemovingActiveEditorFails can be met: for the one presenter holding a single stack with parts a and b, with a active, under the sample stack SampleOps, removal drops a and keeps an active part, and removing a makes openPreviousActivePart fail |
| Properties.AddPartAfterActivationUsesThatStack | ide/che-core-ide-app/src/main/java/org/eclipse/che/ide/part/editor/multipart/EditorMultiPartStackPresenter.java:76-81 | after setActivePart on a held part, addPart puts the new part into that stack and adds no stack |
| Properties.TwoAddsOnFreshPresenterMakeTwoStacks | ide/che-core-ide-app/src/main/java/org/eclipse/che/ide/part/editor/multipart/EditorMultiPartStackPresenter.java:83-84 | with no active stack, two adds on a fresh presenter give exactly two fresh stacks from the factory, the first handed the first part and the second handed the second, and still no active stack |
| Properties.SplitThenCloseScenario | ide/che-core-ide-app/src/main/java/org/eclipse/che/ide/part/editor/multipart/EditorMultiPartStackPresenter.java:89-100 | open, activate, split off a tab, then close the split: the second stack is added next to the first and removed again, and the first stack stays active throughout |

## Left out

- `go` and the view's rendering (lines 59-62, 106, 165): widget plumbing. The model keeps only a log of the view calls.
- EventBus registration and injection (lines 47-56): `onActivePartChanged` is a plain transition.
- `setFocus`, `updateStack` and `hidePart` (lines 113-118, 137-143, 181-186): they only forward to the stacks and have no state effect of their own.
- `getActivePart` and `getActivePartStack` (lines 120-124, 188-191): plain getters, read as the record's fields.
- The internals of EditorPartStack: they are not part of this model. Its mutators and its tab, next and previous lookups are uninterpreted functions.
- Re-entrant events: a stack's `addPart` or `setActivePart` may publish an "active part changed" event, which would re-enter the presenter. Event delivery is not modelled.
- The `part != null` test in `addEditorPartStack` (line 108): both callers pass non-null parts, so parts passed to the add calls are never null in the model.
- Lookups.ContainsPart: takes a non-null part. The source passes a null part on to each stack (lines 65-72), and what a stack answers for null is not part of this model.
- Lookups.TabByPart: takes a non-null part. The source passes a null part on to each stack (lines 230-238), and what a stack answers for null is not part of this model.
- Lookups.NextFor: takes a non-null part. The source passes a null part on to each stack (lines 241-248), and what a stack answers for null is not part of this model.
- Lookups.PreviousFor: takes a non-null part. The source passes a null part on to each stack (lines 251-258), and what a stack answers for null is not part of this model.
- The side of a constraint: it is an opaque string that only the view reads.
- PullParams: a field holder with no logic.

## Findings

| source | as written | input that shows it | evidently intended | confidence | as-written member | corrected member |
|---|---|---|---|---|---|---|
| ide/che-core-ide-app/src/main/java/org/eclipse/che/ide/part/editor/multipart/EditorMultiPartStackPresenter.java:174-179 | dereferences the result of getPartStackByPart(activeEditor), which is null when no stack holds the active editor | setActivePart(p) for a part p that no stack contains, then openPreviousActivePart(); or removePart of the active editor from a stack that keeps other parts, then openPreviousActivePart(), provided the stack publishes no event back into the presenter | skip the call when no stack holds the active editor | medium; not executed | EditorMultiPartStack.OpenPreviousActivePart, shown by Properties.OpenPreviousFailsAfterUnknownActivation, Properties.RemovingActiveEditorFails and Properties.OpenPreviousFailsAfterRemovingActiveEditor | EditorMultiPartStack.OpenPreviousActivePartGuarded |
