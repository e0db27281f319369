/** The presenter's queries. Each walks the stacks in list order and answers
    from the first stack that matches, or answers "not found" (`false` or
    `null`) when none does. */
module Lookups {
  import opened Wrappers
  import opened Scan
  import opened PartStack

  // The three predicates below are `Scan.IsFirst` with the test written
  // out, so that quantifiers over the index have a trigger of their own.

  /** `i` is the first stack, in list order, that contains `p`. */
  ghost predicate FirstHolding(stacks: seq<Stack>, p: Part, i: int) {
    && 0 <= i < |stacks|
    && stacks[i].Contains(p)
    && forall j | 0 <= j < i :: !stacks[j].Contains(p)
  }

  /** `i` is the first stack, in list order, with a part whose tab is `tabId`. */
  ghost predicate FirstWithTab(stacks: seq<Stack>, tabId: string, i: int) {
    && 0 <= i < |stacks|
    && stacks[i].PartByTabId(tabId).Some?
    && forall j | 0 <= j < i :: stacks[j].PartByTabId(tabId).None?
  }

  /** `i` is the first stack, in list order, that knows a tab for `p`. */
  ghost predicate FirstWithTabFor(stacks: seq<Stack>, tabOf: (Stack, Part) -> Option<EditorTab>, p: Part, i: int) {
    && 0 <= i < |stacks|
    && tabOf(stacks[i], p).Some?
    && forall j | 0 <= j < i :: tabOf(stacks[j], p).None?
  }

  /** `containsPart`: some stack contains `part`. */
  function ContainsPart(stacks: seq<Stack>, part: Part): (r: bool)
    ensures r <==> exists i | 0 <= i < |stacks| :: part in stacks[i].parts
  {
    FirstIndex(stacks, (s: Stack) => s.Contains(part)).Some?
  }

  /** `getPartStackByPart`: the index of the first stack containing `part`;
      `None` for a `null` part or a part no stack contains. */
  function StackByPart(stacks: seq<Stack>, part: Option<Part>): (r: Option<nat>)
    ensures r.None? <==> part.None? || !ContainsPart(stacks, part.value)
    ensures r.Some? ==> part.Some? && FirstHolding(stacks, part.value, r.value)
  {
    match part
    case None => None
    case Some(p) => FirstIndex(stacks, (s: Stack) => s.Contains(p))
  }

  /** `getPartStackByTabId`: the index of the first stack holding a part with
      tab `tabId`, or `None`. */
  function StackByTabId(stacks: seq<Stack>, tabId: string): (r: Option<nat>)
    ensures r.None? <==> forall j | 0 <= j < |stacks| :: stacks[j].PartByTabId(tabId).None?
    ensures r.Some? ==> FirstWithTab(stacks, tabId, r.value)
  {
    FirstIndex(stacks, (s: Stack) => s.PartByTabId(tabId).Some?)
  }

  /** `getPartByTabId`: the part the first stack that has tab `tabId` gives
      for it, or `None`. */
  function PartByTabId(stacks: seq<Stack>, tabId: string): (r: Option<Part>)
    ensures r.None? <==> forall j | 0 <= j < |stacks| :: stacks[j].PartByTabId(tabId).None?
    ensures forall i | FirstWithTab(stacks, tabId, i) :: r == stacks[i].PartByTabId(tabId)
    ensures r.Some? ==> r.value.tabId == tabId && ContainsPart(stacks, r.value)
  {
    match StackByTabId(stacks, tabId)
    case None => None
    case Some(i) =>
      assert forall k | FirstWithTab(stacks, tabId, k) :: k == i;
      stacks[i].PartByTabId(tabId)
  }

  /** `getTabByPart`: the tab the first stack that knows one gives for
      `part`, or `None`. */
  function TabByPart(stacks: seq<Stack>, tabOf: (Stack, Part) -> Option<EditorTab>, part: Part): (r: Option<EditorTab>)
    ensures r.None? <==> forall j | 0 <= j < |stacks| :: tabOf(stacks[j], part).None?
    ensures forall i | FirstWithTabFor(stacks, tabOf, part, i) :: r == tabOf(stacks[i], part)
  {
    match FirstIndex(stacks, (s: Stack) => tabOf(s, part).Some?)
    case None => None
    case Some(i) =>
      assert forall k | FirstWithTabFor(stacks, tabOf, part, k) :: k == i;
      tabOf(stacks[i], part)
  }

  /** The answer of the first stack containing `part` to `ask`, or `None`
      when no stack contains it. The scan stops at that stack even if its
      answer is `None`. Shared by `getNextFor` and `getPreviousFor`. */
  function AskOwner(stacks: seq<Stack>, ask: (Stack, Part) -> Option<Part>, part: Part): (r: Option<Part>)
    ensures !ContainsPart(stacks, part) ==> r.None?
    ensures forall i | FirstHolding(stacks, part, i) :: r == ask(stacks[i], part)
  {
    match StackByPart(stacks, Some(part))
    case None => None
    case Some(i) =>
      assert forall k | FirstHolding(stacks, part, k) :: k == i;
      ask(stacks[i], part)
  }

  /** `getNextFor`: the owning stack's next part after `part`. */
  function NextFor(stacks: seq<Stack>, ops: StackOps, part: Part): (r: Option<Part>)
    ensures !ContainsPart(stacks, part) ==> r.None?
    ensures forall i | FirstHolding(stacks, part, i) :: r == ops.next(stacks[i], part)
  {
    AskOwner(stacks, ops.next, part)
  }

  /** `getPreviousFor`: the owning stack's part before `part`. */
  function PreviousFor(stacks: seq<Stack>, ops: StackOps, part: Part): (r: Option<Part>)
    ensures !ContainsPart(stacks, part) ==> r.None?
    ensures forall i | FirstHolding(stacks, part, i) :: r == ops.previous(stacks[i], part)
  {
    AskOwner(stacks, ops.previous, part)
  }
}
