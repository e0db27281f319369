/** One editor part stack: a split region of the editor area holding a
    sequence of open parts. Its own behaviour is outside this model; the
    presenter only sees it through membership, tab-id lookup and the
    operations collected in `StackOps`. */
module PartStack {
  import opened Wrappers
  import opened Scan

  /** Identity of a part stack. Stacks are compared by reference in the
      presenter, so every stack created gets a fresh id. */
  type StackId = nat

  /** A part presenter: its identity, the id of its editor tab, and whether
      it is an editor part (the `instanceof EditorPartPresenter` test). */
  datatype Part = Part(id: nat, tabId: string, isEditor: bool)

  /** An editor tab handle, as returned by a stack's tab lookup. */
  datatype EditorTab = EditorTab(handle: nat)

  /** A split region: its id, its open parts and its active part. */
  datatype Stack = Stack(id: StackId, parts: seq<Part>, active: Option<Part>) {

    /** The stack's `containsPart`. */
    predicate Contains(p: Part) {
      p in parts
    }

    /** The stack's `getPartByTabId`: the first part whose tab has `tabId`. */
    function PartByTabId(tabId: string): (r: Option<Part>)
      ensures r.Some? ==> r.value in parts && r.value.tabId == tabId
      ensures r.None? <==> forall k | 0 <= k < |parts| :: parts[k].tabId != tabId
    {
      match FirstIndex(parts, (q: Part) => q.tabId == tabId)
      case None => None
      case Some(k) => Some(parts[k])
    }
  }

  /** What the stack factory creates: a stack with no parts. */
  function NewStack(id: StackId): (s: Stack)
    ensures s.id == id && |s.parts| == 0 && s.active.None?
  {
    Stack(id, [], None)
  }

  /** The operations of a part stack whose effect the presenter relies on
      but does not define. Each is an uninterpreted function of the stack;
      `Valid` states the only promises the presenter needs of them. */
  datatype StackOps = StackOps(
    add: (Stack, Part) -> Stack,
    remove: (Stack, Part) -> Stack,
    activate: (Stack, Part) -> Stack,
    openPrevious: Stack -> Stack,
    tabOf: (Stack, Part) -> Option<EditorTab>,
    next: (Stack, Part) -> Option<Part>,
    previous: (Stack, Part) -> Option<Part>)
  {
    /** Mutating a stack never changes which stack it is, and a stack that
        was asked to add a part holds it afterwards. */
    ghost predicate Valid() {
      && (forall s, p :: add(s, p).id == s.id && add(s, p).Contains(p))
      && (forall s, p :: remove(s, p).id == s.id)
      && (forall s, p :: activate(s, p).id == s.id)
      && (forall s :: openPrevious(s).id == s.id)
    }
  }
}
