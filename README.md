# Widget hierarchy core, in Dafny

This project models the hierarchy logic of the toolkit's base `Widget` in
`src/ballistica/ui/widget/widget.cc` and proves properties of the model. That
logic covers:
- the ancestor searches for the screen stack and the overlay stack;
- the logical-owner link and whole-hierarchy selection;
- upward select and show propagation;
- the local setters;
- the destructor's delete-callback loop;
- the two chain-order coordinate mappings.

The model has three modules:

- `Wrappers` (`wrappers.dfy`): an `Option` type. A null pointer is `None`.
- `Transforms` (`transforms.dfy`): a point type and the two chain compositions,
  as pure functions over a container chain. `Lift` composes from-child maps from
  the widget outwards, as `WidgetPointToScreen` does. `Lower` composes to-child
  maps from the outermost container inwards, as `ScreenPointToWidget` does. The
  module also proves that the two compositions undo each other.
- `Widgets` (`widget.dfy`): the class `WidgetTree`, which holds the state of all
  widgets and of the UI singleton in maps keyed by widget id:
  - `parent`: `parent_widget_`.
  - `owner`: `owner_widget_`.
  - `selected`: the set of widgets whose `selected_` flag is set.
  - `depthMin` and `depthMax`: the depth range.
  - `toolbarVisibility`.
  - `onSelectCall` and `onDeleteCalls`: the callbacks.
  - `ui`: the UI singleton with its root, screen-root and overlay-root widgets.
  - `windowStacks`: the containers for which `is_window_stack()` holds.

  The queue of deferred calls is `pending`. The effects of the container
  collaborators are kept in:
  - `selectedChild` and `shownChild`: the child each container was last asked
    to select or show.
  - `requests`: a log of every `SelectWidget`/`ShowWidget` request, in order.
  - `deleteRuns`: a log of the on-delete callbacks that have run.
  - `focusRefreshes`: how often the root widget was told to refresh for the
    focused window.

  A ghost map `depth` ranks the widgets. It strictly decreases from a widget to
  its parent, and from an unparented widget to its owner. `Valid()` says so.
  This is the tree / no-cycles invariant, and every chain walk terminates by it.

The source's `while` loops become methods with loop invariants:
- Ancestor search: `HasStrictAncestor`, `IsInMainStack`, `IsInOverlayStack`.
- `IsHierarchySelected`.
- `GlobalSelect` and `Show`.
- Chain collection: `CollectParents`.
- Coordinate mapping: `WidgetPointToScreen` and `ScreenPointToWidget`.
- The destructor loop: `Destroy`.

Each loop method is proved against a specification function: the ghost
functions `Ancestors`, `FocusChain`, `UpwardRequests` and `MarkChain`, or the
functions `Lift`, `Lower` and `ApplyEffects`. Lemmas state what those functions
mean. The setters (`SetSelected`, `SetDepthRange`, `SetOnSelectCall`,
`AddOnDeleteCall`, `SetToolbarVisibility`) state their new state directly.

Calls into code outside this file become parameters:
- The container's `TransformPointToChild` and `TransformPointFromChild` are the
  function parameters `toChild` and `fromChild`, of type
  (container, child, point) to point.
- What an on-delete callback does to the live callback lists is the function
  parameter `effect` of `Destroy`.

## Model

| member | source | states |
|---|---|---|
| `Widgets.WidgetTree.CollectParents` | src/ballistica/ui/widget/widget.cc:160-164 | the collected vector is exactly the parent chain above the widget, nearest container first |
| `Widgets.WidgetTree.AncestorsFollowParents` | src/ballistica/ui/widget/widget.cc:60-66 | the chain is empty iff the widget has no parent; its first element is the parent, each later element is the parent of the one before, and the last has no parent |
| `Widgets.WidgetTree.AncestorsDescend` | src/ballistica/ui/widget/widget.cc:61-66 | depth strictly decreases going up the parent chain, so the upward walks terminate |
| `Widgets.WidgetTree.AncestorsDistinct` | src/ballistica/ui/widget/widget.cc:61-66 | a widget is never its own ancestor and no container occurs twice on a chain (the tree has no cycles) |
| `Widgets.WidgetTree.HasStrictAncestor` | src/ballistica/ui/widget/widget.cc:60-67 | the parent-chain walk returns true iff the target is a strict ancestor; an absent target is never found; no parent gives false |
| `Widgets.WidgetTree.IsInMainStack` | src/ballistica/ui/widget/widget.cc:47-68 | true iff the UI exists, has a screen root, and that root is a strict ancestor; false without a UI or without a parent |
| `Widgets.WidgetTree.IsInOverlayStack` | src/ballistica/ui/widget/widget.cc:70-83 | true iff the overlay root exists and is a strict ancestor; false without a parent |
| `Widgets.WidgetTree.GetOwnerWidget` | src/ballistica/ui/widget/widget.cc:150-152 | the parent whenever one is set; the owner only when there is no parent; absent when neither is set |
| `Widgets.WidgetTree.FocusChainFollowsOwners` | src/ballistica/ui/widget/widget.cc:96-106 | the consulted chain starts at the widget, steps by GetOwnerWidget, stops exactly before the root widget or a missing owner, and never holds the root past its first position |
| `Widgets.WidgetTree.IsHierarchySelected` | src/ballistica/ui/widget/widget.cc:96-108 | true iff every widget on the consulted chain is selected; false when the widget itself is unselected; decided by the widget's own flag alone when its logical ancestor is the root widget or missing |
| `Widgets.WidgetTree.SetSelected` | src/ballistica/ui/widget/widget.cc:85-94 | no change at all when the flag already has the value; otherwise only this widget's flag changes, to the new value; exactly one deferred call, the widget's select callback, is appended iff the change is to selected and a callback exists; nothing is run |
| `Widgets.WidgetTree.SetOnSelectCall` | src/ballistica/ui/widget/widget.cc:110-112 | the widget's select callback becomes the given token, replacing any earlier one |
| `Widgets.WidgetTree.AddOnDeleteCall` | src/ballistica/ui/widget/widget.cc:114-116 | the token is appended to the end of the widget's on-delete list; other lists are unchanged |
| `Widgets.DepthRangeCheck` | src/ballistica/ui/widget/widget.cc:41-42 | the range is accepted iff 0 <= min <= max <= 1; a min outside [0, 1] is reported first, then a max below min or above 1 |
| `Widgets.WidgetTree.SetDepthRange` | src/ballistica/ui/widget/widget.cc:40-45 | on success only this widget's two depth fields change, to min and max; a violated precondition changes nothing; sound depth ranges stay sound |
| `Widgets.WidgetTree.SetToolbarVisibility` | src/ballistica/ui/widget/widget.cc:31-38 | the visibility is stored; the focused-window refresh is requested once iff the parent is a window stack |
| `Widgets.WidgetTree.Destroy` | src/ballistica/ui/widget/widget.cc:22-28 | the callbacks run are exactly the pre-destruction list, each once, in registration order, whatever the callbacks do to the live lists |
| `Widgets.WidgetTree.UpwardRequestsVisitEachAncestorOnce` | src/ballistica/ui/widget/widget.cc:124-131 | propagation makes one request per ancestor, bottom-up: request i goes to the i-th ancestor about the chain node below it, and no container is asked twice |
| `Widgets.WidgetTree.MarkChainRecordsChain` | src/ballistica/ui/widget/widget.cc:124-131 | after marking, each ancestor maps to the chain node directly below it; containers off the chain keep their entries; no other key appears |
| `Widgets.WidgetTree.GlobalSelect` | src/ballistica/ui/widget/widget.cc:118-132 | each container on the parent chain selects the node below it, with requests made bottom-up; nothing changes without a parent |
| `Widgets.WidgetTree.Show` | src/ballistica/ui/widget/widget.cc:134-148 | each container on the parent chain is asked to show the node below it, bottom-up; nothing changes without a parent |
| `Widgets.WidgetTree.WidgetPointToScreen` | src/ballistica/ui/widget/widget.cc:154-170 | the result is the point mapped by each container's from-child map, from the parent outwards; unchanged without a parent |
| `Widgets.WidgetTree.ScreenPointToWidget` | src/ballistica/ui/widget/widget.cc:176-210 | the result is the point mapped by each to-child map, outermost container first; unchanged without a parent; the sanity flag holds iff mapping back gives the input, and always holds when from-child undoes to-child |
| `Transforms.LiftUndoesLower` | src/ballistica/ui/widget/widget.cc:198-209 | widget-to-screen after screen-to-widget gives back the input point on every chain, when each from-child map undoes its to-child map |
| `Transforms.LowerUndoesLift` | src/ballistica/ui/widget/widget.cc:154-196 | screen-to-widget after widget-to-screen gives back the input point on every chain, when each to-child map undoes its from-child map |

## Left out

- Floating point. Points and depth values are exact reals, so NaN and rounding are not modelled.
- The concrete affine maps of containers and `GetCenter` (widget.cc:223-226). The per-child transforms are abstract function parameters.
- The 0.01 tolerance of the debug sanity check. `ScreenPointToWidget`'s `consistent` flag compares exactly, and the failure log is not modelled.
- Scripting-runtime interop: `GetPyWidget`, the reference counting in the destructor, and the wrapping of callables (widget.cc:16-20, 110-116, 212-221). A callback is an opaque token.
- The draining of the logic thread's queue and the weak-reference drop of a dead callback. Only the enqueue in `SetSelected` is modelled.
- Logging (`BA_LOG_ONCE`, `Log`), the thread assertion and the debug-only `assert`s. After `assert(screen_root)` the release behaviour (returning false) is modelled.
- SetSelected: the `cause` argument is not modelled, since the base class ignores it.
- SetDepthRange: the precondition macro's definition is not part of this model. A failed check is modelled as an error result that leaves the widget unchanged. Nothing is assigned before the checks, so this covers both a fatal and a throwing reading.
- SetToolbarVisibility: the root widget's focused-window refresh is recorded only as a counter. A call made when the parent is a window stack, before the UI or its root widget exists, is excluded by a precondition; the source dereferences both without a check.
- GlobalSelect and Show: what `ContainerWidget::SelectWidget` and `ShowWidget` do beyond recording their child is not modelled. That includes changing children's selected flags and scrolling. container_widget.cc is not part of this model.
- Destroy: only the callback loop is modelled. Containers unlinking the dying widget happens outside this file. What a callback does to the rest of the UI is not modelled either; only its effect on the on-delete lists is.
- Attaching and detaching children (`set_parent_widget`, in the container) is not modelled. The tree's links are fixed at construction, together with an acyclicity witness.
- The trivial virtual defaults (`Draw`, `HandleMessage`, `IsSelectable`, `IsSelectableViaKeys`, `IsAcceptingInput`, `Activate`, `GetDrawBrightness`).
- `src/ballistica/ui_v1/widget/root_widget.h`. It declares presentation-layer members only, with no bodies.
- IsInOverlayStack: a call made before the UI exists is excluded by a precondition. The source dereferences the UI singleton there unconditionally.
- IsHierarchySelected: a call made before the UI exists is excluded by a precondition only when the source would dereference the singleton. That is when the widget is selected and has a logical ancestor.
