/**
  The hierarchy logic of the UI toolkit's base widget.

  Every widget is named by an `Id`. The non-owning back-references of a widget
  (its parent container and its fallback owner) are maps from ids to ids. The
  per-widget fields are maps keyed by id, and the UI singleton's designated
  widgets are one optional record. A null pointer is `None`, or an absent key.
*/
module Widgets {
  import opened Wrappers
  import opened Transforms

  type Id = nat

  /** An opaque handle to a scripting-language callable wrapped for later dispatch. */
  type Call = nat

  /** A toolbar-visibility setting, represented by the ordinal of its enumerator. */
  type ToolbarVisibility = nat

  /** The widgets the UI singleton designates: the root widget and the roots of the two stacks. */
  datatype UiRoots = UiRoots(root: Option<Id>, screenRoot: Option<Id>, overlayRoot: Option<Id>)

  /** Which of the two depth-range preconditions a call violated. */
  datatype DepthRangeViolation = MinOutOfRange | MaxOutOfRange

  /** One request a widget makes of an ancestor container while propagating upwards. */
  datatype RequestKind = SelectRequest | ShowRequest
  datatype ContainerRequest = ContainerRequest(kind: RequestKind, container: Id, child: Id)

  /**
    `rank` witnesses that the links have no cycles. It decreases strictly from a
    widget to its parent. It also decreases from a widget with no parent to its
    owner, which is the link GetOwnerWidget follows then.
  */
  ghost predicate Ranked(parent: map<Id, Id>, owner: map<Id, Id>, rank: map<Id, nat>) {
    && (forall w :: w in parent ==> w in rank && parent[w] in rank && rank[parent[w]] < rank[w])
    && (forall w :: w in owner && w !in parent ==> w in rank && owner[w] in rank && rank[owner[w]] < rank[w])
  }

  /**
    The two preconditions of SetDepthRange, checked in the order of the C++
    `Widget::SetDepthRange`. The
    result is `None` exactly when the range lies within [0, 1] and is not
    inverted.
  */
  function DepthRangeCheck(min: real, max: real): (e: Option<DepthRangeViolation>)
    ensures e.None? <==> 0.0 <= min <= max <= 1.0
    ensures e == Some(MinOutOfRange) <==> (min < 0.0 || 1.0 < min)
    ensures e == Some(MaxOutOfRange) <==> (0.0 <= min <= 1.0 && (max < min || 1.0 < max))
  {
    if !(0.0 <= min && min <= 1.0) then Some(MinOutOfRange)
    else if !(max >= min && max <= 1.0) then Some(MaxOutOfRange)
    else None
  }

  /** The live on-delete lists after running `calls` in order, each one changing those lists by `effect`. */
  function ApplyEffects(effect: (Call, map<Id, seq<Call>>) -> map<Id, seq<Call>>,
                        calls: seq<Call>, m: map<Id, seq<Call>>): (r: map<Id, seq<Call>>)
    decreases |calls|
  {
    if calls == [] then m
    else effect(calls[|calls| - 1], ApplyEffects(effect, calls[..|calls| - 1], m))
  }

  class WidgetTree {
    /** parent_widget_ of each parented widget. */
    var parent: map<Id, Id>
    /** owner_widget_ of each owned widget. */
    var owner: map<Id, Id>
    /** Acyclicity witness for `parent` and `owner`. */
    ghost var depth: map<Id, nat>
    /** The UI singleton, `None` before it is created. */
    var ui: Option<UiRoots>
    /** The containers whose is_window_stack() holds. */
    var windowStacks: set<Id>

    /** The widgets whose selected_ flag is set. */
    var selected: set<Id>
    var depthMin: map<Id, real>
    var depthMax: map<Id, real>
    var toolbarVisibility: map<Id, ToolbarVisibility>
    /** on_select_call_ of the widgets that have one. */
    var onSelectCall: map<Id, Call>
    /** on_delete_calls_, in registration order. */
    var onDeleteCalls: map<Id, seq<Call>>

    /** The child each container was last asked to select. */
    var selectedChild: map<Id, Id>
    /** The child each container was last asked to show. */
    var shownChild: map<Id, Id>
    /** Every SelectWidget and ShowWidget request made of a container, oldest first. */
    var requests: seq<ContainerRequest>
    /** The logic thread's queue of deferred calls, oldest first. */
    var pending: seq<Call>
    /** Every on-delete callback run so far, in the order it ran. */
    var deleteRuns: seq<Call>
    /** How often the root widget was told to refresh for the focused window. */
    var focusRefreshes: nat

    ghost predicate Valid()
      reads this`parent, this`owner, this`depth
    {
      Ranked(parent, owner, depth)
    }

    /** Every stored depth range lies within [0, 1] and is not inverted. */
    ghost predicate DepthRangesSound()
      reads this`depthMin, this`depthMax
    {
      && (forall w :: w in depthMax ==> w in depthMin)
      && (forall w :: w in depthMin ==> w in depthMax && 0.0 <= depthMin[w] <= depthMax[w] <= 1.0)
    }

    /**
      A UI whose links are `parent` and `owner` (acyclic, as `rank` witnesses) and
      whose widgets are otherwise freshly constructed: nothing selected, no
      callbacks, nothing requested or queued.
    */
    constructor (parent: map<Id, Id>, owner: map<Id, Id>, ghost rank: map<Id, nat>,
                 ui: Option<UiRoots>, windowStacks: set<Id>)
      requires Ranked(parent, owner, rank)
      ensures Valid()
      ensures this.parent == parent && this.owner == owner && this.ui == ui
      ensures this.windowStacks == windowStacks
      ensures selected == {} && depthMin == map[] && depthMax == map[]
      ensures toolbarVisibility == map[] && onSelectCall == map[] && onDeleteCalls == map[]
      ensures selectedChild == map[] && shownChild == map[]
      ensures requests == [] && pending == [] && deleteRuns == [] && focusRefreshes == 0
    {
      this.parent := parent;
      this.owner := owner;
      this.depth := rank;
      this.ui := ui;
      this.windowStacks := windowStacks;
      selected := {};
      depthMin, depthMax := map[], map[];
      toolbarVisibility := map[];
      onSelectCall := map[];
      onDeleteCalls := map[];
      selectedChild, shownChild := map[], map[];
      requests, pending, deleteRuns := [], [], [];
      focusRefreshes := 0;
    }

    /** The root widget of the UI, if there is a UI and it has one. */
    function RootWidget(): (r: Option<Id>)
      reads this`ui
      ensures r.Some? ==> ui.Some? && ui.value.root == r
    {
      if ui.Some? then ui.value.root else None
    }

    /** The on-delete callbacks registered on `w`, in registration order. */
    function OnDeleteCalls(w: Id): (calls: seq<Call>)
      reads this`onDeleteCalls
    {
      if w in onDeleteCalls then onDeleteCalls[w] else []
    }

    // ------------------------------------------------------------------
    // The parent chain

    /**
      The containers above `w`, nearest first: the parent of `w`, then its
      parent, and so on up to a widget with no parent. `w` itself is not
      included.
    */
    ghost function Ancestors(w: Id): (chain: seq<Id>)
      reads this`parent, this`owner, this`depth
      requires Valid()
      decreases if w in depth then depth[w] else 0
    {
      if w in parent then [parent[w]] + Ancestors(parent[w]) else []
    }

    /**
      The ancestors follow the parent links exactly. The first is the parent of
      `w`, each later one is the parent of the one before, and the last has no
      parent.
    */
    lemma {:induction false} AncestorsFollowParents(w: Id)
      requires Valid()
      ensures var a := Ancestors(w);
        && (|a| == 0 <==> w !in parent)
        && (|a| > 0 ==> a[0] == parent[w] && a[|a| - 1] !in parent)
        && (forall i :: 0 <= i < |a| - 1 ==> a[i] in parent && parent[a[i]] == a[i + 1])
      decreases if w in depth then depth[w] else 0
    {
      if w in parent {
        AncestorsFollowParents(parent[w]);
      }
    }

    /**
      Going up the chain strictly lowers the depth. Hence no widget is its own
      ancestor and no container occurs twice on a chain.
    */
    lemma {:induction false} AncestorsDescend(w: Id)
      requires Valid()
      ensures var a := Ancestors(w);
        && (forall i :: 0 <= i < |a| ==> w in depth && a[i] in depth && depth[a[i]] < depth[w])
        && (forall i, j :: 0 <= i < j < |a| ==> depth[a[j]] < depth[a[i]])
      decreases if w in depth then depth[w] else 0
    {
      if w in parent {
        var p := parent[w];
        AncestorsDescend(p);
        var a := Ancestors(w);
        forall i, j | 0 <= i < j < |a|
          ensures a[i] in depth && a[j] in depth && depth[a[j]] < depth[a[i]]
        {
          assert a[j] == Ancestors(p)[j - 1];
          if i > 0 {
            assert a[i] == Ancestors(p)[i - 1];
          }
        }
      }
    }

    /** A widget is never among its own ancestors, and each ancestor occurs once. */
    lemma AncestorsDistinct(w: Id)
      requires Valid()
      ensures w !in Ancestors(w)
      ensures forall i, j :: 0 <= i < j < |Ancestors(w)| ==> Ancestors(w)[i] != Ancestors(w)[j]
    {
      AncestorsDescend(w);
    }

    /**
      Collects the chain of containers above `w`, nearest first, as the
      std::vector in the two coordinate mappings does.
    */
    method CollectParents(w: Id) returns (widgets: seq<Id>)
      requires Valid()
      ensures widgets == Ancestors(w)
    {
      widgets := [];
      var cur := Lookup(parent, w);
      while cur.Some?
        invariant cur.Some? ==> cur.value in depth
        invariant cur.Some? ==> widgets + [cur.value] + Ancestors(cur.value) == Ancestors(w)
        invariant cur.None? ==> widgets == Ancestors(w)
        decreases if cur.Some? then depth[cur.value] + 1 else 0
      {
        widgets := widgets + [cur.value];
        cur := Lookup(parent, cur.value);
      }
    }

    /**
      Walks the parent chain of `w` looking for `target`. The search is true
      exactly when `target` is a strict ancestor of `w`. An absent target, like a
      null pointer, is never found.
    */
    method HasStrictAncestor(w: Id, target: Option<Id>) returns (found: bool)
      requires Valid()
      ensures found <==> target.Some? && target.value in Ancestors(w)
      ensures w !in parent ==> !found
    {
      var cur := Lookup(parent, w);
      while cur.Some?
        invariant cur.Some? ==> cur.value in depth
        invariant (target.Some? && target.value in Ancestors(w)) <==>
                  (cur.Some? && target.Some? && (target.value == cur.value || target.value in Ancestors(cur.value)))
        decreases if cur.Some? then depth[cur.value] + 1 else 0
      {
        if cur == target {
          return true;
        }
        cur := Lookup(parent, cur.value);
      }
      return false;
    }

    /**
      Whether the screen-root widget is among the ancestors of `w`. The answer is
      false when there is no UI yet or it has no screen root.
    */
    method IsInMainStack(w: Id) returns (r: bool)
      requires Valid()
      ensures r <==> ui.Some? && ui.value.screenRoot.Some? && ui.value.screenRoot.value in Ancestors(w)
      ensures ui.None? || w !in parent ==> !r
    {
      if ui.None? {
        return false;
      }
      var screenRoot := ui.value.screenRoot;
      if screenRoot.None? {
        return false;
      }
      r := HasStrictAncestor(w, screenRoot);
    }

    /**
      Whether the overlay-root widget is among the ancestors of `w`. The C++
      `Widget::IsInOverlayStack` reads `g_ui` without checking it, so a UI is
      required.
    */
    method IsInOverlayStack(w: Id) returns (r: bool)
      requires Valid()
      requires ui.Some?
      ensures r <==> ui.value.overlayRoot.Some? && ui.value.overlayRoot.value in Ancestors(w)
      ensures w !in parent ==> !r
    {
      r := HasStrictAncestor(w, ui.value.overlayRoot);
    }

    // ------------------------------------------------------------------
    // The focus chain

    /** The logical ancestor of `w`: its parent when it has one, otherwise its owner. */
    function GetOwnerWidget(w: Id): (r: Option<Id>)
      reads this`parent, this`owner
      ensures w in parent ==> r == Some(parent[w])
      ensures w !in parent ==> (r.Some? <==> w in owner)
      ensures r.Some? && w !in parent ==> r.value == owner[w]
    {
      if w in parent then Some(parent[w]) else Lookup(owner, w)
    }

    /**
      The widgets whose selected flag IsHierarchySelected consults, starting at `w`
      and following GetOwnerWidget. It ends at the last widget before the root
      widget or before a missing owner.
    */
    ghost function FocusChain(w: Id): (chain: seq<Id>)
      reads this`parent, this`owner, this`depth, this`ui
      requires Valid()
      decreases if w in depth then depth[w] else 0
    {
      var next := GetOwnerWidget(w);
      if next.None? || next == RootWidget() then [w] else [w] + FocusChain(next.value)
    }

    /** Every widget of `chain` is selected. */
    ghost predicate AllSelected(chain: seq<Id>)
      reads this`selected
    {
      forall i :: 0 <= i < |chain| ==> chain[i] in selected
    }

    /** A chain headed by a selected widget is all selected exactly when its tail is. */
    lemma AllSelectedCons(w: Id, rest: seq<Id>)
      requires w in selected
      ensures AllSelected([w] + rest) <==> AllSelected(rest)
    {
      if AllSelected(rest) {
        forall i | 0 <= i < |[w] + rest|
          ensures ([w] + rest)[i] in selected
        {
          if i > 0 {
            assert ([w] + rest)[i] == rest[i - 1];
          }
        }
      }
      if AllSelected([w] + rest) {
        forall i | 0 <= i < |rest|
          ensures rest[i] in selected
        {
          assert rest[i] == ([w] + rest)[i + 1];
        }
      }
    }

    /**
      The focus chain starts at `w` and follows GetOwnerWidget. It stops exactly
      where the next logical ancestor is missing or is the root widget, so the
      root widget is never on it past the first position.
    */
    lemma {:induction false} FocusChainFollowsOwners(w: Id)
      requires Valid()
      ensures var f := FocusChain(w);
        && |f| >= 1 && f[0] == w
        && (forall i :: 0 <= i < |f| - 1 ==> GetOwnerWidget(f[i]) == Some(f[i + 1]))
        && (forall i :: 1 <= i < |f| ==> Some(f[i]) != RootWidget())
        && (GetOwnerWidget(f[|f| - 1]).None? || GetOwnerWidget(f[|f| - 1]) == RootWidget())
      decreases if w in depth then depth[w] else 0
    {
      var next := GetOwnerWidget(w);
      if !(next.None? || next == RootWidget()) {
        FocusChainFollowsOwners(next.value);
      }
    }

    /**
      Whether `w` and all of its logical ancestors below the root widget are
      selected. The root widget itself is not consulted. The C++
      `Widget::IsHierarchySelected` reads `g_ui` only once it has passed a
      selected widget that has an owner.
    */
    method IsHierarchySelected(w: Id) returns (r: bool)
      requires Valid()
      requires ui.Some? || w !in selected || GetOwnerWidget(w).None?
      ensures r <==> AllSelected(FocusChain(w))
      ensures w !in selected ==> !r
      ensures GetOwnerWidget(w).None? || GetOwnerWidget(w) == RootWidget() ==> (r <==> w in selected)
    {
      assert FocusChain(w)[0] == w;
      var p := w;
      while true
        invariant AllSelected(FocusChain(w)) <==> AllSelected(FocusChain(p))
        decreases if p in depth then depth[p] else 0
      {
        if p !in selected {
          assert FocusChain(p)[0] == p;
          return false;
        }
        var next := GetOwnerWidget(p);
        if next.None? || next == RootWidget() {
          assert FocusChain(p) == [p];
          break;
        }
        AllSelectedCons(p, FocusChain(next.value));
        p := next.value;
      }
      return true;
    }

    // ------------------------------------------------------------------
    // Local state transitions

    /**
      Sets the selected flag of `w`. Nothing happens when the flag already has
      that value. A change to selected with a select callback present appends the
      callback to the deferred queue once; nothing runs during the call.
    */
    method SetSelected(w: Id, s: bool)
      modifies this`selected, this`pending
      ensures (w in selected) == s
      ensures (w in old(selected)) == s ==> selected == old(selected)
      ensures selected - {w} == old(selected) - {w}
      ensures pending == old(pending) +
        (if (w in old(selected)) != s && s && w in onSelectCall then [onSelectCall[w]] else [])
    {
      if (w in selected) == s {
        return;
      }
      selected := if s then selected + {w} else selected - {w};
      if s && w in onSelectCall {
        pending := pending + [onSelectCall[w]];
      }
    }

    /** Registers the select callback of `w`, replacing any earlier one. */
    method SetOnSelectCall(w: Id, call: Call)
      modifies this`onSelectCall
      ensures onSelectCall == old(onSelectCall)[w := call]
    {
      onSelectCall := onSelectCall[w := call];
    }

    /** Appends a callback to the on-delete list of `w`. */
    method AddOnDeleteCall(w: Id, call: Call)
      modifies this`onDeleteCalls
      ensures onDeleteCalls == old(onDeleteCalls)[w := old(OnDeleteCalls(w)) + [call]]
    {
      onDeleteCalls := onDeleteCalls[w := OnDeleteCalls(w) + [call]];
    }

    /**
      Sets the depth range of `w` when both preconditions hold. Otherwise it
      reports the first violated one and changes nothing. Only the two depth
      fields of `w` change, and sound depth ranges stay sound.
    */
    method SetDepthRange(w: Id, min: real, max: real) returns (err: Option<DepthRangeViolation>)
      modifies this`depthMin, this`depthMax
      ensures err.None? <==> 0.0 <= min <= max <= 1.0
      ensures err == DepthRangeCheck(min, max)
      ensures err.None? ==> depthMin == old(depthMin)[w := min] && depthMax == old(depthMax)[w := max]
      ensures err.Some? ==> depthMin == old(depthMin) && depthMax == old(depthMax)
      ensures old(DepthRangesSound()) ==> DepthRangesSound()
    {
      err := DepthRangeCheck(min, max);
      if err.Some? {
        return;
      }
      depthMin := depthMin[w := min];
      depthMax := depthMax[w := max];
    }

    /**
      Stores the toolbar visibility of `w`. When `w` sits directly in a window
      stack, the root widget is also told to refresh for the focused window. The
      C++ `Widget::SetToolbarVisibility` reaches `g_ui->root_widget()` without
      checking either pointer.
    */
    method SetToolbarVisibility(w: Id, v: ToolbarVisibility)
      requires w in parent && parent[w] in windowStacks ==> RootWidget().Some?
      modifies this`toolbarVisibility, this`focusRefreshes
      ensures toolbarVisibility == old(toolbarVisibility)[w := v]
      ensures focusRefreshes == old(focusRefreshes) + (if w in parent && parent[w] in windowStacks then 1 else 0)
    {
      toolbarVisibility := toolbarVisibility[w := v];
      if w in parent && parent[w] in windowStacks {
        focusRefreshes := focusRefreshes + 1;
      }
    }

    /**
      The destructor's callback loop. It runs every on-delete callback of `w`
      from the list as it stood when destruction began, each once and in
      registration order. Each run may change the live lists as `effect` says,
      and that does not change which callbacks run. The list of `w` is gone
      afterwards.
    */
    method Destroy(w: Id, effect: (Call, map<Id, seq<Call>>) -> map<Id, seq<Call>>)
      modifies this`deleteRuns, this`onDeleteCalls
      ensures deleteRuns == old(deleteRuns) + old(OnDeleteCalls(w))
      ensures onDeleteCalls == ApplyEffects(effect, old(OnDeleteCalls(w)), old(onDeleteCalls)) - {w}
    {
      var snapshot := OnDeleteCalls(w);
      var i := 0;
      while i < |snapshot|
        invariant 0 <= i <= |snapshot|
        invariant deleteRuns == old(deleteRuns) + snapshot[..i]
        invariant onDeleteCalls == ApplyEffects(effect, snapshot[..i], old(onDeleteCalls))
      {
        assert snapshot[..i + 1][..i] == snapshot[..i];
        deleteRuns := deleteRuns + [snapshot[i]];
        onDeleteCalls := effect(snapshot[i], onDeleteCalls);
        i := i + 1;
      }
      assert snapshot[..i] == snapshot;
      onDeleteCalls := onDeleteCalls - {w};
    }

    // ------------------------------------------------------------------
    // Upward propagation

    /**
      The requests made while propagating `kind` upwards from `w`: each
      container on the chain is asked about the chain node directly below it,
      nearest container first.
    */
    ghost function UpwardRequests(kind: RequestKind, w: Id): (u: seq<ContainerRequest>)
      reads this`parent, this`owner, this`depth
      requires Valid()
      decreases if w in depth then depth[w] else 0
    {
      if w in parent then [ContainerRequest(kind, parent[w], w)] + UpwardRequests(kind, parent[w]) else []
    }

    /**
      Upward propagation asks each ancestor container exactly once, bottom-up.
      Request `i` goes to the `i`-th ancestor, about `w` itself or the ancestor
      before it, and no container is asked twice.
    */
    lemma {:induction false} UpwardRequestsVisitEachAncestorOnce(kind: RequestKind, w: Id)
      requires Valid()
      ensures var u, a := UpwardRequests(kind, w), Ancestors(w);
        && |u| == |a|
        && (forall i :: 0 <= i < |u| ==> u[i].kind == kind && u[i].container == a[i])
        && (|u| > 0 ==> u[0].child == w)
        && (forall i :: 0 < i < |u| ==> u[i].child == u[i - 1].container)
        && (forall i, j :: 0 <= i < j < |u| ==> u[i].container != u[j].container)
      decreases if w in depth then depth[w] else 0
    {
      AncestorsDescend(w);
      if w in parent {
        UpwardRequestsVisitEachAncestorOnce(kind, parent[w]);
      }
    }

    /**
      The container-to-child map after each container on the chain above `w`
      records the chain node directly below it.
    */
    ghost function MarkChain(m: map<Id, Id>, w: Id): (r: map<Id, Id>)
      reads this`parent, this`owner, this`depth
      requires Valid()
      decreases if w in depth then depth[w] else 0
    {
      if w in parent then MarkChain(m[parent[w] := w], parent[w]) else m
    }

    /**
      Marking the chain above `w` maps each ancestor to the chain node directly
      below it. Containers off the chain keep their entries, and no other key is
      added.
    */
    lemma {:induction false} MarkChainRecordsChain(m: map<Id, Id>, w: Id)
      requires Valid()
      ensures var r, a := MarkChain(m, w), Ancestors(w);
        && (forall k :: k in r <==> k in m || k in a)
        && (forall i :: 0 <= i < |a| ==> r[a[i]] == ([w] + a)[i])
        && (forall k :: k in m && k !in a ==> r[k] == m[k])
      decreases if w in depth then depth[w] else 0
    {
      if w in parent {
        var p := parent[w];
        MarkChainRecordsChain(m[p := w], p);
        AncestorsDistinct(p);
        var a := Ancestors(w);
        assert a == [p] + Ancestors(p);
        forall i | 0 < i < |a|
          ensures MarkChain(m, w)[a[i]] == ([w] + a)[i]
        {
          assert a[i] == Ancestors(p)[i - 1];
          assert ([w] + a)[i] == ([p] + Ancestors(p))[i - 1];
        }
      }
    }

    /**
      Makes the path from `w` up to its topmost container the selected branch.
      Each container on the chain selects the node directly below it, bottom-up.
      A widget with no parent changes nothing.
    */
    method GlobalSelect(w: Id)
      requires Valid()
      modifies this`selectedChild, this`requests
      ensures selectedChild == MarkChain(old(selectedChild), w)
      ensures requests == old(requests) + UpwardRequests(SelectRequest, w)
      ensures w !in parent ==> selectedChild == old(selectedChild) && requests == old(requests)
    {
      var child := w;
      if w !in parent {
        return;
      }
      var c := parent[w];
      while true
        invariant child in parent && c == parent[child]
        invariant MarkChain(selectedChild, child) == MarkChain(old(selectedChild), w)
        invariant requests + UpwardRequests(SelectRequest, child) == old(requests) + UpwardRequests(SelectRequest, w)
        decreases depth[child]
      {
        selectedChild := selectedChild[c := child];
        requests := requests + [ContainerRequest(SelectRequest, c, child)];
        child := c;
        if c !in parent {
          break;
        }
        c := parent[c];
      }
    }

    /**
      Asks each container on the chain above `w` to reveal the node directly
      below it, bottom-up. A widget with no parent changes nothing.
    */
    method Show(w: Id)
      requires Valid()
      modifies this`shownChild, this`requests
      ensures shownChild == MarkChain(old(shownChild), w)
      ensures requests == old(requests) + UpwardRequests(ShowRequest, w)
      ensures w !in parent ==> shownChild == old(shownChild) && requests == old(requests)
    {
      var child := w;
      if w !in parent {
        return;
      }
      var c := parent[w];
      while true
        invariant child in parent && c == parent[child]
        invariant MarkChain(shownChild, child) == MarkChain(old(shownChild), w)
        invariant requests + UpwardRequests(ShowRequest, child) == old(requests) + UpwardRequests(ShowRequest, w)
        decreases depth[child]
      {
        shownChild := shownChild[c := child];
        requests := requests + [ContainerRequest(ShowRequest, c, child)];
        child := c;
        if c !in parent {
          break;
        }
        c := parent[c];
      }
    }

    // ------------------------------------------------------------------
    // Coordinate mapping

    /**
      Maps `p` from the space of `w` to screen space. The containers' from-child
      maps are applied from the parent of `w` outwards. A widget with no parent
      is already in screen space.
    */
    method WidgetPointToScreen(w: Id, p: Point, fromChild: Transform<Id>) returns (q: Point)
      requires Valid()
      ensures q == Lift(fromChild, w, Ancestors(w), p)
      ensures w !in parent ==> q == p
    {
      q := p;
      if w in parent {
        var widgets := CollectParents(w);
        q := fromChild(widgets[0], w, q);
        var i := 1;
        while i < |widgets|
          invariant 1 <= i <= |widgets|
          invariant Lift(fromChild, widgets[i - 1], widgets[i..], q) == Lift(fromChild, w, widgets, p)
        {
          assert widgets[i..][1..] == widgets[i + 1..];
          q := fromChild(widgets[i], widgets[i - 1], q);
          i := i + 1;
        }
      }
    }

    /**
      Maps `p` from screen space to the space of `w`. The to-child maps are
      applied from the outermost container inwards, ending with the map of the
      parent of `w`. It then maps the result back to screen space as a sanity
      check. `consistent` says whether that gives back `p`, and it always does
      when each from-child map undoes its to-child map.
    */
    method ScreenPointToWidget(w: Id, p: Point, toChild: Transform<Id>, fromChild: Transform<Id>)
      returns (q: Point, consistent: bool)
      requires Valid()
      ensures q == Lower(toChild, w, Ancestors(w), p)
      ensures w !in parent ==> q == p
      ensures consistent <==> Lift(fromChild, w, Ancestors(w), q) == p
      ensures FromUndoesTo(toChild, fromChild) ==> consistent
    {
      q := p;
      if w in parent {
        var widgets := CollectParents(w);
        var i := |widgets| - 1;
        while i > 0
          invariant 0 <= i < |widgets|
          invariant q == Lower(toChild, widgets[i], widgets[i + 1..], p)
        {
          assert widgets[i..][1..] == widgets[i + 1..];
          q := toChild(widgets[i], widgets[i - 1], q);
          i := i - 1;
        }
        assert widgets[0..][1..] == widgets[1..];
        q := toChild(widgets[0], w, q);
      }
      var back := WidgetPointToScreen(w, q, fromChild);
      consistent := back == p;
      if FromUndoesTo(toChild, fromChild) {
        LiftUndoesLower(toChild, fromChild, w, Ancestors(w), p);
      }
    }
  }
}
