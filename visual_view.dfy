/** The diagram view controller (`VisualView`): it owns the camera, the minimap box,
    the layout tree received from the data source, the registries of rendered
    elements, the pan animation and the view's record of the selection. Rendered
    elements are opaque handles drawn from a counter; timers are ids drawn from a
    second counter, and `pendingTimers` is the set the event loop would still fire. */
module Diagram {
  import opened Common
  import opened Camera
  import opened Minimap
  import opened LayoutTree
  import opened Reconcile
  import opened SharedStore

  type TimerId = nat

  /** Length of an animated pan, in milliseconds. */
  const PanAnimationDuration: real := 200.0

  /** The exception `_setupControl` throws when the minimap has not been rendered. */
  datatype ViewError = MissingPreviewGroup

  /** `_controlInfo`: the minimap's four elements and the geometry last computed. */
  datatype ControlInfo = ControlInfo(
    previewGroup: Option<Handle>,
    previewFullRect: Option<Handle>,
    previewItemsGroup: Option<Handle>,
    previewVisibleRect: Option<Handle>,
    box: Option<ControlBox>)
  {
    predicate Wired() {
      previewGroup.Some? && previewFullRect.Some? && previewItemsGroup.Some? && previewVisibleRect.Some?
    }
  }

  const NoControl: ControlInfo := ControlInfo(None, None, None, None, None)

  /** Layout has given the node a size the minimap can divide by. */
  predicate PositiveSize(n: LayoutNode) {
    n.geom.width > 0.0 && n.geom.height > 0.0
  }

  /** What is required of the external layout passes (auto-expand, measure and
      arrange, absolute positions) on the tree `n` they are run on: they update its
      nodes in place, never adding or removing one, and give the root a positive
      size. */
  ghost predicate LayoutFits(layout: LayoutNode -> LayoutNode, n: LayoutNode) {
    SameShape(layout(n), n) && PositiveSize(layout(n))
  }

  /** The layout passes leave the tree's expansion as it is: the same nodes are
      visible, in the same order. Auto-expansion may break this. */
  ghost predicate KeepsExpansion(layout: LayoutNode -> LayoutNode, n: LayoutNode) {
    IdsOf(Extract(layout(n))) == IdsOf(Extract(n))
  }

  /** Layout passes that keep the expansion keep the visible id set. */
  lemma KeptExpansionIdSet(layout: LayoutNode -> LayoutNode, n: LayoutNode, showRoot: bool)
    ensures KeepsExpansion(layout, n) ==> IdSet(Flatten(layout(n), showRoot)) == IdSet(Flatten(n, showRoot))
  {
    if KeepsExpansion(layout, n) {
      SameExtractIdSet(layout(n), n, showRoot);
    }
  }

  /** A non-empty string is truthy; `null`/`undefined` (none) are not. */
  predicate SelTruthy(sel: Option<Id>) {
    sel.Some? && sel.value != ""
  }

  /** The ids, in order, of those nodes that have a rendered element: `_updateNode`
      returns at once for a node without one. */
  function RenderedIds(ns: seq<LayoutNode>, registry: map<Id, Handle>): (r: seq<Id>)
    ensures |r| <= |ns|
    ensures forall i :: 0 <= i < |r| ==> r[i] in registry
    decreases |ns|
  {
    if ns == [] then []
    else RenderedIds(ns[..|ns| - 1], registry) + (if ns[|ns| - 1].id in registry then [ns[|ns| - 1].id] else [])
  }

  /** The rendered ids among the visible nodes of the first `i` children. */
  function RefreshedPrefix(kids: seq<LayoutNode>, i: nat, registry: map<Id, Handle>): seq<Id>
    requires i <= |kids|
  {
    RenderedIds(ExtractAll(kids[..i]), registry)
  }

  /** Over all the children it is the rendered ids of their visible nodes. */
  lemma RefreshedPrefixAll(kids: seq<LayoutNode>, registry: map<Id, Handle>)
    ensures RefreshedPrefix(kids, |kids|, registry) == RenderedIds(ExtractAll(kids), registry)
  {
    assert kids[..|kids|] == kids;
  }

  /** Refreshing the visible nodes of one more child appends its rendered ids. */
  lemma RenderedIdsSnoc(kids: seq<LayoutNode>, i: nat, registry: map<Id, Handle>)
    requires i < |kids|
    ensures RefreshedPrefix(kids, i + 1, registry)
            == RefreshedPrefix(kids, i, registry) + RenderedIds(Extract(kids[i]), registry)
  {
    ExtractAllSnoc(kids, i);
    RenderedIdsAppend(ExtractAll(kids[..i]), Extract(kids[i]), registry);
  }

  /** Exactly the rendered ids among the nodes are refreshed. */
  lemma {:induction false} RenderedIdsMembers(ns: seq<LayoutNode>, registry: map<Id, Handle>)
    ensures forall id :: id in RenderedIds(ns, registry) <==> id in registry && id in IdSet(ns)
    decreases |ns|
  {
    if ns != [] {
      var init := ns[..|ns| - 1];
      var last := ns[|ns| - 1];
      assert ns == init + [last];
      IdSetAppend(init, [last]);
      RenderedIdsMembers(init, registry);
    }
  }

  lemma {:induction false} RenderedIdsAppend(a: seq<LayoutNode>, b: seq<LayoutNode>, registry: map<Id, Handle>)
    ensures RenderedIds(a + b, registry) == RenderedIds(a, registry) + RenderedIds(b, registry)
    decreases |b|
  {
    if b == [] {
      assert a + b == a;
    } else {
      var init := b[..|b| - 1];
      assert (a + b)[..|a + b| - 1] == a + init;
      assert (a + b)[|a + b| - 1] == b[|b| - 1];
      RenderedIdsAppend(a, init, registry);
    }
  }

  /** The nodes `_updateSelection` refreshes, in order, when the view's selection
      moves from `prev` to `sel`: the previous node if the previous id was truthy and
      differs, then the new node if it differs from what the view holds by then.
      A node is refreshed only if it is in the lookup table and rendered. */
  function SelectionRefreshes(prev: Option<Id>, sel: Option<Id>, dict: map<Id, LayoutNode>,
                              registry: map<Id, Handle>): (r: seq<Id>)
    ensures |r| <= 2
    ensures forall i :: 0 <= i < |r| ==> Some(r[i]) == prev || Some(r[i]) == sel
    ensures forall i :: 0 <= i < |r| ==> r[i] in dict && r[i] in registry
    ensures prev == sel ==> r == []
    ensures SelTruthy(prev) && prev != sel && prev.value in dict && prev.value in registry
            ==> |r| >= 1 && r[0] == prev.value
    ensures sel.Some? && prev != sel && sel.value in dict && sel.value in registry
            ==> |r| >= 1 && r[|r| - 1] == sel.value
  {
    var leaving := SelTruthy(prev) && prev != sel;
    var first := if leaving && prev.value in dict && prev.value in registry then [prev.value] else [];
    var held := if leaving then None else prev;
    var second := if held != sel && sel.Some? && sel.value in dict && sel.value in registry
                  then [sel.value] else [];
    first + second
  }

  /** `nodeHeaderBgWidth`: the header highlight spans the whole node when it is
      selected and is a square of the header's height otherwise. */
  function NodeHeaderBgWidth(n: LayoutNode, isSelected: bool): (w: real)
    ensures isSelected ==> w == n.geom.width
    ensures !isSelected ==> w == n.geom.headerHeight
  {
    if isSelected then n.geom.width else n.geom.headerHeight
  }

  /** A laid-out header item of a node: its default box, its text, and its boxes per
      flavour. */
  datatype HeaderBox = HeaderBox(width: real, height: real)
  datatype Header = Header(box: HeaderBox, text: string, flavors: map<string, HeaderBox>)

  /** The box `nodeHeaderWidth`/`nodeHeaderHeight` read: none for a missing header
      (drawn as 0 by 0), the flavour's box for a non-empty flavour (reading a property
      of a missing flavour throws), and the default box otherwise. */
  function HeaderBoxFor(header: Option<Header>, flavor: string): (r: Result<HeaderBox, StoreError>)
    ensures header.None? ==> r == Success(HeaderBox(0.0, 0.0))
    ensures header.Some? && flavor == "" ==> r == Success(header.value.box)
    ensures header.Some? && flavor != "" ==>
              (r.Success? <==> flavor in header.value.flavors)
              && (r.Success? ==> r.value == header.value.flavors[flavor])
  {
    if header.None? then Success(HeaderBox(0.0, 0.0))
    else if flavor == "" then Success(header.value.box)
    else if flavor in header.value.flavors then Success(header.value.flavors[flavor])
    else Failure(TypeError)
  }

  function NodeHeaderWidth(header: Option<Header>, flavor: string): (r: Result<real, StoreError>)
    ensures r.Success? <==> HeaderBoxFor(header, flavor).Success?
    ensures r.Success? ==> r.value == HeaderBoxFor(header, flavor).value.width
  {
    var b := HeaderBoxFor(header, flavor);
    if b.Failure? then Failure(b.error) else Success(b.value.width)
  }

  function NodeHeaderHeight(header: Option<Header>, flavor: string): (r: Result<real, StoreError>)
    ensures r.Success? <==> HeaderBoxFor(header, flavor).Success?
    ensures r.Success? ==> r.value == HeaderBoxFor(header, flavor).value.height
  {
    var b := HeaderBoxFor(header, flavor);
    if b.Failure? then Failure(b.error) else Success(b.value.height)
  }

  /** `nodeHeaderText`: a missing header shows no text. */
  function NodeHeaderText(header: Option<Header>): (t: string)
    ensures header.None? ==> t == ""
    ensures header.Some? ==> t == header.value.text
  {
    if header.None? then "" else header.value.text
  }

  /** The bookkeeping of one keyed join: the registry ends up bound to exactly the
      ids of `items`, retained ids keep their element, and every element created
      was allocated from `[next0, next1)`. */
  ghost predicate Rejoined(before: map<Id, Handle>, after: map<Id, Handle>, items: seq<LayoutNode>,
                           next0: Handle, next1: Handle)
  {
    && after.Keys == IdSet(items)
    && (forall k :: k in after && k in before ==> after[k] == before[k])
    && (forall k :: k in after && k !in before ==> next0 <= after[k] < next1)
    && next0 <= next1
  }

  lemma KeySetOfIds(ns: seq<LayoutNode>)
    ensures KeySet(IdsOf(ns)) == IdSet(ns)
  {
    forall k | k in IdSet(ns) ensures k in KeySet(IdsOf(ns)) {
      var i :| 0 <= i < |ns| && ns[i].id == k;
      assert IdsOf(ns)[i] == k;
    }
  }

  /** The selection after a click on node `id` when `prev` is selected: clicking the
      selected node clears the selection, clicking any other node selects it. */
  function ClickedSelection(prev: Option<Id>, id: Id): (r: Option<Id>)
    ensures r == Some(id) <==> prev != Some(id)
    ensures r.None? <==> prev == Some(id)
  {
    if prev == Some(id) then None else Some(id)
  }

  /** Two clicks on the same node select it exactly when it was selected before. */
  lemma ClickTwice(prev: Option<Id>, id: Id)
    ensures ClickedSelection(ClickedSelection(prev, id), id) == (if prev == Some(id) then prev else None)
  {
  }

  /** The laid-out tree of a view at one moment, with its lookup table and its
      flattened node list. */
  datatype TreeSnapshot = TreeSnapshot(
    visualRoot: Option<LayoutNode>,
    nodeDict: map<Id, LayoutNode>,
    flatVisualNodes: seq<LayoutNode>)

  /** The rendered side of a view at one moment: the root group, the element
      registries, the handle counter and the refresh log. */
  datatype ElementSnapshot = ElementSnapshot(
    rootElem: Option<Handle>,
    nodes: map<Id, Handle>,
    smallNodes: map<Id, Handle>,
    nextHandle: Handle,
    refreshed: seq<Id>)

  /** The pan offset and the pan-animation fields of a view at one moment. */
  datatype PanSnapshot = PanSnapshot(
    viewPos: Pos,
    interpolator: Option<Interpolator>,
    startTime: Option<real>,
    duration: Option<real>,
    timer: Option<TimerId>,
    pending: set<TimerId>,
    nextTimer: TimerId)

  /** The timers pending when `_panAnimationTimer` holds `t`. */
  function TimerSet(t: Option<TimerId>): set<TimerId> {
    if t.Some? then {t.value} else {}
  }

  /** The pan state after `_panTo` starts an animated pan towards `target` at time
      `now`: a new interpolation from the current offset over the pan duration,
      driven by the pending timer if there is one and by a newly scheduled one
      otherwise. */
  function StartedPan(p: PanSnapshot, target: Pos, now: real): (r: PanSnapshot)
    ensures r.viewPos == p.viewPos
    ensures r.timer.Some?
    ensures p.timer.Some? ==> r.timer == p.timer && r.pending == p.pending && r.nextTimer == p.nextTimer
    ensures p.timer.None? ==> r.pending == p.pending + {r.timer.value}
  {
    var scheduled :=
      if p.timer.Some? then p
      else p.(timer := Some(p.nextTimer), pending := p.pending + {p.nextTimer}, nextTimer := p.nextTimer + 1);
    scheduled.(interpolator := Some(Interpolator(p.viewPos, target)),
               startTime := Some(now), duration := Some(PanAnimationDuration))
  }

  /** The target `_activatePanning` pans to for a followed node: its box brought
      into view, then clamped to the content. */
  function FollowTarget(n: LayoutNode, content: Option<Size>, viewport: Size): Pos {
    FixViewPos(AutoPanTarget(Pos(n.geom.absX, n.geom.absY), Size(n.geom.width, n.geom.height), viewport),
               content, viewport)
  }

  /** The pan state after `_activatePanning` with followed node `node`: unchanged
      without one, otherwise an animated pan towards its target. */
  function FollowedPan(p: PanSnapshot, node: Option<LayoutNode>, now: real, content: Option<Size>,
                       viewport: Size): (r: PanSnapshot)
    ensures r.viewPos == p.viewPos
    ensures node.None? ==> r == p
    ensures node.Some? ==> r.interpolator == Some(Interpolator(p.viewPos, FollowTarget(node.value, content, viewport)))
  {
    if node.None? then p else StartedPan(p, FollowTarget(node.value, content, viewport), now)
  }

  /** The pan bookkeeping of a snapshot is consistent: at most one pending timer,
      which is the one recorded and always has an animation to drive; the
      interpolator, its start time and its duration are set and cleared together. */
  predicate PanConsistent(p: PanSnapshot) {
    && p.pending == TimerSet(p.timer)
    && (p.timer.Some? ==> p.timer.value < p.nextTimer && p.duration.Some?)
    && p.interpolator.Some? == p.startTime.Some?
    && p.startTime.Some? == p.duration.Some?
    && (p.duration.Some? ==> p.duration.value == PanAnimationDuration)
  }

  /** Starting a pan keeps the bookkeeping consistent and leaves exactly one timer
      pending, the old one if there was one; the animation runs from the current
      offset (at fraction 0) to the target (from fraction 1 on), and when both ends
      are admissible every tick is. */
  lemma StartedPanAnimates(p: PanSnapshot, target: Pos, now: real, content: Option<Size>, viewport: Size)
    requires PanConsistent(p)
    ensures var q := StartedPan(p, target, now);
            && PanConsistent(q)
            && q.viewPos == p.viewPos
            && q.timer.Some? && q.pending == {q.timer.value}
            && (p.timer.Some? ==> q.timer == p.timer && q.nextTimer == p.nextTimer)
            && q.startTime == Some(now)
            && TickPosition(q.interpolator.value, 0.0) == p.viewPos
            && (forall t :: t >= 1.0 ==> TickPosition(q.interpolator.value, t) == target)
            && (InBounds(p.viewPos, content, viewport) && InBounds(target, content, viewport) ==>
                  forall t :: t >= 0.0 ==> InBounds(TickPosition(q.interpolator.value, t), content, viewport))
  {
    var i := StartedPan(p, target, now).interpolator.value;
    if InBounds(p.viewPos, content, viewport) && InBounds(target, content, viewport) {
      forall t | t >= 0.0
        ensures InBounds(TickPosition(i, t), content, viewport)
      {
        TickPositionInBounds(i, t, content, viewport);
      }
    }
  }

  /** Following a node from an admissible offset never takes the camera outside the
      content: the target is clamped, and so is every tick on the way to it. */
  lemma FollowedPanInBounds(p: PanSnapshot, node: Option<LayoutNode>, now: real, content: Option<Size>,
                            viewport: Size)
    requires PanConsistent(p) && InBounds(p.viewPos, content, viewport)
    ensures var q := FollowedPan(p, node, now, content, viewport);
            && PanConsistent(q)
            && InBounds(q.viewPos, content, viewport)
            && (node.None? ==> q == p)
            && (node.Some? ==>
                  && q.interpolator.value.target == FollowTarget(node.value, content, viewport)
                  && forall t :: t >= 0.0 ==> InBounds(TickPosition(q.interpolator.value, t), content, viewport))
  {
    if node.Some? {
      StartedPanAnimates(p, FollowTarget(node.value, content, viewport), now, content, viewport);
    }
  }

  class VisualView {
    const sharedState: SharedState

    var width: real
    var height: real
    var viewPos: Pos
    /** The translation last applied to the root group. */
    var rootOffset: Pos
    var showRoot: bool
    var visualRoot: Option<LayoutNode>
    var nodeDict: map<Id, LayoutNode>
    var currentSelectedNodeDn: Option<Id>
    var control: ControlInfo
    var flatVisualNodes: seq<LayoutNode>
    var markerData: StoreValue

    var svgElem: Option<Handle>
    var rootElem: Option<Handle>
    var d3NodeDict: map<Id, Handle>
    var d3SmallNodeDict: map<Id, Handle>
    var nextHandle: Handle

    var panInterpolator: Option<Interpolator>
    var panInterpolatorStartTime: Option<real>
    var panAnimationDuration: Option<real>
    var panAnimationTimer: Option<TimerId>
    var pendingTimers: set<TimerId>
    var nextTimer: TimerId

    /** The ids passed to `_updateNode` that had an element to update, in call order. */
    var refreshed: seq<Id>

    /** The pan animation bookkeeping is consistent (see `PanConsistent`). */
    ghost predicate PanValid()
      reads this`viewPos, this`panInterpolator, this`panInterpolatorStartTime, this`panAnimationDuration,
        this`panAnimationTimer, this`pendingTimers, this`nextTimer
    {
      PanConsistent(PanState())
    }

    /** The minimap is rendered as soon as the root group exists, the root has been
        laid out with a positive size, and the pan bookkeeping is consistent. */
    ghost predicate Valid()
      reads this`rootElem, this`svgElem, this`control, this`visualRoot, this`viewPos,
        this`panInterpolator, this`panInterpolatorStartTime, this`panAnimationDuration,
        this`panAnimationTimer, this`pendingTimers, this`nextTimer
    {
      && (rootElem.Some? ==> svgElem.Some? && control.Wired())
      && (visualRoot.Some? ==> PositiveSize(visualRoot.value))
      && PanValid()
    }

    /** The lookup table holds exactly the nodes of the tree, each under its id. */
    ghost predicate TreeIndexed()
      reads this`visualRoot, this`nodeDict
    {
      && (visualRoot.Some? ==> nodeDict == Index(visualRoot.value))
      && (visualRoot.None? ==> nodeDict == map[])
    }

    /** Each registry binds distinct ids to distinct, already allocated elements. */
    ghost predicate RegistriesFresh()
      reads this`d3NodeDict, this`d3SmallNodeDict, this`nextHandle
    {
      && Injective(d3NodeDict) && Below(d3NodeDict, nextHandle)
      && Injective(d3SmallNodeDict) && Below(d3SmallNodeDict, nextHandle)
    }

    function Viewport(): Size
      reads this`width, this`height
    {
      Size(width, height)
    }

    /** The content size the camera is clamped against; none before data arrives. */
    function RootSize(): Option<Size>
      reads this`visualRoot
    {
      if visualRoot.Some? then Some(Size(visualRoot.value.geom.width, visualRoot.value.geom.height)) else None
    }

    /** `_controlInfo` after `_setupControl` with the current state: unchanged without
        a root, otherwise holding the freshly computed box. */
    function ControlUpdated(c: ControlInfo): (r: ControlInfo)
      reads this`visualRoot, this`width, this`height, this`viewPos
      requires visualRoot.Some? ==> PositiveSize(visualRoot.value)
      ensures r.previewGroup == c.previewGroup && r.previewFullRect == c.previewFullRect
      ensures r.previewItemsGroup == c.previewItemsGroup && r.previewVisibleRect == c.previewVisibleRect
      ensures visualRoot.None? ==> r == c
      ensures visualRoot.Some? ==> r.box.Some? && r.box.value.boxWidth >= MinBoxSide && r.box.value.boxHeight >= MinBoxSide
    {
      if visualRoot.None? then c
      else c.(box := Some(ComputeControlBox(Viewport(), RootSize().value, viewPos)))
    }

    constructor(sharedState: SharedState)
      ensures Valid() && TreeIndexed() && RegistriesFresh()
      ensures this.sharedState == sharedState
      ensures width == 0.0 && height == 0.0 && viewPos == Pos(0.0, 0.0) && showRoot
      ensures visualRoot == None && nodeDict == map[] && currentSelectedNodeDn == None
      ensures control == NoControl && flatVisualNodes == [] && markerData == Dict(map[])
      ensures svgElem == None && rootElem == None && d3NodeDict == map[] && d3SmallNodeDict == map[]
      ensures panInterpolator == None && panAnimationTimer == None && pendingTimers == {}
      ensures refreshed == []
    {
      this.sharedState := sharedState;
      width, height := 0.0, 0.0;
      viewPos, rootOffset := Pos(0.0, 0.0), Pos(0.0, 0.0);
      showRoot := true;
      visualRoot := None;
      nodeDict := map[];
      currentSelectedNodeDn := None;
      control := NoControl;
      flatVisualNodes := [];
      markerData := Dict(map[]);
      svgElem, rootElem := None, None;
      d3NodeDict, d3SmallNodeDict := map[], map[];
      nextHandle := 0;
      panInterpolator, panInterpolatorStartTime, panAnimationDuration := None, None, None;
      panAnimationTimer, pendingTimers, nextTimer := None, {}, 0;
      refreshed := [];
    }

    // -------------------------------------------------------------------------
    // Expansion flags persisted in the shared store

    /** `getExpanded`. */
    method GetExpanded(dn: Id) returns (r: Result<bool, StoreError>)
      ensures r == ReadExpanded(sharedState.Get(ExpandedDnsKey), dn)
    {
      var dict := sharedState.Get(ExpandedDnsKey);
      r := ReadExpanded(dict, dn);
    }

    /** `setExpanded`: writes the flag into the stored dictionary and stores it back. */
    method SetExpanded(dn: Id, value: bool) returns (o: Outcome<StoreError>)
      modifies sharedState
      ensures o.Pass? <==> old(sharedState.Get(ExpandedDnsKey)).Dict?
      ensures o.Fail? ==> sharedState.entries == old(sharedState.entries)
      ensures o.Pass? ==> ReadExpanded(sharedState.Get(ExpandedDnsKey), dn) == Success(value)
      ensures o.Pass? ==> forall other :: other != dn ==>
                ReadExpanded(sharedState.Get(ExpandedDnsKey), other)
                == ReadExpanded(old(sharedState.Get(ExpandedDnsKey)), other)
      ensures forall k :: k != ExpandedDnsKey ==> sharedState.Get(k) == old(sharedState.Get(k))
    {
      var dict := sharedState.Get(ExpandedDnsKey);
      var written := WriteExpanded(dict, dn, value);
      if written.Failure? {
        return Fail(written.error);
      }
      forall other | other != dn
        ensures ReadExpanded(written.value, other) == ReadExpanded(dict, other)
      {
        WriteThenRead(dict, dn, value, other);
      }
      WriteThenRead(dict, dn, value, dn);
      sharedState.Set(ExpandedDnsKey, written.value);
      o := Pass;
    }

    method SkipShowRoot()
      modifies this`showRoot
      ensures !showRoot
    {
      showRoot := false;
    }

    // -------------------------------------------------------------------------
    // Minimap and camera

    /** `_setupControl`: nothing without a root; otherwise the box is computed and
        stored, and the call throws if the minimap group has not been rendered. */
    method SetupControl() returns (o: Outcome<ViewError>)
      requires visualRoot.Some? ==> PositiveSize(visualRoot.value)
      modifies this`control
      ensures control == old(ControlUpdated(control))
      ensures o.Fail? <==> visualRoot.Some? && control.previewGroup.None?
      ensures TreeState() == old(TreeState()) && ElementState() == old(ElementState())
      ensures PanState() == old(PanState())
    {
      if visualRoot.None? {
        return Pass;
      }
      control := ControlUpdated(control);
      if control.previewGroup.None? {
        return Fail(MissingPreviewGroup);
      }
      o := Pass;
    }

    /** `_applyPanTransform`: once the root group exists, translate it by the negated
        pan offset and refresh the minimap. */
    method ApplyPanTransform()
      requires Valid()
      modifies this`rootOffset, this`control
      ensures Valid()
      ensures rootElem.None? ==> rootOffset == old(rootOffset) && control == old(control)
      ensures rootElem.Some? ==> rootOffset == Pos(-viewPos.x, -viewPos.y) && control == old(ControlUpdated(control))
      ensures TreeState() == old(TreeState()) && ElementState() == old(ElementState())
      ensures PanState() == old(PanState())
    {
      if rootElem.None? {
        return;
      }
      rootOffset := Pos(-viewPos.x, -viewPos.y);
      var o := SetupControl();
    }

    /** `setupDimentions` with the size measured by the caller. The pan offset is not
        clamped against the new size. */
    method SetupDimentions(size: Size) returns (o: Outcome<ViewError>)
      requires Valid()
      modifies this`width, this`height, this`rootOffset, this`control
      ensures Valid()
      ensures width == size.width && height == size.height
      ensures o.Fail? <==> visualRoot.Some? && control.previewGroup.None?
      ensures o.Fail? ==> rootOffset == old(rootOffset)
      ensures o.Pass? && rootElem.Some? ==> rootOffset == Pos(-viewPos.x, -viewPos.y)
      ensures o.Pass? && rootElem.None? ==> rootOffset == old(rootOffset)
      ensures control == ControlUpdated(old(control))
      ensures TreeState() == old(TreeState()) && ElementState() == old(ElementState()) && svgElem == old(svgElem)
    {
      width, height := size.width, size.height;
      o := SetupControl();
      if o.Fail? {
        return;
      }
      ApplyPanTransform();
    }

    /** `_stopPanAnimation`: forget the animation and cancel its timer. */
    method StopPanAnimation()
      requires PanValid()
      modifies this`panInterpolator, this`panInterpolatorStartTime, this`panAnimationDuration,
               this`panAnimationTimer, this`pendingTimers
      ensures PanValid()
      ensures panInterpolator == None && panInterpolatorStartTime == None && panAnimationDuration == None
      ensures panAnimationTimer == None && pendingTimers == {}
      ensures TreeState() == old(TreeState()) && ElementState() == old(ElementState())
    {
      panInterpolator, panInterpolatorStartTime, panAnimationDuration := None, None, None;
      if panAnimationTimer.Some? {
        pendingTimers := pendingTimers - {panAnimationTimer.value};
        panAnimationTimer := None;
      }
    }

    /** `_animatePanTransform`: schedule the next tick unless one is already pending. */
    method AnimatePanTransform()
      requires PanValid() && panAnimationDuration.Some?
      modifies this`panAnimationTimer, this`pendingTimers, this`nextTimer
      ensures PanValid()
      ensures old(panAnimationTimer).Some? ==>
                panAnimationTimer == old(panAnimationTimer) && pendingTimers == old(pendingTimers)
                && nextTimer == old(nextTimer)
      ensures old(panAnimationTimer).None? ==>
                panAnimationTimer == Some(old(nextTimer)) && pendingTimers == {old(nextTimer)}
                && nextTimer == old(nextTimer) + 1
      ensures TreeState() == old(TreeState()) && ElementState() == old(ElementState())
    {
      if panAnimationTimer.Some? {
        return;
      }
      panAnimationTimer := Some(nextTimer);
      pendingTimers := pendingTimers + {nextTimer};
      nextTimer := nextTimer + 1;
    }

    /** The laid-out tree at this moment. */
    function TreeState(): TreeSnapshot
      reads this`visualRoot, this`nodeDict, this`flatVisualNodes
    {
      TreeSnapshot(visualRoot, nodeDict, flatVisualNodes)
    }

    /** The rendered side at this moment. */
    function ElementState(): ElementSnapshot
      reads this`rootElem, this`d3NodeDict, this`d3SmallNodeDict, this`nextHandle, this`refreshed
    {
      ElementSnapshot(rootElem, d3NodeDict, d3SmallNodeDict, nextHandle, refreshed)
    }

    /** The pan offset and the pan-animation fields at this moment. */
    function PanState(): PanSnapshot
      reads this`viewPos, this`panInterpolator, this`panInterpolatorStartTime, this`panAnimationDuration,
        this`panAnimationTimer, this`pendingTimers, this`nextTimer
    {
      PanSnapshot(viewPos, panInterpolator, panInterpolatorStartTime, panAnimationDuration,
                  panAnimationTimer, pendingTimers, nextTimer)
    }

    /** The immediate branch of `_panTo`: cancel any animation, move to `target`
        and apply the transform. */
    method SnapTo(target: Pos)
      requires Valid()
      modifies this`viewPos, this`rootOffset, this`control,
               this`panInterpolator, this`panInterpolatorStartTime, this`panAnimationDuration,
               this`panAnimationTimer, this`pendingTimers
      ensures Valid()
      ensures viewPos == target
      ensures panInterpolator == None && panInterpolatorStartTime == None && panAnimationDuration == None
      ensures panAnimationTimer == None && pendingTimers == {}
      ensures rootElem.Some? ==> rootOffset == Pos(-target.x, -target.y) && control == ControlUpdated(old(control))
      ensures rootElem.None? ==> rootOffset == old(rootOffset) && control == old(control)
      ensures TreeState() == old(TreeState()) && ElementState() == old(ElementState())
    {
      StopPanAnimation();
      viewPos := target;
      ApplyPanTransform();
    }

    /** The animated branch of `_panTo`: interpolate from the current offset to
        `target` over the pan duration, starting at `now`. */
    method StartPanAnimation(target: Pos, now: real)
      requires Valid()
      modifies this`panInterpolator, this`panInterpolatorStartTime, this`panAnimationDuration,
               this`panAnimationTimer, this`pendingTimers, this`nextTimer
      ensures Valid()
      ensures PanState() == StartedPan(old(PanState()), target, now)
      ensures TreeState() == old(TreeState()) && ElementState() == old(ElementState())
    {
      panInterpolator := Some(Interpolator(viewPos, target));
      panAnimationDuration := Some(PanAnimationDuration);
      panInterpolatorStartTime := Some(now);
      AnimatePanTransform();
    }

    /** `_panTo`. The target is clamped first. An immediate pan cancels any animation
        and moves there at once; otherwise a new interpolation from the current
        offset starts, reusing the pending timer if there is one. */
    method PanTo(x: real, y: real, skipAnimate: bool, now: real)
      requires Valid()
      modifies this`viewPos, this`rootOffset, this`control,
               this`panInterpolator, this`panInterpolatorStartTime, this`panAnimationDuration,
               this`panAnimationTimer, this`pendingTimers, this`nextTimer
      ensures Valid()
      ensures skipAnimate ==>
                && viewPos == FixViewPos(Pos(x, y), RootSize(), Viewport())
                && InBounds(viewPos, RootSize(), Viewport())
                && panInterpolator == None && panInterpolatorStartTime == None
                && panAnimationDuration == None && panAnimationTimer == None && pendingTimers == {}
                && nextTimer == old(nextTimer)
      ensures !skipAnimate ==>
                PanState() == StartedPan(old(PanState()), FixViewPos(Pos(x, y), RootSize(), Viewport()), now)
      ensures !skipAnimate ==> rootOffset == old(rootOffset) && control == old(control)
      ensures TreeState() == old(TreeState()) && ElementState() == old(ElementState())
    {
      var target := FixViewPos(Pos(x, y), RootSize(), Viewport());
      if skipAnimate {
        SnapTo(target);
      } else {
        StartPanAnimation(target, now);
      }
    }

    /** `_userPanTo`: a pan the user asked for also switches auto-pan off. */
    method UserPanTo(x: real, y: real, skipAnimate: bool, now: real)
      requires Valid()
      modifies sharedState, this`viewPos, this`rootOffset, this`control,
               this`panInterpolator, this`panInterpolatorStartTime, this`panAnimationDuration,
               this`panAnimationTimer, this`pendingTimers, this`nextTimer
      ensures Valid()
      ensures sharedState.entries == old(sharedState.entries)[AutoPanKey := Bool(false)]
      ensures !Truthy(sharedState.Get(AutoPanKey))
      ensures skipAnimate ==>
                viewPos == FixViewPos(Pos(x, y), RootSize(), Viewport())
                && panInterpolator == None && panAnimationTimer == None && pendingTimers == {}
      ensures !skipAnimate ==>
                PanState() == StartedPan(old(PanState()), FixViewPos(Pos(x, y), RootSize(), Viewport()), now)
    {
      sharedState.Set(AutoPanKey, Bool(false));
      PanTo(x, y, skipAnimate, now);
    }

    /** Fraction of the pan duration elapsed at `now`. */
    static function ElapsedFraction(start: real, now: real): real {
      (now - start) / PanAnimationDuration
    }

    /** The part of a tick that moves the camera: store the new offset and apply it. */
    method MoveTo(p: Pos)
      requires Valid()
      modifies this`viewPos, this`rootOffset, this`control
      ensures Valid()
      ensures viewPos == p
      ensures rootElem.Some? ==> rootOffset == Pos(-p.x, -p.y) && control == ControlUpdated(old(control))
      ensures rootElem.None? ==> rootOffset == old(rootOffset) && control == old(control)
      ensures TreeState() == old(TreeState()) && ElementState() == old(ElementState())
    {
      viewPos := p;
      ApplyPanTransform();
    }

    /** A timer callback of the pan animation, firing at time `now`: it stores the
        interpolated offset for the elapsed fraction and then either schedules the
        next tick or, once the duration has elapsed, stops. The elapsed fraction is
        capped at 1 (the source stores the uncapped value; see `TickPosition`). The
        source's early return for a cleared duration cannot happen: a pending timer
        always has an animation. */
    method PanAnimationTick(timer: TimerId, now: real)
      requires Valid() && timer in pendingTimers
      modifies this`viewPos, this`rootOffset, this`control,
               this`panInterpolator, this`panInterpolatorStartTime, this`panAnimationDuration,
               this`panAnimationTimer, this`pendingTimers, this`nextTimer
      ensures Valid()
      ensures var t := ElapsedFraction(old(panInterpolatorStartTime).value, now);
              && viewPos == TickPosition(old(panInterpolator).value, t)
              && (t < 1.0 ==>
                    && panInterpolator == old(panInterpolator) && panInterpolatorStartTime == old(panInterpolatorStartTime)
                    && panAnimationTimer == Some(old(nextTimer)) && pendingTimers == {old(nextTimer)})
              && (t >= 1.0 ==>
                    && viewPos == old(panInterpolator).value.target
                    && panInterpolator == None && panAnimationTimer == None && pendingTimers == {})
      ensures rootElem.Some? ==> rootOffset == Pos(-viewPos.x, -viewPos.y) && control == ControlUpdated(old(control))
      ensures rootElem.None? ==> rootOffset == old(rootOffset) && control == old(control)
      ensures TreeState() == old(TreeState()) && ElementState() == old(ElementState())
    {
      panAnimationTimer := None;
      pendingTimers := pendingTimers - {timer};
      var t := ElapsedFraction(panInterpolatorStartTime.value, now);
      var i := panInterpolator.value;
      var p := TickPosition(i, t);
      assert t >= 1.0 ==> p == i.target;
      AdvancePan(p, t < 1.0);
    }

    /** The rest of a tick once its timer has fired: move to `p`, then schedule the
        next tick if the animation goes on, or stop it. */
    method AdvancePan(p: Pos, goOn: bool)
      requires Valid() && panAnimationTimer.None? && panAnimationDuration.Some?
      modifies this`viewPos, this`rootOffset, this`control,
               this`panInterpolator, this`panInterpolatorStartTime, this`panAnimationDuration,
               this`panAnimationTimer, this`pendingTimers, this`nextTimer
      ensures Valid()
      ensures viewPos == p
      ensures goOn ==>
                && panInterpolator == old(panInterpolator) && panInterpolatorStartTime == old(panInterpolatorStartTime)
                && panAnimationTimer == Some(old(nextTimer)) && pendingTimers == {old(nextTimer)}
      ensures !goOn ==> panInterpolator == None && panAnimationTimer == None && pendingTimers == {}
      ensures rootElem.Some? ==> rootOffset == Pos(-p.x, -p.y) && control == ControlUpdated(old(control))
      ensures rootElem.None? ==> rootOffset == old(rootOffset) && control == old(control)
      ensures TreeState() == old(TreeState()) && ElementState() == old(ElementState())
    {
      MoveTo(p);
      if goOn {
        AnimatePanTransform();
      } else {
        StopPanAnimation();
      }
    }

    /** A tick started from and aimed at admissible offsets leaves the camera inside
        the content, provided the clock has not gone backwards. */
    lemma TickKeepsBounds(i: Interpolator, start: real, now: real)
      requires now >= start
      requires InBounds(i.start, RootSize(), Viewport()) && InBounds(i.target, RootSize(), Viewport())
      ensures InBounds(TickPosition(i, ElapsedFraction(start, now)), RootSize(), Viewport())
    {
      TickPositionInBounds(i, ElapsedFraction(start, now), RootSize(), Viewport());
    }

    // -------------------------------------------------------------------------
    // Setup and rendering

    /** `_renderControl`: create the minimap group and its three children under the
        svg element. The click and drag handlers it installs are not modelled. */
    method RenderControl()
      requires svgElem.Some?
      modifies this`control, this`nextHandle
      ensures var n := old(nextHandle);
              control == ControlInfo(Some(n), Some(n + 1), Some(n + 2), Some(n + 3), old(control).box)
      ensures control.Wired() && nextHandle == old(nextHandle) + 4
    {
      var n := nextHandle;
      control := ControlInfo(Some(n), Some(n + 1), Some(n + 2), Some(n + 3), control.box);
      nextHandle := n + 4;
    }

    /** `setup` with the parent's measured size: reset both registries, create the
        svg element, size the view, then create the root group and the minimap and
        apply the pan transform. Sizing throws, ending the setup, when data arrived
        before the minimap exists. */
    method Setup(size: Size) returns (o: Outcome<ViewError>)
      requires Valid() && RegistriesFresh()
      modifies this`d3NodeDict, this`d3SmallNodeDict, this`svgElem, this`rootElem, this`nextHandle,
               this`width, this`height, this`rootOffset, this`control
      ensures Valid() && RegistriesFresh()
      ensures d3NodeDict == map[] && d3SmallNodeDict == map[]
      ensures svgElem == Some(old(nextHandle))
      ensures width == size.width && height == size.height
      ensures o.Fail? <==> visualRoot.Some? && old(control).previewGroup.None?
      ensures o.Fail? ==> rootElem == old(rootElem) && rootOffset == old(rootOffset)
      ensures o.Fail? ==> control == ControlUpdated(old(control))
      ensures o.Pass? ==> rootElem.Some? && control.Wired() && rootOffset == Pos(-viewPos.x, -viewPos.y)
      ensures control.box == ControlUpdated(old(control)).box
    {
      o := MountSvg(size);
      if o.Fail? {
        return;
      }
      CreateRootGroup();
    }

    /** The first half of `setup`: reset both registries, create the svg element and
        size the view. */
    method MountSvg(size: Size) returns (o: Outcome<ViewError>)
      requires Valid()
      modifies this`d3NodeDict, this`d3SmallNodeDict, this`svgElem, this`nextHandle,
               this`width, this`height, this`rootOffset, this`control
      ensures Valid() && RegistriesFresh()
      ensures d3NodeDict == map[] && d3SmallNodeDict == map[]
      ensures svgElem == Some(old(nextHandle)) && nextHandle == old(nextHandle) + 1
      ensures width == size.width && height == size.height
      ensures o.Fail? <==> visualRoot.Some? && old(control).previewGroup.None?
      ensures rootElem == old(rootElem)
      ensures o.Pass? && rootElem.Some? ==> rootOffset == Pos(-viewPos.x, -viewPos.y)
      ensures o.Fail? || rootElem.None? ==> rootOffset == old(rootOffset)
      ensures control == ControlUpdated(old(control))
      ensures TreeState() == old(TreeState())
    {
      d3NodeDict, d3SmallNodeDict := map[], map[];
      svgElem := Some(nextHandle);
      nextHandle := nextHandle + 1;
      o := SetupDimentions(size);
    }

    /** The end of `setup`: create the root group and the minimap, then apply the pan
        transform (`_setupPanning`, whose event handlers are not modelled). */
    method CreateRootGroup()
      requires Valid() && svgElem.Some? && d3NodeDict == map[] && d3SmallNodeDict == map[]
      modifies this`rootElem, this`nextHandle, this`rootOffset, this`control
      ensures Valid()
      ensures rootElem == Some(old(nextHandle)) && nextHandle == old(nextHandle) + 5
      ensures control.Wired() && rootOffset == Pos(-viewPos.x, -viewPos.y)
      ensures control.box == ControlUpdated(old(control)).box
      ensures TreeState() == old(TreeState()) && svgElem == old(svgElem)
      ensures d3NodeDict == old(d3NodeDict) && d3SmallNodeDict == old(d3SmallNodeDict)
      ensures width == old(width) && height == old(height)
    {
      rootElem := Some(nextHandle);
      nextHandle := nextHandle + 1;
      RenderControl();
      ApplyPanTransform();
    }

    /** `_renderItems`' registry bookkeeping for the main view. */
    method RenderItems(items: seq<LayoutNode>)
      requires RegistriesFresh()
      modifies this`d3NodeDict, this`nextHandle
      ensures RegistriesFresh()
      ensures Rejoined(old(d3NodeDict), d3NodeDict, items, old(nextHandle), nextHandle)
      ensures old(d3NodeDict).Keys == IdSet(items) ==> d3NodeDict == old(d3NodeDict)
    {
      KeySetOfIds(items);
      var joined, next := KeyedJoin(d3NodeDict, IdsOf(items), nextHandle);
      d3NodeDict, nextHandle := joined, next;
    }

    /** `_renderItemsSmall`' registry bookkeeping for the minimap. */
    method RenderItemsSmall(items: seq<LayoutNode>)
      requires RegistriesFresh()
      modifies this`d3SmallNodeDict, this`nextHandle
      ensures RegistriesFresh()
      ensures Rejoined(old(d3SmallNodeDict), d3SmallNodeDict, items, old(nextHandle), nextHandle)
      ensures old(d3SmallNodeDict).Keys == IdSet(items) ==> d3SmallNodeDict == old(d3SmallNodeDict)
    {
      KeySetOfIds(items);
      var joined, next := KeyedJoin(d3SmallNodeDict, IdsOf(items), nextHandle);
      d3SmallNodeDict, nextHandle := joined, next;
    }

    /** `render`: nothing before setup; otherwise join both registries against the
        flattened node list. */
    method Render()
      requires Valid() && RegistriesFresh()
      modifies this`d3NodeDict, this`d3SmallNodeDict, this`nextHandle
      ensures RegistriesFresh()
      ensures rootElem.None? ==>
                d3NodeDict == old(d3NodeDict) && d3SmallNodeDict == old(d3SmallNodeDict)
                && nextHandle == old(nextHandle)
      ensures rootElem.Some? ==>
                && d3NodeDict.Keys == IdSet(flatVisualNodes)
                && d3SmallNodeDict.Keys == IdSet(flatVisualNodes)
                && (forall k :: k in d3NodeDict && k in old(d3NodeDict) ==> d3NodeDict[k] == old(d3NodeDict)[k])
                && (forall k :: k in d3SmallNodeDict && k in old(d3SmallNodeDict) ==>
                      d3SmallNodeDict[k] == old(d3SmallNodeDict)[k])
      ensures old(d3NodeDict).Keys == IdSet(flatVisualNodes) ==> d3NodeDict == old(d3NodeDict)
      ensures old(d3SmallNodeDict).Keys == IdSet(flatVisualNodes) ==> d3SmallNodeDict == old(d3SmallNodeDict)
      ensures TreeState() == old(TreeState())
    {
      if rootElem.None? {
        return;
      }
      RenderItems(flatVisualNodes);
      RenderItemsSmall(flatVisualNodes);
    }

    // -------------------------------------------------------------------------
    // Ingesting the source document

    /** `_packSourceData`'s recursion: pack the children first, then register the
        node under its id. */
    method PackNode(s: SourceNode) returns (vn: LayoutNode)
      modifies this`nodeDict
      ensures vn == Pack(s)
      ensures nodeDict == Register(old(nodeDict), PostOrder(vn))
      decreases s
    {
      var cs := if s.children.Present? then s.children.nodes else [];
      var children: seq<LayoutNode> := [];
      for i := 0 to |cs|
        invariant children == PackAll(cs[..i])
        invariant nodeDict == Register(old(nodeDict), PostOrderAll(children))
      {
        assert cs[i] in s.children.nodes;
        var c := PackNode(cs[i]);
        PackAllSnoc(cs, i);
        PostOrderAllSnoc(children, c);
        RegisterAppend(old(nodeDict), PostOrderAll(children), PostOrder(c));
        children := children + [c];
      }
      assert cs[..|cs|] == cs;
      vn := LayoutNode(s.id, s.kind, false, Unmeasured, children);
      RegisterAppend(old(nodeDict), PostOrderAll(children), [vn]);
      nodeDict := nodeDict[vn.id := vn];
    }

    /** `_massageSourceData`: run the external layout passes on the tree and flatten
        it, dropping the root when it is hidden. The passes update the nodes that the
        lookup table refers to, which the model expresses by re-indexing the updated
        tree. */
    method MassageSourceData(layout: LayoutNode -> LayoutNode)
      requires visualRoot.Some? ==> LayoutFits(layout, visualRoot.value)
      requires TreeIndexed()
      modifies this`visualRoot, this`nodeDict, this`flatVisualNodes
      ensures TreeIndexed()
      ensures visualRoot.Some? ==> PositiveSize(visualRoot.value)
      ensures old(visualRoot).None? ==>
                visualRoot == None && nodeDict == old(nodeDict) && flatVisualNodes == old(flatVisualNodes)
      ensures old(visualRoot).Some? ==>
                && visualRoot == Some(layout(old(visualRoot).value))
                && SameShape(visualRoot.value, old(visualRoot).value)
                && nodeDict.Keys == old(nodeDict).Keys
                && flatVisualNodes == Flatten(visualRoot.value, showRoot)
      ensures ElementState() == old(ElementState()) && PanState() == old(PanState())
    {
      if visualRoot.None? {
        return;
      }
      var laidOut := layout(visualRoot.value);
      SameShapeIndexKeys(laidOut, visualRoot.value);
      visualRoot := Some(laidOut);
      nodeDict := Index(laidOut);
      flatVisualNodes := Flatten(laidOut, showRoot);
    }

    /** `acceptSourceData`: clear the lookup table, pack and register the document,
        lay it out, and size the minimap (which throws before setup). */
    method AcceptSourceData(src: SourceNode, layout: LayoutNode -> LayoutNode) returns (o: Outcome<ViewError>)
      requires Valid() && LayoutFits(layout, Pack(src))
      modifies this`visualRoot, this`nodeDict, this`flatVisualNodes, this`control
      ensures Valid() && TreeIndexed()
      ensures visualRoot == Some(layout(Pack(src)))
      ensures nodeDict.Keys == SourceIds(src)
      ensures forall id :: id in nodeDict ==> nodeDict[id].id == id
      ensures flatVisualNodes == Flatten(visualRoot.value, showRoot)
      ensures control == ControlUpdated(old(control))
      ensures o.Fail? <==> control.previewGroup.None?
      ensures ElementState() == old(ElementState()) && PanState() == old(PanState())
    {
      IngestTree(src, layout);
      o := SetupControl();
    }

    /** Packing and laying out a document, as `acceptSourceData` does before it sizes
        the minimap. */
    method IngestTree(src: SourceNode, layout: LayoutNode -> LayoutNode)
      requires LayoutFits(layout, Pack(src))
      modifies this`visualRoot, this`nodeDict, this`flatVisualNodes
      ensures TreeIndexed()
      ensures visualRoot == Some(layout(Pack(src))) && PositiveSize(visualRoot.value)
      ensures nodeDict.Keys == SourceIds(src)
      ensures forall id :: id in nodeDict ==> nodeDict[id].id == id
      ensures flatVisualNodes == Flatten(visualRoot.value, showRoot)
      ensures ElementState() == old(ElementState()) && PanState() == old(PanState())
    {
      LoadTree(src);
      MassageSourceData(layout);
      PackedIndex(src, visualRoot.value);
    }

    /** The first half of `acceptSourceData`: an empty lookup table filled by packing
        the document. */
    method LoadTree(src: SourceNode)
      modifies this`visualRoot, this`nodeDict
      ensures visualRoot == Some(Pack(src)) && TreeIndexed()
    {
      nodeDict := map[];
      var vn := PackNode(src);
      visualRoot := Some(vn);
    }

    // -------------------------------------------------------------------------
    // Refreshing nodes and the selection

    /** `_updateNode`, observed through the ids it refreshes. */
    method UpdateNode(n: LayoutNode)
      modifies this`refreshed
      ensures refreshed == old(refreshed) + RenderedIds([n], d3NodeDict)
    {
      if n.id in d3NodeDict {
        refreshed := refreshed + [n.id];
      }
    }

    /** `_updateNodeR`: refresh a node and then, recursively, its visible children,
        which are its children when it is expanded. */
    method UpdateNodeR(n: LayoutNode)
      modifies this`refreshed
      ensures refreshed == old(refreshed) + RenderedIds(Extract(n), d3NodeDict)
      decreases n, 1
    {
      UpdateNode(n);
      if n.isExpanded {
        UpdateChildren(n.children);
        RenderedIdsAppend([n], ExtractAll(n.children), d3NodeDict);
      }
    }

    /** `_updateNodeR`'s loop over the visible children. */
    method UpdateChildren(kids: seq<LayoutNode>)
      modifies this`refreshed
      ensures refreshed == old(refreshed) + RenderedIds(ExtractAll(kids), d3NodeDict)
      decreases kids, 0
    {
      for i := 0 to |kids|
        invariant refreshed == old(refreshed) + RefreshedPrefix(kids, i, d3NodeDict)
      {
        UpdateNodeR(kids[i]);
        RenderedIdsSnoc(kids, i, d3NodeDict);
      }
      RefreshedPrefixAll(kids, d3NodeDict);
    }

    /** The node the camera follows: the selected node, when auto-pan is on and the
        selection names a node of the tree. */
    function AutoPanNode(): (r: Option<LayoutNode>)
      reads this`nodeDict, sharedState
      ensures r.Some? ==> Truthy(sharedState.Get(AutoPanKey))
      ensures r.Some? ==> AsSelection(sharedState.Get(SelectedDnKey)).Some?
                          && AsSelection(sharedState.Get(SelectedDnKey)).value in nodeDict
                          && r.value == nodeDict[AsSelection(sharedState.Get(SelectedDnKey)).value]
      ensures r.None? && Truthy(sharedState.Get(AutoPanKey)) ==>
                AsSelection(sharedState.Get(SelectedDnKey)).None?
                || AsSelection(sharedState.Get(SelectedDnKey)).value !in nodeDict
    {
      if !Truthy(sharedState.Get(AutoPanKey)) then None
      else
        var sel := AsSelection(sharedState.Get(SelectedDnKey));
        if sel.Some? && sel.value in nodeDict then Some(nodeDict[sel.value]) else None
    }

    /** `_activatePanning`. */
    method ActivatePanning(now: real)
      requires Valid()
      modifies this`viewPos, this`rootOffset, this`control,
               this`panInterpolator, this`panInterpolatorStartTime, this`panAnimationDuration,
               this`panAnimationTimer, this`pendingTimers, this`nextTimer
      ensures Valid()
      ensures viewPos == old(viewPos)
      ensures PanState() == FollowedPan(old(PanState()), AutoPanNode(), now, RootSize(), Viewport())
      ensures rootOffset == old(rootOffset) && control == old(control)
      ensures TreeState() == old(TreeState()) && ElementState() == old(ElementState())
    {
      if !Truthy(sharedState.Get(AutoPanKey)) {
        return;
      }
      var sel := AsSelection(sharedState.Get(SelectedDnKey));
      if sel.None? || sel.value !in nodeDict {
        return;
      }
      var g := nodeDict[sel.value].geom;
      var target := AutoPanTarget(Pos(g.absX, g.absY), Size(g.width, g.height), Viewport());
      PanTo(target.x, target.y, false, now);
    }

    /** The refreshing half of `_updateSelection`. */
    method RefreshSelection(selected: Option<Id>)
      requires TreeIndexed()
      modifies this`currentSelectedNodeDn, this`refreshed
      ensures currentSelectedNodeDn == selected
      ensures refreshed == old(refreshed) + SelectionRefreshes(old(currentSelectedNodeDn), selected, nodeDict, d3NodeDict)
    {
      IndexedKeysMatch();
      if SelTruthy(currentSelectedNodeDn) && currentSelectedNodeDn != selected {
        var prev := currentSelectedNodeDn.value;
        currentSelectedNodeDn := None;
        if prev in nodeDict {
          UpdateNode(nodeDict[prev]);
        }
      }
      if currentSelectedNodeDn != selected {
        currentSelectedNodeDn := selected;
        if selected.Some? && selected.value in nodeDict {
          UpdateNode(nodeDict[selected.value]);
        }
      }
    }

    /** `_updateSelection`, the handler of the store's `selected_dn`: refresh the
        previously selected node if it is no longer selected, record and refresh the
        new one, then follow it if auto-pan is on. */
    method UpdateSelection(selected: Option<Id>, now: real)
      requires Valid() && TreeIndexed()
      modifies this`currentSelectedNodeDn, this`refreshed,
               this`viewPos, this`rootOffset, this`control,
               this`panInterpolator, this`panInterpolatorStartTime, this`panAnimationDuration,
               this`panAnimationTimer, this`pendingTimers, this`nextTimer
      ensures Valid()
      ensures currentSelectedNodeDn == selected
      ensures refreshed == old(refreshed) + SelectionRefreshes(old(currentSelectedNodeDn), selected, nodeDict, d3NodeDict)
      ensures PanState() == FollowedPan(old(PanState()), AutoPanNode(), now, RootSize(), Viewport())
      ensures rootOffset == old(rootOffset) && control == old(control)
    {
      RefreshSelection(selected);
      ActivatePanning(now);
    }

    lemma IndexedKeysMatch()
      requires TreeIndexed()
      ensures forall k :: k in nodeDict ==> nodeDict[k].id == k
    {
      if visualRoot.Some? {
        IndexComplete(visualRoot.value);
      }
    }

    /** `handleVisualNodeClick`: switch auto-pan off and toggle the clicked node's
        selection in the store. A node is selected when the store's selection names
        it. */
    method HandleVisualNodeClick(n: LayoutNode)
      modifies sharedState
      ensures sharedState.entries
              == old(sharedState.entries)[AutoPanKey := Bool(false)]
                   [SelectedDnKey := SelectionValue(ClickedSelection(old(AsSelection(sharedState.Get(SelectedDnKey))), n.id))]
      ensures !Truthy(sharedState.Get(AutoPanKey))
      ensures AsSelection(sharedState.Get(SelectedDnKey))
              == ClickedSelection(old(AsSelection(sharedState.Get(SelectedDnKey))), n.id)
      ensures forall k :: k != AutoPanKey && k != SelectedDnKey ==> sharedState.Get(k) == old(sharedState.Get(k))
    {
      sharedState.Set(AutoPanKey, Bool(false));
      var isSelected := AsSelection(sharedState.Get(SelectedDnKey)) == Some(n.id);
      if isSelected {
        sharedState.Set(SelectedDnKey, Null);
      } else {
        sharedState.Set(SelectedDnKey, Str(n.id));
      }
    }

    // -------------------------------------------------------------------------
    // Full updates

    /** `updateAll`: lay the tree out again, apply the transform and size the
        minimap (which throws before setup when there is a tree), then re-render,
        refresh every visible node, and follow the selection. The `isFullUpdate`
        flag only selects decoration re-rendering, which is not modelled. */
    method UpdateAll(layout: LayoutNode -> LayoutNode, now: real) returns (o: Outcome<ViewError>)
      requires Valid() && TreeIndexed() && RegistriesFresh() && (visualRoot.Some? ==> LayoutFits(layout, visualRoot.value))
      modifies this`visualRoot, this`nodeDict, this`flatVisualNodes,
               this`d3NodeDict, this`d3SmallNodeDict, this`nextHandle, this`refreshed,
               this`viewPos, this`rootOffset, this`control,
               this`panInterpolator, this`panInterpolatorStartTime, this`panAnimationDuration,
               this`panAnimationTimer, this`pendingTimers, this`nextTimer
      ensures Valid() && TreeIndexed() && RegistriesFresh()
      ensures old(visualRoot).None? ==> visualRoot == None && flatVisualNodes == old(flatVisualNodes)
      ensures old(visualRoot).Some? ==>
                visualRoot == Some(layout(old(visualRoot).value))
                && flatVisualNodes == Flatten(visualRoot.value, showRoot)
      ensures o.Fail? <==> visualRoot.Some? && control.previewGroup.None?
      ensures o.Fail? ==> ElementState() == old(ElementState()) && PanState() == old(PanState())
      ensures o.Pass? && rootElem.Some? ==>
                d3NodeDict.Keys == IdSet(flatVisualNodes) && d3SmallNodeDict.Keys == IdSet(flatVisualNodes)
      ensures o.Pass? && visualRoot.Some? ==>
                refreshed == old(refreshed) + RenderedIds(Extract(visualRoot.value), d3NodeDict)
      ensures o.Pass? ==> PanState() == FollowedPan(old(PanState()), AutoPanNode(), now, RootSize(), Viewport())
      ensures viewPos == old(viewPos)
      ensures rootElem.Some? ==> rootOffset == Pos(-viewPos.x, -viewPos.y)
      ensures rootElem.None? ==> rootOffset == old(rootOffset)
      ensures control == ControlUpdated(old(control))
    {
      o := Relayout(layout);
      if o.Fail? {
        return;
      }
      Redraw(now);
    }

    /** The second half of `updateAll`, once the minimap can be sized. */
    method Redraw(now: real)
      requires Valid() && RegistriesFresh()
      requires visualRoot.Some? ==> control.previewGroup.Some?
      modifies this`d3NodeDict, this`d3SmallNodeDict, this`nextHandle, this`refreshed,
               this`viewPos, this`rootOffset, this`control,
               this`panInterpolator, this`panInterpolatorStartTime, this`panAnimationDuration,
               this`panAnimationTimer, this`pendingTimers, this`nextTimer
      ensures Valid() && RegistriesFresh()
      ensures control.previewGroup == old(control.previewGroup)
      ensures rootElem.Some? ==>
                d3NodeDict.Keys == IdSet(flatVisualNodes) && d3SmallNodeDict.Keys == IdSet(flatVisualNodes)
      ensures visualRoot.Some? ==>
                refreshed == old(refreshed) + RenderedIds(Extract(visualRoot.value), d3NodeDict)
      ensures PanState() == FollowedPan(old(PanState()), AutoPanNode(), now, RootSize(), Viewport())
      ensures rootOffset == old(rootOffset) && control == ControlUpdated(old(control))
      ensures TreeState() == old(TreeState())
      ensures rootElem == old(rootElem) && viewPos == old(viewPos)
    {
      RenderAndRefresh();
      FollowSelection(now);
    }

    /** The first half of `updateAll`: layout, transform and minimap sizing. */
    method Relayout(layout: LayoutNode -> LayoutNode) returns (o: Outcome<ViewError>)
      requires Valid() && TreeIndexed() && (visualRoot.Some? ==> LayoutFits(layout, visualRoot.value))
      modifies this`visualRoot, this`nodeDict, this`flatVisualNodes, this`rootOffset, this`control
      ensures Valid() && TreeIndexed()
      ensures old(visualRoot).None? ==> visualRoot == None && flatVisualNodes == old(flatVisualNodes)
      ensures old(visualRoot).Some? ==>
                visualRoot == Some(layout(old(visualRoot).value))
                && flatVisualNodes == Flatten(visualRoot.value, showRoot)
      ensures o.Fail? <==> visualRoot.Some? && control.previewGroup.None?
      ensures rootElem.Some? ==> rootOffset == Pos(-viewPos.x, -viewPos.y)
      ensures rootElem.None? ==> rootOffset == old(rootOffset)
      ensures control == ControlUpdated(old(control))
      ensures ElementState() == old(ElementState()) && PanState() == old(PanState())
    {
      MassageSourceData(layout);
      ApplyPanTransform();
      o := SetupControl();
    }

    /** Re-render both registries, then refresh the visible nodes from the root. */
    method RenderAndRefresh()
      requires Valid() && RegistriesFresh()
      modifies this`d3NodeDict, this`d3SmallNodeDict, this`nextHandle, this`refreshed
      ensures RegistriesFresh()
      ensures rootElem.Some? ==>
                d3NodeDict.Keys == IdSet(flatVisualNodes) && d3SmallNodeDict.Keys == IdSet(flatVisualNodes)
      ensures visualRoot.Some? ==>
                refreshed == old(refreshed) + RenderedIds(Extract(visualRoot.value), d3NodeDict)
      ensures visualRoot.None? ==> refreshed == old(refreshed)
      ensures TreeState() == old(TreeState())
    {
      Render();
      if visualRoot.Some? {
        UpdateNodeR(visualRoot.value);
      }
    }

    /** The end of `updateAll`: size the minimap again, then follow the selection. */
    method FollowSelection(now: real)
      requires Valid()
      requires visualRoot.Some? ==> control.previewGroup.Some?
      modifies this`viewPos, this`rootOffset, this`control,
               this`panInterpolator, this`panInterpolatorStartTime, this`panAnimationDuration,
               this`panAnimationTimer, this`pendingTimers, this`nextTimer
      ensures Valid()
      ensures viewPos == old(viewPos)
      ensures PanState() == FollowedPan(old(PanState()), AutoPanNode(), now, RootSize(), Viewport())
      ensures rootOffset == old(rootOffset) && control == ControlUpdated(old(control))
      ensures TreeState() == old(TreeState()) && ElementState() == old(ElementState())
    {
      var sized := SetupControl();
      ActivatePanning(now);
    }

    /** `nodePerformExpandCollapse`: flip the node's expansion flag in the tree, then
        run a full update. */
    method NodePerformExpandCollapse(id: Id, layout: LayoutNode -> LayoutNode, now: real)
      returns (o: Outcome<ViewError>)
      requires Valid() && TreeIndexed() && RegistriesFresh()
      requires visualRoot.Some? && LayoutFits(layout, ToggleExpanded(visualRoot.value, id))
      modifies this`visualRoot, this`nodeDict, this`flatVisualNodes,
               this`d3NodeDict, this`d3SmallNodeDict, this`nextHandle, this`refreshed,
               this`viewPos, this`rootOffset, this`control,
               this`panInterpolator, this`panInterpolatorStartTime, this`panAnimationDuration,
               this`panAnimationTimer, this`pendingTimers, this`nextTimer
      ensures Valid() && TreeIndexed() && RegistriesFresh()
      ensures visualRoot == Some(layout(ToggleExpanded(old(visualRoot).value, id)))
      ensures nodeDict.Keys == old(nodeDict).Keys
      ensures flatVisualNodes == Flatten(visualRoot.value, showRoot)
      ensures o.Fail? <==> control.previewGroup.None?
      ensures o.Fail? ==> ElementState() == old(ElementState()) && PanState() == old(PanState())
      ensures o.Pass? && rootElem.Some? ==>
                d3NodeDict.Keys == IdSet(flatVisualNodes) && d3SmallNodeDict.Keys == IdSet(flatVisualNodes)
      ensures o.Pass? && rootElem.Some? && KeepsExpansion(layout, ToggleExpanded(old(visualRoot).value, id)) ==>
                d3NodeDict.Keys == IdSet(Flatten(ToggleExpanded(old(visualRoot).value, id), showRoot))
      ensures o.Pass? ==> refreshed == old(refreshed) + RenderedIds(Extract(visualRoot.value), d3NodeDict)
      ensures o.Pass? ==> PanState() == FollowedPan(old(PanState()), AutoPanNode(), now, RootSize(), Viewport())
    {
      ToggleNode(id);
      o := UpdateAll(layout, now);
      var toggled := ToggleExpanded(old(visualRoot).value, id);
      SameShapeIndexKeys(visualRoot.value, toggled);
      KeptExpansionIdSet(layout, toggled, showRoot);
    }

    /** The flip of `isExpanded` in the tree, with the lookup table rebuilt for the
        toggled tree; the table keeps its keys. */
    method ToggleNode(id: Id)
      requires Valid() && TreeIndexed() && visualRoot.Some?
      modifies this`visualRoot, this`nodeDict
      ensures Valid() && TreeIndexed()
      ensures visualRoot == Some(ToggleExpanded(old(visualRoot).value, id))
      ensures nodeDict.Keys == old(nodeDict).Keys
    {
      var before := visualRoot.value;
      var toggled := ToggleExpanded(before, id);
      ToggleSameShape(before, id);
      SameShapeIndexKeys(toggled, before);
      visualRoot := Some(toggled);
      nodeDict := Index(toggled);
    }

    /** The handler of the store's `markers_dict`: keep the new markers (an empty
        dictionary for a falsy value) and run a full update. */
    method OnMarkersChanged(markers: StoreValue, layout: LayoutNode -> LayoutNode, now: real)
      returns (o: Outcome<ViewError>)
      requires Valid() && TreeIndexed() && RegistriesFresh() && (visualRoot.Some? ==> LayoutFits(layout, visualRoot.value))
      modifies this`markerData, this`visualRoot, this`nodeDict, this`flatVisualNodes,
               this`d3NodeDict, this`d3SmallNodeDict, this`nextHandle, this`refreshed,
               this`viewPos, this`rootOffset, this`control,
               this`panInterpolator, this`panInterpolatorStartTime, this`panAnimationDuration,
               this`panAnimationTimer, this`pendingTimers, this`nextTimer
      ensures Valid() && TreeIndexed() && RegistriesFresh()
      ensures markerData == (if Truthy(markers) then markers else Dict(map[]))
      ensures old(visualRoot).None? ==> visualRoot == None && flatVisualNodes == old(flatVisualNodes)
      ensures old(visualRoot).Some? ==>
                visualRoot == Some(layout(old(visualRoot).value))
                && flatVisualNodes == Flatten(visualRoot.value, showRoot)
      ensures o.Fail? <==> visualRoot.Some? && control.previewGroup.None?
      ensures o.Fail? ==> ElementState() == old(ElementState()) && PanState() == old(PanState())
      ensures o.Pass? && rootElem.Some? ==>
                d3NodeDict.Keys == IdSet(flatVisualNodes) && d3SmallNodeDict.Keys == IdSet(flatVisualNodes)
      ensures o.Pass? && visualRoot.Some? ==>
                refreshed == old(refreshed) + RenderedIds(Extract(visualRoot.value), d3NodeDict)
      ensures o.Pass? ==> PanState() == FollowedPan(old(PanState()), AutoPanNode(), now, RootSize(), Viewport())
    {
      markerData := if Truthy(markers) then markers else Dict(map[]);
      o := UpdateAll(layout, now);
    }
  }

  /** When the layout passes keep the expansion, double-clicking the first
      namespace of the sample tree makes the visible ids, and so the keys of both
      registries after `nodePerformExpandCollapse`, gain exactly its pod. */
  lemma ExpandSampleGainsPod(layout: LayoutNode -> LayoutNode, showRoot: bool)
    requires KeepsExpansion(layout, ToggleExpanded(SampleTree(), "A"))
    ensures IdSet(Flatten(layout(ToggleExpanded(SampleTree(), "A")), showRoot))
            == IdSet(Flatten(SampleTree(), showRoot)) + {"A1"}
  {
    var toggled := ToggleExpanded(SampleTree(), "A");
    SameExtractIdSet(layout(toggled), toggled, showRoot);
    ExpandAddsChildId(showRoot);
  }
}
