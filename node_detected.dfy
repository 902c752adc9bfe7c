/**
 * The detection decorator `canBeDetected` (packages/web/src/components/NodeDetected/index.tsx)
 * without React and recoil: the metadata a wrapper is given, the fixed projection of it that
 * decides whether the metadata is rewritten, the keyed stores and the two singleton slots the
 * wrapper writes, its three pointer handlers, the props it forwards to the wrapped component and
 * its memoisation choice.
 */
module NodeDetected {
  import opened Wrappers

  /** The identity `useId` gives a mounted wrapper; drawn from a counter, so never reused. */
  type NodeId = nat

  /** The mounted DOM element (`divRef.current`), an opaque handle. */
  datatype Handle = Handle(element: nat)

  /** A `treeItemDisplayName` resolver: a JavaScript function, known here only by its identity. */
  datatype Resolver = Resolver(fn: nat)

  /** One operation offered on a node; `rest` stands for every field other than `key`. */
  datatype Operation = Operation(key: Option<string>, rest: nat)

  /** `StaticMetaData.InjectMetaData`: type tag, optional index, optional operations, optional resolver. */
  datatype InjectMetaData = InjectMetaData(
    nodeType: string,
    index: Option<int>,
    operations: Option<seq<Operation>>,
    treeItemDisplayName: Option<Resolver>)

  /** The `metaData` prop: absent, one value, or a list of values for a composite node. */
  datatype MetaValue = NoMeta | Single(item: InjectMetaData) | Many(items: seq<InjectMetaData>)

  // ---------------------------------------------------------------------------
  // The projection `mapCompared` / `comparedInjectMetaData`
  // ---------------------------------------------------------------------------

  /** What `mapCompared` keeps of one metadata value: type, index and the operation keys. */
  datatype Compared = Compared(nodeType: Option<string>, index: Option<int>, operationKeys: seq<string>)

  /** The dependency key of the metadata-update effect: one projection, or a list of them. */
  datatype ComparedMeta = OneCompared(c: Compared) | ManyCompared(cs: seq<Compared>)

  /** The key an operation is compared by: a missing key compares as the empty key. */
  function OperationKey(o: Operation): string {
    o.key.GetOr("")
  }

  /** The compared keys of a list of operations, position by position. */
  function OperationKeys(ops: seq<Operation>): (keys: seq<string>)
    ensures |keys| == |ops|
    ensures forall i :: 0 <= i < |ops| ==> keys[i] == OperationKey(ops[i])
  {
    if ops == [] then [] else [OperationKey(ops[0])] + OperationKeys(ops[1..])
  }

  /** The operations of a metadata value, `[]` when there are none. */
  function OperationsOf(m: InjectMetaData): seq<Operation> {
    m.operations.GetOr([])
  }

  /** `mapCompared(v)`, where `v` may be undefined. */
  function MapCompared(v: Option<InjectMetaData>): (r: Compared)
    ensures v.None? ==> r == Compared(None, None, [])
    ensures v.Some? ==> r.nodeType == Some(v.value.nodeType) && r.index == v.value.index
    ensures v.Some? ==> |r.operationKeys| == |OperationsOf(v.value)|
    ensures v.Some? ==> forall i :: 0 <= i < |r.operationKeys| ==> r.operationKeys[i] == OperationKey(OperationsOf(v.value)[i])
  {
    match v
    case None => Compared(None, None, [])
    case Some(m) => Compared(Some(m.nodeType), m.index, OperationKeys(OperationsOf(m)))
  }

  /** The projection of list metadata, element by element. */
  function MapComparedAll(ms: seq<InjectMetaData>): (cs: seq<Compared>)
    ensures |cs| == |ms|
    ensures forall i :: 0 <= i < |ms| ==> cs[i] == MapCompared(Some(ms[i]))
  {
    if ms == [] then [] else [MapCompared(Some(ms[0]))] + MapComparedAll(ms[1..])
  }

  /** `comparedInjectMetaData`: a list of projections for list metadata, one projection otherwise. */
  function ComparedInjectMetaData(mv: MetaValue): (r: ComparedMeta)
    ensures r.ManyCompared? <==> mv.Many?
    ensures mv.NoMeta? ==> r == OneCompared(MapCompared(None))
    ensures mv.Single? ==> r == OneCompared(MapCompared(Some(mv.item)))
    ensures mv.Many? ==> |r.cs| == |mv.items|
    ensures mv.Many? ==> forall i :: 0 <= i < |mv.items| ==> r.cs[i] == MapCompared(Some(mv.items[i]))
  {
    match mv
    case NoMeta => OneCompared(MapCompared(None))
    case Single(m) => OneCompared(MapCompared(Some(m)))
    case Many(ms) => ManyCompared(MapComparedAll(ms))
  }

  /** Two operation lists agree position by position on their keys, a missing key read as ''. */
  ghost predicate SameKeys(xs: seq<Operation>, ys: seq<Operation>) {
    |xs| == |ys| && forall i :: 0 <= i < |xs| ==> OperationKey(xs[i]) == OperationKey(ys[i])
  }

  /** Two metadata values agree on everything the comparison looks at. */
  ghost predicate SameShape(a: InjectMetaData, b: InjectMetaData) {
    a.nodeType == b.nodeType && a.index == b.index && SameKeys(OperationsOf(a), OperationsOf(b))
  }

  /** The projection of two values is equal exactly when they agree on type, index and operation keys. */
  lemma ProjectionEqualIff(a: InjectMetaData, b: InjectMetaData)
    ensures MapCompared(Some(a)) == MapCompared(Some(b)) <==> SameShape(a, b)
  {
    var ka, kb := OperationKeys(OperationsOf(a)), OperationKeys(OperationsOf(b));
    if SameShape(a, b) {
      assert ka == kb by {
        assert |ka| == |kb|;
        forall i | 0 <= i < |ka| ensures ka[i] == kb[i] { }
      }
    }
    if MapCompared(Some(a)) == MapCompared(Some(b)) {
      assert ka == kb;
      assert |OperationsOf(a)| == |OperationsOf(b)|;
      forall i | 0 <= i < |OperationsOf(a)|
        ensures OperationKey(OperationsOf(a)[i]) == OperationKey(OperationsOf(b)[i])
      {
        assert ka[i] == kb[i];
      }
    }
  }

  /** One metadata value differs from another at most in its display-name resolver. */
  ghost predicate DiffersOnlyInDisplayName(a: InjectMetaData, b: InjectMetaData) {
    a.(treeItemDisplayName := b.treeItemDisplayName) == b
  }

  /** Lifted to the `metaData` prop: same shape, and elementwise only the resolvers differ. */
  ghost predicate MetaDiffersOnlyInDisplayName(x: MetaValue, y: MetaValue) {
    match x
    case NoMeta => y.NoMeta?
    case Single(a) => y.Single? && DiffersOnlyInDisplayName(a, y.item)
    case Many(xs) =>
      y.Many? && |xs| == |y.items| &&
      forall i :: 0 <= i < |xs| ==> DiffersOnlyInDisplayName(xs[i], y.items[i])
  }

  /** Replacing only `treeItemDisplayName` (anywhere in the prop) leaves the dependency key unchanged. */
  lemma DisplayNameIgnored(x: MetaValue, y: MetaValue)
    requires MetaDiffersOnlyInDisplayName(x, y)
    ensures ComparedInjectMetaData(x) == ComparedInjectMetaData(y)
  {
    if x.Many? {
      var cx, cy := MapComparedAll(x.items), MapComparedAll(y.items);
      assert |cx| == |cy|;
      forall i | 0 <= i < |cx| ensures cx[i] == cy[i] {
        assert x.items[i].(treeItemDisplayName := y.items[i].treeItemDisplayName) == y.items[i];
      }
      assert cx == cy;
    }
  }

  /** Two operation lists that differ only where one has no key and the other the key '' (and in the other fields of each operation). */
  ghost predicate DifferOnlyInMissingKeys(xs: seq<Operation>, ys: seq<Operation>) {
    |xs| == |ys| &&
    forall i :: 0 <= i < |xs| ==>
      xs[i].key == ys[i].key || (xs[i].key.GetOr("") == "" && ys[i].key.GetOr("") == "")
  }

  /** Missing keys and '' keys are indistinguishable to the comparison, whatever else the operations carry. */
  lemma MissingKeyComparesAsEmpty(m: InjectMetaData, xs: seq<Operation>, ys: seq<Operation>)
    requires DifferOnlyInMissingKeys(xs, ys)
    ensures MapCompared(Some(m.(operations := Some(xs)))) == MapCompared(Some(m.(operations := Some(ys))))
  {
    var a, b := m.(operations := Some(xs)), m.(operations := Some(ys));
    assert SameKeys(OperationsOf(a), OperationsOf(b)) by {
      forall i | 0 <= i < |xs| ensures OperationKey(xs[i]) == OperationKey(ys[i]) { }
    }
    ProjectionEqualIff(a, b);
  }

  /** Wrapping a single value in a one-element list changes the key, so it triggers a rewrite. */
  lemma SingleAndListDiffer(m: InjectMetaData)
    ensures ComparedInjectMetaData(Single(m)) != ComparedInjectMetaData(Many([m]))
  {
  }

  // ---------------------------------------------------------------------------
  // The keyed stores and the singleton slots
  // ---------------------------------------------------------------------------

  /** The value held in `nodeDataState(id)`. */
  datatype NodeRecord = NodeRecord(id: NodeId, domElement: Handle, nodeTreeSort: bool)

  /**
   * The process-wide state the wrapper writes: `nodeInjectMetaState(id)` and `nodeDataState(id)`
   * as two finite maps (a missing key is an atom at its default), `hoverdNodeState` and
   * `activatedNodeState` as two optional ids.
   */
  datatype Stores = Stores(
    meta: map<NodeId, MetaValue>,
    records: map<NodeId, NodeRecord>,
    hovered: Option<NodeId>,
    activated: Option<NodeId>)

  /** Every entry keyed by an id other than `id` is the same in both stores' versions. */
  ghost predicate OthersUnchanged(st: Stores, st': Stores, id: NodeId) {
    && (forall k :: k != id ==> Lookup(st'.meta, k) == Lookup(st.meta, k))
    && (forall k :: k != id ==> Lookup(st'.records, k) == Lookup(st.records, k))
  }

  /**
   * The deferred mount step: when the element exists, publish the metadata and the record
   * for `id`; when it does not, do nothing.
   */
  function Register(st: Stores, id: NodeId, metaData: MetaValue, nodeTreeSort: bool, element: Option<Handle>): (r: Stores)
    ensures element.None? ==> r == st
    ensures element.Some? ==>
      && Lookup(r.meta, id) == Some(metaData)
      && Lookup(r.records, id) == Some(NodeRecord(id, element.value, nodeTreeSort))
    ensures OthersUnchanged(st, r, id)
    ensures r.hovered == st.hovered && r.activated == st.activated
  {
    match element
    case None => st
    case Some(h) =>
      st.(meta := st.meta[id := metaData],
          records := st.records[id := NodeRecord(id, h, nodeTreeSort)])
  }

  /** The deferred unmount step: reset both atoms of `id`. */
  function Clear(st: Stores, id: NodeId): (r: Stores)
    ensures id !in r.meta && id !in r.records
    ensures OthersUnchanged(st, r, id)
    ensures r.hovered == st.hovered && r.activated == st.activated
    ensures id !in st.meta && id !in st.records ==> r == st
  {
    st.(meta := st.meta - {id}, records := st.records - {id})
  }

  /** The metadata-update effect's write: the metadata of `id` only. */
  function WriteMeta(st: Stores, id: NodeId, metaData: MetaValue): (r: Stores)
    ensures Lookup(r.meta, id) == Some(metaData)
    ensures OthersUnchanged(st, r, id)
    ensures r.records == st.records
    ensures r.hovered == st.hovered && r.activated == st.activated
  {
    st.(meta := st.meta[id := metaData])
  }

  // ---------------------------------------------------------------------------
  // The three pointer handlers
  // ---------------------------------------------------------------------------

  datatype PointerKind = MouseOver | MouseLeave | Click

  /** `onMouseOver`: ignored while a drag is active (`Sortable.active`), otherwise hover this node. */
  function OnMouseOver(st: Stores, id: NodeId, dragActive: bool): (r: Stores)
    ensures dragActive ==> r == st
    ensures !dragActive ==> r.hovered == Some(id)
    ensures r.(hovered := st.hovered) == st
  {
    if dragActive then st else st.(hovered := Some(id))
  }

  /** `onMouseLeave`: ignored while a drag is active, otherwise clear hover whoever holds it. */
  function OnMouseLeave(st: Stores, dragActive: bool): (r: Stores)
    ensures dragActive ==> r == st
    ensures !dragActive ==> r.hovered == None
    ensures r.(hovered := st.hovered) == st
  {
    if dragActive then st else st.(hovered := None)
  }

  /** `onClick`: activate this node; not gated by a drag, never toggles off. */
  function OnClick(st: Stores, id: NodeId): (r: Stores)
    ensures r.activated == Some(id)
    ensures r.(activated := st.activated) == st
  {
    st.(activated := Some(id))
  }

  /** The handler of the given kind that the wrapper of `id` runs. */
  function RunHandler(st: Stores, kind: PointerKind, id: NodeId, dragActive: bool): Stores {
    match kind
    case MouseOver => OnMouseOver(st, id, dragActive)
    case MouseLeave => OnMouseLeave(st, dragActive)
    case Click => OnClick(st, id)
  }

  /** Whether the handler calls `ev.stopPropagation()`: the hover handlers return early during a drag. */
  function StopsPropagation(kind: PointerKind, dragActive: bool): bool {
    kind == Click || !dragActive
  }

  // ---------------------------------------------------------------------------
  // Forwarded props
  // ---------------------------------------------------------------------------

  /** A caller-supplied prop value, opaque to the wrapper. */
  datatype Opaque = Opaque(v: nat)

  /** A value in the props the wrapped component receives. */
  datatype PropValue =
    | Passed(value: Opaque)                       // a caller prop passed through untouched
    | MergedRef                                   // `mergedRef`
    | IdAttr(id: NodeId)                          // the value of `id` and `nd-id`
    | OwnHandler(kind: PointerKind, owner: NodeId) // one of the wrapper's own handlers

  /** The control props `omit` removes. */
  const ControlProps: set<string> := {"metaData", "innerRef", "nodeTreeSort"}

  /** The prop name each handler is attached under. */
  function HandlerProp(kind: PointerKind): string {
    match kind
    case MouseOver => "onMouseOver"
    case MouseLeave => "onMouseLeave"
    case Click => "onClick"
  }

  /** The props the wrapper itself sets (they override caller props of the same name). */
  function WrapperProps(isPreview: bool): set<string> {
    {"ref", "id", "nd-id"} + if isPreview then {} else {"onMouseLeave", "onMouseOver", "onClick"}
  }

  /**
   * The props `component` is called with: the caller's props without the control props, then
   * `ref`, `id` and `nd-id`, then, in edit mode only, the three handlers.
   */
  function ForwardProps(props: map<string, Opaque>, id: NodeId, isPreview: bool): (fwd: map<string, PropValue>)
    ensures "metaData" !in fwd && "innerRef" !in fwd && "nodeTreeSort" !in fwd
    ensures "id" in fwd && fwd["id"] == IdAttr(id)
    ensures "nd-id" in fwd && fwd["nd-id"] == IdAttr(id)
    ensures isPreview ==> forall k :: k in fwd ==> !fwd[k].OwnHandler?
    ensures !isPreview ==> forall kind :: HandlerProp(kind) in fwd && fwd[HandlerProp(kind)] == OwnHandler(kind, id)
    ensures forall k :: k in props && k !in ControlProps && k !in WrapperProps(isPreview) ==>
      k in fwd && fwd[k] == Passed(props[k])
    ensures forall k :: k in fwd ==> (k in props && k !in ControlProps) || k in WrapperProps(isPreview)
  {
    var fp := map k | k in props && k !in ControlProps :: Passed(props[k]);
    var own := map["ref" := MergedRef, "id" := IdAttr(id), "nd-id" := IdAttr(id)];
    if isPreview then fp + own
    else
      fp + own + map[
        "onMouseLeave" := OwnHandler(MouseLeave, id),
        "onMouseOver" := OwnHandler(MouseOver, id),
        "onClick" := OwnHandler(Click, id)]
  }

  /**
   * A pointer event reaching the element rendered with props `fwd`: the wrapper's handler runs
   * if one is attached for it; a caller's own handler does not touch the stores.
   */
  function Deliver(st: Stores, fwd: map<string, PropValue>, kind: PointerKind, dragActive: bool): (r: Stores)
    ensures r.meta == st.meta && r.records == st.records
    ensures !(HandlerProp(kind) in fwd && fwd[HandlerProp(kind)].OwnHandler?) ==> r == st
  {
    var key := HandlerProp(kind);
    if key in fwd && fwd[key].OwnHandler? then RunHandler(st, fwd[key].kind, fwd[key].owner, dragActive)
    else st
  }

  /** Whether the event propagates on after reaching the element rendered with props `fwd`. */
  function Propagates(fwd: map<string, PropValue>, kind: PointerKind, dragActive: bool): bool {
    var key := HandlerProp(kind);
    !(key in fwd && fwd[key].OwnHandler? && StopsPropagation(fwd[key].kind, dragActive))
  }

  /**
   * Whatever the caller passed: in preview mode an event changes no store, in edit mode it runs
   * exactly this wrapper's handler.
   */
  lemma DeliverThroughForwarded(st: Stores, props: map<string, Opaque>, id: NodeId, kind: PointerKind, isPreview: bool, dragActive: bool)
    ensures Deliver(st, ForwardProps(props, id, isPreview), kind, dragActive)
         == if isPreview then st else RunHandler(st, kind, id, dragActive)
  {
    var fwd := ForwardProps(props, id, isPreview);
    if isPreview {
      var key := HandlerProp(kind);
      assert key in fwd ==> !fwd[key].OwnHandler?;
    }
  }

  /** Events that bubble in React (`onMouseOver`, `onClick`); `onMouseLeave` does not bubble. */
  predicate Bubbles(kind: PointerKind) {
    kind != MouseLeave
  }

  /** A wrapper on the propagation path: the caller props it was rendered with, and its id. */
  datatype Wrapper = Wrapper(props: map<string, Opaque>, id: NodeId)

  /** A bubbling event dispatched through nested wrappers, innermost first, honouring `stopPropagation`. */
  function Bubble(st: Stores, path: seq<Wrapper>, kind: PointerKind, isPreview: bool, dragActive: bool): (r: Stores)
    requires Bubbles(kind)
    ensures r.meta == st.meta && r.records == st.records
    ensures isPreview ==> r == st
    decreases |path|
  {
    if path == [] then st
    else
      var fwd := ForwardProps(path[0].props, path[0].id, isPreview);
      var st' := Deliver(st, fwd, kind, dragActive);
      if Propagates(fwd, kind, dragActive) then Bubble(st', path[1..], kind, isPreview, dragActive) else st'
  }

  /** A bubbling event changes the stores exactly as delivering it to the innermost wrapper alone. */
  lemma {:induction false} BubbleIsInnermostDelivery(st: Stores, path: seq<Wrapper>, kind: PointerKind, isPreview: bool, dragActive: bool)
    requires Bubbles(kind) && path != []
    ensures Bubble(st, path, kind, isPreview, dragActive)
         == Deliver(st, ForwardProps(path[0].props, path[0].id, isPreview), kind, dragActive)
  {
    var fwd := ForwardProps(path[0].props, path[0].id, isPreview);
    DeliverThroughForwarded(st, path[0].props, path[0].id, kind, isPreview, dragActive);
    if Propagates(fwd, kind, dragActive) {
      // the innermost handler left the stores unchanged (preview, or a hover during a drag)
      assert Deliver(st, fwd, kind, dragActive) == st;
      if |path| > 1 {
        BubbleIsInnermostDelivery(st, path[1..], kind, isPreview, dragActive);
        DeliverThroughForwarded(st, path[1].props, path[1].id, kind, isPreview, dragActive);
      }
    }
  }

  // ---------------------------------------------------------------------------
  // Memoisation
  // ---------------------------------------------------------------------------

  /** The `propsAreEqual` argument: omitted, a comparison function, or `false`. */
  datatype MemoOption =
    | DefaultMemo
    | CustomMemo(propsAreEqual: (map<string, Opaque>, map<string, Opaque>) -> bool)
    | NoMemo

  /**
   * Whether the wrapper re-renders when its parent re-renders with `next` after `prev`: without
   * `memo` always; with React's default shallow comparison when some prop differs (control props
   * included); with a custom comparison when it says the props differ.
   */
  function Rerenders(memo: MemoOption, prev: map<string, Opaque>, next: map<string, Opaque>): (r: bool)
    ensures memo.NoMemo? ==> r
    ensures memo.DefaultMemo? ==> (r <==> prev != next)
    ensures memo.CustomMemo? ==> (r <==> !memo.propsAreEqual(prev, next))
  {
    match memo
    case NoMemo => true
    case DefaultMemo => prev != next
    case CustomMemo(eq) => !eq(prev, next)
  }

  /** Two caller prop maps that agree on every prop other than the control props. */
  ghost predicate SameOutsideControl(prev: map<string, Opaque>, next: map<string, Opaque>) {
    forall k :: k !in ControlProps ==> Lookup(prev, k) == Lookup(next, k)
  }

  /** The wrapped component sees nothing of the control props: changing only them forwards the same props. */
  lemma ForwardPropsIgnoreControl(prev: map<string, Opaque>, next: map<string, Opaque>, id: NodeId, isPreview: bool)
    requires SameOutsideControl(prev, next)
    ensures ForwardProps(prev, id, isPreview) == ForwardProps(next, id, isPreview)
  {
    var fa := map k | k in prev && k !in ControlProps :: Passed(prev[k]);
    var fb := map k | k in next && k !in ControlProps :: Passed(next[k]);
    forall k ensures (k in fa <==> k in fb) && (k in fa ==> fa[k] == fb[k]) {
      if k !in ControlProps {
        assert Lookup(prev, k) == Lookup(next, k);
      }
    }
    assert fa == fb;
  }

  /** A re-render the default memo skips loses nothing: the wrapped component would have received the same props. */
  lemma SkippedRenderLosesNothing(prev: map<string, Opaque>, next: map<string, Opaque>, id: NodeId, isPreview: bool)
    requires !Rerenders(DefaultMemo, prev, next)
    ensures ForwardProps(prev, id, isPreview) == ForwardProps(next, id, isPreview)
  {
  }

  /**
   * The default memo compares the control props too: props that differ only there still
   * re-render the wrapper, although the wrapped component receives the same props.
   */
  lemma ControlPropChangeStillRerenders(prev: map<string, Opaque>, next: map<string, Opaque>, id: NodeId, isPreview: bool)
    requires SameOutsideControl(prev, next) && prev != next
    ensures Rerenders(DefaultMemo, prev, next)
    ensures ForwardProps(prev, id, isPreview) == ForwardProps(next, id, isPreview)
  {
    ForwardPropsIgnoreControl(prev, next, id, isPreview);
  }

  /** An instance: changing `metaData` alone re-renders the memoised wrapper. */
  lemma MetaDataChangeRerenders(id: NodeId, isPreview: bool)
    ensures var prev, next := map["metaData" := Opaque(0)], map["metaData" := Opaque(1)];
      Rerenders(DefaultMemo, prev, next) &&
      ForwardProps(prev, id, isPreview) == ForwardProps(next, id, isPreview)
  {
    var prev, next := map["metaData" := Opaque(0)], map["metaData" := Opaque(1)];
    assert prev["metaData"] != next["metaData"];
    assert SameOutsideControl(prev, next);
    ControlPropChangeStillRerenders(prev, next, id, isPreview);
  }
}
