/**
 * The life of detected nodes over time, as a state machine: the stores of module NodeDetected,
 * the `setTimeout` callbacks not yet run (a FIFO), the id counter standing for `useId`, and for
 * each mounted wrapper the dependency key of its last render. Each event of
 * packages/web/src/components/NodeDetected/index.tsx is one step function; `Valid` is the
 * invariant every step keeps, and from it follows that an unmounted node leaves nothing behind.
 */
module NodeLifecycle {
  import opened Wrappers
  import opened NodeDetected

  /** A `setTimeout` callback scheduled by a wrapper's mount effect or by its cleanup. */
  datatype Task =
    | RegisterTask(id: NodeId, metaData: MetaValue, nodeTreeSort: bool) // captured at the first render
    | ClearTask(id: NodeId)

  datatype TaskKind = Registering | Clearing

  function KindOf(t: Task): TaskKind {
    if t.RegisterTask? then Registering else Clearing
  }

  datatype State = State(
    stores: Stores,
    pending: seq<Task>,                  // scheduled callbacks, oldest first
    nextId: NodeId,                      // the next identity handed out
    rendered: map<NodeId, ComparedMeta>) // mounted wrappers and their last dependency key

  function Init(): State {
    State(Stores(map[], map[], None, None), [], 0, map[])
  }

  // ---------------------------------------------------------------------------
  // Events
  // ---------------------------------------------------------------------------

  /** First render and mount effect: a fresh id, a deferred registration, no store write. */
  function MountStep(s: State, metaData: MetaValue, nodeTreeSort: bool): (r: State)
    ensures r.stores == s.stores
    ensures r.nextId == s.nextId + 1
    ensures r.rendered == s.rendered[s.nextId := ComparedInjectMetaData(metaData)]
    ensures r.pending == s.pending + [RegisterTask(s.nextId, metaData, nodeTreeSort)]
  {
    var id := s.nextId;
    s.(nextId := id + 1,
       rendered := s.rendered[id := ComparedInjectMetaData(metaData)],
       pending := s.pending + [RegisterTask(id, metaData, nodeTreeSort)])
  }

  /** The id the mount step hands out. */
  function MountedId(s: State): NodeId {
    s.nextId
  }

  /** A re-render with new metadata: rewrite it only when the dependency key changed. */
  function RerenderStep(s: State, id: NodeId, metaData: MetaValue): (r: State)
    requires id in s.rendered
    ensures r.rendered.Keys == s.rendered.Keys && r.rendered[id] == ComparedInjectMetaData(metaData)
    ensures Lookup(r.stores.meta, id) == if ComparedInjectMetaData(metaData) == s.rendered[id]
                                         then Lookup(s.stores.meta, id) else Some(metaData)
    ensures OthersUnchanged(s.stores, r.stores, id) && r.stores.records == s.stores.records
    ensures r.stores.hovered == s.stores.hovered && r.stores.activated == s.stores.activated
    ensures r.pending == s.pending && r.nextId == s.nextId
  {
    var key := ComparedInjectMetaData(metaData);
    if key == s.rendered[id] then s
    else s.(stores := WriteMeta(s.stores, id, metaData), rendered := s.rendered[id := key])
  }

  /** Unmount: the cleanup schedules the clearing of both atoms. */
  function UnmountStep(s: State, id: NodeId): (r: State)
    requires id in s.rendered
    ensures r.stores == s.stores && r.nextId == s.nextId
    ensures r.rendered == s.rendered - {id}
    ensures r.pending == s.pending + [ClearTask(id)]
  {
    s.(rendered := s.rendered - {id}, pending := s.pending + [ClearTask(id)])
  }

  /** The oldest scheduled callback runs; `element` is what `divRef.current` holds at that moment. */
  function TimerStep(s: State, element: Option<Handle>): (r: State)
    requires s.pending != []
    ensures r.pending == s.pending[1..] && r.rendered == s.rendered && r.nextId == s.nextId
    ensures s.pending[0].RegisterTask? ==>
      r.stores == Register(s.stores, s.pending[0].id, s.pending[0].metaData, s.pending[0].nodeTreeSort, element)
    ensures s.pending[0].ClearTask? ==> r.stores == Clear(s.stores, s.pending[0].id)
  {
    var t := s.pending[0];
    var stores := match t
      case RegisterTask(id, m, sort) => Register(s.stores, id, m, sort, element)
      case ClearTask(id) => Clear(s.stores, id);
    s.(stores := stores, pending := s.pending[1..])
  }

  /** A pointer event on the element of wrapper `id`: in edit mode its handler runs. */
  function PointerStep(s: State, id: NodeId, kind: PointerKind, isPreview: bool, dragActive: bool): (r: State)
    ensures r.pending == s.pending && r.rendered == s.rendered && r.nextId == s.nextId
    ensures r.stores.meta == s.stores.meta && r.stores.records == s.stores.records
  {
    if isPreview then s else s.(stores := RunHandler(s.stores, kind, id, dragActive))
  }

  datatype Event =
    | Mount(metaData: MetaValue, nodeTreeSort: bool)
    | Rerender(id: NodeId, metaData: MetaValue)
    | Unmount(id: NodeId)
    | Timer(element: Option<Handle>)
    | Pointer(id: NodeId, kind: PointerKind, isPreview: bool, dragActive: bool)

  /** One event; React never delivers a re-render or unmount to an unmounted wrapper, nor a timer to an empty queue. */
  predicate Enabled(s: State, e: Event) {
    match e
    case Rerender(id, _) => id in s.rendered
    case Unmount(id) => id in s.rendered
    case Timer(_) => s.pending != []
    case _ => true
  }

  function Step(s: State, e: Event): State
    requires Enabled(s, e)
  {
    match e
    case Mount(m, sort) => MountStep(s, m, sort)
    case Rerender(id, m) => RerenderStep(s, id, m)
    case Unmount(id) => UnmountStep(s, id)
    case Timer(el) => TimerStep(s, el)
    case Pointer(id, kind, p, d) => PointerStep(s, id, kind, p, d)
  }

  /** A run of events, each enabled where it happens. */
  predicate Runs(s: State, es: seq<Event>)
    decreases |es|
  {
    es == [] || (Enabled(s, es[0]) && Runs(Step(s, es[0]), es[1..]))
  }

  function Run(s: State, es: seq<Event>): State
    requires Runs(s, es)
    decreases |es|
  {
    if es == [] then s else Run(Step(s, es[0]), es[1..])
  }

  // ---------------------------------------------------------------------------
  // The invariant
  // ---------------------------------------------------------------------------

  /** The kinds of the scheduled callbacks that concern `k`, in queue order. */
  function Kinds(q: seq<Task>, k: NodeId): seq<TaskKind> {
    if q == [] then [] else (if q[0].id == k then [KindOf(q[0])] else []) + Kinds(q[1..], k)
  }

  lemma {:induction false} KindsAppend(q: seq<Task>, t: Task, k: NodeId)
    ensures Kinds(q + [t], k) == Kinds(q, k) + if t.id == k then [KindOf(t)] else []
  {
    if q != [] {
      assert (q + [t])[1..] == q[1..] + [t];
      KindsAppend(q[1..], t, k);
    }
  }

  /**
   * Where in its life the node `k` is: never created (nothing of it anywhere); mounted (at most
   * its registration still pending); or unmounted, in which case either its clearing is still
   * pending, after its registration if that is pending too, or it has no metadata left.
   */
  ghost predicate Phase(s: State, k: NodeId) {
    var ks := Kinds(s.pending, k);
    if k >= s.nextId then ks == [] && k !in s.rendered && k !in s.stores.meta
    else if k in s.rendered then ks == [] || ks == [Registering]
    else ks == [Registering, Clearing] || ks == [Clearing] || (ks == [] && k !in s.stores.meta)
  }

  /** The invariant of the registry: phases, records paired with metadata, and records keyed by their own id. */
  ghost predicate Valid(s: State) {
    && s.stores.records.Keys <= s.stores.meta.Keys
    && (forall k :: k in s.stores.records ==> s.stores.records[k].id == k)
    && (forall k :: Phase(s, k))
  }

  lemma InitValid()
    ensures Valid(Init())
  {
    forall k ensures Phase(Init(), k) { }
  }

  /** A mount hands out an id no mounted wrapper, store entry or scheduled callback uses. */
  lemma MountIsFresh(s: State)
    requires Valid(s)
    ensures MountedId(s) !in s.rendered
    ensures MountedId(s) !in s.stores.meta && MountedId(s) !in s.stores.records
    ensures Kinds(s.pending, MountedId(s)) == []
  {
    assert Phase(s, s.nextId);
  }

  lemma MountPreservesValid(s: State, m: MetaValue, sort: bool)
    requires Valid(s)
    ensures Valid(MountStep(s, m, sort))
  {
    var r := MountStep(s, m, sort);
    forall k ensures Phase(r, k) {
      assert Phase(s, k);
      KindsAppend(s.pending, RegisterTask(s.nextId, m, sort), k);
    }
  }

  lemma RerenderPreservesValid(s: State, id: NodeId, m: MetaValue)
    requires Valid(s) && id in s.rendered
    ensures Valid(RerenderStep(s, id, m))
  {
    var r := RerenderStep(s, id, m);
    forall k ensures Phase(r, k) {
      assert Phase(s, k);
      assert Lookup(r.stores.meta, k) == Lookup(s.stores.meta, k) || k == id;
    }
    forall k | k in r.stores.records ensures k in r.stores.meta {
      assert Lookup(s.stores.records, k).Some?;
    }
  }

  lemma UnmountPreservesValid(s: State, id: NodeId)
    requires Valid(s) && id in s.rendered
    ensures Valid(UnmountStep(s, id))
  {
    var r := UnmountStep(s, id);
    forall k ensures Phase(r, k) {
      assert Phase(s, k);
      KindsAppend(s.pending, ClearTask(id), k);
    }
  }

  lemma TimerPreservesValid(s: State, element: Option<Handle>)
    requires Valid(s) && s.pending != []
    ensures Valid(TimerStep(s, element))
  {
    var r := TimerStep(s, element);
    var t := s.pending[0];
    assert s.pending == [t] + s.pending[1..];
    forall k ensures Phase(r, k) {
      assert Phase(s, k);
      var ks := Kinds(s.pending, k);
      assert ks == (if t.id == k then [KindOf(t)] else []) + Kinds(r.pending, k);
      if k != t.id {
        assert Lookup(r.stores.meta, k) == Lookup(s.stores.meta, k);
      } else if t.RegisterTask? {
        assert ks == [Registering] + Kinds(r.pending, k);
        assert ks == [Registering] || ks == [Registering, Clearing];
        assert Kinds(r.pending, k) == ks[1..];
      } else {
        assert ks == [Clearing] + Kinds(r.pending, k);
        assert ks[0] == Clearing;
        assert ks == [Clearing];
        assert Kinds(r.pending, k) == [];
      }
    }
    forall k | k in r.stores.records ensures k in r.stores.meta && r.stores.records[k].id == k {
      if k != t.id {
        assert Lookup(r.stores.records, k) == Lookup(s.stores.records, k);
        assert Lookup(r.stores.meta, k) == Lookup(s.stores.meta, k);
      }
    }
  }

  lemma PointerPreservesValid(s: State, id: NodeId, kind: PointerKind, isPreview: bool, dragActive: bool)
    requires Valid(s)
    ensures Valid(PointerStep(s, id, kind, isPreview, dragActive))
  {
    var r := PointerStep(s, id, kind, isPreview, dragActive);
    assert r.stores.meta == s.stores.meta && r.stores.records == s.stores.records;
    forall k ensures Phase(r, k) {
      assert Phase(s, k);
    }
  }

  /** Every enabled event keeps the invariant. */
  lemma StepPreservesValid(s: State, e: Event)
    requires Valid(s) && Enabled(s, e)
    ensures Valid(Step(s, e))
  {
    match e
    case Mount(m, sort) => MountPreservesValid(s, m, sort);
    case Rerender(id, m) => RerenderPreservesValid(s, id, m);
    case Unmount(id) => UnmountPreservesValid(s, id);
    case Timer(el) => TimerPreservesValid(s, el);
    case Pointer(id, kind, p, d) => PointerPreservesValid(s, id, kind, p, d);
  }

  lemma {:induction false} RunPreservesValid(s: State, es: seq<Event>)
    requires Valid(s) && Runs(s, es)
    ensures Valid(Run(s, es))
    decreases |es|
  {
    if es != [] {
      StepPreservesValid(s, es[0]);
      RunPreservesValid(Step(s, es[0]), es[1..]);
    }
  }

  /** Every state reachable from the empty registry satisfies the invariant. */
  lemma ReachableValid(es: seq<Event>)
    requires Runs(Init(), es)
    ensures Valid(Run(Init(), es))
  {
    InitValid();
    RunPreservesValid(Init(), es);
  }

  // ---------------------------------------------------------------------------
  // No leaks
  // ---------------------------------------------------------------------------

  /** Node `k` has been unmounted and cleared, and nothing is scheduled for it. */
  ghost predicate Gone(s: State, k: NodeId) {
    k < s.nextId && k !in s.rendered && k !in s.stores.meta && k !in s.stores.records
    && Kinds(s.pending, k) == []
  }

  /** Once the queue has drained, no unmounted node has metadata or a record. */
  lemma NoLeakOnceDrained(s: State, k: NodeId)
    requires Valid(s) && s.pending == [] && k !in s.rendered
    ensures k !in s.stores.meta && k !in s.stores.records
  {
    assert Phase(s, k);
  }

  /** Running an unmounted node's clearing callback removes it for good. */
  lemma DeferredClearRemoves(s: State, element: Option<Handle>)
    requires Valid(s) && s.pending != [] && s.pending[0].ClearTask?
    ensures Gone(TimerStep(s, element), s.pending[0].id)
  {
    var k := s.pending[0].id;
    var r := TimerStep(s, element);
    assert s.pending == [s.pending[0]] + r.pending;
    assert Phase(s, k);
    var ks := Kinds(s.pending, k);
    assert ks == [Clearing] + Kinds(r.pending, k);
    assert ks[0] == Clearing;
    assert ks == [Clearing];
    assert Kinds(r.pending, k) == [];
  }

  /** A node that is gone stays gone, whatever happens next. */
  lemma GoneIsStable(s: State, e: Event, k: NodeId)
    requires Valid(s) && Enabled(s, e) && Gone(s, k)
    ensures Gone(Step(s, e), k)
  {
    var r := Step(s, e);
    match e
    case Mount(m, sort) =>
      KindsAppend(s.pending, RegisterTask(s.nextId, m, sort), k);
    case Rerender(id, m) =>
    case Unmount(id) =>
      KindsAppend(s.pending, ClearTask(id), k);
    case Timer(el) =>
      var t := s.pending[0];
      assert s.pending == [t] + r.pending;
      assert Kinds(s.pending, k) == (if t.id == k then [KindOf(t)] else []) + Kinds(r.pending, k);
      assert Lookup(r.stores.meta, k) == Lookup(s.stores.meta, k);
      assert Lookup(r.stores.records, k) == Lookup(s.stores.records, k);
    case Pointer(id, kind, p, d) =>
  }

  /** Run every scheduled callback, oldest first; `elements` gives `divRef.current` at each. */
  function Drain(s: State, elements: seq<Option<Handle>>): State
    requires |elements| == |s.pending|
    decreases |elements|
  {
    if elements == [] then s else Drain(TimerStep(s, elements[0]), elements[1..])
  }

  lemma {:induction false} DrainPreservesValid(s: State, elements: seq<Option<Handle>>)
    requires Valid(s) && |elements| == |s.pending|
    ensures Valid(Drain(s, elements)) && Drain(s, elements).pending == []
    ensures Drain(s, elements).rendered == s.rendered
    decreases |elements|
  {
    if elements != [] {
      TimerPreservesValid(s, elements[0]);
      DrainPreservesValid(TimerStep(s, elements[0]), elements[1..]);
    }
  }

  /**
   * Mount, any number of metadata updates, unmount, then let the scheduled callbacks run:
   * neither the record nor the metadata of the node remains, whatever the element was at
   * each callback.
   */
  lemma MountUpdatesUnmountLeavesNothing(s: State, m: MetaValue, sort: bool, updates: seq<MetaValue>, elements: seq<Option<Handle>>)
    requires Valid(s)
    requires |elements| == |s.pending| + 2
    ensures var id := MountedId(s);
            var r := Drain(UnmountStep(Updates(MountStep(s, m, sort), id, updates), id), elements);
            id !in r.stores.meta && id !in r.stores.records
  {
    var id := MountedId(s);
    var s1 := MountStep(s, m, sort);
    MountPreservesValid(s, m, sort);
    UpdatesPreserve(s1, id, updates);
    var s2 := Updates(s1, id, updates);
    UnmountPreservesValid(s2, id);
    var s3 := UnmountStep(s2, id);
    DrainPreservesValid(s3, elements);
    NoLeakOnceDrained(Drain(s3, elements), id);
  }

  /** A sequence of re-renders of the mounted wrapper `id`. */
  function Updates(s: State, id: NodeId, updates: seq<MetaValue>): (r: State)
    requires id in s.rendered
    ensures id in r.rendered && r.rendered.Keys == s.rendered.Keys
    ensures r.pending == s.pending && r.nextId == s.nextId
    ensures r.stores.records == s.stores.records
    ensures r.stores.hovered == s.stores.hovered && r.stores.activated == s.stores.activated
    decreases |updates|
  {
    if updates == [] then s
    else
      var s' := RerenderStep(s, id, updates[0]);
      assert id in s'.rendered;
      Updates(s', id, updates[1..])
  }

  lemma {:induction false} UpdatesPreserve(s: State, id: NodeId, updates: seq<MetaValue>)
    requires Valid(s) && id in s.rendered
    ensures Valid(Updates(s, id, updates))
    decreases |updates|
  {
    if updates != [] {
      RerenderPreservesValid(s, id, updates[0]);
      UpdatesPreserve(RerenderStep(s, id, updates[0]), id, updates[1..]);
    }
  }

  // ---------------------------------------------------------------------------
  // Metadata updates
  // ---------------------------------------------------------------------------

  /** A re-render whose dependency key is unchanged changes nothing at all. */
  lemma RerenderWritesOnlyOnChange(s: State, id: NodeId, m: MetaValue)
    requires id in s.rendered
    ensures ComparedInjectMetaData(m) == s.rendered[id] ==> RerenderStep(s, id, m) == s
  {
  }

  /** A change confined to `treeItemDisplayName` after the last render triggers no write. */
  lemma DisplayNameChangeWritesNothing(s: State, id: NodeId, m: MetaValue, m': MetaValue)
    requires id in s.rendered && s.rendered[id] == ComparedInjectMetaData(m)
    requires MetaDiffersOnlyInDisplayName(m, m')
    ensures RerenderStep(s, id, m') == s
  {
    DisplayNameIgnored(m, m');
  }

  /** The first render writes nothing; a re-render with an unchanged key writes nothing either. */
  lemma FirstRenderWritesNothing(s: State, m: MetaValue, sort: bool)
    ensures MountStep(s, m, sort).stores == s.stores
    ensures RerenderStep(MountStep(s, m, sort), MountedId(s), m) == MountStep(s, m, sort)
  {
  }

  /**
   * The mount callback captures the first render's metadata. If a re-render with a new key
   * happens before that callback runs, the callback then publishes the older metadata, and a
   * later re-render with the same newer metadata does not correct it.
   */
  lemma EarlyUpdateIsOverwrittenByMountCallback(m1: MetaValue, m2: MetaValue, h: Handle)
    requires ComparedInjectMetaData(m1) != ComparedInjectMetaData(m2)
    ensures var s1 := MountStep(Init(), m1, false);
            var s2 := RerenderStep(s1, 0, m2);
            var s3 := TimerStep(s2, Some(h));
            && Lookup(s3.stores.meta, 0) == Some(m1)
            && RerenderStep(s3, 0, m2) == s3
  {
    var s1 := MountStep(Init(), m1, false);
    var s2 := RerenderStep(s1, 0, m2);
    assert s2.pending == [RegisterTask(0, m1, false)];
  }

  // ---------------------------------------------------------------------------
  // The slots
  // ---------------------------------------------------------------------------

  /** Unmounting and clearing never touch the hover or activated slot, so stale ids may stay there. */
  lemma UnmountKeepsSlots(s: State, id: NodeId, element: Option<Handle>)
    requires id in s.rendered
    ensures UnmountStep(s, id).stores == s.stores
    ensures s.pending != [] ==>
      TimerStep(s, element).stores.hovered == s.stores.hovered &&
      TimerStep(s, element).stores.activated == s.stores.activated
  {
  }

  /** A sequence of pointer events on wrappers in edit mode, all under the same drag flag. */
  datatype PointerEvent = PointerEvent(kind: PointerKind, id: NodeId)

  function RunPointers(st: Stores, evs: seq<PointerEvent>, dragActive: bool): Stores
    decreases |evs|
  {
    if evs == [] then st else RunPointers(RunHandler(st, evs[0].kind, evs[0].id, dragActive), evs[1..], dragActive)
  }

  /** The activated slot after a sequence: the last clicked id, or the old value if nothing was clicked. */
  function LastClicked(evs: seq<PointerEvent>, before: Option<NodeId>): Option<NodeId>
    decreases |evs|
  {
    if evs == [] then before
    else if evs[|evs| - 1].kind == Click then Some(evs[|evs| - 1].id)
    else LastClicked(evs[..|evs| - 1], before)
  }

  /** The hover slot after a sequence outside a drag: the last over or leave decides. */
  function LastHover(evs: seq<PointerEvent>, before: Option<NodeId>): Option<NodeId>
    decreases |evs|
  {
    if evs == [] then before
    else if evs[|evs| - 1].kind == MouseOver then Some(evs[|evs| - 1].id)
    else if evs[|evs| - 1].kind == MouseLeave then None
    else LastHover(evs[..|evs| - 1], before)
  }

  lemma {:induction false} RunPointersSnoc(st: Stores, evs: seq<PointerEvent>, e: PointerEvent, dragActive: bool)
    ensures RunPointers(st, evs + [e], dragActive) == RunHandler(RunPointers(st, evs, dragActive), e.kind, e.id, dragActive)
    decreases |evs|
  {
    if evs != [] {
      assert (evs + [e])[1..] == evs[1..] + [e];
      RunPointersSnoc(RunHandler(st, evs[0].kind, evs[0].id, dragActive), evs[1..], e, dragActive);
    }
  }

  /**
   * Activation is last-write-wins and never toggles off, drag or no drag; hover outside a drag
   * is decided by the last over/leave; and no pointer event touches the keyed stores.
   */
  lemma {:induction false} PointerSequence(st: Stores, evs: seq<PointerEvent>, dragActive: bool)
    ensures RunPointers(st, evs, dragActive).activated == LastClicked(evs, st.activated)
    ensures !dragActive ==> RunPointers(st, evs, dragActive).hovered == LastHover(evs, st.hovered)
    ensures RunPointers(st, evs, dragActive).meta == st.meta
    ensures RunPointers(st, evs, dragActive).records == st.records
    decreases |evs|
  {
    if evs != [] {
      var init, e := evs[..|evs| - 1], evs[|evs| - 1];
      assert evs == init + [e];
      RunPointersSnoc(st, init, e, dragActive);
      PointerSequence(st, init, dragActive);
    }
  }

  /** Clicking A, then B, then A again leaves A activated. */
  lemma ClickABA(st: Stores, a: NodeId, b: NodeId, dragActive: bool)
    ensures RunPointers(st, [PointerEvent(Click, a), PointerEvent(Click, b), PointerEvent(Click, a)], dragActive).activated == Some(a)
  {
    PointerSequence(st, [PointerEvent(Click, a), PointerEvent(Click, b), PointerEvent(Click, a)], dragActive);
  }

  /** During a drag, any sequence of over and leave events leaves every store and slot as it was. */
  lemma {:induction false} DragFreezesHover(st: Stores, evs: seq<PointerEvent>)
    requires forall i :: 0 <= i < |evs| ==> evs[i].kind != Click
    ensures RunPointers(st, evs, true) == st
    decreases |evs|
  {
    if evs != [] {
      DragFreezesHover(st, evs[1..]);
    }
  }

  /**
   * The scenario: mount one wrapper in edit mode, let it register, hover it, click it, unmount
   * it and let the clearing run. The registry ends empty while both slots still name its id.
   */
  lemma EditModeScenario(m: MetaValue, h: Handle)
    ensures var s1 := MountStep(Init(), m, false);
            var s2 := TimerStep(s1, Some(h));
            var s3 := PointerStep(s2, 0, MouseOver, false, false);
            var s4 := PointerStep(s3, 0, Click, false, false);
            var s5 := UnmountStep(s4, 0);
            var s6 := TimerStep(s5, None);
            && s2.stores.meta == map[0 := m]
            && s2.stores.records == map[0 := NodeRecord(0, h, false)]
            && s3.stores.hovered == Some(0)
            && s4.stores.activated == Some(0)
            && s6.stores.meta == map[] && s6.stores.records == map[]
            && s6.stores.hovered == Some(0) && s6.stores.activated == Some(0)
            && s6.pending == []
  {
    var s1 := MountStep(Init(), m, false);
    var s2 := TimerStep(s1, Some(h));
    assert s2.pending == [];
    var s5 := UnmountStep(PointerStep(PointerStep(s2, 0, MouseOver, false, false), 0, Click, false, false), 0);
    assert s5.pending == [ClearTask(0)];
  }

  /**
   * A pointer step changes the stores exactly as the event delivered to the element rendered
   * with the wrapper's forwarded props, whatever props the caller passed.
   */
  lemma PointerStepIsDelivery(s: State, id: NodeId, kind: PointerKind, isPreview: bool, dragActive: bool, props: map<string, Opaque>)
    ensures PointerStep(s, id, kind, isPreview, dragActive).stores
         == Deliver(s.stores, ForwardProps(props, id, isPreview), kind, dragActive)
  {
    DeliverThroughForwarded(s.stores, props, id, kind, isPreview, dragActive);
  }

  /** In preview mode the rendered element carries no handler of the wrapper, so no pointer event changes anything. */
  lemma PreviewIgnoresPointer(s: State, id: NodeId, kind: PointerKind, dragActive: bool, props: map<string, Opaque>)
    ensures Deliver(s.stores, ForwardProps(props, id, true), kind, dragActive) == s.stores
    ensures PointerStep(s, id, kind, true, dragActive) == s
  {
    PointerStepIsDelivery(s, id, kind, true, dragActive, props);
  }
}
