/**
 * The detection registry as mutable state: the two keyed stores and the two singleton slots
 * that every `canBeDetected` wrapper writes, together with the queue of pending `setTimeout`
 * callbacks, the identity counter and the mounted wrappers' last dependency keys. One method
 * per event; each keeps `Valid()` and leaves `Snapshot()` equal to the matching step of
 * module NodeLifecycle, whose lemmas say what those steps mean.
 */
module NodeRegistry {
  import opened Wrappers
  import opened NodeDetected
  import opened NodeLifecycle

  class Registry {
    // the shared stores
    var meta: map<NodeId, MetaValue>       // nodeInjectMetaState(id)
    var records: map<NodeId, NodeRecord>   // nodeDataState(id)
    var hovered: Option<NodeId>            // hoverdNodeState
    var activated: Option<NodeId>          // activatedNodeState
    // the wrappers' side
    var pending: seq<Task>
    var nextId: NodeId
    var rendered: map<NodeId, ComparedMeta>

    function Snapshot(): State
      reads this
    {
      State(Stores(meta, records, hovered, activated), pending, nextId, rendered)
    }

    ghost predicate Valid()
      reads this
    {
      NodeLifecycle.Valid(Snapshot())
    }

    /** An editor session starts with empty stores, empty slots and nothing scheduled. */
    constructor ()
      ensures Valid() && Snapshot() == Init()
    {
      meta, records := map[], map[];
      hovered, activated := None, None;
      pending, nextId, rendered := [], 0, map[];
      InitValid();
    }

    /** A wrapper mounts: it takes a fresh id and schedules its registration. */
    method Mount(metaData: MetaValue, nodeTreeSort: bool) returns (id: NodeId)
      requires Valid()
      modifies this
      ensures Valid()
      ensures Snapshot() == MountStep(old(Snapshot()), metaData, nodeTreeSort)
      ensures id == old(nextId) && id !in old(rendered) && id !in old(meta) && id !in old(records)
      ensures meta == old(meta) && records == old(records)
      ensures hovered == old(hovered) && activated == old(activated)
    {
      MountIsFresh(Snapshot());
      MountPreservesValid(Snapshot(), metaData, nodeTreeSort);
      id := nextId;
      nextId := nextId + 1;
      rendered := rendered[id := ComparedInjectMetaData(metaData)];
      pending := pending + [RegisterTask(id, metaData, nodeTreeSort)];
    }

    /** The mounted wrapper `id` re-renders with `metaData`. */
    method Rerender(id: NodeId, metaData: MetaValue)
      requires Valid() && id in rendered
      modifies this
      ensures Valid()
      ensures Snapshot() == RerenderStep(old(Snapshot()), id, metaData)
      ensures records == old(records) && pending == old(pending) && nextId == old(nextId)
      ensures hovered == old(hovered) && activated == old(activated)
    {
      RerenderPreservesValid(Snapshot(), id, metaData);
      var key := ComparedInjectMetaData(metaData);
      if key != rendered[id] {
        meta := meta[id := metaData];
        rendered := rendered[id := key];
      }
    }

    /** The wrapper `id` unmounts: its cleanup schedules the clearing. */
    method Unmount(id: NodeId)
      requires Valid() && id in rendered
      modifies this
      ensures Valid()
      ensures Snapshot() == UnmountStep(old(Snapshot()), id)
      ensures meta == old(meta) && records == old(records)
      ensures hovered == old(hovered) && activated == old(activated)
    {
      UnmountPreservesValid(Snapshot(), id);
      rendered := rendered - {id};
      pending := pending + [ClearTask(id)];
    }

    /** The oldest scheduled callback runs; `element` is `divRef.current` of its wrapper at that moment. */
    method RunTimer(element: Option<Handle>)
      requires Valid() && pending != []
      modifies this
      ensures Valid()
      ensures Snapshot() == TimerStep(old(Snapshot()), element)
      ensures old(pending[0]).ClearTask? ==> Gone(Snapshot(), old(pending[0]).id)
      ensures hovered == old(hovered) && activated == old(activated)
    {
      TimerPreservesValid(Snapshot(), element);
      if pending[0].ClearTask? {
        DeferredClearRemoves(Snapshot(), element);
      }
      var task := pending[0];
      pending := pending[1..];
      match task
      case RegisterTask(id, m, sort) =>
        if element.Some? {
          meta := meta[id := m];
          records := records[id := NodeRecord(id, element.value, sort)];
        }
      case ClearTask(id) =>
        records := records - {id};
        meta := meta - {id};
    }

    /** The pointer enters the element of wrapper `id`. */
    method MouseOver(id: NodeId, isPreview: bool, dragActive: bool)
      requires Valid()
      modifies this
      ensures Valid()
      ensures Snapshot() == PointerStep(old(Snapshot()), id, NodeDetected.MouseOver, isPreview, dragActive)
      ensures hovered == if isPreview || dragActive then old(hovered) else Some(id)
      ensures meta == old(meta) && records == old(records) && activated == old(activated)
    {
      PointerPreservesValid(Snapshot(), id, NodeDetected.MouseOver, isPreview, dragActive);
      if !isPreview && !dragActive {
        hovered := Some(id);
      }
    }

    /** The pointer leaves the element of wrapper `id`. */
    method MouseLeave(id: NodeId, isPreview: bool, dragActive: bool)
      requires Valid()
      modifies this
      ensures Valid()
      ensures Snapshot() == PointerStep(old(Snapshot()), id, NodeDetected.MouseLeave, isPreview, dragActive)
      ensures hovered == if isPreview || dragActive then old(hovered) else None
      ensures meta == old(meta) && records == old(records) && activated == old(activated)
    {
      PointerPreservesValid(Snapshot(), id, NodeDetected.MouseLeave, isPreview, dragActive);
      if !isPreview && !dragActive {
        hovered := None;
      }
    }

    /** The element of wrapper `id` is clicked. */
    method Click(id: NodeId, isPreview: bool, dragActive: bool)
      requires Valid()
      modifies this
      ensures Valid()
      ensures Snapshot() == PointerStep(old(Snapshot()), id, NodeDetected.Click, isPreview, dragActive)
      ensures activated == if isPreview then old(activated) else Some(id)
      ensures meta == old(meta) && records == old(records) && hovered == old(hovered)
    {
      PointerPreservesValid(Snapshot(), id, NodeDetected.Click, isPreview, dragActive);
      if !isPreview {
        activated := Some(id);
      }
    }
  }

  /** A client: two wrappers get distinct ids, and clicking one never clears the other's record. */
  method TwoWrappers(m1: MetaValue, m2: MetaValue, h1: Handle, h2: Handle)
  {
    var reg := new Registry();
    var a := reg.Mount(m1, false);
    var b := reg.Mount(m2, true);
    assert a != b;
    reg.RunTimer(Some(h1));
    reg.RunTimer(Some(h2));
    assert Lookup(reg.records, a) == Some(NodeRecord(a, h1, false));
    reg.Click(b, false, false);
    reg.Unmount(b);
    reg.RunTimer(None);
    assert Lookup(reg.records, a) == Some(NodeRecord(a, h1, false));
    assert b !in reg.records && reg.activated == Some(b);
  }
}
