/** The cluster inventory client: a dry-run flag and the cluster it talks
    to, with every operation proved to produce the result and the next
    state its specification in InventorySpec prescribes. */
module Inventory {
  import opened Wrappers
  import opened Ordering
  import opened InventorySpec

  class ClusterInventoryClient {
    /** When set, every create, replace and delete is skipped. */
    var dryRun: bool
    /** The inventory objects in the cluster, by handle. */
    var store: map<Handle, Anchor>
    /** Every mutating call that reached the cluster, in order. */
    var log: seq<Write>
    /** The store calls that fail in this environment. */
    const faults: set<Fault>

    ghost function State(): Cluster
      reads this
    {
      Cluster(store, log)
    }

    constructor (initial: map<Handle, Anchor>, failing: set<Fault>)
      ensures !dryRun && store == initial && log == [] && faults == failing
    {
      dryRun := false;
      store := initial;
      log := [];
      faults := failing;
    }

    method SetDryRun(dry: bool)
      modifies this`dryRun
      ensures dryRun == dry
    {
      dryRun := dry;
    }

    /** createInventoryObj: create the object, unless dry run or nil. */
    method CreateInventoryObj(info: Option<Info>) returns (err: Option<Error>)
      modifies this`store, this`log
      ensures (err, State()) == CreateSpec(old(State()), dryRun, faults, info)
    {
      if dryRun {
        return None;
      }
      if info.None? {
        return Some(NilInventoryObject);
      }
      var h := info.value.handle;
      if CreateFault(h) in faults {
        return Some(CreateFailed(h));
      }
      if h in store {
        return Some(AlreadyExists(h));
      }
      store := store[h := info.value.anchor];
      log := log + [Created(h, info.value.anchor)];
      err := None;
    }

    /** applyInventoryObj: replace the object, unless dry run or nil. */
    method ApplyInventoryObj(info: Option<Info>) returns (err: Option<Error>)
      modifies this`store, this`log
      ensures (err, State()) == ApplySpec(old(State()), dryRun, faults, info)
    {
      if dryRun {
        return None;
      }
      if info.None? {
        return Some(NilInventoryObject);
      }
      var h := info.value.handle;
      if ReplaceFault(h) in faults {
        return Some(ReplaceFailed(h));
      }
      if h !in store {
        return Some(NotFound(h));
      }
      store := store[h := info.value.anchor];
      log := log + [Replaced(h, info.value.anchor)];
      err := None;
    }

    /** DeleteInventoryObj: delete the object, unless dry run or nil. */
    method DeleteInventoryObj(info: Option<Info>) returns (err: Option<Error>)
      modifies this`store, this`log
      ensures (err, State()) == DeleteSpec(old(State()), dryRun, faults, info)
    {
      if dryRun {
        return None;
      }
      if info.None? {
        return Some(NilInventoryObject);
      }
      var h := info.value.handle;
      if DeleteFault(h) in faults {
        return Some(DeleteFailed(h));
      }
      if h !in store {
        return Some(NotFound(h));
      }
      store := store - {h};
      log := log + [Deleted(h)];
      err := None;
    }

    /** Merge: store the union of `objs` and the stored set, creating the
        inventory object on first use, and return the objects to prune. */
    method Merge(localInv: Option<LocalInv>, objs: set<ObjRef>) returns (pruneIds: set<ObjRef>, err: Option<Error>)
      modifies this`store, this`log
      ensures (pruneIds, err, State()) == MergeSpec(old(State()), dryRun, faults, localInv, objs)
    {
      pruneIds := {};
      var clusterInv := GetClusterInventoryInfo(localInv);
      if clusterInv.Failure? {
        return pruneIds, Some(clusterInv.error);
      }
      if clusterInv.value.None? {
        var inv := Info(localInv.value.handle, Anchor(localInv.value.id.value, Encoded(objs)));
        err := CreateInventoryObj(Some(inv));
        return {}, err;
      }
      var clusterObjs := GetClusterObjs(localInv);
      if clusterObjs.Failure? {
        return pruneIds, Some(clusterObjs.error);
      }
      if objs == clusterObjs.value {
        return pruneIds, None;
      }
      pruneIds := clusterObjs.value - objs;
      var unionObjs := clusterObjs.value + objs;
      var wrappedInv := StoreObjs(clusterInv.value.value, unionObjs);
      if !dryRun {
        err := ApplyInventoryObj(Some(wrappedInv));
        return pruneIds, err;
      }
      err := None;
    }

    /** Replace: store exactly `objs`, skipping the write when the stored
        set already equals it. */
    method Replace(localInv: Option<LocalInv>, objs: set<ObjRef>) returns (err: Option<Error>)
      modifies this`store, this`log
      ensures (err, State()) == ReplaceSpec(old(State()), dryRun, faults, localInv, objs)
    {
      var clusterObjs := GetClusterObjs(localInv);
      if clusterObjs.Failure? {
        return Some(clusterObjs.error);
      }
      if objs == clusterObjs.value {
        return None;
      }
      var clusterInv := GetClusterInventoryInfo(localInv);
      if clusterInv.Failure? {
        return Some(clusterInv.error);
      }
      if !dryRun {
        var wrappedInv := if clusterInv.value.None? then None else Some(StoreObjs(clusterInv.value.value, objs));
        err := ApplyInventoryObj(wrappedInv);
        return err;
      }
      err := None;
    }

    /** GetClusterObjs: the stored set, or empty when there is no inventory
        object yet. */
    method GetClusterObjs(localInv: Option<LocalInv>) returns (r: Result<set<ObjRef>, Error>)
      modifies this`store, this`log
      ensures (r, State()) == GetClusterObjsSpec(old(State()), dryRun, faults, localInv)
    {
      var clusterInv := GetClusterInventoryInfo(localInv);
      if clusterInv.Failure? {
        return Failure(clusterInv.error);
      }
      if clusterInv.value.None? {
        return Success({});
      }
      r := Load(clusterInv.value.value);
    }

    /** getClusterInventoryInfo: find the inventory objects carrying the
        local inventory's label; none, one, or several to be merged. */
    method GetClusterInventoryInfo(localInv: Option<LocalInv>) returns (r: Result<Option<Info>, Error>)
      modifies this`store, this`log
      ensures (r, State()) == LookupSpec(old(State()), dryRun, faults, localInv)
    {
      if localInv.None? {
        return Failure(NilLocalInventory);
      }
      if MappingFault in faults {
        return Failure(MappingFailed);
      }
      if localInv.value.id.None? {
        return Failure(MissingInventoryLabel);
      }
      if FindFault in faults {
        return Failure(FindFailed);
      }
      var retrieved := Found(store, localInv.value.handle.namespace, localInv.value.id.value);
      if |retrieved| == 1 {
        var h :| h in retrieved;
        SingleFound(retrieved, h);
        return Success(Some(Info(h, retrieved[h])));
      } else if |retrieved| > 1 {
        r := MergeClusterInventory(retrieved);
        return r;
      }
      r := Success(None);
    }

    /** mergeClusterInventory: keep the first object in handle order, store
        the union of all found sets into it, then delete the others. */
    method MergeClusterInventory(found: map<Handle, Anchor>) returns (r: Result<Option<Info>, Error>)
      requires found.Keys <= store.Keys
      modifies this`store, this`log
      ensures found == map[] ==> r == Success(None) && State() == old(State())
      ensures found != map[] ==> (r, State()) == HealSpec(old(State()), dryRun, faults, found)
    {
      if found == map[] {
        return Success(None);
      }
      var retained := First(found.Keys);
      LeastUnique(retained, Retained(found), found.Keys);
      var loaded := LoadUnion(found, retained);
      if loaded.Failure? {
        return Failure(loaded.error);
      }
      var merged := Info(retained, Anchor(found[retained].id, Encoded(loaded.value)));
      // The union is written before any duplicate is deleted.
      var err := ApplyInventoryObj(Some(merged));
      if err.Some? {
        return Failure(err.value);
      }
      err := DeleteInOrder(found, found.Keys - {retained});
      if err.Some? {
        return Failure(err.value);
      }
      r := Success(Some(merged));
    }

    /** The deletion loop of mergeClusterInventory: delete the duplicates
        `hs` one by one in handle order, stopping at the first error. */
    method DeleteInOrder(found: map<Handle, Anchor>, hs: set<Handle>) returns (err: Option<Error>)
      requires hs <= found.Keys && hs <= store.Keys
      modifies this`store, this`log
      ensures var b := Blocked(hs, faults);
              err == (if dryRun || b == {} then None else Some(DeleteFailed(Least(b))))
      ensures dryRun ==> State() == old(State())
      ensures !dryRun ==> State() == Deleting(old(State()), Removed(hs, faults))
    {
      var todo := hs;
      ghost var gone: set<Handle> := {};
      DeletionStart(hs, faults, dryRun, State());
      while todo != {}
        invariant Deletion(hs, todo, gone, faults, dryRun, old(State()), State())
        decreases |todo|
      {
        var next := First(todo);
        var duplicate := Info(next, found[next]);
        DeletionStep(hs, todo, gone, faults, dryRun, old(State()), State(), duplicate);
        err := DeleteInventoryObj(Some(duplicate));
        if err.Some? {
          return;
        }
        todo := todo - {next};
        gone := gone + {next};
      }
      DeletionEnd(hs, gone, faults, dryRun, old(State()), State());
      err := None;
    }
  }

  /** The loading loop of mergeClusterInventory: decode the retained object
      and then every other found object in handle order, accumulating the
      union; any object that fails to decode fails the whole. */
  method LoadUnion(found: map<Handle, Anchor>, retained: Handle) returns (r: Result<set<ObjRef>, Error>)
    requires retained in found
    ensures r == Tracked(found)
  {
    var loaded := Load(Info(retained, found[retained]));
    if loaded.Failure? {
      return Failure(loaded.error);
    }
    var objs := loaded.value;
    var todo := found.Keys - {retained};
    UnionOverAdd(found, {}, retained);
    assert found.Keys - todo == {} + {retained};
    while todo != {}
      invariant todo <= found.Keys
      invariant forall h :: h in found && h !in todo ==> found[h].payload.Encoded?
      invariant objs == UnionOver(found, found.Keys - todo)
      decreases |todo|
    {
      var next := First(todo);
      var more := Load(Info(next, found[next]));
      if more.Failure? {
        return Failure(more.error);
      }
      UnionOverAdd(found, found.Keys - todo, next);
      assert found.Keys - (todo - {next}) == (found.Keys - todo) + {next};
      objs := objs + more.value;
      todo := todo - {next};
    }
    assert found.Keys - todo == found.Keys;
    r := Success(objs);
  }
}
