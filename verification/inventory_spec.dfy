/** Values of the inventory client and the specification of its operations
    as functions from one cluster state to the result and the next state.

    The cluster is a store from object handle to anchor object (the
    inventory object: an inventory-id label and an encoded set of object
    references) together with a log of every write the client performed, so
    that "no write happened" and "written before deleted" can be stated. */
module InventorySpec {
  import opened Wrappers
  import opened Ordering

  /** Identity of a tracked (member) object. */
  datatype ObjRef = ObjRef(group: string, kind: string, namespace: string, name: string)

  /** The payload of an inventory object: either it decodes to a set of
      object references or it is malformed and fails to load. */
  datatype Payload = Encoded(objs: set<ObjRef>) | Malformed

  /** An inventory object as stored: its inventory-id label and payload. */
  datatype Anchor = Anchor(id: string, payload: Payload)

  /** An inventory object fetched into memory (a non-nil resource info). */
  datatype Info = Info(handle: Handle, anchor: Anchor)

  /** The local inventory descriptor; `id` is its inventory-id label, if any. */
  datatype LocalInv = LocalInv(handle: Handle, id: Option<string>)

  /** Store calls that fail in a given environment. */
  datatype Fault =
    | MappingFault
    | FindFault
    | CreateFault(Handle)
    | ReplaceFault(Handle)
    | DeleteFault(Handle)

  datatype Error =
    | NilLocalInventory
    | MappingFailed
    | MissingInventoryLabel
    | FindFailed
    | DecodeFailed
    | NilInventoryObject
    | CreateFailed(Handle)
    | ReplaceFailed(Handle)
    | DeleteFailed(Handle)
    | AlreadyExists(Handle)
    | NotFound(Handle)

  /** One mutating call that reached the store. */
  datatype Write =
    | Created(target: Handle, anchor: Anchor)
    | Replaced(target: Handle, anchor: Anchor)
    | Deleted(target: Handle)

  datatype Cluster = Cluster(store: map<Handle, Anchor>, log: seq<Write>)

  /** Decoding the set an inventory object stores. */
  function Load(info: Info): Result<set<ObjRef>, Error>
  {
    match info.anchor.payload
    case Encoded(objs) => Success(objs)
    case Malformed => Failure(DecodeFailed)
  }

  /** Encoding a set into an in-memory inventory object; the label is kept. */
  function StoreObjs(info: Info, objs: set<ObjRef>): Info
  {
    Info(info.handle, Anchor(info.anchor.id, Encoded(objs)))
  }

  /** The inventory objects a label query in namespace `ns` returns. */
  function Found(store: map<Handle, Anchor>, ns: string, id: string): map<Handle, Anchor>
  {
    map h | h in store && h.namespace == ns && store[h].id == id :: store[h]
  }

  ghost predicate Decodable(found: map<Handle, Anchor>)
  {
    forall h :: h in found ==> found[h].payload.Encoded?
  }

  /** The union of the sets stored by the objects of `found` named in `hs`. */
  ghost function UnionOver(found: map<Handle, Anchor>, hs: set<Handle>): set<ObjRef>
  {
    set h, o | h in hs && h in found && found[h].payload.Encoded? && o in found[h].payload.objs :: o
  }

  /** Everything the inventory objects in `found` track together. */
  ghost function UnionOf(found: map<Handle, Anchor>): set<ObjRef>
  {
    UnionOver(found, found.Keys)
  }

  /** The tracked set as a reader must see it: the union, or a decode error. */
  ghost function Tracked(found: map<Handle, Anchor>): Result<set<ObjRef>, Error>
  {
    if Decodable(found) then Success(UnionOf(found)) else Failure(DecodeFailed)
  }

  // ---- single store calls (createInventoryObj, applyInventoryObj, DeleteInventoryObj)

  ghost function CreateSpec(c: Cluster, dry: bool, faults: set<Fault>, info: Option<Info>): (Option<Error>, Cluster)
  {
    if dry then (None, c)
    else if info.None? then (Some(NilInventoryObject), c)
    else
      var h := info.value.handle;
      if CreateFault(h) in faults then (Some(CreateFailed(h)), c)
      else if h in c.store then (Some(AlreadyExists(h)), c)
      else (None, Cluster(c.store[h := info.value.anchor], c.log + [Created(h, info.value.anchor)]))
  }

  ghost function ApplySpec(c: Cluster, dry: bool, faults: set<Fault>, info: Option<Info>): (Option<Error>, Cluster)
  {
    if dry then (None, c)
    else if info.None? then (Some(NilInventoryObject), c)
    else
      var h := info.value.handle;
      if ReplaceFault(h) in faults then (Some(ReplaceFailed(h)), c)
      else if h !in c.store then (Some(NotFound(h)), c)
      else (None, Cluster(c.store[h := info.value.anchor], c.log + [Replaced(h, info.value.anchor)]))
  }

  ghost function DeleteSpec(c: Cluster, dry: bool, faults: set<Fault>, info: Option<Info>): (Option<Error>, Cluster)
  {
    if dry then (None, c)
    else if info.None? then (Some(NilInventoryObject), c)
    else
      var h := info.value.handle;
      if DeleteFault(h) in faults then (Some(DeleteFailed(h)), c)
      else if h !in c.store then (Some(NotFound(h)), c)
      else (None, Cluster(c.store - {h}, c.log + [Deleted(h)]))
  }

  // ---- duplicate healing (mergeClusterInventory)

  /** The object kept when several are found: the first in handle order. */
  ghost function Retained(found: map<Handle, Anchor>): Handle
    requires found != map[]
  {
    Least(found.Keys)
  }

  ghost function Others(found: map<Handle, Anchor>): set<Handle>
    requires found != map[]
  {
    found.Keys - {Retained(found)}
  }

  /** The retained object after it has absorbed every found object's set. */
  ghost function MergedAnchor(found: map<Handle, Anchor>): Anchor
    requires found != map[]
  {
    Anchor(found[Retained(found)].id, Encoded(UnionOf(found)))
  }

  /** Handles among `hs` whose deletion fails. */
  ghost function Blocked(hs: set<Handle>, faults: set<Fault>): set<Handle>
  {
    set h | h in hs && DeleteFault(h) in faults
  }

  /** Handles of `hs` actually deleted when deleting them in handle order:
      all of them, or, when a deletion fails, those before the first
      failing one. */
  ghost function Removed(hs: set<Handle>, faults: set<Fault>): set<Handle>
  {
    var b := Blocked(hs, faults);
    if b == {} then hs else set h | h in hs && HandleLess(h, Least(b))
  }

  /** The log of deleting `hs` one by one in handle order. */
  ghost function DeleteLog(hs: set<Handle>): seq<Write>
    decreases |hs|
  {
    if hs == {} then []
    else
      var m := Least(hs);
      [Deleted(m)] + DeleteLog(hs - {m})
  }

  /** The cluster after the handles `hs` were deleted one by one in order. */
  ghost function Deleting(c: Cluster, hs: set<Handle>): Cluster
  {
    Cluster(c.store - hs, c.log + DeleteLog(hs))
  }

  ghost function HealSpec(c: Cluster, dry: bool, faults: set<Fault>, found: map<Handle, Anchor>): (Result<Option<Info>, Error>, Cluster)
    requires found != map[]
  {
    if !Decodable(found) then (Failure(DecodeFailed), c)
    else
      var r := Retained(found);
      var merged := MergedAnchor(found);
      if dry then (Success(Some(Info(r, merged))), c)
      else if ReplaceFault(r) in faults then (Failure(ReplaceFailed(r)), c)
      else if r !in c.store then (Failure(NotFound(r)), c)
      else
        var gone := Removed(Others(found), faults);
        var b := Blocked(Others(found), faults);
        var c' := Deleting(Cluster(c.store[r := merged], c.log + [Replaced(r, merged)]), gone);
        if b == {} then (Success(Some(Info(r, merged))), c') else (Failure(DeleteFailed(Least(b))), c')
  }

  // ---- lookup (getClusterInventoryInfo) and the public operations

  /** The label query, or the input or store error that prevents it. */
  function Query(c: Cluster, faults: set<Fault>, local: Option<LocalInv>): (r: Result<map<Handle, Anchor>, Error>)
    ensures r.Success? ==> local.Some? && local.value.id.Some?
  {
    if local.None? then Failure(NilLocalInventory)
    else if MappingFault in faults then Failure(MappingFailed)
    else if local.value.id.None? then Failure(MissingInventoryLabel)
    else if FindFault in faults then Failure(FindFailed)
    else Success(Found(c.store, local.value.handle.namespace, local.value.id.value))
  }

  ghost function LookupSpec(c: Cluster, dry: bool, faults: set<Fault>, local: Option<LocalInv>): (res: (Result<Option<Info>, Error>, Cluster))
    ensures res.0.Success? ==> Query(c, faults, local).Success?
  {
    match Query(c, faults, local)
    case Failure(e) => (Failure(e), c)
    case Success(found) =>
      if |found| == 0 then (Success(None), c)
      else if |found| == 1 then
        var h :| h in found;
        (Success(Some(Info(h, found[h]))), c)
      else HealSpec(c, dry, faults, found)
  }

  ghost function GetClusterObjsSpec(c: Cluster, dry: bool, faults: set<Fault>, local: Option<LocalInv>): (Result<set<ObjRef>, Error>, Cluster)
  {
    var (r, c1) := LookupSpec(c, dry, faults, local);
    match r
    case Failure(e) => (Failure(e), c1)
    case Success(None) => (Success({}), c1)
    case Success(Some(info)) => (Load(info), c1)
  }

  /** Merge: the prune set, the error if any, and the next cluster state. */
  ghost function MergeSpec(c: Cluster, dry: bool, faults: set<Fault>, local: Option<LocalInv>, objs: set<ObjRef>): (set<ObjRef>, Option<Error>, Cluster)
  {
    var (r1, c1) := LookupSpec(c, dry, faults, local);
    if r1.Failure? then ({}, Some(r1.error), c1)
    else if r1.value.None? then
      var inv := local.value;
      var (e, c2) := CreateSpec(c1, dry, faults, Some(Info(inv.handle, Anchor(inv.id.value, Encoded(objs)))));
      ({}, e, c2)
    else
      var (r2, c2) := GetClusterObjsSpec(c1, dry, faults, local);
      if r2.Failure? then ({}, Some(r2.error), c2)
      else if objs == r2.value then ({}, None, c2)
      else
        var prune := r2.value - objs;
        if dry then (prune, None, c2)
        else
          var (e, c3) := ApplySpec(c2, dry, faults, Some(StoreObjs(r1.value.value, r2.value + objs)));
          (prune, e, c3)
  }

  ghost function ReplaceSpec(c: Cluster, dry: bool, faults: set<Fault>, local: Option<LocalInv>, objs: set<ObjRef>): (Option<Error>, Cluster)
  {
    var (r1, c1) := GetClusterObjsSpec(c, dry, faults, local);
    if r1.Failure? then (Some(r1.error), c1)
    else if objs == r1.value then (None, c1)
    else
      var (r2, c2) := LookupSpec(c1, dry, faults, local);
      if r2.Failure? then (Some(r2.error), c2)
      else if dry then (None, c2)
      else ApplySpec(c2, dry, faults, if r2.value.None? then None else Some(StoreObjs(r2.value.value, objs)))
  }

  // ---- lemmas the client's loops rely on

  /** A single found object is the retained one, nothing else is found,
      and what they track together is what it stores. */
  lemma SingleFound(found: map<Handle, Anchor>, h: Handle)
    requires |found| == 1 && h in found
    ensures found.Keys == {h} && found == map[h := found[h]]
    ensures Retained(found) == h && Others(found) == {}
    ensures found[h].payload.Encoded? ==>
              Decodable(found) && UnionOf(found) == found[h].payload.objs &&
              MergedAnchor(found) == found[h]
  {
    assert found.Keys == {h} by {
      assert |found.Keys - {h}| == 0;
    }
    assert IsLeast(h, found.Keys);
    LeastUnique(h, Retained(found), found.Keys);
    if found[h].payload.Encoded? {
      forall o | o in found[h].payload.objs
        ensures o in UnionOf(found)
      {
        assert h in found.Keys;
      }
    }
  }

  lemma UnionOverAdd(found: map<Handle, Anchor>, hs: set<Handle>, m: Handle)
    requires m in found && found[m].payload.Encoded?
    ensures UnionOver(found, hs + {m}) == UnionOver(found, hs) + found[m].payload.objs
  {
    forall o | o in found[m].payload.objs
      ensures o in UnionOver(found, hs + {m})
    {
      assert m in hs + {m};
    }
  }

  /** When deleting `hs` in handle order stops at `next`, that handle is
      the first blocked one and exactly those before it are gone. */
  lemma BlockedIsFirst(hs: set<Handle>, todo: set<Handle>, gone: set<Handle>, next: Handle, faults: set<Fault>)
    requires todo + gone == hs && todo !! gone
    requires forall g, t :: g in gone && t in todo ==> HandleLess(g, t)
    requires forall g :: g in gone ==> DeleteFault(g) !in faults
    requires IsLeast(next, todo) && DeleteFault(next) in faults
    ensures Blocked(hs, faults) != {} && Least(Blocked(hs, faults)) == next
    ensures Removed(hs, faults) == gone
  {
    var b := Blocked(hs, faults);
    assert next in b;
    assert IsLeast(next, b);
    LeastUnique(Least(b), next, b);
    forall h | h in hs && HandleLess(h, next)
      ensures h in gone
    {
      if h in todo {
        HandleLessAsymmetric(h, next);
      }
    }
  }

  /** When deleting `hs` in handle order ran to the end, nothing was blocked. */
  lemma NoneBlocked(hs: set<Handle>, gone: set<Handle>, faults: set<Fault>)
    requires gone == hs
    requires forall g :: g in gone ==> DeleteFault(g) !in faults
    ensures Blocked(hs, faults) == {} && Removed(hs, faults) == hs
  {
  }

  /** One more deletion, of a handle after all those already deleted. */
  lemma DeleteStep(c: Cluster, gone: set<Handle>, next: Handle)
    requires next !in gone
    requires forall g :: g in gone ==> HandleLess(g, next)
    ensures Deleting(c, gone + {next}) == Cluster(Deleting(c, gone).store - {next}, Deleting(c, gone).log + [Deleted(next)])
  {
    assert c.store - gone - {next} == c.store - (gone + {next});
    DeleteLogAppend(gone, next);
  }

  /** Deleting a set and then a handle after all of it is deleting the set
      with that handle added. */
  lemma {:induction false} DeleteLogAppend(hs: set<Handle>, m: Handle)
    requires m !in hs
    requires forall h :: h in hs ==> HandleLess(h, m)
    ensures DeleteLog(hs + {m}) == DeleteLog(hs) + [Deleted(m)]
    decreases |hs|
  {
    var all := hs + {m};
    if hs == {} {
      assert all == {m};
      LeastUnique(Least(all), m, all);
      assert all - {m} == {};
    } else {
      var l := Least(hs);
      assert IsLeast(l, all);
      LeastUnique(Least(all), l, all);
      assert all - {l} == (hs - {l}) + {m};
      DeleteLogAppend(hs - {l}, m);
    }
  }

  /** Moving the first pending handle to the done side keeps every done
      handle before every pending one. */
  lemma OrderStep(gone: set<Handle>, todo: set<Handle>, next: Handle)
    requires IsLeast(next, todo)
    requires forall g, t :: g in gone && t in todo ==> HandleLess(g, t)
    ensures forall g, t :: g in gone + {next} && t in todo - {next} ==> HandleLess(g, t)
  {
    forall g, t | g in gone + {next} && t in todo - {next}
      ensures HandleLess(g, t)
    {
      if g != next {
        HandleLessTransitive(g, next, t);
      }
    }
  }

  /** The state of deleting `hs` in handle order from `base`: `gone` were
      deleted (live) or skipped (dry run), `todo` are still to come, and
      every handle gone comes before every handle to come. */
  ghost predicate Deletion(hs: set<Handle>, todo: set<Handle>, gone: set<Handle>, faults: set<Fault>,
                           dry: bool, base: Cluster, now: Cluster)
  {
    && todo + gone == hs && todo !! gone
    && (forall g, t :: g in gone && t in todo ==> HandleLess(g, t))
    && todo <= now.store.Keys
    && (dry ==> now == base)
    && (!dry ==> (forall g :: g in gone ==> DeleteFault(g) !in faults) && now == Deleting(base, gone))
  }

  lemma DeletionStart(hs: set<Handle>, faults: set<Fault>, dry: bool, base: Cluster)
    requires hs <= base.store.Keys
    ensures Deletion(hs, hs, {}, faults, dry, base, base)
  {
    assert base.store - {} == base.store;
    assert Deleting(base, {}) == base;
  }

  /** Deleting the first pending handle either fails, at the first blocked
      handle and with exactly the earlier ones gone, or moves it to `gone`. */
  lemma DeletionStep(hs: set<Handle>, todo: set<Handle>, gone: set<Handle>, faults: set<Fault>,
                     dry: bool, base: Cluster, now: Cluster, next: Info)
    requires Deletion(hs, todo, gone, faults, dry, base, now)
    requires IsLeast(next.handle, todo)
    ensures var (err, now') := DeleteSpec(now, dry, faults, Some(next));
            if err.Some? then
              !dry && now' == now && Blocked(hs, faults) != {} &&
              err == Some(DeleteFailed(Least(Blocked(hs, faults)))) && now == Deleting(base, Removed(hs, faults))
            else
              Deletion(hs, todo - {next.handle}, gone + {next.handle}, faults, dry, base, now')
  {
    var h := next.handle;
    if !dry {
      if DeleteFault(h) in faults {
        BlockedIsFirst(hs, todo, gone, h, faults);
      } else {
        DeleteStep(base, gone, h);
      }
    }
    OrderStep(gone, todo, h);
  }

  lemma DeletionEnd(hs: set<Handle>, gone: set<Handle>, faults: set<Fault>, dry: bool, base: Cluster, now: Cluster)
    requires Deletion(hs, {}, gone, faults, dry, base, now)
    ensures dry ==> now == base
    ensures !dry ==> Blocked(hs, faults) == {} && now == Deleting(base, Removed(hs, faults))
  {
    if !dry {
      NoneBlocked(hs, gone, faults);
    }
  }
}
