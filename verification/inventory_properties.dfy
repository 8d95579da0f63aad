/** What the inventory client promises, proved of its specification: the
    record of tracked objects survives duplicate healing, a lookup settles
    on a single inventory object, Merge prunes the difference and stores the
    union, dry run returns what a live run returns and writes nothing, and
    Replace stores exactly the given set. */
module InventoryProperties {
  import opened Wrappers
  import opened Ordering
  import opened InventorySpec

  /** The inventory objects a lookup for `inv` finds in `c`. */
  ghost function FoundFor(c: Cluster, inv: LocalInv): map<Handle, Anchor>
    requires inv.id.Some?
  {
    Found(c.store, inv.handle.namespace, inv.id.value)
  }

  /** The lookup reaches the store: no input error and no query failure. */
  ghost predicate Queryable(faults: set<Fault>, inv: LocalInv)
  {
    inv.id.Some? && MappingFault !in faults && FindFault !in faults
  }

  /** Healing the found objects, if needed, meets no store failure. */
  ghost predicate HealOk(faults: set<Fault>, found: map<Handle, Anchor>)
  {
    |found| <= 1 || (ReplaceFault(Retained(found)) !in faults && Blocked(Others(found), faults) == {})
  }

  lemma UnionOfSingle(h: Handle, a: Anchor)
    requires a.payload.Encoded?
    ensures UnionOf(map[h := a]) == a.payload.objs
  {
    var m := map[h := a];
    forall o | o in a.payload.objs
      ensures o in UnionOf(m)
    {
      assert h in m;
    }
  }

  /** Writing an object with the label into a namespace where at most that
      object had it leaves exactly that object under the label. */
  lemma FoundAfterWrite(store: map<Handle, Anchor>, ns: string, id: string, h: Handle, a: Anchor)
    requires h.namespace == ns && a.id == id
    requires Found(store, ns, id).Keys <= {h}
    ensures Found(store[h := a], ns, id) == map[h := a]
  {
    var after := Found(store[h := a], ns, id);
    assert after.Keys == {h};
  }

  /** What a live healing leaves under the label: the retained object with
      the union, and the duplicates it did not get to delete. */
  lemma FoundAfterHeal(c: Cluster, faults: set<Fault>, inv: LocalInv)
    requires inv.id.Some?
    requires var found := FoundFor(c, inv);
             |found| > 1 && Decodable(found) && ReplaceFault(Retained(found)) !in faults
    ensures var found := FoundFor(c, inv);
            var c' := HealSpec(c, false, faults, found).1;
            FoundFor(c', inv) == found[Retained(found) := MergedAnchor(found)] - Removed(Others(found), faults)
  {
    var found := FoundFor(c, inv);
    var r := Retained(found);
    var merged := MergedAnchor(found);
    var gone := Removed(Others(found), faults);
    assert r in c.store;
    var c' := HealSpec(c, false, faults, found).1;
    assert c'.store == c.store[r := merged] - gone;
    var lhs := FoundFor(c', inv);
    var rhs := found[r := merged] - gone;
    assert r !in gone;
    forall h | h in lhs
      ensures h in rhs && lhs[h] == rhs[h]
    {
      if h != r {
        assert h in c.store && c.store[h] == c'.store[h];
      }
    }
    forall h | h in rhs
      ensures h in lhs
    {
    }
    assert lhs == rhs;
  }

  /** Healing never loses a tracked object: replacing the retained object
      by the union and dropping any of the duplicates keeps the union. */
  lemma UnionAfterHeal(found: map<Handle, Anchor>, gone: set<Handle>)
    requires found != map[] && Decodable(found) && gone <= Others(found)
    ensures var healed := found[Retained(found) := MergedAnchor(found)] - gone;
            Decodable(healed) && UnionOf(healed) == UnionOf(found)
  {
    var r := Retained(found);
    var healed := found[r := MergedAnchor(found)] - gone;
    assert r in healed;
    forall o | o in UnionOf(healed)
      ensures o in UnionOf(found)
    {
      var h :| h in healed && healed[h].payload.Encoded? && o in healed[h].payload.objs;
      if h != r {
        assert found[h] == healed[h];
      }
    }
  }

  /** Lookup dispatch: a nil local inventory or a missing label is an
      error before any query; no match is "none"; a single match is returned
      as it is and nothing is written; several matches are healed. */
  lemma LookupDispatch(c: Cluster, dry: bool, faults: set<Fault>, local: Option<LocalInv>)
    ensures local.None? ==> LookupSpec(c, dry, faults, local) == (Failure(NilLocalInventory), c)
    ensures local.Some? && local.value.id.None? && MappingFault !in faults ==>
              LookupSpec(c, dry, faults, local) == (Failure(MissingInventoryLabel), c)
    ensures local.Some? && Queryable(faults, local.value) ==>
              var found := FoundFor(c, local.value);
              && (found == map[] ==> LookupSpec(c, dry, faults, local) == (Success(None), c))
              && (|found| == 1 ==> forall h :: h in found ==>
                    LookupSpec(c, dry, faults, local) == (Success(Some(Info(h, found[h]))), c))
              && (|found| > 1 ==> LookupSpec(c, dry, faults, local) == HealSpec(c, dry, faults, found))
  {
    if local.Some? && Queryable(faults, local.value) {
      var found := FoundFor(c, local.value);
      if |found| == 1 {
        forall h | h in found
          ensures LookupSpec(c, dry, faults, local) == (Success(Some(Info(h, found[h]))), c)
        {
          SingleFound(found, h);
        }
      }
    }
  }

  /** Deleting `hs` in order deletes each of them exactly once, in
      increasing handle order. */
  lemma {:induction false} DeleteLogOrdered(hs: set<Handle>)
    ensures |DeleteLog(hs)| == |hs|
    ensures forall i :: 0 <= i < |DeleteLog(hs)| ==> DeleteLog(hs)[i].Deleted? && DeleteLog(hs)[i].target in hs
    ensures forall i, j :: 0 <= i < j < |DeleteLog(hs)| ==> HandleLess(DeleteLog(hs)[i].target, DeleteLog(hs)[j].target)
    decreases |hs|
  {
    if hs != {} {
      var m := Least(hs);
      var rest := DeleteLog(hs - {m});
      DeleteLogOrdered(hs - {m});
      assert DeleteLog(hs) == [Deleted(m)] + rest;
      forall i, j | 0 <= i < j < |DeleteLog(hs)|
        ensures HandleLess(DeleteLog(hs)[i].target, DeleteLog(hs)[j].target)
      {
        if i == 0 {
          assert rest[j - 1].target in hs - {m};
        }
      }
    }
  }

  /** Live healing of several decodable objects: a failing write of the
      union aborts before anything is deleted; otherwise the union is
      written first, and only then are duplicates deleted, in handle
      order. */
  lemma HealWritesFirst(c: Cluster, faults: set<Fault>, found: map<Handle, Anchor>)
    requires |found| > 1 && Decodable(found) && found.Keys <= c.store.Keys
    ensures var (r, c') := HealSpec(c, false, faults, found);
            var kept := Retained(found);
            && (ReplaceFault(kept) in faults ==> r == Failure(ReplaceFailed(kept)) && c' == c)
            && (ReplaceFault(kept) !in faults ==>
                  && |c'.log| > |c.log|
                  && c'.log[..|c.log|] == c.log
                  && c'.log[|c.log|] == Replaced(kept, MergedAnchor(found))
                  && (forall i :: |c.log| < i < |c'.log| ==> c'.log[i].Deleted? && c'.log[i].target in Others(found))
                  && (forall i, j :: |c.log| < i < j < |c'.log| ==> HandleLess(c'.log[i].target, c'.log[j].target)))
  {
    var kept := Retained(found);
    if ReplaceFault(kept) !in faults {
      var gone := Removed(Others(found), faults);
      var c' := HealSpec(c, false, faults, found).1;
      var pre := c.log + [Replaced(kept, MergedAnchor(found))];
      DeleteLogOrdered(gone);
      assert c'.log == pre + DeleteLog(gone);
      forall i | |c.log| < i < |c'.log|
        ensures c'.log[i] == DeleteLog(gone)[i - |pre|]
      {
      }
    }
  }

  /** Live healing that writes the union: the retained object holds the
      union; it is returned only when every duplicate was deleted, and
      otherwise the error names the first duplicate, in handle order, whose
      deletion failed, with exactly the duplicates before it deleted. */
  lemma HealOutcome(c: Cluster, faults: set<Fault>, found: map<Handle, Anchor>)
    requires |found| > 1 && Decodable(found) && found.Keys <= c.store.Keys
    requires ReplaceFault(Retained(found)) !in faults
    ensures var (r, c') := HealSpec(c, false, faults, found);
            var kept := Retained(found);
            var b := Blocked(Others(found), faults);
            && c'.store[kept] == MergedAnchor(found)
            && (b == {} ==>
                  r == Success(Some(Info(kept, MergedAnchor(found))))
                  && c'.store == c.store[kept := MergedAnchor(found)] - Others(found))
            && (b != {} ==>
                  r == Failure(DeleteFailed(Least(b)))
                  && forall h :: h in Others(found) ==> (h in c'.store <==> !HandleLess(h, Least(b))))
  {
    var others := Others(found);
    var gone := Removed(others, faults);
    var c' := HealSpec(c, false, faults, found).1;
    var b := Blocked(others, faults);
    if b != {} {
      var first := Least(b);
      forall h | h in others
        ensures h in c'.store <==> !HandleLess(h, first)
      {
        if h in gone {
          HandleLessIrreflexive(h);
        } else if !HandleLess(h, first) {
          assert h in c.store;
        }
      }
    }
  }

  /** Whatever a lookup does, the objects recorded under the label together
      track the same set afterwards, even when healing stops halfway. */
  lemma LookupKeepsTracked(c: Cluster, dry: bool, faults: set<Fault>, inv: LocalInv)
    requires inv.id.Some?
    ensures var c' := LookupSpec(c, dry, faults, Some(inv)).1;
            Tracked(FoundFor(c', inv)) == Tracked(FoundFor(c, inv))
  {
    var found := FoundFor(c, inv);
    if Queryable(faults, inv) && |found| > 1 && Decodable(found) && !dry && ReplaceFault(Retained(found)) !in faults {
      FoundAfterHeal(c, faults, inv);
      UnionAfterHeal(found, Removed(Others(found), faults));
    }
  }

  /** The outcome of a lookup that settles on one object. */
  ghost predicate Settled(c: Cluster, dry: bool, faults: set<Fault>, inv: LocalInv)
    requires inv.id.Some?
  {
    var found := FoundFor(c, inv);
    var (r, c1) := LookupSpec(c, dry, faults, Some(inv));
    && found != map[]
    && r.Success? && r.value.Some?
    && r.value.value.handle == Retained(found)
    && r.value.value.handle.namespace == inv.handle.namespace
    && r.value.value.anchor == Anchor(inv.id.value, Encoded(UnionOf(found)))
    && LookupSpec(c1, dry, faults, Some(inv)) == (r, c1)
    && (dry || |found| == 1 ==> c1 == c)
    && (!dry ==> FoundFor(c1, inv) == map[r.value.value.handle := r.value.value.anchor])
  }

  /** A lookup that finds decodable objects and heals without failure
      returns one object holding the whole tracked union; looking up again
      returns the same object and changes nothing (healing is idempotent).
      A live lookup leaves exactly that object under the label. */
  lemma LookupSettles(c: Cluster, dry: bool, faults: set<Fault>, inv: LocalInv)
    requires Queryable(faults, inv)
    requires var found := FoundFor(c, inv);
             found != map[] && Decodable(found) && (dry || HealOk(faults, found))
    ensures Settled(c, dry, faults, inv)
  {
    var found := FoundFor(c, inv);
    if |found| == 1 {
      LookupSettlesOne(c, dry, faults, inv);
    } else if !dry {
      LookupSettlesHealed(c, faults, inv);
    }
  }

  lemma LookupSettlesOne(c: Cluster, dry: bool, faults: set<Fault>, inv: LocalInv)
    requires Queryable(faults, inv)
    requires var found := FoundFor(c, inv);
             |found| == 1 && Decodable(found)
    ensures Settled(c, dry, faults, inv)
  {
    var found := FoundFor(c, inv);
    var h :| h in found;
    SingleFound(found, h);
  }

  lemma LookupSettlesHealed(c: Cluster, faults: set<Fault>, inv: LocalInv)
    requires Queryable(faults, inv)
    requires var found := FoundFor(c, inv);
             |found| > 1 && Decodable(found) && HealOk(faults, found)
    ensures Settled(c, false, faults, inv)
  {
    var found := FoundFor(c, inv);
    var r := Retained(found);
    FoundAfterHeal(c, faults, inv);
    var c1 := LookupSpec(c, false, faults, Some(inv)).1;
    assert FoundFor(c1, inv) == found[r := MergedAnchor(found)] - Others(found);
    assert FoundFor(c1, inv) == map[r := MergedAnchor(found)];
  }

  /** GetClusterObjs returns the tracked set (empty when there is no
      inventory object), unless healing fails on a store write; a nil local
      inventory is an error before any store query. */
  lemma GetClusterObjsReadsTracked(c: Cluster, dry: bool, faults: set<Fault>, local: Option<LocalInv>)
    ensures local.None? ==> GetClusterObjsSpec(c, dry, faults, local) == (Failure(NilLocalInventory), c)
    ensures local.Some? && Queryable(faults, local.value) && (dry || HealOk(faults, FoundFor(c, local.value))) ==>
              GetClusterObjsSpec(c, dry, faults, local).0 == Tracked(FoundFor(c, local.value))
  {
    if local.Some? && Queryable(faults, local.value) && (dry || HealOk(faults, FoundFor(c, local.value))) {
      var found := FoundFor(c, local.value);
      if found == map[] {
        assert UnionOf(found) == {};
      } else if Decodable(found) {
        LookupSettles(c, dry, faults, local.value);
      } else if |found| == 1 {
        var h :| h in found;
        SingleFound(found, h);
      }
    }
  }

  /** First apply: with no inventory object, Merge prunes nothing and
      creates one storing exactly the applied objects (nothing in dry run). */
  lemma MergeFirstApply(c: Cluster, dry: bool, faults: set<Fault>, inv: LocalInv, objs: set<ObjRef>)
    requires Queryable(faults, inv) && FoundFor(c, inv) == map[]
    ensures var (prune, err, c') := MergeSpec(c, dry, faults, Some(inv), objs);
            var created := Anchor(inv.id.value, Encoded(objs));
            && prune == {}
            && (dry ==> err == None && c' == c)
            && (!dry && CreateFault(inv.handle) !in faults && inv.handle !in c.store ==>
                  && err == None
                  && c' == Cluster(c.store[inv.handle := created], c.log + [Created(inv.handle, created)])
                  && FoundFor(c', inv) == map[inv.handle := created]
                  && Tracked(FoundFor(c', inv)) == Success(objs))
  {
    var created := Anchor(inv.id.value, Encoded(objs));
    var c' := MergeSpec(c, dry, faults, Some(inv), objs).2;
    if !dry && CreateFault(inv.handle) !in faults && inv.handle !in c.store {
      FoundAfterWrite(c.store, inv.handle.namespace, inv.id.value, inv.handle, created);
      UnionOfSingle(inv.handle, created);
    }
  }

  /** A live lookup that heals without failure changes the store in one
      way only: the retained object now holds the union and the other found
      objects are gone; every other object is left as it was. */
  lemma HealedStore(c: Cluster, faults: set<Fault>, inv: LocalInv)
    requires Queryable(faults, inv)
    requires var found := FoundFor(c, inv);
             found != map[] && Decodable(found) && HealOk(faults, found) &&
             ReplaceFault(Retained(found)) !in faults
    ensures var found := FoundFor(c, inv);
            LookupSpec(c, false, faults, Some(inv)).1.store ==
              c.store[Retained(found) := MergedAnchor(found)] - Others(found)
  {
    var found := FoundFor(c, inv);
    if |found| == 1 {
      var h :| h in found;
      SingleFound(found, h);
      assert c.store[h := found[h]] == c.store;
    } else {
      HealOutcome(c, faults, found);
    }
  }

  /** Writing the retained object again after healing: only the retained
      object differs from the store before healing, and the others found
      stay deleted. */
  lemma RewriteRetained(store: map<Handle, Anchor>, r: Handle, a: Anchor, b: Anchor, others: set<Handle>)
    requires r !in others
    ensures (store[r := a] - others)[r := b] == store[r := b] - others
  {
  }

  /** What a live Merge that meets no failure leaves in the store: the
      retained object holds the union of the stored and applied sets, the
      other found objects are gone, and nothing else changes. */
  lemma MergeStoreAfter(c: Cluster, faults: set<Fault>, inv: LocalInv, objs: set<ObjRef>)
    requires Queryable(faults, inv)
    requires var found := FoundFor(c, inv);
             found != map[] && Decodable(found) && HealOk(faults, found) &&
             ReplaceFault(Retained(found)) !in faults
    ensures var found := FoundFor(c, inv);
            MergeSpec(c, false, faults, Some(inv), objs).2.store ==
              c.store[Retained(found) := Anchor(inv.id.value, Encoded(UnionOf(found) + objs))] - Others(found)
  {
    var found := FoundFor(c, inv);
    var r := Retained(found);
    var stored := UnionOf(found);
    LookupSettles(c, false, faults, inv);
    HealedStore(c, faults, inv);
    assert r in found;
    RewriteRetained(c.store, r, MergedAnchor(found), Anchor(inv.id.value, Encoded(stored + objs)), Others(found));
    if stored == objs {
      assert stored + objs == stored;
    }
  }

  /** What a live Replace that meets no failure leaves in the store: the
      retained object holds exactly `objs`, the other found objects are
      gone, and nothing else changes. */
  lemma ReplaceStoreAfter(c: Cluster, faults: set<Fault>, inv: LocalInv, objs: set<ObjRef>)
    requires Queryable(faults, inv)
    requires var found := FoundFor(c, inv);
             found != map[] && Decodable(found) && HealOk(faults, found) &&
             ReplaceFault(Retained(found)) !in faults
    ensures var found := FoundFor(c, inv);
            ReplaceSpec(c, false, faults, Some(inv), objs).1.store ==
              c.store[Retained(found) := Anchor(inv.id.value, Encoded(objs))] - Others(found)
    ensures var found := FoundFor(c, inv);
            |found| == 1 && UnionOf(found) != objs ==>
              ReplaceSpec(c, false, faults, Some(inv), objs).1.log ==
                c.log + [Replaced(Retained(found), Anchor(inv.id.value, Encoded(objs)))]
  {
    var found := FoundFor(c, inv);
    var r := Retained(found);
    LookupSettles(c, false, faults, inv);
    HealedStore(c, faults, inv);
    assert r in found;
    RewriteRetained(c.store, r, MergedAnchor(found), Anchor(inv.id.value, Encoded(objs)), Others(found));
  }

  /** Merge against an existing inventory: the prune set is the stored set
      minus the applied objects, in live and dry run alike; a live run
      leaves one inventory object storing the union, so no tracked object is
      dropped; equal sets on a single inventory object cause no write. */
  lemma MergePrunesDifference(c: Cluster, dry: bool, faults: set<Fault>, inv: LocalInv, objs: set<ObjRef>)
    requires Queryable(faults, inv)
    requires var found := FoundFor(c, inv);
             found != map[] && Decodable(found) && (dry || HealOk(faults, found))
    ensures var found := FoundFor(c, inv);
            var stored := UnionOf(found);
            var (prune, err, c') := MergeSpec(c, dry, faults, Some(inv), objs);
            && prune == stored - objs
            && (dry ==> err == None && c' == c)
            && (!dry && ReplaceFault(Retained(found)) !in faults ==>
                  && err == None
                  && FoundFor(c', inv) == map[Retained(found) := Anchor(inv.id.value, Encoded(stored + objs))]
                  && Tracked(FoundFor(c', inv)) == Success(stored + objs))
            && (stored == objs && |found| == 1 ==> err == None && c' == c)
            && (!dry && |found| == 1 && ReplaceFault(Retained(found)) !in faults ==>
                  c'.store == c.store[Retained(found) := Anchor(inv.id.value, Encoded(stored + objs))])
            && (!dry && ReplaceFault(Retained(found)) !in faults ==>
                  c'.store == c.store[Retained(found) := Anchor(inv.id.value, Encoded(stored + objs))] - Others(found))
  {
    var found := FoundFor(c, inv);
    var stored := UnionOf(found);
    LookupSettles(c, dry, faults, inv);
    var (r1, c1) := LookupSpec(c, dry, faults, Some(inv));
    var r := Retained(found);
    var anchor := Anchor(inv.id.value, Encoded(stored + objs));
    if !dry && ReplaceFault(r) !in faults {
      MergeStoreAfter(c, faults, inv, objs);
      var c' := MergeSpec(c, dry, faults, Some(inv), objs).2;
      assert FoundFor(c1, inv) == map[r := Anchor(inv.id.value, Encoded(stored))];
      if stored == objs {
        assert stored + objs == stored;
      } else {
        assert r in c1.store;
        assert c'.store == c1.store[r := anchor];
        FoundAfterWrite(c1.store, inv.handle.namespace, inv.id.value, r, anchor);
      }
      UnionOfSingle(r, anchor);
    }
  }

  /** A live Merge without error reached the store and found objects it
      could decode and heal; when they stored something other than `objs`,
      replacing the retained object did not fail either. */
  lemma MergeSucceeded(c: Cluster, faults: set<Fault>, inv: LocalInv, objs: set<ObjRef>)
    requires MergeSpec(c, false, faults, Some(inv), objs).1 == None
    ensures Queryable(faults, inv)
    ensures var found := FoundFor(c, inv);
            found != map[] ==> Decodable(found) && HealOk(faults, found)
    ensures var found := FoundFor(c, inv);
            found != map[] && UnionOf(found) != objs ==> ReplaceFault(Retained(found)) !in faults
  {
    assert Queryable(faults, inv);
    var found := FoundFor(c, inv);
    if |found| == 1 {
      var h :| h in found;
      SingleFound(found, h);
    }
  }

  /** No Merge ever drops a tracked object, whatever fails and in dry run
      or live: if the objects under the label tracked a set before, they
      track a superset of it afterwards. */
  lemma MergeKeepsTracked(c: Cluster, dry: bool, faults: set<Fault>, inv: LocalInv, objs: set<ObjRef>)
    requires inv.id.Some?
    ensures var c' := MergeSpec(c, dry, faults, Some(inv), objs).2;
            Tracked(FoundFor(c, inv)).Success? ==>
              Tracked(FoundFor(c', inv)).Success? &&
              Tracked(FoundFor(c, inv)).value <= Tracked(FoundFor(c', inv)).value
  {
    var found := FoundFor(c, inv);
    LookupKeepsTracked(c, dry, faults, inv);
    if !Queryable(faults, inv) || !Decodable(found) {
    } else if found == map[] {
      MergeFirstApply(c, dry, faults, inv, objs);
    } else if dry {
      DryRunWritesNothing(c, faults, Some(inv), objs);
    } else if HealOk(faults, found) {
      MergePrunesDifference(c, dry, faults, inv, objs);
      if ReplaceFault(Retained(found)) in faults {
        var h :| h in found;
        SingleFound(found, h);
        MergeOnOne(c, faults, inv, objs, h, found[h].payload.objs);
      }
    }
  }

  /** Dry run returns what a successful live run returns and writes nothing. */
  lemma MergeDryRunSame(c: Cluster, faults: set<Fault>, inv: LocalInv, objs: set<ObjRef>)
    requires MergeSpec(c, false, faults, Some(inv), objs).1 == None
    ensures var live := MergeSpec(c, false, faults, Some(inv), objs);
            var dry := MergeSpec(c, true, faults, Some(inv), objs);
            dry.0 == live.0 && dry.1 == None && dry.2 == c
  {
    MergeSucceeded(c, faults, inv, objs);
    if FoundFor(c, inv) == map[] {
      MergeFirstApply(c, true, faults, inv, objs);
    } else {
      MergePrunesDifference(c, false, faults, inv, objs);
      MergePrunesDifference(c, true, faults, inv, objs);
    }
  }

  /** Replace: the stored set becomes exactly `objs`, not a union; when it
      already equals `objs` on a single inventory object nothing is written;
      with no inventory object a live Replace of a non-empty set fails on
      the nil object; dry run writes nothing. */
  lemma ReplaceStoresExactly(c: Cluster, dry: bool, faults: set<Fault>, inv: LocalInv, objs: set<ObjRef>)
    requires Queryable(faults, inv)
    requires var found := FoundFor(c, inv);
             Decodable(found) && (dry || HealOk(faults, found))
    ensures var found := FoundFor(c, inv);
            var (err, c') := ReplaceSpec(c, dry, faults, Some(inv), objs);
            && (dry ==> err == None && c' == c)
            && (found == map[] && objs == {} ==> err == None && c' == c)
            && (found == map[] && objs != {} && !dry ==> err == Some(NilInventoryObject) && c' == c)
            && (found != map[] && !dry && ReplaceFault(Retained(found)) !in faults ==>
                  && err == None
                  && FoundFor(c', inv) == map[Retained(found) := Anchor(inv.id.value, Encoded(objs))]
                  && Tracked(FoundFor(c', inv)) == Success(objs))
            && (found != map[] && UnionOf(found) == objs && |found| == 1 ==> err == None && c' == c)
            && (found != map[] && !dry && ReplaceFault(Retained(found)) !in faults ==>
                  && c'.store == c.store[Retained(found) := Anchor(inv.id.value, Encoded(objs))] - Others(found)
                  && (|found| == 1 && UnionOf(found) != objs ==>
                        c'.log == c.log + [Replaced(Retained(found), Anchor(inv.id.value, Encoded(objs)))]))
  {
    var found := FoundFor(c, inv);
    if found == map[] {
      assert UnionOf(found) == {};
    } else {
      var stored := UnionOf(found);
      LookupSettles(c, dry, faults, inv);
      var (r1, c1) := LookupSpec(c, dry, faults, Some(inv));
      var r := Retained(found);
      var anchor := Anchor(inv.id.value, Encoded(objs));
      if !dry && ReplaceFault(r) !in faults {
        ReplaceStoreAfter(c, faults, inv, objs);
        var c' := ReplaceSpec(c, dry, faults, Some(inv), objs).1;
        assert FoundFor(c1, inv) == map[r := Anchor(inv.id.value, Encoded(stored))];
        if stored != objs {
          assert r in c1.store;
          assert c'.store == c1.store[r := anchor];
          FoundAfterWrite(c1.store, inv.handle.namespace, inv.id.value, r, anchor);
        }
        UnionOfSingle(r, anchor);
      }
    }
  }

  /** The inventory object a Merge keeps: the one it creates, or the one
      a lookup retains. */
  ghost function Kept(c: Cluster, inv: LocalInv): Handle
    requires inv.id.Some?
  {
    var found := FoundFor(c, inv);
    if found == map[] then inv.handle else Retained(found)
  }

  /** A live Merge without error leaves a single inventory object under the
      label, storing what was tracked together with `objs`; if it pruned
      anything, it replaced that object, so replacing it does not fail. */
  lemma MergeLeavesOne(c: Cluster, faults: set<Fault>, inv: LocalInv, objs: set<ObjRef>)
    requires MergeSpec(c, false, faults, Some(inv), objs).1 == None
    ensures inv.id.Some?
    ensures var (prune, _, c1) := MergeSpec(c, false, faults, Some(inv), objs);
            && prune !! objs && Kept(c, inv).namespace == inv.handle.namespace
            && FoundFor(c1, inv) == map[Kept(c, inv) := Anchor(inv.id.value, Encoded(prune + objs))]
            && (prune != {} ==> ReplaceFault(Kept(c, inv)) !in faults)
  {
    MergeSucceeded(c, faults, inv, objs);
    if FoundFor(c, inv) == map[] {
      MergeFirstApply(c, false, faults, inv, objs);
    } else {
      MergeLeavesOneExisting(c, faults, inv, objs);
    }
  }

  lemma MergeLeavesOneExisting(c: Cluster, faults: set<Fault>, inv: LocalInv, objs: set<ObjRef>)
    requires MergeSpec(c, false, faults, Some(inv), objs).1 == None
    requires inv.id.Some? && FoundFor(c, inv) != map[]
    ensures var (prune, _, c1) := MergeSpec(c, false, faults, Some(inv), objs);
            && prune !! objs && Kept(c, inv).namespace == inv.handle.namespace
            && FoundFor(c1, inv) == map[Kept(c, inv) := Anchor(inv.id.value, Encoded(prune + objs))]
            && (prune != {} ==> ReplaceFault(Kept(c, inv)) !in faults)
  {
    var found := FoundFor(c, inv);
    var r := Retained(found);
    MergeSucceeded(c, faults, inv, objs);
    MergePrunesDifference(c, false, faults, inv, objs);
    var prune := MergeSpec(c, false, faults, Some(inv), objs).0;
    assert UnionOf(found) + objs == prune + objs;
    assert r in found;
    if ReplaceFault(r) in faults {
      // Nothing was written: a single object already storing `objs`.
      assert |found| == 1 && UnionOf(found) == objs;
      var h :| h in found;
      SingleFound(found, h);
      assert found == map[r := Anchor(inv.id.value, Encoded(prune + objs))];
    }
  }

  /** Merge on a single inventory object storing `t`: it prunes `t - objs`;
      when `t` equals `objs` it writes nothing; otherwise it replaces the
      object by one storing `t + objs`, or fails with the replace error and
      writes nothing. */
  lemma MergeOnOne(c: Cluster, faults: set<Fault>, inv: LocalInv, objs: set<ObjRef>, h: Handle, t: set<ObjRef>)
    requires Queryable(faults, inv) && h.namespace == inv.handle.namespace
    requires FoundFor(c, inv) == map[h := Anchor(inv.id.value, Encoded(t))]
    ensures var (prune, err, c') := MergeSpec(c, false, faults, Some(inv), objs);
            var a := Anchor(inv.id.value, Encoded(t + objs));
            && prune == t - objs
            && (t == objs ==> err == None && c' == c)
            && (t != objs && ReplaceFault(h) in faults ==> err == Some(ReplaceFailed(h)) && c' == c)
            && (t != objs && ReplaceFault(h) !in faults ==>
                  err == None && c' == Cluster(c.store[h := a], c.log + [Replaced(h, a)]))
  {
    var found := FoundFor(c, inv);
    LookupDispatch(c, false, faults, Some(inv));
    assert h in found && h in c.store;
  }

  /** Merging `objs` again into `c1`, after a Merge that returned `prune`
      and left `h` as the only inventory object: the second Merge returns
      the same `prune`, succeeds and leaves the store as it is; it writes
      nothing exactly when nothing was pruned, and otherwise it rewrites
      the same object. */
  ghost predicate Repeats(c1: Cluster, faults: set<Fault>, inv: LocalInv, objs: set<ObjRef>, h: Handle, prune: set<ObjRef>)
    requires inv.id.Some?
  {
    var second := MergeSpec(c1, false, faults, Some(inv), objs);
    && second.0 == prune && second.1 == None
    && second.2.store == c1.store
    && (prune == {} ==> second.2 == c1)
    && (prune != {} ==> second.2.log == c1.log + [Replaced(h, Anchor(inv.id.value, Encoded(prune + objs)))])
  }

  /** Merging the same objects twice in a row: the second Merge returns the
      same prune set and leaves the same store; it writes nothing when the
      first pruned nothing, and rewrites the same union otherwise. */
  lemma MergeTwice(c: Cluster, faults: set<Fault>, inv: LocalInv, objs: set<ObjRef>)
    requires MergeSpec(c, false, faults, Some(inv), objs).1 == None
    ensures inv.id.Some?
    ensures var first := MergeSpec(c, false, faults, Some(inv), objs);
            Repeats(first.2, faults, inv, objs, Kept(c, inv), first.0)
  {
    MergeSucceeded(c, faults, inv, objs);
    MergeLeavesOne(c, faults, inv, objs);
    var first := MergeSpec(c, false, faults, Some(inv), objs);
    MergeRepeats(first.2, faults, inv, objs, Kept(c, inv), first.0);
  }

  lemma MergeRepeats(c1: Cluster, faults: set<Fault>, inv: LocalInv, objs: set<ObjRef>, h: Handle, prune: set<ObjRef>)
    requires Queryable(faults, inv) && h.namespace == inv.handle.namespace
    requires FoundFor(c1, inv) == map[h := Anchor(inv.id.value, Encoded(prune + objs))]
    requires prune !! objs
    requires prune != {} ==> ReplaceFault(h) !in faults
    ensures Repeats(c1, faults, inv, objs, h, prune)
  {
    MergeOnOne(c1, faults, inv, objs, h, prune + objs);
    assert (prune + objs) - objs == prune;
    assert prune == {} ==> prune + objs == objs;
    assert prune != {} ==> prune + objs != objs;
    assert (prune + objs) + objs == prune + objs;
    assert h in c1.store && c1.store[h] == Anchor(inv.id.value, Encoded(prune + objs));
    assert c1.store[h := Anchor(inv.id.value, Encoded(prune + objs))] == c1.store;
  }

  /** Dry run never writes: Merge, Replace and GetClusterObjs leave the
      cluster as it was, whatever they return. */
  lemma DryRunWritesNothing(c: Cluster, faults: set<Fault>, local: Option<LocalInv>, objs: set<ObjRef>)
    ensures LookupSpec(c, true, faults, local).1 == c
    ensures GetClusterObjsSpec(c, true, faults, local).1 == c
    ensures MergeSpec(c, true, faults, local, objs).2 == c
    ensures ReplaceSpec(c, true, faults, local, objs).1 == c
  {
  }

  /** An inventory object that fails to decode is reported, not read as
      empty: GetClusterObjs, Merge and Replace fail with the decode error
      and write nothing, in dry run and live alike. */
  lemma DecodeErrorNoWrite(c: Cluster, dry: bool, faults: set<Fault>, inv: LocalInv, objs: set<ObjRef>)
    requires Queryable(faults, inv)
    requires var found := FoundFor(c, inv);
             found != map[] && !Decodable(found)
    ensures GetClusterObjsSpec(c, dry, faults, Some(inv)) == (Failure(DecodeFailed), c)
    ensures MergeSpec(c, dry, faults, Some(inv), objs) == ({}, Some(DecodeFailed), c)
    ensures ReplaceSpec(c, dry, faults, Some(inv), objs) == (Some(DecodeFailed), c)
  {
    var found := FoundFor(c, inv);
    if |found| == 1 {
      var h :| h in found;
      SingleFound(found, h);
    }
  }
}
