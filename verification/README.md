# Cluster inventory client, modelled and verified in Dafny

The cluster inventory client keeps a durable record of the objects an
apply created. The record is an *inventory object* stored in the cluster.
It carries an inventory-id label and an encoded set of object references.
When a later apply drops objects from its desired set, those objects are
returned as the *prune set*, so the caller can delete them.

This project models `ClusterInventoryClient` from
`pkg/inventory/inventory-client.go`:

- `Merge` returns the prune set and stores the union of the stored and
  applied objects. It creates the inventory object on first use.
- `Replace` stores exactly the given set.
- `GetClusterObjs` reads the stored set.
- `getClusterInventoryInfo` looks up inventory objects by label. When it
  finds several (duplicates), `mergeClusterInventory` heals them: it keeps
  the first in handle order, writes the union of every duplicate's set into
  it, and only then deletes the others.
- `applyInventoryObj`, `createInventoryObj` and `DeleteInventoryObj` are the
  single store writes, with their dry-run and nil guards.
- `SetDryRun` sets the dry-run flag.

Files:

- `wrappers.dfy` (`Wrappers`): `Option` and `Result`.
- `ordering.dfy` (`Ordering`): object handles (namespace, name), a
  lexicographic total order on them, and the least handle of a set. The
  handle order stands for the sort that picks the retained inventory object.
- `inventory_spec.dfy` (`InventorySpec`): the values (object references,
  payloads, inventory objects, faults, errors, writes) and one
  specification function per operation. Each function maps a cluster state
  (a store from handle to inventory object, plus a log of every write) to
  the result and the next state. It also holds the lemmas the client's
  loops need.
- `inventory_client.dfy` (`Inventory`): the client as a class. Its fields
  are the dry-run flag, the store map and the write log, plus the constant
  set of store calls that fail. Every method is proved to return, and to
  leave behind, exactly what its specification function prescribes. The
  two loops of `mergeClusterInventory` are methods with loop invariants:
  `LoadUnion` accumulates the union and `DeleteInOrder` deletes the
  duplicates.
- `inventory_properties.dfy` (`InventoryProperties`): what the client
  promises, proved of the specification functions.

Store failures are a parameter: a set of `Fault`s fixed when the client is
built. Each fault names the store call that fails: the REST mapping of the
label query, the label query itself, or a create, a replace or a delete of
a given handle. A fault holds for the client's whole life, so a call that
fails on a handle fails every time.
Creating a handle that already exists fails with `AlreadyExists`.
Replacing or deleting a missing handle fails with `NotFound`. An inventory
object whose payload is `Malformed` fails to load.

Design note on Merge idempotence. One could expect a second `Merge` of the
same objects to prune nothing and write nothing. The code does not do that.
After a first `Merge` the stored set is `S ∪ X`. A second `Merge` with `X`
again returns `S \ X` as the prune set, because `SetEquals` fails whenever
`S \ X` is not empty. It also writes the same union again. It writes
nothing only when `S ⊆ X`. The model follows the code, and `MergeTwice`
states exactly this.

## Model

| member | source | states |
|---|---|---|
| Inventory.ClusterInventoryClient.constructor | pkg/inventory/inventory-client.go:66-73 | A new client is not in dry-run mode and starts from the given store with an empty write log. |
| Inventory.ClusterInventoryClient.SetDryRun | pkg/inventory/inventory-client.go:381-383 | Sets the dry-run flag and nothing else. |
| Inventory.ClusterInventoryClient.CreateInventoryObj | pkg/inventory/inventory-client.go:320-349 | In dry run: no error and no write. A nil object is an error. A failing create returns its error. Otherwise the object is added to the store and `Created` is logged. |
| Inventory.ClusterInventoryClient.ApplyInventoryObj | pkg/inventory/inventory-client.go:300-317 | In dry run: no error and no write. A nil object is an error. A failing replace returns its error. Otherwise the stored object is overwritten and `Replaced` is logged. |
| Inventory.ClusterInventoryClient.DeleteInventoryObj | pkg/inventory/inventory-client.go:353-377 | In dry run: no error and no write. A nil object is an error. A failing delete returns its error. Otherwise the object is removed and `Deleted` is logged. |
| Inventory.ClusterInventoryClient.GetClusterInventoryInfo | pkg/inventory/inventory-client.go:194-239 | The result and next state are `LookupSpec`: input and query errors first, then none, the single match, or the healed duplicates. |
| Inventory.ClusterInventoryClient.MergeClusterInventory | pkg/inventory/inventory-client.go:248-297 | No objects gives none and no change. Otherwise the result and next state are `HealSpec`: keep the least handle, write the union into it before any delete, delete the others in order, and abort on the first error. |
| Inventory.ClusterInventoryClient.DeleteInOrder | pkg/inventory/inventory-client.go:289-295 | Deletes the duplicates one by one in handle order and stops at the first failure. The error names the first duplicate whose delete fails. Exactly the duplicates before it are gone, with one `Deleted` per duplicate in the log. Dry run changes nothing. |
| Inventory.LoadUnion | pkg/inventory/inventory-client.go:256-272 | Loads the retained object, then every other one. Returns the union of all their sets, or a decode error if any of them is malformed. |
| Inventory.ClusterInventoryClient.GetClusterObjs | pkg/inventory/inventory-client.go:171-183 | Result and next state are `GetClusterObjsSpec`: the lookup's error, the empty set when there is no inventory object, or the loaded set. |
| Inventory.ClusterInventoryClient.Merge | pkg/inventory/inventory-client.go:83-134 | Prune set, error and next state are `MergeSpec`. This includes the double lookup: once directly and again through GetClusterObjs. |
| Inventory.ClusterInventoryClient.Replace | pkg/inventory/inventory-client.go:138-167 | Error and next state are `ReplaceSpec`: read, skip when equal, look up again, and write exactly `objs` unless in dry run. |
| InventorySpec.Query | pkg/inventory/inventory-client.go:194-228 | A query succeeds only when the local inventory is present and has an inventory-id label. |
| InventorySpec.LookupSpec | pkg/inventory/inventory-client.go:194-239 | A lookup succeeds only when its label query succeeds. |
| InventorySpec.DeletionStep | pkg/inventory/inventory-client.go:290-295 | Deleting the first pending duplicate either fails, naming the first blocked duplicate with exactly the earlier ones deleted, or keeps the deletion-in-order invariant. |
| InventorySpec.DeleteLogAppend | pkg/inventory/inventory-client.go:290-295 | Deleting a set in order and then a handle after all of it is the same as deleting the larger set in order. |
| InventorySpec.BlockedIsFirst | pkg/inventory/inventory-client.go:292-294 | When deletion stops at a failing handle, that handle is the first blocked one, and exactly the handles deleted before it are removed. |
| InventorySpec.SingleFound | pkg/inventory/inventory-client.go:230-231 | A single found object is the retained one and nothing else is found. If it decodes, the tracked union is what it stores, and the merged object is the object itself. |
| InventorySpec.UnionOverAdd | pkg/inventory/inventory-client.go:264-272 | Adding one more decodable object to the union adds exactly its set. |
| Ordering.First | pkg/inventory/inventory-client.go:255-256 | Returns the least handle of a non-empty set: the head after sorting. |
| Ordering.Least | pkg/inventory/inventory-client.go:255-256 | The least handle of a non-empty set, as a specification. |
| Ordering.LeastUnique | pkg/inventory/inventory-client.go:255-256 | A set has only one least handle, so the retained object is determined. |
| Ordering.LeastExists | pkg/inventory/inventory-client.go:255-256 | Every non-empty set of handles has a least element. |
| Ordering.HandleLessTotal | pkg/inventory/inventory-client.go:255 | Any two distinct handles are ordered one way or the other. |
| Ordering.HandleLessTransitive | pkg/inventory/inventory-client.go:255 | The handle order is transitive. |
| Ordering.HandleLessAsymmetric | pkg/inventory/inventory-client.go:255 | The handle order is asymmetric. |
| Ordering.HandleLessIrreflexive | pkg/inventory/inventory-client.go:255 | No handle comes before itself. |
| Ordering.StrLessTotal | pkg/inventory/inventory-client.go:255 | Lexicographic string order is total on distinct strings. |
| Ordering.StrLessTransitive | pkg/inventory/inventory-client.go:255 | Lexicographic string order is transitive. |
| Ordering.StrLessIrreflexive | pkg/inventory/inventory-client.go:255 | No string comes before itself. |
| InventoryProperties.LookupDispatch | pkg/inventory/inventory-client.go:195-238 | A nil local inventory is an error with no change. So is a missing label when the REST mapping succeeds. When the label query succeeds: no match gives none; a single match is returned as it is, with no write; several matches give exactly the heal. |
| InventoryProperties.DeleteLogOrdered | pkg/inventory/inventory-client.go:290-295 | Deleting in order logs one `Deleted` per handle, each handle in the set, in strictly increasing handle order. |
| InventoryProperties.HealWritesFirst | pkg/inventory/inventory-client.go:283-295 | For several found objects that all decode and are all in the store, a live heal goes one of two ways. If the write of the union into the retained object fails, the heal returns that error and changes nothing. Otherwise the first new log entry is that write, and every later entry deletes a duplicate, in handle order. |
| InventoryProperties.HealOutcome | pkg/inventory/inventory-client.go:286-296 | For several found objects that all decode and are in the store, when the write of the union into the retained object does not fail, a live heal leaves the retained object holding the union. If every delete succeeds, it returns the retained object and all duplicates are gone. Otherwise the error names the first failing duplicate in handle order, and exactly the duplicates before it are deleted. |
| InventoryProperties.FoundAfterHeal | pkg/inventory/inventory-client.go:248-297 | For several found objects that all decode, when the write of the union into the retained object does not fail, a live heal leaves under the label the retained object holding the union, plus the duplicates it did not delete. |
| InventoryProperties.UnionAfterHeal | pkg/inventory/inventory-client.go:280-285 | For found objects that all decode, writing the union into the retained object and dropping any of the duplicates keeps the tracked union unchanged. |
| InventoryProperties.LookupKeepsTracked | pkg/inventory/inventory-client.go:280-295 | For a local inventory with a label, no lookup changes the set tracked under the label, whatever fails and even when healing stops halfway. |
| InventoryProperties.LookupSettles | pkg/inventory/inventory-client.go:229-238 | Assume the label query succeeds, at least one object is found, every found object decodes, and, in a live run, healing meets no store failure. Then the lookup returns the least handle holding the whole union. A second lookup returns the same and changes nothing. A live lookup leaves exactly that object under the label. A dry run, or a single match, changes nothing. |
| InventoryProperties.LookupSettlesOne | pkg/inventory/inventory-client.go:230-231 | The single-match case of `LookupSettles`: the label query succeeds and the one found object decodes. |
| InventoryProperties.LookupSettlesHealed | pkg/inventory/inventory-client.go:232-236 | The live several-match case of `LookupSettles`: the label query succeeds, every found object decodes, and healing meets no store failure. |
| InventoryProperties.HealedStore | pkg/inventory/inventory-client.go:229-297 | Assume the label query succeeds, every found object decodes, and neither the heal nor a replace of the retained object fails. Then a live lookup changes the store only in two ways: the retained object holds the union, and the other found objects are gone. |
| InventoryProperties.GetClusterObjsReadsTracked | pkg/inventory/inventory-client.go:171-183 | A nil local inventory is an error before any store query. When the label query succeeds, and in a live run healing meets no store failure, the result is the tracked set: empty without an inventory object, else the union or the decode error. |
| InventoryProperties.MergeFirstApply | pkg/inventory/inventory-client.go:84-102 | When the label query succeeds and finds no inventory object, Merge prunes nothing, and a dry run writes nothing. A live run whose create of the local handle does not fail, on a handle not yet in the store, creates one object storing exactly the applied objects and logs that one create. |
| InventoryProperties.MergePrunesDifference | pkg/inventory/inventory-client.go:105-130 | Assume the label query succeeds, at least one object is found, every found object decodes, and, in a live run, healing meets no store failure. Then the prune set is stored minus applied, in live and dry run alike, and a dry run writes nothing. When, in addition, replacing the retained object does not fail, a live run leaves one object under the label storing stored ∪ applied, so nothing tracked is dropped. It also removes the other found objects and leaves the rest of the store unchanged. Equal sets on a single object cause no write. |
| InventoryProperties.MergeStoreAfter | pkg/inventory/inventory-client.go:105-130 | Assume the label query succeeds, every found object decodes, and neither the heal nor a replace of the retained object fails. Then a live Merge leaves the retained object storing stored ∪ applied, removes the other found objects, and leaves every other object unchanged. |
| InventoryProperties.MergeKeepsTracked | pkg/inventory/inventory-client.go:83-134 | On every input (dry run or live, with any store failures, including a failing create, heal or final replace), if the objects under the label tracked a set before a Merge, they track a superset of it afterwards. No previously tracked object is ever dropped from the record. |
| InventoryProperties.MergeSucceeded | pkg/inventory/inventory-client.go:85-129 | A live Merge without error had a successful label query, and the objects it found all decoded and healed without store failure. If they stored something other than the applied set, replacing the retained object did not fail either. |
| InventoryProperties.MergeDryRunSame | pkg/inventory/inventory-client.go:121 | Whenever a live Merge succeeds, a dry-run Merge on the same cluster returns the same prune set, with no error and no write. |
| InventoryProperties.ReplaceStoresExactly | pkg/inventory/inventory-client.go:138-167 | Assume the label query succeeds, every found object decodes, and, in a live run, healing meets no store failure. Then a dry run writes nothing. Equal sets on a single object cause no write. With no inventory object, an empty set writes nothing, and a live Replace of a non-empty set fails on the nil object with no write. When objects were found and replacing the retained object does not fail, a live Replace leaves one object under the label storing exactly `objs`, not a union. It also removes the other found objects and leaves the rest of the store unchanged. On a single object with a different set, it logs exactly one replace. |
| InventoryProperties.ReplaceStoreAfter | pkg/inventory/inventory-client.go:138-167 | Assume the label query succeeds, every found object decodes, and neither the heal nor a replace of the retained object fails. Then a live Replace leaves the retained object storing exactly `objs`, removes the other found objects, and leaves every other object unchanged. On a single object with a different set, it logs exactly one replace. |
| InventoryProperties.MergeLeavesOne | pkg/inventory/inventory-client.go:83-134 | For any store failures, a live Merge without error leaves one object under the label. That object stores the prune set together with the applied objects, and the prune set is disjoint from them. If anything was pruned, replacing that object does not fail. |
| InventoryProperties.MergeLeavesOneExisting | pkg/inventory/inventory-client.go:103-130 | The existing-object case of `MergeLeavesOne`: a live Merge without error that found at least one object, for any store failures. |
| InventoryProperties.MergeOnOne | pkg/inventory/inventory-client.go:105-130 | Assume the label query succeeds and finds a single object storing `t`, with any replace, create or delete failures. Then Merge prunes `t` minus applied. When `t` equals the applied set, it writes nothing. Otherwise it replaces the object by one storing `t` ∪ applied and logs that one write, or it fails with the replace error and writes nothing. |
| InventoryProperties.MergeTwice | pkg/inventory/inventory-client.go:109-129 | For any store failures, whenever a live Merge succeeds, repeating it returns the same prune set with no error and leaves the store as it is. It writes nothing when the first pruned nothing. Otherwise it writes exactly one replace of the same object with the same union. |
| InventoryProperties.MergeRepeats | pkg/inventory/inventory-client.go:109-129 | Assume the label query succeeds and finds a single object storing prune ∪ applied, with prune disjoint from applied, and, if prune is not empty, no failure replacing that object. Then merging the applied set again returns the same prune set with no error and leaves the store as it is. It writes nothing when prune is empty, and otherwise logs one replace of that object. |
| InventoryProperties.DryRunWritesNothing | pkg/inventory/inventory-client.go:300-357 | On every input, a dry-run lookup, GetClusterObjs, Merge or Replace leaves the cluster unchanged. |
| InventoryProperties.DecodeErrorNoWrite | pkg/inventory/inventory-client.go:171-183 | When the label query succeeds and finds at least one object that fails to decode, GetClusterObjs, Merge and Replace all fail with the decode error and write nothing, in dry run and live alike. The object is never read as empty. |

## Left out

- Kubernetes plumbing is abstracted into store calls that may fail, selected by the `Fault` set. This covers the resource builder chain, the REST mapping and client lookups, and the resource helper's create, replace and delete calls.
- The factory calls in `NewInventoryClient` (`ToRESTMapper`, `Validator`) are not part of this model: building the client never fails.
- `info.Refresh` after a create or replace is not part of this model. It is called with errors ignored and is taken never to fail.
- The `Load`/`Store` encoding of inventory objects is not part of this model. A payload either decodes to a set or is `Malformed`. `Store` and `GetObject` are taken never to fail.
- `object.SetDiff`, `object.Union` and `object.SetEquals` are not part of this model. Object lists are sets, so duplicates and order inside an inventory are not modelled.
- `ordering.SortableInfos` is not part of this model. Handles are ordered by namespace and then name, lexicographically, as one fixed total order.
- `object.InfoToObjMeta` failures are not modelled. A failing REST mapping in the lookup is the `MappingFault`. The REST mapping and client lookups inside `createInventoryObj` and `DeleteInventoryObj` are folded into `CreateFault(h)` and `DeleteFault(h)` for the handle concerned.
- `WrapInventoryObj`, `Store` and `GetObject` on a nil object (in `Replace` with no inventory object) are not part of this model. When no inventory object exists and the set differs, the model lets a live Replace fail with `NilInventoryObject` and write nothing. That error is the model's own choice: the real failure may come from `GetObject` before the nil guard of `applyInventoryObj` is reached.
- The nil guard of `createInventoryObj` is modelled, but `Merge` never reaches it, since it always passes an object.
- Logging.
- `pkg/apply/task/delete_inv_task.go` is not modelled: it only runs `DeleteInventoryObj` on a goroutine and forwards the error on a channel.
- Concurrent `Merge`/`Replace` calls on the same inventory object, and changing the dry-run flag during a call.
- Transient store failures: a fault is fixed per call kind and handle for the client's whole life. So the model cannot express a call that first succeeds and then fails. Examples are a first label query (line 85) that succeeds while the second (lines 105 and 173) fails, or a heal that replaces the retained object while `Merge`'s own replace of it (line 127) fails.
