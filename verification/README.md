# AOI zone

A model of the area-of-interest zone `AoiZone` of the AOI library. The zone
keeps entities on a plane. It has three parts:

- a registry from key to entity record;
- two axis lists, one node per entity on each, kept in ascending order of the
  x (respectively y) coordinate;
- for each entity, a double-buffered view-set: the current set of keys it
  sees and the set from the previous query.

`Enter` registers a key with a sorted insert on both lists. A key that is
already registered is left as it is. `Update` runs the range query `Find`,
after moving the entity's nodes when a new position is given. `Exit` removes
the registry entry and, by value, one node from each list.

`Find` first swaps the two buffers and empties the current one. It then walks
outward, right and left, from the entity's own node on the x list and then on
the y list. A direction stops at the first node whose gap on that axis exceeds
the half-extent of the window on that axis. A node passes when two tests
hold: the band test on the other axis and the Euclidean distance test. The
model keeps three quirks of the code:

- every gap is `|abs a - abs b|`, the difference of absolute values;
- the distance threshold is the x half-extent in both sweeps;
- `EnterIncludingMyself` returns the same set as `Enter` with a window, and
  does not add the caller's own key. Only the `UpdateIncludingMyself`
  overloads add it.

The model is in five modules:

- `Geometry` (`geometry.dfy`): positions, windows, the gap and distance tests.
- `AxisList` (`axis_list.dfy`): an axis list as a sequence of `Node(value,
  key)`. Add, Move and Remove are given by their contracts: a sorted insert,
  a relocation that keeps the order, and a removal of some node with a given
  value. `Indexes` is the invariant that a list holds exactly one node per
  key, at that key's coordinate, in sorted order.
- `Entity` (`aoi_entity.dfy`): the entity record and its buffer swap.
- `ZoneState` (`zone_state.dfy`): the zone as values. It holds the invariant
  `Consistent`, the closed-form view-set `ViewOf`, and one lemma per zone
  operation showing that the operation keeps the invariant.
- `Zone` (`aoi_zone.dfy`): the `AoiZone` class. It has the registry, the
  positions of the registered entities and the two lists as fields. The
  overloads are imperative methods. The range query is a loop per direction,
  with invariants.

The proved view-set after any query is `ViewOf`: every other registered key
whose absolute-value y gap is at most area.y and whose distance is at most
area.x. Two facts make the sweep exact:

- the x sweeps alone already find every such key (`SweepXBoth`);
- the y sweeps add nothing outside it (`SweepY`).

An early stop never skips a key within reach, because the gap used for the
stop never exceeds the true gap (`AbsGap`, `DistanceBoundsAxisGaps`).

Where the method names or a reader's expectations suggest otherwise, the
model follows the code:

- `EnterIncludingMyself` does not include the caller (`AoiZone.cs:41-46`).
- `Exit` removes a node *by value* from each list, not necessarily the
  entity's own node (`AoiZone.cs:259-260`).
- `Exit` does not hand the record back to the pool (`AoiZone.cs:255-263`).

## Model

All source paths are `Test/AOI/AOI/Base/AoiZone.cs`.

| member | source | states |
|---|---|---|
| Geometry.AbsGap | Test/AOI/AOI/Base/AoiZone.cs:188 | The gap the sweeps compare, `\|abs a - abs b\|`, is never more than the true gap `\|a - b\|`. It equals the true gap when both coordinates are non-negative. |
| Geometry.WithinDistance | Test/AOI/AOI/Base/AoiZone.cs:286-289 | `Distance(a, b) <= r` without the square root: r is non-negative and the squared distance is at most r squared. |
| Geometry.InWindow | Test/AOI/AOI/Base/AoiZone.cs:193-199 | The admission test of both sweeps: the absolute-value y gap is at most area.y and the distance is at most area.x. |
| Geometry.DistanceBoundsAxisGaps | Test/AOI/AOI/Base/AoiZone.cs:286-289 | A point within distance r of another has both axis gaps at most r. So a node whose gap exceeds area.x cannot pass the distance test, and neither can any node beyond it. |
| Geometry.InWindowSymmetric | Test/AOI/AOI/Base/AoiZone.cs:193-199 | The band test and the distance test give the same answer from either end. |
| Geometry.BandRedundantWhenTaller | Test/AOI/AOI/Base/AoiZone.cs:193-199 | When area.y is at least area.x, the band test never rejects a node that the distance test (threshold area.x) admits. |
| Geometry.MirroredEntityPassesBand | Test/AOI/AOI/Base/AoiZone.cs:193 | Because the band test compares absolute values, (0,-3) passes the band of height 1 around (0,3), although the true y gap is 6. |
| AxisList.Insert | Test/AOI/AOI/Base/AoiZone.cs:61-62 | Add as a sorted insert: the list grows by one node. Where the node lands is stated by InsertShape, and the sortedness and contents by InsertSorted and InsertAddsOne. |
| AxisList.InsertPos | Test/AOI/AOI/Base/AoiZone.cs:61-62 | The slot of a sorted insert lies after every node valued at most v and before the first node valued more. |
| AxisList.InsertShape | Test/AOI/AOI/Base/AoiZone.cs:61-62 | Add links the new node in at that slot and keeps every other node in place and in order. |
| AxisList.InsertSorted | Test/AOI/AOI/Base/AoiZone.cs:61-62 | Add keeps a sorted list sorted. |
| AxisList.InsertAddsOne | Test/AOI/AOI/Base/AoiZone.cs:61-62 | Add adds exactly the one new node: the multiset of nodes grows by it. |
| AxisList.RemoveAt | Test/AOI/AOI/Base/AoiZone.cs:259-260 | Unlinking one node: the list shrinks by one. RemoveAtSorted and RemoveAtTakesOne state the rest. |
| AxisList.RemoveAtSorted | Test/AOI/AOI/Base/AoiZone.cs:259-260 | Unlinking a node keeps a sorted list sorted. |
| AxisList.RemoveAtTakesOne | Test/AOI/AOI/Base/AoiZone.cs:259-260 | Unlinking takes out exactly that node: the multiset shrinks by it. |
| AxisList.Move | Test/AOI/AOI/Base/AoiZone.cs:155-163 | Move of one node to a new value keeps the length. MoveSorted, MoveReplacesOne and IndexesMove state the rest. |
| AxisList.MoveSorted | Test/AOI/AOI/Base/AoiZone.cs:155-163 | Move keeps a sorted list sorted. |
| AxisList.MoveReplacesOne | Test/AOI/AOI/Base/AoiZone.cs:155-163 | Move replaces the moved node by one with the same owner at the new value. No other node changes. |
| AxisList.MoveNode | Test/AOI/AOI/Base/AoiZone.cs:157 | Moving the node of a key from one value to another gives the list with that very node relocated. |
| AxisList.Remove | Test/AOI/AOI/Base/AoiZone.cs:259-260 | Remove by value takes out one node with that value when there is one, so the list is one shorter. Otherwise it returns the list unchanged. |
| AxisList.IndexesInsert | Test/AOI/AOI/Base/AoiZone.cs:61-62 | Adding a node for a new key gives a list that indexes the coordinates extended by that key. |
| AxisList.IndexesRemoveAt | Test/AOI/AOI/Base/AoiZone.cs:259-260 | Unlinking a key's node gives a list that indexes the coordinates without that key. |
| AxisList.IndexesMove | Test/AOI/AOI/Base/AoiZone.cs:157 | Moving a key's node gives a list that indexes the coordinates with that key at its new value. |
| AxisList.IndexesRemoveOwn | Test/AOI/AOI/Base/AoiZone.cs:259-260 | Removing by value a coordinate that no other key shares takes out exactly that key's node. |
| AxisList.InsertThenRemove | Test/AOI/AOI/Base/AoiZone.cs:259-260 | Removing by value a node just added gives back the original list, when no other node had that value. |
| AxisList.StrictlySortedUnique | Test/AOI/AOI/Base/AoiZone.cs:155-163 | Two strictly sorted lists holding the same nodes are equal. |
| AxisList.OrderDeterminedByCoords | Test/AOI/AOI/Base/AoiZone.cs:155-163 | When no two keys share a coordinate, the coordinates alone fix the list. Any sequence of moves that ends at the same positions gives the same node order. |
| Entity.AoiEntity.constructor | Test/AOI/AOI/Base/AoiZone.cs:59 | A record fetched and initialised for a key carries that key and two empty buffers. |
| Entity.AoiEntity.SwapViewEntity | Test/AOI/AOI/Base/AoiZone.cs:270-278 | After the swap, the back buffer holds the former view-set and the current buffer is empty. |
| ZoneState.ViewOf | Test/AOI/AOI/Base/AoiZone.cs:182-234 | The closed-form view-set never contains the entity itself, and only contains registered keys. |
| ZoneState.MutualVisibility | Test/AOI/AOI/Base/AoiZone.cs:193-199 | For a shared window, b is in a's view-set exactly when a is in b's. |
| ZoneState.ViewOfIsDiscWhenBandTaller | Test/AOI/AOI/Base/AoiZone.cs:193-199 | When area.y is at least area.x, the view-set is exactly the other keys within distance area.x. |
| ZoneState.TwoEntityViews | Test/AOI/AOI/Base/AoiZone.cs:182-205 | Entities at (0,0) and (1,0) see each other through a 5 by 5 window. An entity alone sees nothing. |
| ZoneState.SharedExitMayTakeOtherNode | Test/AOI/AOI/Base/AoiZone.cs:257-260 | In the two-entity zone, entity 2 shares y = 0 with entity 1. Remove by value may take entity 1's y node on Exit of 2, and the lists then no longer index the positions. |
| ZoneState.IndexedEnter | Test/AOI/AOI/Base/AoiZone.cs:59-64 | Inserting one node per list for a new key keeps both lists indexing the positions, which now include that key. |
| ZoneState.IndexedMoveX | Test/AOI/AOI/Base/AoiZone.cs:155-158 | Moving a key's x node re-indexes the key at the new x. The y list is untouched and stays valid. |
| ZoneState.IndexedMoveY | Test/AOI/AOI/Base/AoiZone.cs:160-163 | Moving a key's y node re-indexes the key at the new y. The x list is untouched and stays valid. |
| ZoneState.IndexedExit | Test/AOI/AOI/Base/AoiZone.cs:257-262 | Removing by value one node at the key's x and one at its y drops exactly the key's own nodes, when no other key shares either value. |
| ZoneState.IndexedHasNodes | Test/AOI/AOI/Base/AoiZone.cs:184 | Every registered key has its node on each list, valued at its coordinate. That node is where the sweeps start. |
| ZoneState.RegisteredAdd | Test/AOI/AOI/Base/AoiZone.cs:64 | Filing a record under its own key keeps every record filed under its own key. |
| ZoneState.ConsistentEnter | Test/AOI/AOI/Base/AoiZone.cs:59-64 | A fresh Enter (one new record, one node per list) keeps the registry, the positions and the lists consistent. |
| ZoneState.EnterThenExit | Test/AOI/AOI/Base/AoiZone.cs:255-263 | Exit undoes a fresh Enter at a position whose coordinates no other entity shares. The registry, the positions and both lists come back as they were. |
| ZoneState.ConsistentMoveX | Test/AOI/AOI/Base/AoiZone.cs:155-158 | Moving a key's x node keeps the zone consistent, with the key at its new x. |
| ZoneState.ConsistentMoveY | Test/AOI/AOI/Base/AoiZone.cs:160-163 | Moving a key's y node keeps the zone consistent, with the key at its new y. |
| ZoneState.ConsistentRelocateX | Test/AOI/AOI/Base/AoiZone.cs:155-158 | The x step of the position update (move only if the x differs) keeps the zone consistent. |
| ZoneState.ConsistentRelocateY | Test/AOI/AOI/Base/AoiZone.cs:160-163 | The y step of the position update (move only if the y differs) keeps the zone consistent. |
| ZoneState.ConsistentExit | Test/AOI/AOI/Base/AoiZone.cs:255-263 | Exit of a key whose coordinates no other key shares keeps the zone consistent without that key. |
| Zone.AoiZone.constructor | Test/AOI/AOI/Base/AoiZone.cs:9-12 | A new zone has an empty registry and two empty lists, and is consistent. |
| Zone.AoiZone.Get | Test/AOI/AOI/Base/AoiZone.cs:14 | In every state, the indexer returns null exactly when the key is not registered, and otherwise the record filed under that key, which carries that key when the zone is consistent. |
| Zone.AoiZone.Enter | Test/AOI/AOI/Base/AoiZone.cs:55-66 | On a registered key it returns that record and changes nothing. On a fresh key it allocates a record with empty buffers and adds one registry entry. It also inserts one node valued x into the x list and one valued y into the y list, both owned by the key. The zone stays consistent, so both lists stay sorted. |
| Zone.AoiZone.EnterWithView | Test/AOI/AOI/Base/AoiZone.cs:25-30 | Enter, then the range query at the entity's position. The returned set is the entity's view-set, which is exactly ViewOf. |
| Zone.AoiZone.EnterIncludingMyself | Test/AOI/AOI/Base/AoiZone.cs:41-46 | The same as EnterWithView: the returned set is ViewOf and does not contain the caller's key. |
| Zone.AoiZone.Update | Test/AOI/AOI/Base/AoiZone.cs:134-141 | On an unknown key it returns null and changes nothing. Otherwise the back buffer holds the previous view-set and the current one is exactly ViewOf. |
| Zone.AoiZone.UpdateWithView | Test/AOI/AOI/Base/AoiZone.cs:75-80 | On an unknown key it returns null and None. Otherwise it returns the record and Some of its new view-set. |
| Zone.AoiZone.UpdateIncludingMyself | Test/AOI/AOI/Base/AoiZone.cs:89-94 | On an unknown key it returns None and adds nothing. Otherwise the entity's own view-set becomes ViewOf plus the caller's key, and that is what is returned. |
| Zone.AoiZone.UpdateAt | Test/AOI/AOI/Base/AoiZone.cs:151-168 | On an unknown key it returns null and changes nothing. Otherwise the key moves to (x, y). Each list moves the key's node only if that coordinate differs. The zone stays consistent, and the view-set is ViewOf at the new position. |
| Zone.AoiZone.Relocate | Test/AOI/AOI/Base/AoiZone.cs:155-163 | The position update: the key is at (x, y) afterwards. Each list is unchanged when that coordinate is the same, and otherwise has the key's node moved. The zone stays consistent. |
| Zone.AoiZone.RelocateX | Test/AOI/AOI/Base/AoiZone.cs:155-158 | The x step: the key's x becomes x. The x list moves the key's node only when its x differs. The zone stays consistent. |
| Zone.AoiZone.RelocateY | Test/AOI/AOI/Base/AoiZone.cs:160-163 | The y step: the key's y becomes y. The y list moves the key's node only when its y differs. The zone stays consistent. |
| Zone.AoiZone.UpdateAtWithView | Test/AOI/AOI/Base/AoiZone.cs:105-110 | UpdateAt, returning None on an unknown key and otherwise Some of the new view-set. Each list moves the key's node only if that coordinate differs. |
| Zone.AoiZone.UpdateAtIncludingMyself | Test/AOI/AOI/Base/AoiZone.cs:121-126 | UpdateAt, then the caller's key is added into the entity's own view-set, which is returned. Each list moves the key's node only if that coordinate differs. On an unknown key it returns None and adds nothing. |
| Zone.AoiZone.Find | Test/AOI/AOI/Base/AoiZone.cs:176-237 | The back buffer receives the view-set from before the call. The current buffer becomes exactly ViewOf. |
| Zone.AoiZone.Sweep | Test/AOI/AOI/Base/AoiZone.cs:180-236 | The four sweeps add to the emptied buffer exactly the keys of ViewOf. |
| Zone.AoiZone.SweepXBoth | Test/AOI/AOI/Base/AoiZone.cs:182-205 | The two sweeps along the x list alone add exactly ViewOf. |
| Zone.AoiZone.SweepX | Test/AOI/AOI/Base/AoiZone.cs:184-204 | One x-list direction admits only keys of ViewOf. It admits every key in its direction that passes the window test, despite the early break. |
| Zone.AoiZone.SweepY | Test/AOI/AOI/Base/AoiZone.cs:213-233 | One y-list direction admits only keys of ViewOf, so the y sweeps add nothing the x sweeps did not. |
| Zone.AoiZone.Exit | Test/AOI/AOI/Base/AoiZone.cs:243-248 | On an unknown key it changes nothing. Otherwise the key leaves the registry, so the indexer returns null for it. One node valued at its x and one valued at its y are removed. When no other entity shares either coordinate, the zone stays consistent. |
| Zone.AoiZone.ExitEntity | Test/AOI/AOI/Base/AoiZone.cs:255-263 | Removes from each list one node valued at the given record's coordinate, and drops the key from the registry. Called with the key's own record at coordinates no other entity shares, it keeps the zone consistent. |

## Left out

- Floating point: coordinates and half-extents are integers. `Distance` (`Math.Pow(…, 0.5)`) compared with area.x is modelled exactly as "squared distance at most area.x squared, and area.x non-negative". Rounding of `float` and `double` is not modelled.
- The object pool: `AoiPool.Instance.Fetch` is modelled as a fresh allocation with empty buffers. The pool is not part of this model.
- `AoiLinkedList` is not part of this model. Its Add, Move and Remove are modelled by contract on a sequence of nodes. An entity's node handles `X` and `Y` are replaced by the zone's map of positions, and a node is found by its value and owner.
- AxisList.Insert: places the new node after every node with an equal value. The position the linked list's Add really picks among equal values is not known, and Enter's contract inherits this choice.
- AxisList.Move: re-inserts the node after every node with an equal value, as Add does. The position the linked list really picks among equal values is not known.
- AxisList.Remove: which node goes, when several share the value, is left open.
- Zone.AoiZone.Exit: promises consistency only when no other registered entity shares the key's x or y. Remove by value may otherwise take another entity's node (ZoneState.SharedExitMayTakeOtherNode shows it for two entities at (0,0) and (1,0)). Operations after such an Exit that need the invariant are then not modelled; the indexer is.
- Zone.AoiZone.ExitEntity: requires the given record to be registered, because the model keeps coordinates in the zone rather than in the record. It promises consistency only when called with the key's own record at unshared coordinates.
- Zone.AoiZone.SweepY: proved to admit only keys of the view-set. That it finds every key in its direction is not stated, because the x sweeps already find them all.
- Aliasing of the returned `HashSet`: the `out` set is the entity's own buffer. The model returns its value, as `Option<set<int>>` instead of a nullable reference. Later changes through one alias are not reflected in the other.
- Computing enter and leave deltas from the two buffers, and notifying other entities on Exit, belong to the callers.
- Thread safety: the zone has no locking and is modelled as sequential.
