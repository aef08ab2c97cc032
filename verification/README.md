# Octree model

This project models `octree.js`, a loose octree for a scene of moving
entities. Every node covers an axis-aligned box (`origin` plus half-extents).
A node holds its own `entities` and has either no children or exactly eight
octant children. The model covers:

- **Routing.** `add` routes an entity by depth, capacity and how many children
  contain its position. `remove` deletes from one node's own list. `empty`
  and `countChildrenIntersections` are included.
- **Lazy caches.** `_all_entities` is the `[entity, owner node]` list of a
  subtree and `_leaves` is its leaf list. Each has a dirty flag that is raised
  on the node and all of its ancestors.
- **The update cycle.** It refreshes the caches, re-homes every queued
  entity (`_to_update`, filled by `onEntityPoseChanged`), refreshes the caches
  again and prunes from every leaf.

The model is functional:

- The tree is an immutable `Node` datatype.
- A node is named by its path of child indices from the root. The root's path
  is `[]` and a node's depth is the length of its path.
- `Lookup`, `ReplaceAt`, `RemoveAt` and `AddAt` reach the node a path names.
- Positions are a function `pos: Entity -> Point` passed to every operation,
  because the source reads `entity.position` from mutable entities at call
  time. Coordinates are exact reals.
- The constants `entities_per_node = 1` and `max_depth = 5` are those of the
  source.

Modules, in dependency order:

| module | file | what it holds |
|---|---|---|
| `Geometry` | geometry.dfy | points, regions, `contains` and the octant table of `subdivide` |
| `Octree` | octree.dfy | the node datatype, `subdivide`, `countChildrenIntersections`, `add`, `remove`, `empty` |
| `Caches` | caches.dfy | `updateChildrenEntities`, `updateLeaves`, and their invariants with reference definitions |
| `AddProps` | add_props.dfy | routing and content properties of `add` |
| `CacheUpkeep` | cache_upkeep.dfy | `add` and `remove` keep the cache invariants |
| `Paths` | paths.dfy | reaching a node by path, and `remove`/`add` called on it |
| `Pending` | pending.dfy | the `_to_update` queue |
| `Rehome` | rehome.dfy | the upward walk that re-homes one entity, and the pass over the snapshot |
| `Prune` | prune.dfy | `pruneUp` and the sweep over the leaves |
| `Update` | update.dfy | `update()`, both as written (`UpdateAsWritten`) and with the corrected pass (`Update`) |
| `StaleOwner` | finding.dfy | a concrete update showing the finding below |

How the model follows the source's mechanics:

- **Dirty flags.** The source walks `parent_node` up to the root and raises
  each flag. The model instead raises the parent's flag whenever a changed
  child is put back (`Octree.Reattach`). Given the invariant "a dirty child
  has a dirty parent", the resulting flags are the same.
- **Snapshot owners.** An owner recorded in the `_all_entities` snapshot is
  the path of its node.
- **Tidy trees.** `Prune.Tidy` is the state `update()` reaches just before
  its sweep: the tree is well formed and within capacity, every stored entity
  lies inside its node's region, every entry list is fresh, every dirty child
  has a dirty parent, and the leaf lists are correct.
- **`pruneUp`.** The source re-points the shared `[entity, node]` pair in
  place. The model re-points the matching entries in the cached lists of the
  nodes on the path from the root to the collapsed node (`Prune.Repoint`).

## Model

| member | source | states |
|---|---|---|
| Geometry.Contains | octree.js:160-165 | a point is inside a region exactly when its distance from the origin on each axis is at most that axis's half-extent; the box is closed, so boundary points are inside |
| Geometry.Octant | octree.js:185-227 | child `i` has half the parent's extents on each axis, and its origin is the parent's origin moved by the child's half-extent: on x by sign −,+ alternating with `i`; on y by + for 0,1,4,5 and − otherwise; on z by + for 0–3 and − for 4–7 |
| Geometry.OctantOf | octree.js:185-227 | for every point in a region, one of the eight octants contains it |
| Geometry.OctantInside | octree.js:185-227 | a point inside an octant is inside the parent |
| Geometry.Flip | octree.js:185-227 | the octant across the mid-plane normal to an axis is a different octant, with the opposite sign on that axis and the same signs on the other two |
| Geometry.OnSharedFace | octree.js:104-120 | a point of the region on any of the three mid-planes lies in an octant exactly when it lies in the octant across that plane, so it lies in two octants: the one `OctantOf` picks and the one across |
| Octree.Subdivide | octree.js:180-183 | at depth `max_depth` or deeper the node is unchanged; above it the node gets exactly 8 children and raises its leaf flag, keeping its own entities, region and identity |
| Octree.SubdivideOctants | octree.js:185-227 | each of the 8 new children sits one level deeper, is empty and childless, has half the parent's extents, and has its origin at the fixed signed offset for its index |
| Octree.ChildMatches | octree.js:233-236 | reference: the strictly increasing indices of exactly those children whose region contains the point |
| Octree.CountChildrenIntersections | octree.js:231-241 | the result is the first `max` of all matching child indices in index order, so it is all of them when fewer than `max` match; the result is strictly increasing |
| Octree.Add | octree.js:52-124 | an entity outside the node's region leaves the node unchanged; an entity inside raises the all-entities flag; the node keeps its region, identity and 0-or-8 shape |
| Octree.Remove | octree.js:126-142 | only the first occurrence of the entity leaves the node's own list (one fewer copy, as a multiset); the list is unchanged when the entity is absent; children are untouched and the all-entities flag is raised |
| Octree.RemoveFirstCount | octree.js:127-134 | removing the first occurrence removes exactly one copy when there is one |
| Octree.Empty | octree.js:144-154 | `empty()` holds exactly when no node of the subtree stores an entity |
| AddProps.AddAppendsHere | octree.js:69-78 | at maximum depth, or when childless with fewer than `entities_per_node` entities, the entity is appended to the node's own list and the children are unchanged |
| AddProps.AddDelegates | octree.js:99-122 | with children and exactly one child containing the position, the node's list is unchanged and only that child is replaced by the child with the entity added |
| AddProps.AddKeepsAmbiguous | octree.js:101-120 | with children and two or more of them containing the position, the entity is appended at this node and the children are unchanged |
| AddProps.SharedFaceMatchesTwo | octree.js:104-116 | a point of a subdivided node's region on any of its three mid-planes lies in at least two children |
| AddProps.AddOnSharedFaceStaysAtParent | octree.js:101-120 | an entity on any of the three mid-planes (x, y or z through the centre) of a subdivided node stays at that node |
| AddProps.ChildrenCoverParent | octree.js:102-122 | in a subdivided node every point of its region lies in some child, so the branch that would index child −1 cannot be reached |
| AddProps.AddStores | octree.js:52-124 | if every stored entity lies in its node's region, adding an entity that lies in the region stores exactly one more copy of it and keeps every stored entity inside its node, after an overflow redistribution too; capacity (at most `entities_per_node` entities in a childless node above maximum depth) is kept |
| AddProps.AddKeeps | octree.js:52-124 | for any tree, adding never stores an entity other than the added one and keeps capacity |
| AddProps.StrayResidentLost | octree.js:79-96 | a resident whose position has left the node's region when the node overflows is re-added, ignored and no longer stored |
| Caches.UpdateChildrenEntities | octree.js:253-268 | the refresh changes no node's region, entities or children, keeps the root's leaf list and its leaf flag, and leaves the all-entities flag as it was; the source never clears that flag |
| Caches.UpdateLeaves | octree.js:271-287 | the refresh changes no node's region, entities or children, keeps the root's entry list and all-entities flag, and clears the leaf flag |
| Caches.RefreshEntitiesCorrect | octree.js:253-268 | if every clean node's cached entry list is correct, then after the refresh every node's list equals the reference: the children's lists in child order followed by `[e, this node]` for each own entity |
| Caches.RefreshLeavesCorrect | octree.js:271-287 | if every clean node's leaf list is correct, then after the refresh every node's list equals the reference: `[this]` for a childless node, otherwise the children's lists concatenated |
| Caches.EntriesAreStored | octree.js:253-268 | the entities named by the reference entry list are, as a multiset, exactly the entities stored in the subtree |
| Caches.EmptyIffNoEntries | octree.js:144-154 | a subtree is empty exactly when its reference entry list is empty |
| CacheUpkeep.AddCaches | octree.js:52-124 | `add` keeps both cache invariants: a node whose entry or leaf list changed carries the raised flag, as does every ancestor |
| CacheUpkeep.RemoveCaches | octree.js:126-142 | `remove` keeps both cache invariants and does not change the leaves |
| Paths.RemoveAtShape | octree.js:126-142 | `remove` called on a node takes the first copy out of that node's list only, keeps its children and raises the all-entities flag on that node and each ancestor |
| Paths.ReplaceAtOthers | octree.js:126-142 | a change at one node leaves the entities and region of every node that is neither the changed node nor below it untouched, its ancestors included |
| Paths.RemoveAtStored | octree.js:126-142 | `remove` on a node takes one copy out of the tree when the node holds the entity, and changes nothing stored otherwise |
| Paths.AddAtSpec | octree.js:52-124 | `add` called on any node of a tree stores at most the added entity in addition; when the entity lies in that node's region and everything is in place it stores exactly one more copy; the cache invariants hold |
| Pending.OnEntityPoseChanged | octree.js:28-31 | afterwards the queue holds exactly the old queue plus the entity, the old order is kept as a prefix, it grows by one exactly when the entity was absent, and no entity is queued twice |
| Pending.PoseChangedIdempotent | octree.js:28-31 | reporting the same move twice leaves the queue as reporting it once |
| Pending.RemoveFirstNoDup | octree.js:330 | taking a re-homed entity off a duplicate-free queue removes it entirely and keeps every other entity |
| Rehome.WalkCases | octree.js:307-329 | the walk from an entity's owner either changes nothing or removes the entity at the owner and adds it at a node containing its position; if nothing changes and the position is inside the root, the owner itself contains the position |
| Rehome.TargetCases | octree.js:308-328 | whatever node the climb from the owner chooses (at any starting level) exists and contains the entity's position; when it chooses none and the position is inside the root, the owner contains the position |
| Rehome.RehomeKeeps | octree.js:307-329 | one re-home keeps capacity and both cache invariants, and stores nothing new beyond at most one copy of the entity; no new copy at all when the owner did hold the entity |
| Rehome.RehomeExact | octree.js:307-329 | when the owner holds the entity, every entity is stored once, every other entity is inside its node and the new position is inside the root, the re-home stores exactly the same entities and leaves every entity inside its node |
| Rehome.MoveStale | octree.js:317-318 | when the named owner does not hold the entity, `remove` removes nothing and `add` stores a second copy, inside the target's region |
| Rehome.FindOwner | octree.js:307 | reference for the owner: a node that stores the entity, found exactly when the entity is stored somewhere |
| Rehome.RehomeAllQueue | octree.js:294-334 | after the pass the queue holds exactly the queued entities that have no snapshot entry, each once |
| Rehome.RehomeAllKeeps | octree.js:294-334 | the pass as written keeps capacity and both cache invariants and stores nothing beyond the old content plus the queued entities |
| Rehome.RehomeCurrentKeeps | octree.js:307-329 | one step of the corrected pass keeps capacity and both cache invariants; it adds no copy of an entity that is still stored, and puts back at most one copy of the entity when no node stores it any more |
| Rehome.RehomeAllCurrentKeeps | octree.js:294-334 | the corrected pass keeps capacity and both cache invariants; it adds no copy of any entity that was stored, puts back at most one copy of a queued entity that no node stored, and keeps every entity stored at most once |
| Rehome.RehomeAllCurrentSingle | octree.js:294-334 | with one entity queued, moved inside the root, listed in the snapshot exactly when it is stored, and all else in place, the corrected pass stores exactly the same entities, each inside its node |
| Rehome.EntriesNameHolders | octree.js:253-268 | every `[entity, node]` entry of the reference entry list names a node of the subtree that stores that entity |
| Rehome.RehomeAllSingle | octree.js:294-334 | the pass as written, with one entity queued, moved inside the root and listed in the snapshot, all else in place, and every snapshot entry for it naming a node that stores it, stores exactly the same entities, each inside its node |
| Rehome.RehomeAllIdle | octree.js:294-334 | with an empty queue either pass, as written or corrected, changes nothing |
| Prune.DropSubtreesRemoves | octree.js:346-355 | the splices of a collapse take out of the leaf list exactly one occurrence of each node below the collapsed node, where it is present |
| Prune.CollapseKeeps | octree.js:357-365 | in a tidy tree, collapsing a node whose cached list holds at most one entry keeps stored content, capacity, containment and both caches' invariants; the node ends childless, holding exactly what its subtree held |
| Prune.PruneUpKeeps | octree.js:342-371 | in a tidy tree, `pruneUp` from any node keeps stored content and leaves a tidy tree |
| Prune.PruneUpCollapses | octree.js:343-358 | in a tidy tree, `pruneUp` on a node whose list holds at most one entry leaves no node below it |
| Prune.PruneUpCuts | octree.js:366-369 | in a tidy tree, a node that is gone or childless stays so after `pruneUp` starts from it or from any of its ancestors |
| Prune.SweepKeeps | octree.js:373-375 | from a tidy tree, the sweep over the live leaf list keeps stored content and leaves a tidy tree |
| Prune.RepointKeeps | octree.js:363 | re-pointing the shared pair changes no node's content and keeps the flag and leaf invariants |
| Update.Refreshed | octree.js:337-340 | both refreshes, in the update's order, give fresh entry lists and correct leaf lists without changing content |
| Update.FinishKeeps | octree.js:336-375 | for a well-formed root within capacity, with both cache invariants and every entity stored once and inside its node, the two refreshes and the sweep keep exactly the stored entities, each inside its node, and keep both cache invariants and capacity |
| Update.UpdateContained | octree.js:289-376 | with every entity in place, the corrected update stores exactly the same entities, each once and inside its node, and leaves both cache invariants and capacity |
| Update.UpdateSingle | octree.js:289-376 | after one entity moved to a place inside the root's region, the corrected update stores exactly the same entities, each once and inside its node, the moved one included |
| Update.UpdateAsWrittenSingle | octree.js:289-376 | after one entity moved to a place inside the root's region, the update as written stores exactly the same entities, each once and inside its node, the moved one included, and keeps both cache invariants and capacity |
| Update.UpdateQueue | octree.js:294-334 | after an update, as written or corrected, the queue holds exactly the queued entities that were not stored, each once |
| StaleOwner.AsWrittenDuplicates | octree.js:307-318 | in the concrete scenario the pass as written turns a tree storing A and B once each into one storing B twice |
| StaleOwner.CorrectedKeeps | octree.js:307-318 | in the same scenario the corrected pass stores A and B once each, both inside their nodes |
| StaleOwner.DroppedRecovered | octree.js:307-325 | when B instead leaves child 6 for child 1, the split of child 6 on A's arrival drops B, and both passes then walk B from its entry's node [6], climb to the root and add B to child 1: they end in the same tree, storing A and B once each, both inside their nodes |

## Left out

- The THREE.js debug mesh (octree.js:34-43, 63, 353): it is rendering only, through a library outside this model.
- IEEE-754 rounding of positions and of the halved extents (octree.js:185-187): coordinates are exact reals.
- Parent back-pointers and the `_to_update` array shared by reference between nodes (octree.js:15, 19): nodes are named by paths, and the queue is a single value returned by the update.
- The prototype and constructor boilerplate and the captured `_this` (octree.js:26, 47, 54).
- The order of the splices inside `removeChildrenNodes`: they touch only the root's leaf list, so `Prune.PruneUp` applies them after the collapse.
- The scan of `_to_update` and the `splice(i, 1)` inside it (octree.js:297-331): they are modelled by their net effect, which is taking off the first occurrence of the entity (`RemoveFirst`).
- Octree.CountChildrenIntersections: the contract requires `max >= 1`, and every call passes 2. With `max = 0` the source returns [] when child 0 misses, and every match otherwise.
- Octree.Add: in a subdivided node with no matching child, the source would index `children_nodes[-1]`. The model stores the entity at the node. `AddProps.ChildrenCoverParent` shows this branch cannot be reached for an entity inside the region.
- Prune.Repoint: the source mutates one shared `[entity, node]` array, and every cached list that holds that array sees the change. The model rewrites, in the cached lists of each node from the root to the collapsed node, the entries equal to that pair. Entries are compared by value, not by identity.
- Prune.PruneUpKeeps: proved for trees whose stored entities all lie inside their nodes and whose caches are fresh, which is the state `update()` reaches before it sweeps. It is not proved for arbitrary trees.
- Update.UpdateContained: proved only for trees whose stored entities are already inside their nodes, and only for the corrected update. For the update as written the finding below shows a pass over several queued entities can store a copy twice. Update.UpdateSingle and Update.UpdateAsWrittenSingle cover one moved entity. Several moved entities in one update are not covered.
- Update.Update: re-homes each entity from the node that stores it when its turn comes (`Rehome.RehomeAllCurrent`). When no node stores it any more, because an earlier split in the same pass dropped it, the walk starts from the node its entry names, as in the source, and puts it back. This is the corrected form of the finding below. `Update.UpdateAsWritten` is the update with the pass as written (`Rehome.RehomeAll`).
- Rehome.RehomeAllCurrentKeeps: it does not say the corrected pass never grows the content. A queued entity that an earlier step dropped is put back, once; `StaleOwner.DroppedRecovered` shows a case. Exact preservation is stated only for one queued entity (`Rehome.RehomeAllCurrentSingle`).
- Rehome.RehomeAllKeeps: it bounds what the pass as written stores by the old content plus the queue. It does not state exact preservation, which the finding below shows fails.

## Findings

| source | as written | input that shows it | evidently intended | confidence | as-written member | corrected member |
|---|---|---|---|---|---|---|
| octree.js:307-318 | The walk starts from the owner recorded in the snapshot `entities_tmp`. An earlier re-home in the same pass can subdivide that owner and push the entity into a grandchild, so the recorded owner goes stale. `remove` on the stale owner removes nothing, and `add` then stores a second copy. | Root spanning [-8, 8], subdivided once. A is in child 0 and B is in child 6, and both are queued. A moves to (-6, -6, -6); B stays at (-2, -2, -2). Re-homing A overflows child 6, which pushes B into grandchild [6, 1]. B is then removed from [6] and added to [6, 1]. | Start each walk from the node that stores the entity when its turn comes; when no node stores it (an earlier split dropped it), start from the recorded owner as the source does, which puts it back. | not executed | StaleOwner.AsWrittenDuplicates (with `Rehome.RehomeAll`) | StaleOwner.CorrectedKeeps (with `Rehome.RehomeAllCurrent`, which `Update.Update` uses) |
