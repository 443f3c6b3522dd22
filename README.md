# Storage racks: a Dafny model of racks, controllers and the all-inventory window

Storage Racks is a Minecraft mod. A *rack* is a block with its own slot
inventory. A *controller* is a block that owns every rack connected to it
through a chain of face-adjacent racks. This project models the core of the
mod:

- **Storage** (`storage.dfy`) is the rack block entity, `TileEntityRack`. Its
  slot buffer is an `array`. Beside it sit the per-item content map, the
  free-slot counter, the size tier and the offset to the controller.
  - `UpdateContent` rebuilds the content map and the free-slot counter from the
    slots.
  - The upgrade resizes the buffer to the capacity of a size tier. The tier is
    taken from the block's name.
  - The drop functions state that dropping an inventory loses no item.
- **Grid** (`grid.dfy`) holds positions, the six directions in the order DOWN,
  UP, NORTH, SOUTH, WEST, EAST, and the level as a map from positions to rack or
  controller blocks. It also defines reachability: discovery steps onto any
  neighbour that holds a rack or a controller.
- **Cluster** (`cluster.dfy`) models the recursive `visitPositions` and the
  `neighborChange` commit.
  - Discovery reports no controller, one controller, or a conflict. The
    `BlockPos.ZERO` sentinel of the source is kept: a controller reached at the
    origin reads as a conflict.
  - `Characterises` states the three outcomes in terms of the reachable region.
    `Committed` states how the outcome changes the racks' offsets and the
    controllers' rack sets.
- **Blocks** (`blocks.dfy`) models the `RackBlock` handlers:
  - placement admission, including the limit of 20 racks per controller tier;
  - the re-run of discovery after a player places or removes a rack;
  - opening a rack, which checks its size on the server;
  - the item drop when a rack block goes away.
- **Inventory** (`inventory.dfy`) models the controller window,
  `WindowHutAllInventory`:
  - the per-item totals summed over the controller's racks;
  - the filter and the count sorts;
  - the sort button's cycle of five modes;
  - `locate`, which highlights a rack holding an item.
- **CountFormat** (`count_format.dfy`) models `format`, which abbreviates an
  item count, for example 1200 to "1.2k". It proves how close the abbreviation
  reads back to the count and how long the text is.
- **Highlight** (`highlight.dfy`) models the client's table of timed highlight
  boxes, `HighlightManager`. It covers appending and clearing boxes, the
  expiry sweep of each render pass, and the colour channels.

Reachability is stated independently of the recursion as walks through
`Step`. The recursive discovery is proved against that reference in both
directions: without a conflict, the visited set is exactly the reachable
region.

On three points that are easy to get wrong, the model follows the code:

- A found controller's rack set gains the visited positions by set union.
- The rack limit rejects a placement when the visited set, with the controller
  counted, is larger than `tier * 20`.
- A size upgrade copies the slots but does not recount the content map or the
  free-slot counter. `UpgradeItemStorage` states how the stale counter relates
  to the new buffer.

All source paths below are under
`src/main/java/com/ldtteam/storageracks/`; the table spells them out in full.

## Model

| member | source | states |
|---|---|---|
| Grid.ReachesOnlyOccupied | src/main/java/com/ldtteam/storageracks/tileentities/TileEntityRack.java:499-518 | discovery only reaches the start or an occupied (rack or controller) position |
| Grid.ReachesStep | src/main/java/com/ldtteam/storageracks/tileentities/TileEntityRack.java:499-518 | a position reachable from an occupied neighbour of `a` is reachable from `a` |
| Grid.ClosedContainsRegion | src/main/java/com/ldtteam/storageracks/tileentities/TileEntityRack.java:499-518 | a set containing the start and closed under steps onto occupied neighbours contains every reachable position |
| Cluster.RegionFacts | src/main/java/com/ldtteam/storageracks/tileentities/TileEntityRack.java:490-521 | the region of `start` contains it and is exactly the positions it reaches |
| Cluster.MergeSummarises | src/main/java/com/ldtteam/storageracks/tileentities/TileEntityRack.java:503-516 | combining the result so far with a neighbour's result as the loop does (null keeps, ZERO or a different controller conflicts) summarises the union of what both visited |
| Cluster.VisitPositions | src/main/java/com/ldtteam/storageracks/tileentities/TileEntityRack.java:490-521 | the newly visited positions are all reachable from `current`; without a conflict they are closed under steps; the result is no controller, the one controller, or a conflict exactly as the visited positions show |
| Cluster.Discover | src/main/java/com/ldtteam/storageracks/tileentities/TileEntityRack.java:445-446 | discovery from `start` visits a subset of its region, the whole region unless it reports a conflict, and reports the outcome that characterises the region |
| Cluster.ControllerEntity.AddAll | src/main/java/com/ldtteam/storageracks/tileentities/TileEntityRack.java:450 | the controller's rack set becomes its union with the visited set |
| Cluster.ControllerEntity.RemoveAll | src/main/java/com/ldtteam/storageracks/tileentities/TileEntityRack.java:474-479 | the controller's rack set loses the visited set |
| Cluster.Level.World | src/main/java/com/ldtteam/storageracks/tileentities/TileEntityRack.java:504-506 | the level's occupied positions are its racks and controllers, each of its kind |
| Cluster.Level.NeighborChange | src/main/java/com/ldtteam/storageracks/tileentities/TileEntityRack.java:443-481 | the outcome characterises the region of the rack; one controller: every visited rack points to it and its set gains them; none: visited racks lose their offset and the former controller loses them; conflict: nothing changes |
| Cluster.Level.CommitFound | src/main/java/com/ldtteam/storageracks/tileentities/TileEntityRack.java:447-458 | every visited rack (and the rack itself) gets the offset to the found controller, others keep theirs, and the controller's set gains the visited set |
| Cluster.Level.CommitNoController | src/main/java/com/ldtteam/storageracks/tileentities/TileEntityRack.java:459-480 | visited racks lose their offsets; if none had one nothing else changes, otherwise the controller a visited rack pointed to loses the visited set |
| Cluster.ReassignedStep | src/main/java/com/ldtteam/storageracks/tileentities/TileEntityRack.java:451-457 | pointing one more rack at c is reassigning one more position; a position that is not a rack changes nothing; reassigning no position is the identity |
| Cluster.ReassignedAbsorbs | src/main/java/com/ldtteam/storageracks/tileentities/TileEntityRack.java:449-457 | setting the starting rack's offset before the loop, as the source does, is absorbed by the loop's reassignment |
| Cluster.ClearedStep | src/main/java/com/ldtteam/storageracks/tileentities/TileEntityRack.java:462-470 | clearing one more rack is clearing one more position, and a rack that had no offset changes nothing |
| Cluster.OffsetRoundTrip | src/main/java/com/ldtteam/storageracks/tileentities/TileEntityRack.java:449-457 | the offset written for a rack of a found controller's region leads back to that controller: the rack position minus the offset is the controller (as the no-controller branch recovers it at line 467) |
| Cluster.NoControllerAfterFound | src/main/java/com/ldtteam/storageracks/tileentities/TileEntityRack.java:449-479 | a no-controller commit over racks last committed to controller c recovers c as the former controller and removes the visited racks from c's set |
| Cluster.Level.SetOffset | src/main/java/com/ldtteam/storageracks/tileentities/TileEntityRack.java:455 | one rack's offset is set; every other offset and every controller's rack set is kept, and the level stays consistent |
| Cluster.Level.AddMembers | src/main/java/com/ldtteam/storageracks/tileentities/TileEntityRack.java:450 | the controller's rack set gains the visited set; offsets and other controllers are kept |
| Cluster.Level.RemoveMembers | src/main/java/com/ldtteam/storageracks/tileentities/TileEntityRack.java:477 | the controller's rack set loses the visited set; offsets and other controllers are kept |
| Cluster.Level.PointAt | src/main/java/com/ldtteam/storageracks/tileentities/TileEntityRack.java:451-457 | every visited rack other than the controller position gets the offset to the controller; other offsets and all rack sets are kept |
| Cluster.Level.ClearOffsets | src/main/java/com/ldtteam/storageracks/tileentities/TileEntityRack.java:461-470 | every visited rack loses its offset; the reported former controller, when there is one, is where a visited rack with an offset pointed, and none is reported only when no visited rack had an offset |
| Storage.Capacity | src/main/java/com/ldtteam/storageracks/tileentities/TileEntityRack.java:163 | a rack's capacity is at least the default size |
| Storage.TotalAtLeastSlot | src/main/java/com/ldtteam/storageracks/tileentities/TileEntityRack.java:205-227 | a stack in a slot contributes its whole size to its key's total |
| Storage.ContentEmptyIffSlotsEmpty | src/main/java/com/ldtteam/storageracks/tileentities/TileEntityRack.java:251-255 | the aggregate content is empty exactly when every slot is empty |
| Storage.ContentIsUnique | src/main/java/com/ldtteam/storageracks/tileentities/TileEntityRack.java:205-227 | two content maps that both aggregate the same slots are equal |
| Storage.EmptySlots | src/main/java/com/ldtteam/storageracks/tileentities/TileEntityRack.java:246-249 | a fresh buffer of n slots holds n empty slots |
| Storage.PaddingKeepsTotals | src/main/java/com/ldtteam/storageracks/tileentities/TileEntityRack.java:160-171 | extending the slots with empty ones keeps every item total and adds that many free slots |
| Storage.TierFromName | src/main/java/com/ldtteam/storageracks/tileentities/TileEntityRack.java:287-314 | the tier is 1 + the index of the first frame material the name contains, or the current size when it names none |
| Storage.DroppedTotalAppend | src/main/java/com/ldtteam/storageracks/blocks/RackBlock.java:158-161 | the items dropped in two batches add up |
| Storage.DropsKeepTotals | src/main/java/com/ldtteam/storageracks/blocks/RackBlock.java:158-161 | dropping a rack's inventory drops every key exactly as often as the slots hold it, all at the rack's position |
| Storage.Rack.GetFreeSlots | src/main/java/com/ldtteam/storageracks/tileentities/TileEntityRack.java:97-101 | for a consistent rack, the free-slot count is the number of empty slots |
| Storage.Rack.HasItemStack | src/main/java/com/ldtteam/storageracks/tileentities/TileEntityRack.java:103-108 | true exactly when the content holds at least `count` of the key, which for a consistent rack is the slots' total |
| Storage.Rack.GetCount | src/main/java/com/ldtteam/storageracks/tileentities/TileEntityRack.java:110-115 | 0 for an absent key; for a consistent rack, the slots' total of the key |
| Storage.Rack.IsEmpty | src/main/java/com/ldtteam/storageracks/tileentities/TileEntityRack.java:251-255 | for a consistent rack, true exactly when every slot is empty |
| Storage.Rack.UpdateContent | src/main/java/com/ldtteam/storageracks/tileentities/TileEntityRack.java:205-227 | afterwards the content map is the aggregate of the slots, with no zero entry, and the free-slot counter is the number of empty slots |
| Storage.Rack.UpdateItemStorage | src/main/java/com/ldtteam/storageracks/tileentities/TileEntityRack.java:186-200 | on the server the content is rebuilt and the FULL variant flips exactly when the rack went from empty to non-empty or back; on the client nothing changes |
| Storage.Rack.UpgradeItemStorage | src/main/java/com/ldtteam/storageracks/tileentities/TileEntityRack.java:160-171 | succeeds exactly when the old buffer fits the new capacity; then the buffer is the old slots followed by empty ones, the item totals are unchanged and the stale free-slot count falls short by the added slots; on failure the buffer is kept |
| Storage.Rack.CheckForUpgrade | src/main/java/com/ldtteam/storageracks/tileentities/TileEntityRack.java:287-314 | the size becomes the tier the name calls for; a changed size resizes the buffer to its capacity keeping every slot, and fails, keeping the buffer, exactly when the old slots do not fit |
| Blocks.OnEntityPlace | src/main/java/com/ldtteam/storageracks/blocks/RackBlock.java:217-241 | a placement by a player is cancelled exactly when its region has no controller, conflicts or has its controller at the origin, or, for a rack, when the region is larger than the controller's tier times 20; otherwise it has a sole controller |
| Blocks.SoleControllerUnique | src/main/java/com/ldtteam/storageracks/blocks/RackBlock.java:233-239 | a region has at most one sole controller |
| Blocks.SetPlacedBy | src/main/java/com/ldtteam/storageracks/blocks/RackBlock.java:189-197 | discovery runs exactly on the server when a player placed a rack; then its outcome characterises the region and is committed over the visited part of that region (all of it unless there was a conflict); otherwise nothing changes |
| Blocks.OnRemove | src/main/java/com/ldtteam/storageracks/blocks/RackBlock.java:148-167 | replacing a rack by another block drops its slots at its position and removes its block entity, so its offset leaves the level; otherwise nothing changes |
| Blocks.SpawnAfterBreak | src/main/java/com/ldtteam/storageracks/blocks/RackBlock.java:89-99 | a rack at the position drops its slots there; nothing is dropped elsewhere |
| Blocks.RemovedByPlayer | src/main/java/com/ldtteam/storageracks/blocks/RackBlock.java:199-215 | the rack is removed and its slots dropped; on the server each of the six neighbours that holds a rack, in direction order, re-runs discovery, characterising its new region and committing it from the state the previous neighbour left to the next; on the client nothing else changes |
| Blocks.RediscoverNeighbours | src/main/java/com/ldtteam/storageracks/blocks/RackBlock.java:205-212 | one outcome per direction, present exactly for rack neighbours; the offsets and rack sets pass through seven snapshots, from the initial to the final state, each step the commit of that neighbour's discovery or no change |
| Blocks.RediscoverNeighbour | src/main/java/com/ldtteam/storageracks/blocks/RackBlock.java:207-211 | one iteration: the neighbour in direction i re-runs discovery exactly when it holds a rack, and the step is recorded after the earlier ones |
| Blocks.StepsExtend | src/main/java/com/ldtteam/storageracks/blocks/RackBlock.java:205-212 | a recorded step extends the record of the steps before it |
| Blocks.Rediscover | src/main/java/com/ldtteam/storageracks/blocks/RackBlock.java:208-211 | a neighbour's `neighborChange` leaves the level's blocks as they were, its outcome characterises the neighbour's region, and it is committed over the visited part of that region |
| Blocks.Use | src/main/java/com/ldtteam/storageracks/blocks/RackBlock.java:102-127 | on the client, succeeds exactly at a rack and changes nothing; on the server the rack's size becomes the tier its name calls for, a changed size resizes the buffer keeping every slot, the use fails when the old slots do not fit, and the rack's content, counter, offset and variant are kept |
| Inventory.ClusterCountRemove | src/main/java/com/ldtteam/storageracks/WindowHutAllInventory.java:145-164 | the sum over member racks does not depend on the order the set is iterated in |
| Inventory.ClusterCountSkipsEmptyPositions | src/main/java/com/ldtteam/storageracks/WindowHutAllInventory.java:147-148 | a member position without a rack adds nothing |
| Inventory.MergeContent | src/main/java/com/ldtteam/storageracks/WindowHutAllInventory.java:152-162 | after merging one rack's content, each key's total is the sum of the two maps' totals, and no zero entry appears when neither input had one |
| Inventory.StoredItems | src/main/java/com/ldtteam/storageracks/WindowHutAllInventory.java:140-164 | the aggregated map gives every key its sum over the member racks; with valid racks no entry is zero |
| Inventory.Listing | src/main/java/com/ldtteam/storageracks/WindowHutAllInventory.java:166-170 | one row per key of the aggregated map with its amount, no key twice |
| Inventory.Filtered | src/main/java/com/ldtteam/storageracks/WindowHutAllInventory.java:171-187 | an empty filter keeps everything; otherwise a row is kept exactly when it matches; distinct keys stay distinct |
| Inventory.Insert | src/main/java/com/ldtteam/storageracks/WindowHutAllInventory.java:201-206 | inserting adds exactly the row: the result is the old rows plus the new one, as a multiset |
| Inventory.InsertFrom | src/main/java/com/ldtteam/storageracks/WindowHutAllInventory.java:201-206 | every row of an insertion is the inserted row or one of the old rows |
| Inventory.InsertSorted | src/main/java/com/ldtteam/storageracks/WindowHutAllInventory.java:201-206 | inserting into a listing sorted by amount keeps it sorted |
| Inventory.SortedCons | src/main/java/com/ldtteam/storageracks/WindowHutAllInventory.java:201-206 | a sorted listing stays sorted under a first row that may precede all of its rows |
| Inventory.SortByCount | src/main/java/com/ldtteam/storageracks/WindowHutAllInventory.java:201-206 | the count sort is a permutation of the rows, ordered by amount ascending or descending |
| Inventory.SortKeepsDistinctKeys | src/main/java/com/ldtteam/storageracks/WindowHutAllInventory.java:201-206 | sorting keeps the rows' keys distinct |
| Inventory.Arranged | src/main/java/com/ldtteam/storageracks/WindowHutAllInventory.java:189-209 | every mode permutes the rows; the count modes sort by amount; the other modes keep the order |
| Inventory.SortButtonCycles | src/main/java/com/ldtteam/storageracks/WindowHutAllInventory.java:106-110 | the sort button keeps the mode in 0..4 and five presses visit every mode once and return |
| Inventory.ListingIsListed | src/main/java/com/ldtteam/storageracks/WindowHutAllInventory.java:166-209 | filtering and arranging the rows of an aggregated map without zero entries lists each passing key with a positive total exactly once, with its total and no zero row, in the order of the sort mode |
| Inventory.Window.constructor | src/main/java/com/ldtteam/storageracks/WindowHutAllInventory.java:68-76 | a new window has an empty filter, no sort, and lists its controller's racks |
| Inventory.Window.UpdateResources | src/main/java/com/ldtteam/storageracks/WindowHutAllInventory.java:138-212 | for a consistent level, the shown rows are exactly the passing keys with a positive total over the controller's racks, each with that total, without duplicates, sorted as the mode says |
| Inventory.Window.SetSortFlag | src/main/java/com/ldtteam/storageracks/WindowHutAllInventory.java:104-133 | the mode advances cyclically and the rows are rebuilt for it |
| Inventory.Window.OnKeyTyped | src/main/java/com/ldtteam/storageracks/WindowHutAllInventory.java:294-304 | a handled key takes the field's text as the filter and rebuilds the rows; otherwise nothing changes |
| Inventory.Window.Locate | src/main/java/com/ldtteam/storageracks/WindowHutAllInventory.java:78-98 | a reported rack is a member holding the row's item, and the highlight category then holds one white box on it for 2400 ticks; no report means no member rack holds the item and the table is unchanged |
| CountFormat.Format | src/main/java/com/ldtteam/storageracks/WindowHutAllInventory.java:269-292 | the text is never empty and a non-negative value starts with a digit, so no sign; its other properties are stated by FormatReadsBack, FormatIsShort, FormatSmall and FormatExamples |
| CountFormat.Abbreviate | src/main/java/com/ldtteam/storageracks/WindowHutAllInventory.java:284-291 | the abbreviation starts with a digit and ends with the letter of the largest threshold not above the value; FormatReadsBack states how it reads back |
| CountFormat.FloorEntry | src/main/java/com/ldtteam/storageracks/WindowHutAllInventory.java:284 | the chosen suffix has the largest threshold not above the value |
| CountFormat.NatToString | src/main/java/com/ldtteam/storageracks/WindowHutAllInventory.java:282 | decimal digits only, with one, two or three digits below 10, 100, 1000 |
| CountFormat.ParseNatToString | src/main/java/com/ldtteam/storageracks/WindowHutAllInventory.java:282 | reading the decimal text back gives the number |
| CountFormat.SuffixTable | src/main/java/com/ldtteam/storageracks/WindowHutAllInventory.java:29-38 | each suffix letter stands for its threshold; thresholds grow by a factor of 1000 from 1000 |
| CountFormat.FormatReadsBack | src/main/java/com/ldtteam/storageracks/WindowHutAllInventory.java:269-292 | an abbreviated count reads back to at most the value and within one unit of its suffix; below ten units, within a tenth of one |
| CountFormat.ShownBelowThousand | src/main/java/com/ldtteam/storageracks/WindowHutAllInventory.java:284-291 | the whole part shown before a suffix is below 1000 |
| CountFormat.FormatIsShort | src/main/java/com/ldtteam/storageracks/WindowHutAllInventory.java:269-292 | a formatted count is one to four characters, five with the minus sign, which appears exactly for negative values |
| CountFormat.FormatSmall | src/main/java/com/ldtteam/storageracks/WindowHutAllInventory.java:280-283 | counts below 1000 are printed as their plain decimal digits |
| CountFormat.FormatExamples | src/main/java/com/ldtteam/storageracks/WindowHutAllInventory.java:285-291 | 1000 is "1k", 1200 is "1.2k" and 13000 is "13k" |
| Highlight.Red | src/main/java/com/ldtteam/storageracks/HighlightManager.java:148-151 | the red channel is in 0..255 |
| Highlight.Green | src/main/java/com/ldtteam/storageracks/HighlightManager.java:158-161 | the green channel is in 0..255 |
| Highlight.Blue | src/main/java/com/ldtteam/storageracks/HighlightManager.java:168-171 | the blue channel is in 0..255 |
| Highlight.ChannelsRecompose | src/main/java/com/ldtteam/storageracks/HighlightManager.java:148-171 | the three channels are exactly the low 24 bits of the colour |
| Highlight.LiveMembers | src/main/java/com/ldtteam/storageracks/HighlightManager.java:54-60 | a box survives the sweep exactly when it was listed and expires after the world time |
| Highlight.LiveAppend | src/main/java/com/ldtteam/storageracks/HighlightManager.java:54-60 | the sweep keeps the survivors' order |
| Highlight.LiveLater | src/main/java/com/ldtteam/storageracks/HighlightManager.java:54-60 | a sweep followed by a later one is the later one; a sweep is idempotent |
| Highlight.HighlightTable.SweepList | src/main/java/com/ldtteam/storageracks/HighlightManager.java:54-82 | the kept boxes of one category are exactly its live boxes, in their order |
| Highlight.PartlySweptStep | src/main/java/com/ldtteam/storageracks/HighlightManager.java:51-87 | sweeping one more category keeps the other categories, puts in its live boxes, and drops it when none is left |
| Highlight.PartlySweptEnds | src/main/java/com/ldtteam/storageracks/HighlightManager.java:51-87 | before the loop nothing is swept; after the last category the table is the full sweep |
| Highlight.Swept | src/main/java/com/ldtteam/storageracks/HighlightManager.java:51-87 | after a sweep each category holds its surviving boxes, and exactly the categories left empty are gone |
| Highlight.SweptKeepsLiveCategories | src/main/java/com/ldtteam/storageracks/HighlightManager.java:84-87 | a category stays exactly when one of its boxes has not expired |
| Highlight.SweptLater | src/main/java/com/ldtteam/storageracks/HighlightManager.java:43-92 | two render passes in time order leave the table of the later one |
| Highlight.Appended | src/main/java/com/ldtteam/storageracks/HighlightManager.java:180-183 | appending creates the category if absent, adds the box last, and leaves other categories alone |
| Highlight.AppendedThenSwept | src/main/java/com/ldtteam/storageracks/HighlightManager.java:180-183 | a box appended before a pass it outlives stays last in its category |
| Highlight.HighlightTable.AddRenderBox | src/main/java/com/ldtteam/storageracks/HighlightManager.java:180-183 | the table becomes the table with the box appended to its category |
| Highlight.HighlightTable.ClearCategory | src/main/java/com/ldtteam/storageracks/HighlightManager.java:190-193 | the category and its boxes are removed, nothing else changes |
| Highlight.HighlightTable.RenderWorldLastEvent | src/main/java/com/ldtteam/storageracks/HighlightManager.java:43-92 | in the after-tripwire stage the table becomes its sweep at the world time; in other stages it is unchanged |

## Left out

- Drawing, fonts and the float colour fractions (`/ 255f`) of the highlight
  renderer are not modelled. The channels are modelled as integers.
- The window's UI is left out: button labels, the scrolling list, the
  "locating" chat message and `close()`.
- The name sorts are left out. They compare display names, which are
  client-side strings that are not part of this model. `Arranged` keeps the
  order in those modes.
- The filter's text match on the description id and the display name, with
  Java's `toLowerCase`, is left out. It is a parameter, `matches`.
- `hasItemStack(predicate)`, `getItemCount(predicate)` and `hasSimilarStack`
  are not part of this model. `ItemStorage` comparison is abstract equality.
- Capabilities, network packets, NBT `load` and `save`, `rotate`,
  `setChanged`, `createMenu` and `ContainerRack` are Forge plumbing.
- `updateBlockState` and the block-state variant are modelled as the rack's
  `full` field only.
- Constants.java is not part of this model. `DEFAULT_SIZE` is taken as 27, and
  `SLOT_PER_LINE` as 9 per its comment.
- Java `int` overflow of item totals is not modelled. Totals are unbounded
  naturals.
- Set iteration order is nondeterministic.
  - `StoredItems` and the commits are proved for every order.
  - `Locate` may report any member rack holding the item, not one fixed rack.
- CommitNoController: the former controller is the one pointed to by the last
  visited rack with an offset, in iteration order. The model states that it is
  one of them, not which one.
- A rack standing at a former-controller position would make the source throw
  a `ClassCastException`. The model skips it and leaves the state as it is.
- `locate` in the source puts a `Tuple` into the highlight map, which does not
  match the map's type. The model records the intended single white
  `TimedBox` for 2400 ticks, replacing the category.
- Blocks.Use: an upgrade whose old buffer is larger than the new capacity
  throws in the source (an out-of-range slot write), so `use` does not
  return; the model reports it as a failed use with the rack's buffer kept.
  Opening the menu is not modelled.
- Blocks.OnEntityPlace: takes the level with the new block already in place, as
  the event provides it. Cancelling the event is its result value.
- Block shapes, light propagation, the wood and frame types and
  `updateNeighbourForOutputSignal` have no logic to model.
