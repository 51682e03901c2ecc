# PlayerDeadManager tombstones, modelled in Dafny

PlayerDeadManager is a Minecraft (Bukkit/Paper) plugin. When a player dies it
keeps their drops and experience in a tombstone: a player head placed near the
death spot, with a hologram above it and particles around it. The contents are
stored in SQLite or MySQL. The owner can open the tombstone and take items back
one at a time, or teleport to it from a menu. Others are kept out while it is
protected. Tombstones despawn after a configured time. Totems, insurance, VIP
permissions and daily VIP exemptions can spare a death from creating one.

This project models that bookkeeping and proves properties of it. There is one
module per component of the plugin:

- `Common`: Options and results, players, block positions and exact locations.
  Also materials (with Bukkit's three air kinds), Java's truncating `/` and
  `%`, 32-bit `int` wrap-around and decimal parsing and printing.
- `Worlds`: a world as a map from block positions to materials. It also holds
  the persistent tag on tile states and the entities with their tags.
- `Tombstones`: the tombstone record (`AbstractTombstone`), the player
  tombstone with its experience and removal flag (`PlayerTombstone`), and
  the instance life cycle (`AbstractTombstoneInstance`).
- `Store`: the two storage back ends as one class over in-memory tables of
  tombstones and item rows, with a fixed `SQLite` or `MySQL` back end. The
  `player_exemptions` table is a map held by `VipExemption.ExemptionManager`. Every SQL error is a boolean input. A transaction that fails leaves
  the tables as they were.
- `TombstoneManagement`: `TombstoneManager`. It covers creation with the per
  player limit and the search for a free block, lookup and removal, restoring
  from the store at start-up, the periodic sweep of expired tombstones and
  shutdown.
- `HologramUtil`, `ParticleUtil`, `EntityCleanup`: the presenters and the
  cleanup of the plugin's leftover hologram entities.
- `Messages`, `TimeUtil`: message lookup with prefix and `{placeholder}`
  substitution, and the duration and countdown formats.
- `Gui`, `ItemsGui`, `TeleportMenu`: the GUI registry, the inventory-backed
  GUI base, the tombstone items GUI and the teleport menu.
- `InventoryClick`, `Interact`, `Protection`, `Death`: the event listeners.
  `Death` covers the death pipeline: the world gate, keep-inventory, the
  totem, insurance, the VIP exemption, the tombstone and the drops.
- `Commands`: `/pdm` sub-commands, their permissions, and tab completion.
- `LocationUtil`, `WorldConfig`, `VipTime`, `VipExemption`: placement rules,
  per-world switches, VIP despawn times read from permission names, and the
  daily exemption count with its cache.

Where the model departs from the code, it does so for the bugs listed under
"## Findings". For each one the model has a member for the code as written
and a corrected member, and the rest of the model builds on the corrected
one. The "## Model" rows of those members start with "corrected (Finding
n)". The widest case is Finding 1. The code keys live tombstones, holograms
and particle tasks by the exact death location, but every lookup uses the
block's own location. The model keys them all by block position. So every
member that creates, finds or removes a tombstone by its block is the
corrected behaviour; as written, such lookups miss any tombstone whose
death location has a fractional coordinate or a turned head
(`TombstoneManagement.KeyingMissesFractionalLocation`). Tombstones restored
at start-up are keyed by whole coordinates in the code as well.

A refresh of the items GUI reloads the list from the store. When that
statement fails, the list comes back empty, so the empty check that
follows a take goes on to remove the tombstone even though rows may remain
(`ItemsGui.TombstoneItemsGui.TakeItem`). The model keeps this as written.

Where the written design and the code disagree, the model follows the code:

- Restoring at start-up drops a tombstone whose protection has expired. The
  sweep instead removes by death time plus despawn hours
  (`TombstoneManagement.RestoreDropsWhatSweepKeeps`).
- `canPlaceTombstone` accepts every air kind and six replaceable blocks.
  `isReplaceable` accepts only plain `AIR` and adds snow
  (`TombstoneManagement.PlaceableVersusReplaceable`).
- `removeOldestTombstone` deletes the stored tombstone and the block. It
  leaves the hologram and the particles in place.
- `PlayerTombstone.getRemainingProtectionTime` answers in milliseconds. It
  overrides the record's version, which answers in seconds.
- Removing a tombstone takes away its hologram and particles before the
  delete. When the delete fails, the block and the map entry stay.

## Model

| member | source | states |
|---|---|---|
| Common.BlockOf | src/main/java/cn/i7mc/managers/TombstoneManager.java:427-429 | a location lies in exactly one block, of its own world, whose corner is at or below each coordinate and within one of it |
| Common.BlockLocation | src/main/java/cn/i7mc/managers/TombstoneManager.java:427-429 | a block's own location lies in that block |
| Common.JDiv | src/main/java/cn/i7mc/guis/TeleportGUI.java:375-384 | Java integer division by a positive divisor rounds toward zero for both signs |
| Common.JRem | src/main/java/cn/i7mc/guis/TeleportGUI.java:319-324 | Java's remainder recomposes the dividend with the quotient and takes the dividend's sign |
| Common.Wrap32 | src/main/java/cn/i7mc/commands/PDMCommand.java:274 | 32-bit arithmetic keeps every result in the `int` range and leaves results already in range alone |
| Common.ParseInteger | src/main/java/cn/i7mc/utils/EntityCleanupManager.java:205 | a parsed value always lies within the bounds of the target type |
| Common.ParseIntToString | src/main/java/cn/i7mc/utils/EntityCleanupManager.java:205 | parsing the decimal text of a number in range gives the number back |
| Tombstones.RemainingProtectionSeconds | src/main/java/cn/i7mc/abstracts/AbstractTombstone.java:125-128 | the whole seconds of protection left, truncated toward zero, never negative, and zero once protection has expired |
| Tombstones.ShouldDespawnIsTwentyFourHours | src/main/java/cn/i7mc/abstracts/AbstractTombstone.java:136-140 | the record's own despawn test is the general despawn rule at a fixed 24 hours |
| Tombstones.ShouldDespawnAfterMonotone | src/main/java/cn/i7mc/abstracts/AbstractTombstoneInstance.java:127-130 | a tombstone that is due for despawn stays due at every later time |
| Tombstones.ProtectedExcludesStrangers | src/main/java/cn/i7mc/tombstones/PlayerTombstone.java:85-104 | while protection lasts, a player who is neither the owner nor an administrator cannot open the tombstone |
| Tombstones.CanAccessMonotone | src/main/java/cn/i7mc/tombstones/PlayerTombstone.java:85-104 | whoever may open a tombstone at some time may still open it later |
| Tombstones.RemainingProtectionMillis | src/main/java/cn/i7mc/tombstones/PlayerTombstone.java:151-156 | the milliseconds left are zero once protection has expired, and otherwise the exact time to the expiry |
| Tombstones.SecondsAgreeWithMillis | src/main/java/cn/i7mc/abstracts/AbstractTombstone.java:125-128 | the record's seconds are the live tombstone's milliseconds divided by 1000 |
| Tombstones.AutoCleanIsDespawnRule | src/main/java/cn/i7mc/tombstones/PlayerTombstone.java:201-203 | the auto-clean test with a limit of hours times 3 600 000 ms is the despawn rule for those hours |
| Tombstones.PlayerTombstone.constructor | src/main/java/cn/i7mc/tombstones/PlayerTombstone.java:35-41 | a new live tombstone is not removed and holds the record's experience |
| Tombstones.PlayerTombstone.SetExperience | src/main/java/cn/i7mc/tombstones/PlayerTombstone.java:141-143 | negative experience is stored as zero, and other values are stored as given |
| Tombstones.PlayerTombstone.CreateTombstone | src/main/java/cn/i7mc/tombstones/PlayerTombstone.java:48-60 | a tombstone that is not removed sets its block to a chest, which carries no tag; a removed one changes nothing |
| Tombstones.PlayerTombstone.RemoveTombstone | src/main/java/cn/i7mc/tombstones/PlayerTombstone.java:67-75 | the first call turns the block to air and marks the tombstone removed; later calls change nothing |
| Tombstones.PlayerTombstone.StatusDescription | src/main/java/cn/i7mc/tombstones/PlayerTombstone.java:214-224 | "removed" takes precedence over "protection expired", which takes precedence over "protected" |
| Tombstones.TombstoneInstance.constructor | src/main/java/cn/i7mc/abstracts/AbstractTombstoneInstance.java:37-47 | a new instance has no part built and is not complete |
| Tombstones.TombstoneInstance.SetHasSkull | src/main/java/cn/i7mc/abstracts/AbstractTombstoneInstance.java:181-183 | only the skull flag changes |
| Tombstones.TombstoneInstance.MarkAsRemoved | src/main/java/cn/i7mc/abstracts/AbstractTombstoneInstance.java:136-141 | a removed instance has no part left and is never complete |
| Tombstones.TombstoneInstance.CreateCompleteInstance | src/main/java/cn/i7mc/abstracts/AbstractTombstoneInstance.java:89-97 | unless the instance is removed, the skull, the hologram and the particles are created, in that order; a removed instance is left exactly as it was |
| Tombstones.TombstoneInstance.RemoveCompleteInstance | src/main/java/cn/i7mc/abstracts/AbstractTombstoneInstance.java:103-108 | the skull, the hologram and the particles are torn down in that order, and the instance ends removed and incomplete |
| Store.SerializeItemStacks | src/main/java/cn/i7mc/abstracts/AbstractDataManager.java:78-83 | the saved stacks are no more than the array's entries, and none of them is air |
| Store.SlotItemsAreSerialized | src/main/java/cn/i7mc/abstracts/AbstractDataManager.java:78-83 | the items a load gives back are exactly the serialized stacks, in array order, and each carries the index of the array entry it came from |
| Store.DecodedFromRows | src/main/java/cn/i7mc/managers/DataManager.java:216-237 | every loaded item comes from a row of that tombstone, with that slot |
| Store.DecodedAscending | src/main/java/cn/i7mc/managers/DataManager.java:216-237 | loaded items come back in strictly ascending slot order (`ORDER BY slot_index`) |
| Store.RemoveItemDropsSlot | src/main/java/cn/i7mc/managers/DataManager.java:256-264 | deleting the row of one slot removes exactly that slot from the tombstone's loaded items |
| Store.RemoveItemKeepsOthers | src/main/java/cn/i7mc/managers/DataManager.java:256-264 | deleting an item row of one tombstone leaves the items of every other tombstone as they were |
| Store.ZeroExperience | src/main/java/cn/i7mc/managers/DataManager.java:273-280 | the table keeps its length, and only the experience of the named record changes, to zero |
| Store.ZeroExperienceKeepsIds | src/main/java/cn/i7mc/managers/DataManager.java:273-280 | zeroing the experience keeps the set of record ids |
| Store.ExpiryFormsAgree | src/main/java/cn/i7mc/managers/MySQLDataManager.java:334-378 | the MySQL condition `death_time < now - despawn` selects the same records as the SQLite condition `death_time + despawn < now` |
| Store.ExpiredRecordsMembers | src/main/java/cn/i7mc/managers/DataManager.java:349-393 | the cleanup query selects exactly the records whose despawn time has passed |
| Store.ExpiredRecordsOrdered | src/main/java/cn/i7mc/managers/DataManager.java:349-393 | the selected records keep the table's increasing id order |
| Store.ExpiredSucceeded | src/main/java/cn/i7mc/managers/DataManager.java:349-393 | the ids the cleanup deletes are those of the expired records whose delete does not throw |
| Store.OwnedBy | src/main/java/cn/i7mc/managers/DataManager.java:404-433 | the player's list holds exactly the records with that owner, each no more often than in the table |
| Store.ByDeathDescSorted | src/main/java/cn/i7mc/managers/DataManager.java:443-470 | `ORDER BY death_time DESC` yields a list sorted latest first that is a permutation of the table |
| Store.LastIsOldest | src/main/java/cn/i7mc/managers/DataManager.java:404-433 | the last record of the descending list has the earliest death time of all |
| Store.PlayerTombstonesSpec | src/main/java/cn/i7mc/managers/DataManager.java:404-433 | the owner's list is sorted latest first and holds exactly the owner's records, each once per record |
| Store.IsValidUuid | src/main/java/cn/i7mc/abstracts/AbstractDataManager.java:299-309 | null and blank text are rejected, and otherwise the text is accepted exactly when it is a UUID in canonical form |
| Store.Store.constructor | src/main/java/cn/i7mc/managers/MySQLDataManager.java:35-47 | SQLite tables carry no prefix; MySQL uses the configured prefix, and `pdm_` by default |
| Store.Store.SetTablePrefix | src/main/java/cn/i7mc/abstracts/AbstractDataManager.java:161-163 | a null prefix is stored as the empty prefix, and table names are the prefix followed by the name |
| Store.Store.TableName | src/main/java/cn/i7mc/abstracts/AbstractDataManager.java:173-175 | the table name is the prefix followed by the bare name |
| Store.Store.ReconnectDatabase | src/main/java/cn/i7mc/abstracts/AbstractDataManager.java:105-110 | the connection is valid afterwards exactly when it was valid before or re-opening succeeds; no table changes |
| Store.Store.CloseDatabase | src/main/java/cn/i7mc/managers/DataManager.java:72-81 | the connection is closed, a failing close included, and no table changes |
| Store.Store.SaveTombstone | src/main/java/cn/i7mc/managers/DataManager.java:139-178 | a failing reconnect or statement rolls everything back; otherwise the record is appended under a new positive id that no record had, its item rows are appended, and loading the id gives the items back with their slots |
| Store.Store.SaveItems | src/main/java/cn/i7mc/managers/DataManager.java:189-204 | one row per non-null, non-air entry is appended, with the entry's array index as its slot |
| Store.Store.LoadTombstoneItems | src/main/java/cn/i7mc/managers/DataManager.java:216-237 | a failing statement (`SQLException`) is the only way to an SQL error; otherwise the result is the tombstone's rows in slot order, deserialized, except that a corrupt row makes SQLite fail while MySQL skips it |
| Store.Store.RemoveTombstoneItem | src/main/java/cn/i7mc/managers/DataManager.java:256-264 | on success exactly the row of that tombstone and slot is deleted; on failure nothing changes |
| Store.Store.RemoveTombstoneExperience | src/main/java/cn/i7mc/managers/DataManager.java:273-280 | on success the record's experience becomes zero; on failure nothing changes |
| Store.Store.IsTombstoneEmpty | src/main/java/cn/i7mc/managers/DataManager.java:290-314 | SQLite: empty exactly when no item row belongs to the tombstone and every record with its id has experience at most 0, a missing record counting as empty; a failing count, or a failing experience read after a zero count, is an SQL error. MySQL (MySQLDataManager.java:291-305): empty exactly when no item row belongs to it, whatever the experience; a failing count is an SQL error. Nothing in the plugin calls it |
| Store.ItemCountZero | src/main/java/cn/i7mc/managers/DataManager.java:292-299 | the `COUNT(*)` of the tombstone's item rows is zero exactly when no row carries its id |
| Store.ExperienceOfSpec | src/main/java/cn/i7mc/managers/DataManager.java:302-310 | the experience query finds nothing exactly when no record has the id, and otherwise reads a record with that id |
| Store.Store.DeleteTombstone | src/main/java/cn/i7mc/managers/DataManager.java:323-339 | the record and all its item rows go, or nothing changes; SQLite reconnects first, MySQL relies on the cascade |
| Store.Store.CleanupExpiredTombstones | src/main/java/cn/i7mc/managers/DataManager.java:349-393 | a failing query changes nothing; otherwise every expired record whose delete does not throw is deleted with its rows, and the count returned is the number deleted |
| Store.SaveThenLoad | src/main/java/cn/i7mc/managers/DataManager.java:139-237 | loading a tombstone right after saving it gives back the present items with their slots |
| Store.DeleteKeepsWellFormed | src/main/java/cn/i7mc/managers/DataManager.java:323-339 | deleting records with their rows keeps ids increasing and every row attached to a record |
| TombstoneManagement.PlaceableVersusReplaceable | src/main/java/cn/i7mc/managers/TombstoneManager.java:259-271 | `LocationUtil.IsReplaceable` (`isReplaceable`, LocationUtil.java:55-65) against the placement test: the placement test and the location helper's replaceable test differ only on cave air and void air (placeable only) and on snow (replaceable only) |
| TombstoneManagement.TombstoneMaterial | src/main/java/cn/i7mc/managers/TombstoneManager.java:310-318 | the configured name in upper case picks its material when it names one, and `CHEST` otherwise |
| TombstoneManagement.BlockOfShifted | src/main/java/cn/i7mc/managers/TombstoneManager.java:288 | moving a location by whole blocks moves its block by the same offsets |
| TombstoneManagement.FindNearbyLocation | src/main/java/cn/i7mc/managers/TombstoneManager.java:281-297 | a result is the original location moved by an offset of the search cube onto a placeable block; no result means no cell of the cube is placeable |
| TombstoneManagement.SearchLayer | src/main/java/cn/i7mc/managers/TombstoneManager.java:285-293 | a cell found at one height is in the cube and placeable; none found means no cell of that height is placeable |
| TombstoneManagement.SearchRow | src/main/java/cn/i7mc/managers/TombstoneManager.java:286-292 | a cell found in one row is in the cube and placeable; none found means no cell of that row is placeable |
| TombstoneManagement.FirstOldestSpec | src/main/java/cn/i7mc/managers/TombstoneManager.java:206-209 | the record chosen for eviction has the smallest death time, and every record before it dies later |
| TombstoneManagement.FirstOldestOfOrderedList | src/main/java/cn/i7mc/managers/TombstoneManager.java:201-250 | on the owner's list, ordered latest death first, the chosen record dies no later than the last one |
| TombstoneManagement.OldestIndex | src/main/java/cn/i7mc/managers/TombstoneManager.java:206-209 | the `min` scan returns the first record with the smallest death time |
| TombstoneManagement.RestoreStopSpec | src/main/java/cn/i7mc/managers/TombstoneManager.java:535-595 | the walk handles every record before the stop without a delete that throws, and stops at the first expired record whose delete throws |
| TombstoneManagement.RestoredSpec | src/main/java/cn/i7mc/managers/TombstoneManager.java:535-595 | every restored entry is still protected, lies in a loaded world and sits at its own record's block |
| TombstoneManagement.RestoreDropsWhatSweepKeeps | src/main/java/cn/i7mc/managers/TombstoneManager.java:541-547 | restoration deletes a record whose protection has ended even though the periodic sweep would keep it for the rest of its despawn time |
| TombstoneManagement.TombstoneManager.constructor | src/main/java/cn/i7mc/managers/TombstoneManager.java:55-69 | a new manager has no active tombstone |
| TombstoneManagement.TombstoneManager.GetTombstone | src/main/java/cn/i7mc/managers/TombstoneManager.java:427-429 | corrected (Finding 1): a tombstone is returned exactly when the block has an entry, and it is that entry |
| TombstoneManagement.TombstoneManager.GetTombstoneById | src/main/java/cn/i7mc/managers/TombstoneManager.java:439-444 | a result is an active tombstone with the id; none means no active tombstone has the id |
| TombstoneManagement.TombstoneManager.LocationOfId | src/main/java/cn/i7mc/managers/TombstoneManager.java:394-417 | a result is a block whose tombstone has the id; none means no active tombstone has the id |
| TombstoneManagement.TombstoneManager.PlaceTombstoneBlock | src/main/java/cn/i7mc/managers/TombstoneManager.java:306-337 | the block gets the material, and it carries the id exactly when the material has a tile state |
| TombstoneManagement.TombstoneManager.RemoveOldestTombstone | src/main/java/cn/i7mc/managers/TombstoneManager.java:201-250 | corrected (Finding 1): the first oldest record is deleted from the store; its entry and block go only when its world is loaded; a failed delete changes nothing |
| TombstoneManagement.TombstoneManager.CheckTombstoneLimit | src/main/java/cn/i7mc/managers/TombstoneManager.java:171-191 | the check passes below the limit with nothing changed, and at or over the limit exactly when the oldest record is evicted; an unreadable list counts as empty |
| TombstoneManagement.TombstoneManager.CreateTombstone | src/main/java/cn/i7mc/managers/TombstoneManager.java:82-162 | corrected (Finding 1): a reached limit changes nothing; no placeable cell means none in the search cube; a created tombstone belongs to the player, starts protection for the configured minutes, sits at the death location or a searched cell, is the only new entry, has a new id in the store, its block, its tag, and its hologram and particles when enabled |
| TombstoneManagement.TombstoneManager.PlaceAndRegister | src/main/java/cn/i7mc/managers/TombstoneManager.java:98-150 | corrected (Finding 1): the death block is used when placeable, otherwise the first placeable searched cell; no cell means nothing changes |
| TombstoneManagement.TombstoneManager.SaveAndRegister | src/main/java/cn/i7mc/managers/TombstoneManager.java:117-150 | corrected (Finding 1): a failing store write leaves everything as it was; otherwise the new tombstone's id is the store's next id, and it is entered at its block with the block, tag, hologram and particles |
| TombstoneManagement.TombstoneManager.Register | src/main/java/cn/i7mc/managers/TombstoneManager.java:131-145 | corrected (Finding 1): a new live tombstone gets its block and entry, its tag on a tile block, and its hologram and particles when they are enabled |
| TombstoneManagement.TombstoneManager.RemoveTombstoneAt | src/main/java/cn/i7mc/managers/TombstoneManager.java:346-374 | corrected (Finding 1): a block without an entry changes nothing; otherwise hologram and particles go, and only a successful store delete clears the block and drops the entry |
| TombstoneManagement.TombstoneManager.RemoveTombstone | src/main/java/cn/i7mc/managers/TombstoneManager.java:383-385 | corrected (Finding 1): removal succeeds exactly when the tombstone's block has an entry and the store delete succeeds |
| TombstoneManagement.TombstoneManager.RemoveTombstoneById | src/main/java/cn/i7mc/managers/TombstoneManager.java:394-417 | an unknown id fails and changes nothing; success drops exactly the entry with that id |
| TombstoneManagement.TombstoneManager.RestoreTombstonesFromDatabase | src/main/java/cn/i7mc/managers/TombstoneManager.java:535-595 | a failing query changes nothing; otherwise the walk deletes the expired records it reaches, re-enters every reached record of a loaded world at its block, and stops at a delete that throws |
| TombstoneManagement.TombstoneManager.RestoreStep | src/main/java/cn/i7mc/managers/TombstoneManager.java:541-583 | one record of the walk keeps the walk's bookkeeping: deleted ids, restored entries, and the stop |
| TombstoneManagement.TombstoneManager.RestoreOne | src/main/java/cn/i7mc/managers/TombstoneManager.java:541-583 | an expired record is deleted, and a throwing delete stops the walk; a record of a loaded world is restored; any other record is skipped |
| TombstoneManagement.TombstoneManager.RestoreRecord | src/main/java/cn/i7mc/managers/TombstoneManager.java:561-583 | the record's block gets the material and an entry with the record's id and data; other entries stay |
| TombstoneManagement.TombstoneManager.UpdateActiveTombstones | src/main/java/cn/i7mc/managers/TombstoneManager.java:653-671 | exactly the entries due for despawn lose their block, tag, hologram, particles and entry; everything else stays as it was |
| TombstoneManagement.TombstoneManager.SweepOne | src/main/java/cn/i7mc/managers/TombstoneManager.java:657-668 | one entry is despawned exactly when it is due |
| TombstoneManagement.TombstoneManager.DespawnAt | src/main/java/cn/i7mc/managers/TombstoneManager.java:660-666 | one despawn: air at the block, no tag, no hologram, no particles, no entry |
| TombstoneManagement.TombstoneManager.Shutdown | src/main/java/cn/i7mc/managers/TombstoneManager.java:601-614 | after shutdown there is no entry, no hologram and no particle task, and the store's connection is closed with its tables unchanged |
| TombstoneManagement.DueStep | src/main/java/cn/i7mc/managers/TombstoneManager.java:657-668 | handling one more entry of the sweep adds it to the handled due entries exactly when it is due |
| TombstoneManagement.KeyingMissesFractionalLocation | src/main/java/cn/i7mc/managers/TombstoneManager.java:135 | as written, the block's own location finds a tombstone entered under the death location exactly when that location has whole coordinates and zero yaw and pitch; any other death leaves it unfindable |
| TombstoneManagement.LookupByBlockFindsTombstone | src/main/java/cn/i7mc/managers/TombstoneManager.java:427-429 | corrected (Finding 1): keyed by block, a tombstone is found from any location inside its block, in particular from the block's own location |
| EntityCleanup.GetTombstoneId | src/main/java/cn/i7mc/utils/EntityCleanupManager.java:183-191 | an id is returned exactly when the block carries the tombstone tag, and it is that tag |
| EntityCleanup.GetHologramTombstoneId | src/main/java/cn/i7mc/utils/EntityCleanupManager.java:200-212 | no tag gives nothing; a tag gives its text parsed as a `long`, nothing when it is not a number in range |
| EntityCleanup.HologramIdRoundTrip | src/main/java/cn/i7mc/utils/EntityCleanupManager.java:200-212 | a stand tagged with an id's decimal text gives that id back |
| EntityCleanup.NonNumericHologramTag | src/main/java/cn/i7mc/utils/EntityCleanupManager.java:205-210 | a tag that is not a number gives nothing instead of an error |
| EntityCleanup.CleanupTombstoneBlocks | src/main/java/cn/i7mc/utils/EntityCleanupManager.java:89-112 | every tagged block in a loaded chunk of the world (chunk = block coordinates `>> 4`) becomes air and loses its tag, nothing else changes, and the count is the number of those blocks |
| EntityCleanup.CleanupHologramEntities | src/main/java/cn/i7mc/utils/EntityCleanupManager.java:121-142 | every hologram stand in a loaded chunk of the world is removed, blocks and tags stay, and the count is the number of those stands |
| EntityCleanup.CleanupAllTombstoneEntities | src/main/java/cn/i7mc/utils/EntityCleanupManager.java:56-80 | over all loaded worlds: every tagged block of a loaded chunk becomes air and loses its tag, every hologram stand of a loaded chunk goes, and the totals are the numbers of each; tagged blocks and stands of unloaded chunks stay as they were |
| EntityCleanup.SweepWorld | src/main/java/cn/i7mc/utils/EntityCleanupManager.java:62-73 | one more world swept keeps the running totals equal to the loaded-chunk blocks and stands of the worlds swept so far |
| EntityCleanup.SweepWorldTags | src/main/java/cn/i7mc/utils/EntityCleanupManager.java:62-73 | the loaded-chunk tagged blocks of the worlds swept so far and of one more world are disjoint and add up |
| EntityCleanup.SweepWorldHolograms | src/main/java/cn/i7mc/utils/EntityCleanupManager.java:62-73 | the loaded-chunk hologram stands of the worlds swept so far and of one more world are disjoint and add up |
| EntityCleanup.CleanupTombstoneEntitiesAt | src/main/java/cn/i7mc/utils/EntityCleanupManager.java:220-237 | the block becomes air only when it carries the tag; in a loaded world the hologram stands within five blocks go, and nothing else |
| HologramUtil.RelabelSpec | src/main/java/cn/i7mc/utils/HologramUtil.java:148-166 | relabelling names each live stand of the first lines with its line and leaves every other entity as it was; no entity appears or disappears |
| HologramUtil.RelabelOnlyRenames | src/main/java/cn/i7mc/utils/HologramUtil.java:148-166 | relabelling changes only names: kind, position and tag of every entity stay |
| HologramUtil.UpdateAllOnlyRenames | src/main/java/cn/i7mc/utils/HologramUtil.java:265-285 | the periodic update never spawns or removes an entity and changes names only |
| HologramUtil.UpdateAllWithoutEntries | src/main/java/cn/i7mc/utils/HologramUtil.java:265-285 | tombstones without a hologram entry change nothing |
| HologramUtil.HologramPlaceholders | src/main/java/cn/i7mc/utils/HologramUtil.java:209-242 | the placeholders are exactly player, time and protection; player is the owner's name, else the configured unknown-player text, else its built-in default |
| HologramUtil.HologramLines | src/main/java/cn/i7mc/utils/HologramUtil.java:209-242 | one line per configured line, each the configured line with the placeholders filled in |
| HologramUtil.PlayerLineShowsOwner | src/main/java/cn/i7mc/utils/HologramUtil.java:209-242 | a configured line that is exactly `{player}` shows the owner's name |
| HologramUtil.Holograms.constructor | src/main/java/cn/i7mc/utils/HologramUtil.java:46-56 | a new hologram registry has no entry |
| HologramUtil.Holograms.CreateHologram | src/main/java/cn/i7mc/utils/HologramUtil.java:74-98 | corrected (Finding 1): disabled changes nothing; enabled enters the block, with one tagged stand per line when its world is loaded and none when it is not; an earlier entry of the block is replaced |
| HologramUtil.Holograms.RemoveHologram | src/main/java/cn/i7mc/utils/HologramUtil.java:106-140 | corrected (Finding 1): the entry goes and so do its live stands and, in a loaded world, every tagged stand near the block; nothing else |
| HologramUtil.Holograms.UpdateHologram | src/main/java/cn/i7mc/utils/HologramUtil.java:148-166 | no entry or an empty one changes nothing; otherwise the stands are relabelled with the new lines |
| HologramUtil.Holograms.UpdateAllHolograms | src/main/java/cn/i7mc/utils/HologramUtil.java:265-285 | disabled or without a manager nothing changes; otherwise every active tombstone with an entry is relabelled, in order |
| HologramUtil.Holograms.Shutdown | src/main/java/cn/i7mc/utils/HologramUtil.java:291-306 | every entry's stands are removed and the registry is empty |
| HologramUtil.StandsAtStep | src/main/java/cn/i7mc/utils/HologramUtil.java:293-303 | handling one more entry adds exactly its stands to those removed |
| ParticleUtil.ParticleType | src/main/java/cn/i7mc/utils/ParticleUtil.java:148-157 | the configured name in upper case when it names a particle, otherwise `SOUL` |
| ParticleUtil.ParticleTypeIsParticle | src/main/java/cn/i7mc/utils/ParticleUtil.java:148-157 | the chosen particle is always a particle constant |
| ParticleUtil.ParticleTypeIgnoresCase | src/main/java/cn/i7mc/utils/ParticleUtil.java:148-157 | names that differ only in letter case choose the same particle |
| ParticleUtil.Particles.constructor | src/main/java/cn/i7mc/utils/ParticleUtil.java:35-40 | a new effect registry has no task |
| ParticleUtil.Particles.RemoveParticleEffect | src/main/java/cn/i7mc/utils/ParticleUtil.java:74-79 | corrected (Finding 1): the block's task, if any, is cancelled and forgotten; other tasks stay |
| ParticleUtil.Particles.CreateParticleEffect | src/main/java/cn/i7mc/utils/ParticleUtil.java:48-66 | corrected (Finding 1): disabled changes nothing; enabled cancels the block's running task and starts a new one in its place |
| ParticleUtil.Particles.Shutdown | src/main/java/cn/i7mc/utils/ParticleUtil.java:163-171 | every task is cancelled and the registry is empty |
| Messages.FindClose | src/main/java/cn/i7mc/managers/MessageManager.java:117 | the closing-brace search stays in the text and stops at a `}` when it finds one |
| Messages.SubstituteFromNoKeys | src/main/java/cn/i7mc/managers/MessageManager.java:110-128 | with no mapped key every match is kept as it is |
| Messages.SubstituteNoKeys | src/main/java/cn/i7mc/managers/MessageManager.java:111-113 | the early return for an empty map agrees with the general substitution |
| Messages.SubstituteSingle | src/main/java/cn/i7mc/managers/MessageManager.java:117-123 | a lone placeholder becomes its value when mapped and stays when not |
| Messages.SubstituteFromPlain | src/main/java/cn/i7mc/managers/MessageManager.java:110-128 | text without an opening brace is never changed |
| Messages.ReplacePlaceholders | src/main/java/cn/i7mc/managers/MessageManager.java:110-128 | a null map returns the message; otherwise the result is the left-to-right substitution of every mapped match |
| Messages.SubstituteScan | src/main/java/cn/i7mc/managers/MessageManager.java:115-127 | the matcher loop builds exactly the left-to-right substitution |
| Messages.GetMessage | src/main/java/cn/i7mc/managers/MessageManager.java:78-97 | a message comes back exactly when its key is configured |
| Messages.GetMessagePlain | src/main/java/cn/i7mc/managers/MessageManager.java:78-89 | without placeholders a message is the prefix plus its text, except when the prefix is empty or the key starts with `prefix` |
| Messages.PrefixKeyUnprefixed | src/main/java/cn/i7mc/managers/MessageManager.java:85-87 | a key starting with `prefix` never gets the prefix |
| Messages.SentMessage | src/main/java/cn/i7mc/managers/MessageManager.java:49-55 | a text is sent exactly when the key is configured and its text is not blank |
| Messages.LocationPlaceholders | src/main/java/cn/i7mc/managers/MessageManager.java:162-169 | world, x, y, z and location are added or overwritten and every other placeholder stays |
| Messages.PlayerPlaceholders | src/main/java/cn/i7mc/managers/MessageManager.java:147-151 | player, uuid and world are added or overwritten and every other placeholder stays |
| Messages.ReplaceAllWhole | src/main/java/cn/i7mc/managers/MessageManager.java:211-218 | a template that is exactly `{time}` becomes the number text |
| Messages.ReplaceAllSame | src/main/java/cn/i7mc/managers/MessageManager.java:211-218 | replacing a text by itself changes nothing |
| Messages.BucketThresholds | src/main/java/cn/i7mc/managers/MessageManager.java:197-220 | each relative-time text covers exactly one interval of elapsed milliseconds: below 5 s, below a minute, below an hour, below a day, and the rest |
| Messages.RelativeTimeJustNow | src/main/java/cn/i7mc/managers/MessageManager.java:206-208 | with the default texts a death four seconds ago reads as just now |
| Messages.TimeAmount | src/main/java/cn/i7mc/managers/MessageManager.java:251-259 | under a minute shows the seconds; otherwise whole minutes below an hour and whole hours from an hour on, rounded down and at least one |
| Messages.FormatProtectionStatus | src/main/java/cn/i7mc/managers/MessageManager.java:230-242 | not protected reads expired; protected with nothing left reads public; otherwise the active text with the time filled in |
| TimeUtil.GetRemainingTime | src/main/java/cn/i7mc/utils/TimeUtil.java:209-212 | the time left is never negative and is the difference when there is any |
| TimeUtil.RemainingIffBeforeExpiry | src/main/java/cn/i7mc/utils/TimeUtil.java:198-212 | time is left exactly before the instant, and an expired instant has none |
| TimeUtil.MinutesToMillis | src/main/java/cn/i7mc/utils/TimeUtil.java:221-223 | minutes times 60000, saturating at the `long` bounds on overflow as `TimeUnit.toMillis` does |
| TimeUtil.HoursToMillis | src/main/java/cn/i7mc/utils/TimeUtil.java:232-234 | hours times 3600000, saturating at the `long` bounds on overflow |
| TimeUtil.DaysToMillis | src/main/java/cn/i7mc/utils/TimeUtil.java:243-245 | days times 86400000, saturating at the `long` bounds on overflow |
| TimeUtil.ConversionsAgree | src/main/java/cn/i7mc/utils/TimeUtil.java:221-245 | a day converts as 24 hours and an hour as 60 minutes |
| TimeUtil.PartsRecompose | src/main/java/cn/i7mc/utils/TimeUtil.java:68-117 | for a non-negative duration the days, hours, minutes and seconds are in range and add back up to the whole seconds |
| TimeUtil.RemainingTextThresholds | src/main/java/cn/i7mc/utils/TimeUtil.java:68-117 | the remaining-time text is expired, days and hours, hours and minutes, or minutes and seconds, exactly by the unit the duration reaches |
| TimeUtil.FormatRemainingTimeExpired | src/main/java/cn/i7mc/utils/TimeUtil.java:129-131 | without a message manager nothing left reads as expired |
| TimeUtil.PartsUnderAMinute | src/main/java/cn/i7mc/utils/TimeUtil.java:68-117 | under a minute only the seconds part is non-zero |
| TimeUtil.FormatRemainingTimeSeconds | src/main/java/cn/i7mc/utils/TimeUtil.java:129-131 | without a message manager, under a minute reads as the whole seconds |
| TimeUtil.DurationTextCarriesPrefix | src/main/java/cn/i7mc/utils/TimeUtil.java:68-117 | a configured duration text goes through the message lookup and so carries the chat prefix |
| TimeUtil.DurationTextThresholds | src/main/java/cn/i7mc/utils/TimeUtil.java:142-175 | a duration is shown in days and hours from a day, hours and minutes from an hour, and minutes below that, zero and negative included |
| TimeUtil.HalfHourDuration | src/main/java/cn/i7mc/utils/TimeUtil.java:187-189 | half an hour reads as 30 minutes |
| Gui.GuiManager.constructor | src/main/java/cn/i7mc/managers/GUIManager.java:27-29 | a new registry has no open GUI |
| Gui.GuiManager.RegisterGui | src/main/java/cn/i7mc/managers/GUIManager.java:38-40 | the player's entry becomes the GUI and every other player's entry stays |
| Gui.GuiManager.UnregisterGui | src/main/java/cn/i7mc/managers/GUIManager.java:48-50 | only the player's own entry goes |
| Gui.GuiManager.GetActiveGui | src/main/java/cn/i7mc/managers/GUIManager.java:60-62 | a GUI is returned exactly when the player has an entry, and it is that entry |
| Gui.GuiManager.HasIffGet | src/main/java/cn/i7mc/managers/GUIManager.java:71-73 | having an open GUI agrees with the lookup finding one |
| Gui.GuiManager.FindGuiByInventory | src/main/java/cn/i7mc/managers/GUIManager.java:83-90 | a result is a registered GUI showing the inventory; none means no registered GUI shows it |
| Gui.GuiManager.ClearAllGuis | src/main/java/cn/i7mc/managers/GUIManager.java:96-98 | no GUI stays registered |
| Gui.GuiBase.constructor | src/main/java/cn/i7mc/abstracts/AbstractGUI.java:33-39 | a new GUI has the owner, title and size, empty slots and no registry |
| Gui.GuiBase.SetGuiManager | src/main/java/cn/i7mc/abstracts/AbstractGUI.java:47-49 | the GUI keeps the registry it is given |
| Gui.GuiBase.SetItem | src/main/java/cn/i7mc/abstracts/AbstractGUI.java:124-128 | a valid slot gets the item and only it changes; an invalid slot changes nothing |
| Gui.GuiBase.GetItem | src/main/java/cn/i7mc/abstracts/AbstractGUI.java:138-143 | a slot outside the inventory gives nothing; a valid slot gives its content |
| Gui.GuiBase.ClearInventory | src/main/java/cn/i7mc/abstracts/AbstractGUI.java:58-62 | every slot is empty |
| Gui.GuiBase.RegisterOpen | src/main/java/cn/i7mc/abstracts/AbstractGUI.java:84-93 | with a registry the GUI becomes its owner's open GUI |
| Gui.GuiBase.CloseGui | src/main/java/cn/i7mc/abstracts/AbstractGUI.java:99-106 | with a registry the owner's entry goes |
| ItemsGui.ShownAt | src/main/java/cn/i7mc/guis/TombstoneItemsGUI.java:126-157 | a GUI slot shows an item exactly when the list reaches it and the item is not air, and then it is that item |
| ItemsGui.CanAddItemToInventory | src/main/java/cn/i7mc/guis/TombstoneItemsGUI.java:546-603 | the dry run says yes for air or an empty stack and otherwise exactly when the whole stack fits: topping up similar stacks first, then whole stacks into empty slots |
| ItemsGui.StackOntoSimilar | src/main/java/cn/i7mc/guis/TombstoneItemsGUI.java:556-580 | after topping up similar stacks nothing remains exactly when their free room covers the amount; otherwise what remains is the amount less that room |
| ItemsGui.FillEmptySlots | src/main/java/cn/i7mc/guis/TombstoneItemsGUI.java:582-600 | after filling empty slots nothing remains exactly when their room covers what was left |
| ItemsGui.EmptyInventoryFits | src/main/java/cn/i7mc/guis/TombstoneItemsGUI.java:546-603 | into an empty inventory a stack fits exactly when it needs at most one full stack per slot |
| ItemsGui.FullInventoryRejects | src/main/java/cn/i7mc/guis/TombstoneItemsGUI.java:546-603 | with no empty slot and no similar stack below its maximum nothing fits |
| ItemsGui.ItemsClickRoute | src/main/java/cn/i7mc/guis/TombstoneItemsGUI.java:282-348 | an empty slot does nothing; 49 is the experience button and 53 the close button; an item slot takes an item only on a right click or without a click type |
| ItemsGui.RightClickRoutesLikeUntyped | src/main/java/cn/i7mc/guis/TombstoneItemsGUI.java:282-348 | the right-click overload routes exactly like the one without a click type |
| ItemsGui.TombstoneItemsGui.constructor | src/main/java/cn/i7mc/guis/TombstoneItemsGUI.java:50-60 | a new items GUI has the owner, the tombstone, six rows, no registry and no items |
| ItemsGui.TombstoneItemsGui.LoadTombstoneItems | src/main/java/cn/i7mc/guis/TombstoneItemsGUI.java:98-108 | a caught `SQLException` lists nothing; a row that does not deserialize throws past the method and the list stays as it was; otherwise the list is the stored items |
| ItemsGui.LoadListingSpec | src/main/java/cn/i7mc/guis/TombstoneItemsGUI.java:98-108 | a load throws exactly when the statement ran on SQLite and a row of the tombstone is corrupt; a failing statement lists an empty list; any other load lists the readable rows |
| ItemsGui.TombstoneItemsGui.AddTombstoneItems | src/main/java/cn/i7mc/guis/TombstoneItemsGUI.java:126-157 | each slot of the first five rows shows the list item at that position, and the bottom row is untouched |
| ItemsGui.TombstoneItemsGui.AddFunctionButtons | src/main/java/cn/i7mc/guis/TombstoneItemsGUI.java:194-200 | only slots 49 and 53 change, to the experience button with the current experience and to the close button |
| ItemsGui.TombstoneItemsGui.InitializeGui | src/main/java/cn/i7mc/guis/TombstoneItemsGUI.java:80-92 | a load that throws leaves the list and every slot as they were; otherwise the list is loaded afresh, the slots show it with the two buttons, and the rest of the bottom row is untouched |
| ItemsGui.TombstoneItemsGui.RefreshGui | src/main/java/cn/i7mc/abstracts/AbstractGUI.java:112-115 | the GUI is cleared first; a load that throws leaves it cleared with the old list, otherwise it is laid out again from the reloaded list |
| ItemsGui.TombstoneItemsGui.OpenGui | src/main/java/cn/i7mc/abstracts/AbstractGUI.java:84-92 | a load that throws ends the opening before registration, so the registry is unchanged; otherwise the GUI shows the loaded list and becomes its owner's open GUI |
| ItemsGui.TombstoneItemsGui.CheckAndRemoveEmptyTombstone | src/main/java/cn/i7mc/guis/TombstoneItemsGUI.java:509-535 | the tombstone is removed exactly when it lists no item and holds no experience |
| ItemsGui.TombstoneItemsGui.TakeItem | src/main/java/cn/i7mc/guis/TombstoneItemsGUI.java:395-449 | no room fails with nothing changed; a partial add fails; a failed delete changes nothing; a take deletes exactly the row of the item's original slot; a refresh whose load throws then stops it with the entry gone and the GUI cleared; otherwise the list is reloaded and shown, and the outcome says whether the tombstone is now empty |
| ItemsGui.TombstoneItemsGui.HandleItemClick | src/main/java/cn/i7mc/guis/TombstoneItemsGUI.java:368-383 | a slot past the list or holding air does nothing; otherwise the listed item is taken by its original slot |
| ItemsGui.TombstoneItemsGui.HandleExperienceClick | src/main/java/cn/i7mc/guis/TombstoneItemsGUI.java:455-495 | no experience does nothing; a failed store write changes nothing; a take zeroes the stored and the live experience; a refresh whose load throws then stops it with the GUI cleared; otherwise the outcome says whether no item is left |
| ItemsGui.TombstoneItemsGui.HandleClick | src/main/java/cn/i7mc/guis/TombstoneItemsGUI.java:282-348 | the click goes where the routing sends it, nothing changes for an empty slot or a left click, and the close button closes the GUI |
| TeleportMenu.SlotOfStep | src/main/java/cn/i7mc/guis/TeleportGUI.java:148-155 | one step of the walk moves to the slot of the next index |
| TeleportMenu.SlotOfInverse | src/main/java/cn/i7mc/guis/TeleportGUI.java:140-159 | every slot of the walk is a grid slot above the bottom row, and the index computed from it is its own index |
| TeleportMenu.TombstoneSlotInverse | src/main/java/cn/i7mc/guis/TeleportGUI.java:319-324 | every grid slot is the walk slot of the index computed from it |
| TeleportMenu.BorderOrGrid | src/main/java/cn/i7mc/guis/TeleportGUI.java:92-106 | inside the chest a slot is border exactly when it is not a grid slot |
| TeleportMenu.WalkLeavesGrid | src/main/java/cn/i7mc/guis/TeleportGUI.java:140-159 | the first 28 walk slots stay above the bottom row and the next one leaves it, so at most 28 tombstones show |
| TeleportMenu.TeleportTarget | src/main/java/cn/i7mc/guis/TeleportGUI.java:403-408 | the target is in the tombstone's world, in the block above the tombstone |
| TeleportMenu.TeleportClickRoute | src/main/java/cn/i7mc/guis/TeleportGUI.java:286-310 | a click with an item goes to refresh at 49, close at 53, a tombstone on a grid slot, and nowhere otherwise |
| TeleportMenu.RefreshAfterFailedQueryThrows | src/main/java/cn/i7mc/guis/TeleportGUI.java:53 | as written, a menu built from a failed query throws on refresh, while one built from a successful query refreshes |
| TeleportMenu.TeleportGui.constructor | src/main/java/cn/i7mc/guis/TeleportGUI.java:45-54 | the menu lists the owner's tombstones, latest death first, and none when the query fails |
| TeleportMenu.TeleportGui.AddBorder | src/main/java/cn/i7mc/guis/TeleportGUI.java:92-106 | every border slot gets the border item and every other slot is untouched |
| TeleportMenu.TeleportGui.AddTombstoneItems | src/main/java/cn/i7mc/guis/TeleportGUI.java:140-159 | the grid shows the first 28 tombstones at most, row by row, and every other slot is untouched |
| TeleportMenu.TeleportGui.AddFunctionButtons | src/main/java/cn/i7mc/guis/TeleportGUI.java:216-222 | only slots 49 and 53 change, to the refresh and the close button |
| TeleportMenu.TeleportGui.InitializeGui | src/main/java/cn/i7mc/guis/TeleportGUI.java:74-86 | every slot ends as the layout of the listed tombstones says |
| TeleportMenu.TeleportGui.RefreshGui | src/main/java/cn/i7mc/guis/TeleportGUI.java:74-86 | a refresh lays the menu out again from the list |
| TeleportMenu.TeleportGui.HandleRefreshClick | src/main/java/cn/i7mc/guis/TeleportGUI.java:330-342 | corrected (Finding 2): the list becomes a fresh query's result and the layout follows it |
| TeleportMenu.TeleportGui.HandleRefreshClickAsWritten | src/main/java/cn/i7mc/guis/TeleportGUI.java:330-342 | as written: on the immutable list the refresh throws and changes nothing; otherwise the list becomes the fresh query's result |
| TeleportMenu.TeleportGui.HandleClick | src/main/java/cn/i7mc/guis/TeleportGUI.java:286-310 | the click goes where the routing sends it, and only a tombstone click yields a teleport outcome |
| TeleportMenu.TeleportGui.HandleTombstoneClick | src/main/java/cn/i7mc/guis/TeleportGUI.java:358-430 | an index past the list does nothing; then permission, then a loaded world are required; a teleport goes to the target above the selected tombstone and closes the menu |
| TeleportMenu.ClickSelectsPlacedTombstone | src/main/java/cn/i7mc/guis/TeleportGUI.java:140-159 | a click on the i-th placed icon selects the i-th listed tombstone |
| InventoryClick.ProhibitedActions | src/main/java/cn/i7mc/listeners/InventoryClickListener.java:258-293 | only the items GUI has prohibited actions: in its own slots the placing actions, below it moving an item over |
| InventoryClick.Dispatch | src/main/java/cn/i7mc/listeners/InventoryClickListener.java:173-247 | corrected (Finding 3): a GUI action reaches a GUI only for a click in its own slots, and with the raw slot |
| InventoryClick.DispatchRules | src/main/java/cn/i7mc/listeners/InventoryClickListener.java:173-247 | corrected (Finding 3): a click is cancelled exactly when a player clicks in a plugin GUI; it reaches a GUI only with permission, without a prohibited action and with a matching open GUI; clicks in the GUI's own slots are routed as written |
| InventoryClick.BottomClickTakesTombstoneItem | src/main/java/cn/i7mc/listeners/InventoryClickListener.java:231-247 | as written, a right click on slot 14 of the player's own inventory under the items GUI takes the tombstone's 15th item; the corrected dispatch cancels it |
| InventoryClick.OnInventoryClose | src/main/java/cn/i7mc/listeners/InventoryClickListener.java:67-79 | the player's open GUI entry goes |
| Interact.OnPlayerInteract | src/main/java/cn/i7mc/listeners/PlayerInteractListener.java:55-221 | the event is cancelled exactly when a processed click hits a tombstone block; then use permission, a known id, access and GUI permission are required in that order; the items GUI then opens and registers unless loading its items throws, which leaves the registry unchanged |
| Interact.OpenItemsGui | src/main/java/cn/i7mc/listeners/PlayerInteractListener.java:198-221 | the new GUI belongs to the tombstone; it registers and lists the stored items exactly when loading them does not throw, and otherwise the registry is unchanged |
| LocationUtil.SafeIsBelowTop | src/main/java/cn/i7mc/utils/LocationUtil.java:26-46 | `LocationUtil.IsSafeLocation` (`isSafeLocation`): a safe location leaves room for the block above it below the world's build height |
| LocationUtil.SafeProbeMeans | src/main/java/cn/i7mc/utils/LocationUtil.java:92-124 | `LocationUtil.IsSafeLocation` as used by the search: a probe of the search is safe exactly when the safety check accepts the location the search would return for it |
| LocationUtil.FindSafeNearbyLocation | src/main/java/cn/i7mc/utils/LocationUtil.java:92-124 | a missing world gives nothing; a result is a safe location at a probe on the rings around the centre; nothing means no probe is safe |
| LocationUtil.ScanRing | src/main/java/cn/i7mc/utils/LocationUtil.java:96-121 | a probe found on one ring is on the rings and safe; none means no probe of that ring is safe |
| LocationUtil.ScanRow | src/main/java/cn/i7mc/utils/LocationUtil.java:97-120 | a probe found in one row is on the rings and safe; none means no probe of that row is safe; cells strictly inside the ring are skipped |
| LocationUtil.FirstSafeProbe | src/main/java/cn/i7mc/utils/LocationUtil.java:92-124 | a safe probe with nothing safe before it in its ring, row and column has no safe probe before it in search order |
| LocationUtil.ScanColumn | src/main/java/cn/i7mc/utils/LocationUtil.java:102-118 | the heights -2 to 2 are tried in order, and the first safe one is returned, or none |
| LocationUtil.SameBlockIffSameBlockOf | src/main/java/cn/i7mc/utils/LocationUtil.java:165-170 | `LocationUtil.IsSameBlockLocation` (`isSameBlockLocation`): two locations are the same block location exactly when they lie in the same world and block |
| LocationUtil.SameBlockOfBlockLocation | src/main/java/cn/i7mc/utils/LocationUtil.java:165-170 | a location and its block's own location are the same block location |
| LocationUtil.FormatLocation | src/main/java/cn/i7mc/utils/LocationUtil.java:149-155 | the text is "world: x, y, z" with the floored block coordinates as decimal integers, as the `%s: %d, %d, %d` format of `getBlockX/Y/Z` gives |
| WorldConfig.DisabledWins | src/main/java/cn/i7mc/managers/WorldConfigManager.java:37-46 | `WorldConfig.IsWorldEnabled` (`isWorldEnabled`): a world in the disabled list is disabled even when also listed as enabled |
| WorldConfig.NoListsEnableAll | src/main/java/cn/i7mc/managers/WorldConfigManager.java:37-46 | without lists every world is enabled |
| WorldConfig.OverrideBeatsGlobal | src/main/java/cn/i7mc/managers/WorldConfigManager.java:103-112 | `WorldConfig.IsPvpOnlyEnabled`, `WorldConfig.IsEconomyEnabled` and `WorldConfig.IsSkullProtectionEnabled` (through `WorldConfig.Overridden`): a world's own boolean setting decides, whatever the global switch says |
| WorldConfig.DerivedChecksNeedBasic | src/main/java/cn/i7mc/managers/WorldConfigManager.java:186-245 | `WorldConfig.CanUseTombstoneInWorld`, `WorldConfig.CanUsePvpTombstoneInWorld` and `WorldConfig.CanUseEconomyInWorld`, over `WorldConfig.HasBasicPermission`: the pvp and economy checks each need the basic check and add only their own condition; with permissions off an enabled world is usable |
| WorldConfig.Defaults | src/main/java/cn/i7mc/managers/WorldConfigManager.java:37-112 | with the default settings every world is enabled, pvp-only, with economy and with skull protection |
| Protection.SkullProtectionStopsEveryone | src/main/java/cn/i7mc/listeners/TombstoneProtectionListener.java:67-122 | `Protection.BreakCancelled` and the notice choice: with skull protection in the breaker's world every break is cancelled, owner and admin included, with the skull notice and, for an admin, the command hint |
| Protection.WithoutSkullProtectionAccessDecides | src/main/java/cn/i7mc/listeners/TombstoneProtectionListener.java:67-122 | `Protection.BreakCancelled` and the notice choice: without skull protection a break goes through exactly for the owner, an admin, or anyone once protection ended; only the owner is told to use a right click |
| Protection.OnBlockBreak | src/main/java/cn/i7mc/listeners/TombstoneProtectionListener.java:67-122 | a block without a tag or whose id no active tombstone carries is left alone; otherwise the break is cancelled and the notice chosen by the rules for that tombstone |
| Protection.OnBlockBreakMonitor | src/main/java/cn/i7mc/listeners/TombstoneProtectionListener.java:365-398 | corrected (Finding 1): a break that went through on a tagged block of a live tombstone removes it exactly when the block has an entry and the store delete succeeds; otherwise nothing changes |
| Protection.PlaceRules | src/main/java/cn/i7mc/listeners/TombstoneProtectionListener.java:131-152 | `Protection.PlaceCancelled`, corrected (Finding 1): placing is cancelled exactly on an active tombstone's block for a player without the admin permission |
| Protection.DropsAfterBreakBlock | src/main/java/cn/i7mc/listeners/TombstoneProtectionListener.java:316-324 | corrected (Finding 1): a tombstone block broken by another block drops nothing; any other block keeps its drops |
| Protection.OutsideSpec | src/main/java/cn/i7mc/listeners/TombstoneProtectionListener.java:161-174 | the filter keeps exactly the blocks not in the banned set, in order |
| Protection.RemoveIfIn | src/main/java/cn/i7mc/listeners/TombstoneProtectionListener.java:161-174 | the `removeIf` loop keeps exactly the blocks not in the banned set |
| Protection.FilterExplosion | src/main/java/cn/i7mc/listeners/TombstoneProtectionListener.java:161-196 | corrected (Finding 1): the blast list loses exactly the tombstone blocks of worlds with skull protection |
| Protection.FilterStructureGrow | src/main/java/cn/i7mc/listeners/TombstoneProtectionListener.java:333-339 | corrected (Finding 1): the grown block states lose exactly those on tombstone blocks |
| Protection.ExplosionSparesProtected | src/main/java/cn/i7mc/listeners/TombstoneProtectionListener.java:161-196 | corrected (Finding 1): after the filter a blast reaches a tombstone only in a world without skull protection, and every non-tombstone block stays in the list |
| Protection.GrowthSparesTombstones | src/main/java/cn/i7mc/listeners/TombstoneProtectionListener.java:333-339 | corrected (Finding 1): a grown structure never overwrites a tombstone and keeps every other block state |
| Protection.AnyTombstoneAmong | src/main/java/cn/i7mc/listeners/TombstoneProtectionListener.java:248-275 | corrected (Finding 1): the piston or multi-place event is cancelled exactly when one of its blocks is an active tombstone's |
| Protection.ScheduledRestores | src/main/java/cn/i7mc/listeners/TombstoneProtectionListener.java:472-491 | corrected (Finding 1): exactly the active tombstones whose blocks are in the blast list are scheduled for restoration: every scheduled one is such a tombstone, and every such tombstone is scheduled |
| VipTime.WithoutTrailingDots | src/main/java/cn/i7mc/managers/VipTimeManager.java:126-128 | the last part after splitting on dots is the text without its trailing dots |
| VipTime.TrailingDigits | src/main/java/cn/i7mc/managers/VipTimeManager.java:130-139 | the digits collected are the maximal run of digits at the end |
| VipTime.VipLevel | src/main/java/cn/i7mc/managers/VipTimeManager.java:123-150 | a level is between 0 and the largest `int` |
| VipTime.ExtractVipLevel | src/main/java/cn/i7mc/managers/VipTimeManager.java:123-150 | the backward walk computes the level of the permission's trailing digits |
| VipTime.LevelOfNumberedPermission | src/main/java/cn/i7mc/managers/VipTimeManager.java:123-150 | a permission ending in the number n after a non-digit, with or without trailing dots, is level n |
| VipTime.NoDigitsLevelZero | src/main/java/cn/i7mc/managers/VipTimeManager.java:126-149 | a permission whose last part does not end in a digit is level 0 |
| VipTime.HighestSpec | src/main/java/cn/i7mc/managers/VipTimeManager.java:95-114 | nothing exactly when no tier is held; otherwise a held tier of the greatest level, before which every held tier has a strictly lower level |
| VipTime.HighestSpecBy | src/main/java/cn/i7mc/managers/VipTimeManager.java:95-114 | for any level function, the running best is the first held tier of the greatest level, and nothing exactly when no tier is held |
| VipTime.GetHighestVipPermission | src/main/java/cn/i7mc/managers/VipTimeManager.java:95-114 | the loop returns the first held tier of the greatest level |
| VipTime.GetAllVipPermissions | src/main/java/cn/i7mc/managers/VipTimeManager.java:194-200 | off gives none; on gives every configured tier |
| VipTime.TimesRules | src/main/java/cn/i7mc/managers/VipTimeManager.java:49-86 | `VipTime.GetProtectionTime`, `VipTime.GetDespawnTime` and `VipTime.IsVipPlayer`: a non-VIP gets the global protection and despawn times; a VIP gets the highest tier's time where that tier sets one; VIP means enabled and holding a tier |
| VipTime.DisplayRules | src/main/java/cn/i7mc/managers/VipTimeManager.java:159-171 | `VipTime.GetVipLevelDisplay` and `VipTime.IsVipPlayer`: the label starts with VIP exactly for a VIP and carries the highest tier's level; others get the plain label |
| VipTime.EarlierTierWinsTie | src/main/java/cn/i7mc/managers/VipTimeManager.java:104-108 | of two held tiers of equal level the one listed first wins |
| VipTime.ExampleLevels | src/main/java/cn/i7mc/managers/VipTimeManager.java:123-150 | `playerdeadmanager.vip2` is level 2 and `playerdeadmanager.vip` level 0 |
| VipExemption.SaveGrant | src/main/java/cn/i7mc/managers/VipExemptionManager.java:110-140 | a grant is between 0 and the largest `int`: the number after the save prefix, or the largest `int` for `unlimited` |
| VipExemption.MaxGrantSpec | src/main/java/cn/i7mc/managers/VipExemptionManager.java:110-140 | the player's grant is at least every held grant and is one of them, or 0 |
| VipExemption.MaxGrantUnique | src/main/java/cn/i7mc/managers/VipExemptionManager.java:110-140 | a bound that every grant stays under and that some grant or 0 reaches is the player's grant |
| VipExemption.UnlimitedWins | src/main/java/cn/i7mc/managers/VipExemptionManager.java:122-124 | holding `unlimited` grants the largest `int` |
| VipExemption.GetPlayerMaxExemptions | src/main/java/cn/i7mc/managers/VipExemptionManager.java:110-140 | off gives 0; on, the scan returns the greatest grant the player holds |
| VipExemption.ExemptionManager.constructor | src/main/java/cn/i7mc/managers/VipExemptionManager.java:44-49 | a new manager has an empty cache |
| VipExemption.ExemptionManager.GetPlayerUsedExemptions | src/main/java/cn/i7mc/managers/VipExemptionManager.java:149-167 | corrected (Finding 4): the day's uses come from the cache for that player and day, else from the table, which then fills the cache; a failing read counts 0; any cache state is accepted, and a cache that agreed with the table still agrees afterwards |
| VipExemption.ExemptionManager.CanUseExemption | src/main/java/cn/i7mc/managers/VipExemptionManager.java:58-75 | corrected (Finding 4): an exemption is available exactly when enabled and the grant is unlimited or above the day's uses; any cache state is accepted, and a cache that agreed with the table still agrees afterwards |
| VipExemption.ExemptionManager.UseExemption | src/main/java/cn/i7mc/managers/VipExemptionManager.java:84-101 | corrected (Finding 4): nothing changes unless an exemption is available and the write succeeds; then the day's row and the cached count each grow by one; any cache state is accepted, and a cache that agreed with the table still agrees afterwards when the grant is finite and the count was read |
| VipExemption.ExemptionManager.ResetPlayerCache | src/main/java/cn/i7mc/managers/VipExemptionManager.java:341-343 | that player's cached counts go and no one else's; any cache state is accepted, and a cache that agreed with the table still agrees afterwards |
| VipExemption.ExemptionManager.ClearAllCache | src/main/java/cn/i7mc/managers/VipExemptionManager.java:349-351 | the cache is empty and the table unchanged, from any cache state, so cache and table agree afterwards |
| VipExemption.ExemptionManager.CleanupExpiredExemptions | src/main/java/cn/i7mc/managers/VipExemptionManager.java:277-298 | rows of days more than seven days back go, unless the delete fails; the cache stays; any cache state is accepted, and a cache that agreed with the table still agrees afterwards |
| VipExemption.ExemptionManager.GetExemptionStatusInfo | src/main/java/cn/i7mc/managers/VipExemptionManager.java:307-333 | corrected (Finding 4): off or without a grant gives the matching status; otherwise the grant, the day's uses and what remains; any cache state is accepted, and a cache that agreed with the table still agrees afterwards |
| VipExemption.OneUseADay | src/main/java/cn/i7mc/managers/VipExemptionManager.java:58-101 | with one use a day the first exemption of a day is granted and the second refused |
| VipExemption.UnlimitedUseLeavesStaleCount | src/main/java/cn/i7mc/managers/VipExemptionManager.java:68-70 | an unlimited grant skips the read, so its use caches 1 over a stored 3 raised to 4; a later grant of 3 still permits a use from the cache, which the table would refuse |
| VipExemption.CacheOutlivesTheDay | src/main/java/cn/i7mc/managers/VipExemptionManager.java:149-167 | as written, a player who used the one daily exemption yesterday is refused today from the cache although today's row is empty; keyed by day the exemption is granted |
| Death.TotemMaterial | src/main/java/cn/i7mc/listeners/PlayerDeathListener.java:261-281 | a totem material name resolves exactly when the platform knows it |
| Death.FindTotemInInventory | src/main/java/cn/i7mc/listeners/PlayerDeathListener.java:235-251 | a result is the first slot holding a valid totem; none means no slot does |
| Death.Consumed | src/main/java/cn/i7mc/listeners/PlayerDeathListener.java:205-211 | corrected (Finding 5): using a totem changes only its slot |
| Death.TotemCountUpdate | src/main/java/cn/i7mc/listeners/PlayerDeathListener.java:205-211 | changing one slot changes the totem count by what that slot held and now holds |
| Death.ConsumeTakesOne | src/main/java/cn/i7mc/listeners/PlayerDeathListener.java:205-211 | corrected (Finding 5): using a totem lowers the count of valid totems by exactly one |
| Death.CheckAndConsumeTotem | src/main/java/cn/i7mc/listeners/PlayerDeathListener.java:181-225 | corrected (Finding 5): a totem is used exactly when the inventory holds a valid one; then one is taken from the first such slot, the inventory and, as configured, the level are kept and nothing drops; otherwise nothing changes |
| Death.HandleVipExemption | src/main/java/cn/i7mc/listeners/PlayerDeathListener.java:342-362 | the death is saved exactly when an exemption is available and recorded; then everything is kept; otherwise the table stays |
| Death.HandleEconomyInsurance | src/main/java/cn/i7mc/listeners/PlayerDeathListener.java:131-169 | the death is saved exactly when insurance is on with a positive cost that is paid; then everything is kept; otherwise the event is untouched |
| Death.HandleDeathDrops | src/main/java/cn/i7mc/listeners/PlayerDeathListener.java:290-300 | nothing drops: the inventory and experience go to the tombstone |
| Death.HasItems | src/main/java/cn/i7mc/listeners/PlayerDeathListener.java:314-320 | the scan finds an item exactly when some slot holds a non-air item |
| Death.GatesRules | src/main/java/cn/i7mc/listeners/PlayerDeathListener.java:68-87 | in a pvp-only world a death no player caused stops; elsewhere the world check alone decides; passing needs the basic permission |
| Death.GateStop | src/main/java/cn/i7mc/listeners/PlayerDeathListener.java:68-87 | the gates stop the death exactly when they do not pass, with the world, non-pvp and pvp-permission outcomes in that order |
| Death.RunSavers | src/main/java/cn/i7mc/listeners/PlayerDeathListener.java:89-104 | corrected (Finding 5): a totem, then an exemption, then the insurance saves the death, each exactly when the earlier ones did not |
| Death.SaveFromDeath | src/main/java/cn/i7mc/listeners/PlayerDeathListener.java:64-104 | each outcome of the first half happens exactly when the gates and savers before it let the death through and its own condition holds; a death stopped by the world or pvp gates leaves the event, the inventory and the exemption state untouched, so the vanilla drops fall |
| Death.DropIntoTombstone | src/main/java/cn/i7mc/listeners/PlayerDeathListener.java:290-332 | nothing drops; an empty inventory without experience creates nothing and leaves the manager, world, store and presenters untouched; otherwise a created tombstone belongs to the player, carries the experience and is active |
| Death.OnPlayerDeath | src/main/java/cn/i7mc/listeners/PlayerDeathListener.java:64-109 | the death ends in exactly one of the world, non-pvp, pvp-permission, totem, exemption, insurance, nothing-to-save or tombstone outcomes, each under its own condition; the three gate stops leave the event, inventory and exemption state untouched; every outcome but the tombstone one leaves the manager, world, store and presenters untouched |
| Death.ConsumedAsWritten | src/main/java/cn/i7mc/listeners/PlayerDeathListener.java:210 | as written, a larger stack shrinks by one in its slot as in the corrected consumption, while a single totem empties every storage slot (0-35) holding an equal stack and no armour or off-hand slot |
| Death.TwoTotemsBothLost | src/main/java/cn/i7mc/listeners/PlayerDeathListener.java:205-211 | as written two single totems in two slots are both lost to one death; corrected, one stays |
| Death.OffHandTotemNeverUsed | src/main/java/cn/i7mc/listeners/PlayerDeathListener.java:205-211 | as written, a lone single totem in the off hand is the one found but is never removed, so the inventory and the totem count stay and it saves every death; corrected, the count drops by one |
| Commands.LowerTwice | src/main/java/cn/i7mc/commands/PDMCommand.java:69 | lower-casing twice is lower-casing once |
| Commands.DispatchIgnoresCase | src/main/java/cn/i7mc/commands/PDMCommand.java:69-106 | dispatch ignores letter case, and an unknown word is reported lower-cased |
| Commands.Aliases | src/main/java/cn/i7mc/commands/PDMCommand.java:71-105 | every alias names the same sub-command as its long form |
| Commands.LowerCaseDispatch | src/main/java/cn/i7mc/commands/PDMCommand.java:69-106 | a word without upper-case letters dispatches as it stands, and its upper-case form the same way |
| Commands.TeleportIndex | src/main/java/cn/i7mc/commands/PDMCommand.java:247-296 | an index exists exactly when the argument parses as an `int` |
| Commands.TeleportIndexOfNumber | src/main/java/cn/i7mc/commands/PDMCommand.java:247-296 | the number i+1 selects the i-th listed tombstone |
| Commands.AcceptedNumbers | src/main/java/cn/i7mc/commands/PDMCommand.java:247-296 | a typed number selects a tombstone exactly when it lies between 1 and the count |
| Commands.SmallestIntWraps | src/main/java/cn/i7mc/commands/PDMCommand.java:247-296 | the smallest `int` wraps to the largest index and is refused like any number below 1 |
| Commands.CommandAlwaysHandled | src/main/java/cn/i7mc/commands/PDMCommand.java:59-107 | the command always reports itself handled, and no argument shows the help |
| Commands.AdminCommandsNeedPermission | src/main/java/cn/i7mc/commands/PDMCommand.java:127-147 | reload, and cleanup likewise at lines 322-330, do nothing for a sender without their admin permissions |
| Commands.TeleportRules | src/main/java/cn/i7mc/commands/PDMCommand.java:247-296 | a teleport happens only for a player with the permission, a number between 1 and the count and a loaded world, and goes just above the tombstone the number names; the console is refused |
| Commands.OfferedSpec | src/main/java/cn/i7mc/commands/PDMCommand.java:460-470 | corrected (Finding 6): a sub-command is offered exactly when it is listed, starts with the input and the sender holds its permission |
| Commands.NumbersSpec | src/main/java/cn/i7mc/commands/PDMCommand.java:471-478 | the numbers offered are 1 to the count, in order |
| Commands.OnTabComplete | src/main/java/cn/i7mc/commands/PDMCommand.java:456-482 | corrected (Finding 6): one argument offers the permitted sub-commands starting with the lower-cased input; a second argument after `teleport` offers a player the numbers of their tombstones; anything else offers nothing |
| Commands.OfferedCanRun | src/main/java/cn/i7mc/commands/PDMCommand.java:456-482 | corrected (Finding 6): an offered `reload`, `cleanup`, `list`, `gui` or `teleport` comes with the permission its command checks, starts with the input and names a known sub-command; the player-only check of `list`, `gui` and `teleport` is not part of the offer, so a console sender may be offered them |
| Commands.NumbersSelectTombstones | src/main/java/cn/i7mc/commands/PDMCommand.java:471-478 | every number offered after `teleport` selects the tombstone in that position |
| Commands.ReloadOfferMismatch | src/main/java/cn/i7mc/commands/PDMCommand.java:466 | as written, completion offers `reload` on a permission the command does not check and hides it from the admins who may run it |
| Commands.OfferMatchesCommand | src/main/java/cn/i7mc/commands/PDMCommand.java:466 | corrected (Finding 6): each offer asks for the permission its command checks |

## Left out

- Bukkit itself is not modelled. Worlds, blocks, tile states, entities, inventories and players are maps and values; events are records of the fields the listeners read.
- JDBC and SQL are not modelled. The tables are in-memory sequences. Every `SQLException` (connection, statement, the `player_exemptions` reads and writes) is a boolean parameter of the operation that can throw it.
- Item serialization is not modelled. A stored item is either a value or a corrupt payload. `isSimilar` and `getMaxStackSize` are parameters.
- Scheduling, asynchronous tasks and concurrency are not modelled. This covers `runTaskTimer`, `runTaskLater` and the thread safety of `ConcurrentHashMap`. Each scheduled run is one method call.
- Floating point is not modelled. This covers hologram offsets, the particle guidance line, `getDistance` and the economy: `EconomyManager` is reduced to the three booleans of `Death.Insurance`. The teleport target keeps its exact `+0.5`/`+1` coordinates and zero yaw, but `TeleportMenu.TeleportTarget` states it only at block precision.
- The wall clock and the calendar are not modelled. The current time and the current day are parameters. `formatTimestamp` and `addTimePlaceholders`, which format dates, are not modelled.
- Colour codes are not modelled. `ChatColor.translateAlternateColorCodes` in `getMessage` and `getHologramLines` is left out, and GUI titles arrive already translated.
- YAML loading in `ConfigManager` is not modelled. Configuration values are parameters.
- The plugin wiring in `PlayerDeadManager` is not modelled. This covers `onEnable`, `onDisable` and listener registration.
- Java regular expressions are not modelled. `VipTimeManager`'s permission pattern and `MessageManager`'s placeholder pattern are written as small string scanners.
- Messages sent to players and log lines are not modelled. Commands and listeners return an outcome value naming the message key they would send.
- The player's own inventory and experience after a take are not modelled. In `takeItem` and `handleExperienceClick` the item or the experience is given before the store write. So on a store fault the player keeps what they were given, while the model shows only that the tombstone is unchanged.
- VIP times are never applied. `VipTimeManager.getProtectionTime` and `getDespawnTime` are modelled (`VipTime.TimesRules`), but nothing calls them: `createTombstone` uses the global protection time and the sweep uses the global despawn hours, as the code does.
- Permissions are modelled as a set of names: `hasPermission` is set membership. Operator status, defaults and inheritance are not modelled. A missing `vip-times.permissions` section makes the source throw; the model does not include that path.
- `VipTime` parsing reads ASCII digits only. `Character.isDigit` and `Integer.parseInt` also accept other Unicode digits, and the model does not.
- `EntityCleanup.GetHologramTombstoneId`: ASCII digits only. `Long.parseLong` also accepts other Unicode digits.
- `Commands.TeleportIndex`: ASCII digits only. `Integer.parseInt` also accepts other Unicode digits.
- `ParticleUtil.ParticleType`: upper-casing is ASCII-only. `toUpperCase()` depends on the default locale and maps all of Unicode.
- `TombstoneManagement.TombstoneMaterial`: upper-casing is ASCII-only, for the same reason.
- `VipExemption.GetPlayerMaxExemptions`: reads the permissions the player holds. `getEffectivePermissions()` also lists permissions set to false, and the source counts those too; the model does not.
- `VipExemption.ExemptionManager`: no table in the plugin creates `player_exemptions`, and `INSERT OR REPLACE` is SQLite syntax. So, as written, every exemption read and write can throw on a fresh database or on MySQL. The model's read and write fault inputs cover that; it does not derive them from the schema.
- `Commands`: `toLowerCase` is ASCII-only. `reloadPlugin`, the cleanup task and GUI opening are outcomes, not effects.
- `Commands.OnTabComplete`: completion for `help` and `info` asks for `playerdeadmanager.help` and `playerdeadmanager.info`, as written. The teleport argument completion checks `teleport` only, not the `tp` alias, as written.
- `Death.FindTotemInInventory`: the source's second scan over the inventory finds nothing the first scan missed, so it is modelled once.
- `HologramUtil.HologramLines`: placeholders are substituted in one pass. The source calls `String.replace` once per entry, one after another. The two differ only when a value itself contains a `{key}` of a later entry.
- `Store.IsValidUuid`: accepts the canonical 8-4-4-4-12 form. `UUID.fromString` is more lenient about the length of each group.
- `Store` expiry: the SQLite form (`death_time + despawn < now`) and the MySQL form (`death_time < now - despawn`) agree on unbounded integers. They can differ only when Java's `long` overflows, and the model does not include that overflow.
- `VipExemption.ExemptionManager.UseExemption`: the cached count matches the table only when the grant is finite and the count was read before the use. An unlimited grant or a failed read leaves a cached count below the table's, as the source does (`VipExemption.UnlimitedUseLeavesStaleCount`); every exemption member accepts that state and states what it does from it.
- `Store.ByDeathDesc`: records with equal death times keep their table (id) order. `ORDER BY death_time DESC` leaves their order open, and on such a tie it decides which record `TombstoneManagement.FirstOldest` evicts.
- `EntityCleanup.CleanupAllTombstoneEntities`: which chunks the server has loaded is a parameter. Tagged blocks and hologram stands in unloaded chunks are left, as `getLoadedChunks` and `getEntities` leave them.
- `EntityCleanup.CleanupTombstoneEntitiesAt`: the stands within five blocks are removed whether or not their chunk is loaded. `getNearbyEntities` sees only loaded chunks; `location.getBlock()` loads the tombstone's own chunk, but a stand just across a chunk border may be unloaded.
- `Tombstones.TombstoneInstance.CreateCompleteInstance`: the three creation hooks are abstract, so their effect on the presence flags is not stated.

## Findings

| source | as written | input that shows it | evidently intended | confidence | as-written member | corrected member |
|---|---|---|---|---|---|---|
| src/main/java/cn/i7mc/managers/TombstoneManager.java:135 | active tombstones are keyed by the player's exact death location, while the listeners and `getTombstone` look them up by `block.getLocation()` | death at (10.5, 64.0, -5.5) with yaw 90: the block's location (10, 64, -6) with yaw 0 finds no entry | key by the block, so a tombstone is found from its own block | not executed | TombstoneManagement.KeyingMissesFractionalLocation | TombstoneManagement.LookupByBlockFindsTombstone |
| src/main/java/cn/i7mc/guis/TeleportGUI.java:330-333 | when the query at opening failed, the menu holds the immutable `List.of()` that `getPlayerTombstones` returns (TombstoneManager.java:503), and `clear` on it throws at refresh | open the menu while the store is down, then click refresh after it recovers | refresh reloads the list whatever the first query returned | not executed | TeleportMenu.RefreshAfterFailedQueryThrows, TeleportMenu.TeleportGui.HandleRefreshClickAsWritten | TeleportMenu.TeleportGui.HandleRefreshClick |
| src/main/java/cn/i7mc/listeners/InventoryClickListener.java:231-247 | a click in the items GUI passes `e.getSlot()` on to `handleClick`, which for a click in the player's own inventory is a slot of that inventory | right click at raw slot 59 (slot 14 of the player's inventory under a six-row GUI) takes the tombstone's 15th item | only clicks in the GUI's own inventory (raw slot below its size) act on the tombstone | not executed | InventoryClick.BottomClickTakesTombstoneItem | InventoryClick.Dispatch, InventoryClick.DispatchRules |
| src/main/java/cn/i7mc/managers/VipExemptionManager.java:149-167 | the daily usage cache is keyed by player only and never cleared at midnight, so yesterday's count answers for today | one exemption a day, used on day d: on day d + 1 the cached 1 refuses, although that day's row is empty | key the cache by player and day | not executed | VipExemption.CacheOutlivesTheDay | VipExemption.ExemptionManager.GetPlayerUsedExemptions |
| src/main/java/cn/i7mc/listeners/PlayerDeathListener.java:205-211 | a single totem is consumed with `inventory.remove(totemItem)`, which removes every equal stack of the storage slots and nothing from the armour or off-hand slots | two single totems in two storage slots: one death takes both; a lone single totem in the off hand is never used up | consume one totem only | not executed | Death.ConsumedAsWritten, Death.TwoTotemsBothLost, Death.OffHandTotemNeverUsed | Death.ConsumeTakesOne, Death.CheckAndConsumeTotem |
| src/main/java/cn/i7mc/commands/PDMCommand.java:466 | tab completion offers `reload` to holders of `playerdeadmanager.reload`, while the command (line 129) runs only for `playerdeadmanager.admin.reload` | a sender with only `playerdeadmanager.admin.reload` is not offered `reload`; one with only `playerdeadmanager.reload` is offered a command that refuses them | completion asks for the permission the command checks | not executed | Commands.ReloadOfferMismatch | Commands.OfferMatchesCommand, Commands.OnTabComplete |
