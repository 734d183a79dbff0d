# anaconda storage device graph, in Dafny

This project models the device dependency graph of the anaconda installer's
storage layer (`src/storage/devices.py`) and the `total_memory` helper of
`pyanaconda.isys`, and proves properties of the model.

Devices live in an arena, a sequence of immutable `Device` records indexed
by their id. Each record holds its ordered parent list, its `kids`
counter, its existence flag, its sizes, its format and a kind-specific
part. The kinds are a disk, a partition, a LUKS mapping, a volume group, a
logical volume, or any other storage device that keeps the base class's
size property, `create` and `destroy`, such as a multipath device. An operation that mutates devices in the source is a
pure function here. It returns the new arena, or the exception the source
raises, as a `Result`. Where the source mutates before it raises, the
result carries both the partial state and the error.

The modules follow the classes of the source:

- `Model`: devices, formats, partition type bits, and the group and
  volume records.
- `Graph`: `Device` and `StorageDevice`. This covers child counting,
  leaves, building a device, `create`/`destroy`, replacing a format, the
  size properties and `checkSize`.
- `Dependencies`: `dependsOn` and `growable`. These walks are proved equal
  to reachability along parent links.
- `Partitions`: `PartitionDevice`. This covers the partition types, moving
  a partition to a disk, and creating a partition on the disk's working
  label or destroying it on the disk's original label, where the label's
  commit may fail.
- `VolumeGroups`: `LVMVolumeGroupDevice`. This covers extent alignment,
  size, reserved, snapshot and free space, `complete`, and adding and
  removing physical and logical volumes.
- `LogicalVolumes`: `LVMLogicalVolumeDevice`, `LVMThinPoolDevice` and
  `LVMThinLogicalVolumeDevice`.
- `MdRaid`: `MDRaidArrayDevice`'s sizes, superblock headroom, device
  counts and `mdadm.conf` line.
- `Names`: `devicePathToName`, the device-mapper names of groups and
  volumes, and the multipath `wwid`.
- `Meminfo`: `total_memory` over the lines of /proc/meminfo.
- `Outcomes`, `Text`, `Lists`: results and errors, Python's `str.split`
  and `int`, and counting and summing over id lists.

Sizes are whole MB, except two. MD array sizes are in KB, where RAID10's
half members and the 0.5 MB chunk are whole numbers. `total_memory` is in
kB, as /proc/meminfo reports it.

The code departs from the documented behaviour in four places, listed
under "Findings". Each is modelled as written and as corrected; the rest of
the model uses the corrected form.

## Model

| member | source | states |
|---|---|---|
| Graph.AddDevice | src/storage/devices.py:205-230 | building a device appends it with no children and adds one to the `kids` of each listed parent, once per listing; nothing else changes |
| Graph.AddDeviceKeepsKidsExact | src/storage/devices.py:223-230 | after a device is built, every `kids` counter still equals the number of parent links pointing at that device |
| Graph.LeafIffNoChildren | src/storage/devices.py:345-348 | when the counters are exact, `isleaf` holds exactly when no device lists this one as a parent |
| Graph.IsLeaf | src/storage/devices.py:345-348 | `isleaf` tests the child counter; its meaning is LeafIffNoChildren |
| Graph.NoLinksIffAbsent | src/storage/devices.py:272-278 | a device has zero child links exactly when it appears in no parent list |
| Graph.Relink | src/storage/devices.py:272-278 | replacing a device's parent list moves each parent's `kids` by how many times it was dropped or added, and changes no other field |
| Graph.RelinkKeepsKidsExact | src/storage/devices.py:272-278 | re-linking a device keeps every `kids` counter exact |
| Graph.SizeOf | src/storage/devices.py:657-669 | `size`: under the base rule an existing device without media is 0, a new device has its stored size, an existing resizable one its target size and a probed non-resizable one the probe; a partition has its parted size or else its stored size; a LUKS mapping that is not open has its backing device's size less the 2 MB header |
| Graph.ReadSize | src/storage/devices.py:1739-1746 | reading the size of a LUKS mapping that needs a slave and has no parent raises IndexError, and only then; otherwise the read gives `SizeOf` |
| Graph.SizeOfFrame | src/storage/devices.py:1739-1746 | a device's size depends only on its own size fields and, for a LUKS mapping, on its slave's size |
| Graph.StorageSize | src/storage/devices.py:657-669 | the base `size` rule: an existing resizable device reports its target size |
| Graph.Resizable | src/storage/devices.py:590-594 | `resizable` holds only for an existing partition or logical volume whose format is resizable |
| Graph.CurrentSize | src/storage/devices.py:682-690 | `currentSize` is 0 for a device that does not exist, else the probed size when there is one, else the stored size |
| Graph.MaxSize | src/storage/devices.py:700-706 | `maxSize` is the smaller of the current size and the format's maximum |
| Graph.SetSize | src/storage/devices.py:671-676 | for the kinds that keep the base setter: assigning the read-only size of a disk, a LUKS mapping or a volume group raises AttributeError; a size above `maxSize` raises DeviceError naming that maximum; otherwise only that device's stored size changes |
| Graph.SetSizeAsWritten | src/storage/devices.py:671-676 | as written, a read-only size raises AttributeError and the too-large case raises TypeError, because the property's value is called |
| Graph.SetSizeRaisesTypeError | src/storage/devices.py:671-676 | the as-written and corrected setters fail on the same sizes and agree when they succeed, but the as-written one raises TypeError, not DeviceError |
| Graph.SetSizeTypeErrorExample | src/storage/devices.py:671-676 | an existing 100 MB multipath device whose format allows 50 MB, set to 80 MB, raises TypeError where the DeviceError was meant; a disk of the same shape raises AttributeError instead |
| Graph.CheckSize | src/storage/devices.py:814-826 | `checkSize` of a kind that keeps the base method: with no bound set it reports nothing without reading the size; otherwise it raises IndexError exactly when the size cannot be read, else reports nothing exactly when the size is within the bounds, too large exactly when it exceeds a non-zero maximum, and too small only below the minimum |
| Graph.RequestCheckSize | src/storage/devices.py:2671-2687 | `checkSize` of a logical volume or partition: too large as in the base test; too small exactly when not too large and either a request that does not grow is below the minimum, or a growing request's size limit is below it |
| Graph.RequestCheckWithoutGrow | src/storage/devices.py:1544-1560 | for a request that does not grow, the override agrees with the base bounds test |
| Graph.GrowingRequestIgnoresSize | src/storage/devices.py:1544-1560 | a growing request is too small exactly when it is not too large and its non-zero size limit is below the minimum, whatever its current size |
| Graph.CheckBounds | src/storage/devices.py:814-826 | the bounds test reports too large exactly when a non-zero maximum is exceeded, nothing exactly when both non-zero bounds hold, and too small only below the minimum |
| Graph.Create | src/storage/devices.py:744-753 | `create` raises when the device exists, with "device has already been created" from the base class and "device already exists" from the LUKS, group and volume overrides (1748-1752, 2083-2087, 2605-2609), and when a parent does not exist (307-312); a LUKS mapping without a backing device raises IndexError and takes its backing format's map name; a failed LVM command on a group or volume passes through with nothing changed; otherwise only `exists` is set |
| Graph.Destroy | src/storage/devices.py:755-767 | for each kind, when `destroy` raises and what it leaves: only the base class refuses a non-leaf; a disk refuses one without media (901-907) and, like a LUKS mapping (1805-1809), never clears `exists`; a group clears `exists` even when LVM's removal fails and it raises DeviceError (2111-2127); a volume clears it only once LVM has removed it (2634-2647); no other device, `kids` counter or parent list changes |
| Graph.CreateThenDestroy | src/storage/devices.py:744-767 | creating and then destroying a base-class leaf, a group or a volume (these two need not be leaves) gives back the original arena |
| Graph.CreatedDiskOutlivesDestroy | src/storage/devices.py:901-907 | a disk or LUKS mapping that `create` made exist still exists after `destroy`, whatever it raised |
| Graph.SetFormat | src/storage/devices.py:720-731 | replacing an active format raises DeviceError; otherwise only that device's format changes, to a blank format when none is given |
| Graph.SetFormatUndo | src/storage/devices.py:720-731 | setting a format and then the old one back gives back the original arena |
| Dependencies.DependsOnIffReaches | src/storage/devices.py:315-325 | on an acyclic arena `dependsOn(dep)` holds exactly when a chain of parent links leads to a device that lists `dep` as a parent or is a logical partition beside the extended partition `dep` |
| Dependencies.DependsOn | src/storage/devices.py:315-325 | a device depends on every device it depends on directly; the full characterisation is DependsOnIffReaches |
| Dependencies.Growable | src/storage/devices.py:803-812 | a device that asks to grow is growable; the full characterisation is GrowableIffReaches |
| Dependencies.WithinIffReaches | src/storage/devices.py:315-325 | the walk bounded by the arena size decides reachability on an acyclic arena |
| Dependencies.DependsOnParents | src/storage/devices.py:315-325 | every parent is depended on |
| Dependencies.DependsThroughParent | src/storage/devices.py:315-325 | a device depends on whatever any of its parents depends on |
| Dependencies.RootDependsOnNothing | src/storage/devices.py:315-325 | a device without parents that is not a logical partition depends on nothing |
| Dependencies.LogicalDependsOnExtended | src/storage/devices.py:1234-1240 | a logical partition depends on an extended partition of its disk even with no parent link between them |
| Dependencies.GrowableIffReaches | src/storage/devices.py:803-812 | `growable` holds exactly when a chain of parent links leads to a device that asks to grow |
| Partitions.NonLogicalDependsOnParents | src/storage/devices.py:1234-1240 | a partition that is not logical depends directly on exactly its parents |
| Partitions.ExtendedRuleIff | src/storage/devices.py:1129-1146 | between two unlinked partitions of one disk, the direct dependence holds exactly when the first is logical and the second extended, and never when either is primary |
| Partitions.NewPartitionRequest | src/storage/devices.py:976-983 | a new partition request ends up with no parents: each requested disk is counted as a parent and then uncounted, so no `kids` changes |
| Partitions.NewPartitionRequestKeepsKidsExact | src/storage/devices.py:976-983 | building a partition request keeps every `kids` counter exact |
| Partitions.SetDisk | src/storage/devices.py:1501-1515 | moving a partition makes its parents just the new disk, or none; the old disk's `kids` goes down by one and the new disk's up by one; no other field of any device changes |
| Partitions.SetDiskIsRelink | src/storage/devices.py:1501-1515 | moving a partition drops the old disk as parent and adds the new one, with their child counts adjusted |
| Partitions.SetDiskKeepsKidsExact | src/storage/devices.py:1501-1515 | moving a partition keeps every `kids` counter exact |
| Partitions.CreatePartition | src/storage/devices.py:1315-1353 | on the disk's working label: creating an existing partition raises; a failed label commit removes the partition from the label and leaves the arena as it was; success, exactly when the parents exist, there is a disk and the commit works, marks it existing and puts it on the label |
| Partitions.DestroyPartition | src/storage/devices.py:1401-1425 | on the disk's original label: a partition that does not exist raises; one without a sysfs path is left alone; a non-leaf raises "Cannot destroy non-leaf device"; one without a disk raises AttributeError; a failed commit raises DiskLabelCommitError with the partition back on the label; the arena changes exactly when the commit works, and then the partition no longer exists and is off the label |
| Partitions.CreateRollsBack | src/storage/devices.py:1315-1353 | a failed commit while creating leaves both the arena and the label as they were |
| Partitions.DestroyRollsBack | src/storage/devices.py:1401-1425 | a failed commit while destroying leaves both the arena and the label as they were |
| Partitions.CreateKeepsLabelInStep | src/storage/devices.py:1315-1353 | a partition that creation marks existing is on the label, and no other device changes |
| Partitions.CreateThenDestroyPartition | src/storage/devices.py:1315-1425 | creating a leaf partition and destroying it gives back the original arena; the working label gains the partition and the original label loses it |
| VolumeGroups.Align | src/storage/devices.py:2270-2282 | `align` returns a whole number of extents, at most one extent above the size when rounding up and at most one below otherwise |
| VolumeGroups.AlignIdempotent | src/storage/devices.py:2270-2282 | aligning an aligned size again, in either direction, changes nothing |
| VolumeGroups.AlignMonotone | src/storage/devices.py:2270-2282 | alignment preserves order |
| VolumeGroups.PvCapacity | src/storage/devices.py:2231-2242 | a PV contributes a non-negative whole number of extents, no more than its size past the data start and less than one extent below it |
| VolumeGroups.PeStart | src/storage/devices.py:2240 | the header a PV keeps before its first extent, read from its PV format |
| VolumeGroups.VgSize | src/storage/devices.py:2231-2242 | the group's size is a non-negative whole number of extents |
| VolumeGroups.LinkPvGrowsSize | src/storage/devices.py:2231-2242 | adding a PV grows the group's size by exactly that PV's aligned capacity |
| VolumeGroups.UnlinkPvShrinksSize | src/storage/devices.py:2231-2242 | removing a PV shrinks the group's size by exactly that PV's aligned capacity |
| VolumeGroups.LinkPv | src/storage/devices.py:2160-2173 | linking a PV appends it to the group's parents and adds one to its `kids`; the group record and every other field stay |
| VolumeGroups.UnlinkPv | src/storage/devices.py:2175-2194 | unlinking drops the first listing of the PV and takes one from its `kids`; the group record and every other field stay |
| VolumeGroups.LvSpaceUsed | src/storage/devices.py:2473-2477 | a volume uses its size rounded up to extents once per copy, times its copies, plus log and metadata, which lies between the copies' raw size and one extent per copy above it; a thin pool adds the padding of that amount (2775-2778); a thin volume uses nothing |
| VolumeGroups.LvSpaceUsedRoundsEachCopy | src/storage/devices.py:2473-2477 | a 1 MB two-copy volume in 4 MB extents uses 8 MB, where rounding the whole mirror once would give 4 MB |
| VolumeGroups.VoriginSpace | src/storage/devices.py:2205-2218 | snapshots without an origin take whole extents, never a negative amount |
| VolumeGroups.SnapshotSpace | src/storage/devices.py:2205-2218 | the snapshot space of the listed volumes plus that of origin-less snapshots; pinned by the free-space lemmas |
| VolumeGroups.ReservedSpace | src/storage/devices.py:2220-2229 | reserved space is the percentage of the size rounded up to extents, else the fixed amount rounded up, else 0 |
| VolumeGroups.HundredthsToExtents | src/storage/devices.py:2220-2229 | a percentage of a size is rounded up to the smallest whole number of extents that covers it |
| VolumeGroups.FreeSpaceFrame | src/storage/devices.py:2251-2262 | free space depends only on the group record, its PVs and the size inputs of the devices involved |
| VolumeGroups.FreeSpace | src/storage/devices.py:2251-2262 | the group's size less its volumes' space, snapshots and reserve; pinned by FreeSpaceFrame, ListingUsesSpace and UnlistingFreesSpace |
| VolumeGroups.CheckVgSize | src/storage/devices.py:814-826 | `checkSize` on a group tests the format's bounds against the sum of the PVs: too large exactly when a non-zero maximum is exceeded, nothing exactly when both bounds hold |
| VolumeGroups.ListingUsesSpace | src/storage/devices.py:2251-2262 | listing a volume in the group lowers free space by exactly what that volume needs |
| VolumeGroups.UnlistingFreesSpace | src/storage/devices.py:2251-2262 | removing a listed volume raises free space by exactly what that volume needs |
| VolumeGroups.AddDeviceToVg | src/storage/devices.py:2003-2035 | probing a PV into a group raises for a new group, a non-PV or a member; a UUID mismatch sets the duplicate flag even when it then raises; success links the PV and counts it as a child |
| VolumeGroups.RemoveDeviceFromVg | src/storage/devices.py:2037-2051 | removing a non-member raises; otherwise the first listing is dropped and its `kids` goes down by one |
| VolumeGroups.DuplicateMakesIncomplete | src/storage/devices.py:2019-2035 | a UUID mismatch leaves the group incomplete |
| VolumeGroups.DuplicateIsSticky | src/storage/devices.py:2019-2035 | once set, the duplicate flag survives any further probing, so the group stays incomplete |
| VolumeGroups.AddDeviceCompletes | src/storage/devices.py:2302-2311 | probing the last missing PV of an existing group turns it from incomplete to complete |
| VolumeGroups.AddThenRemoveDevice | src/storage/devices.py:2003-2051 | probing a PV in and removing it again gives back the original arena |
| VolumeGroups.AddDeviceKeepsKidsExact | src/storage/devices.py:2003-2035 | probing keeps every `kids` counter exact |
| VolumeGroups.NewGroupComplete | src/storage/devices.py:2302-2311 | a group that does not exist yet is complete exactly when it has no duplicate |
| VolumeGroups.Complete | src/storage/devices.py:2302-2311 | a group with a duplicate is never complete; otherwise it is complete when all expected PVs are present or it does not exist; pinned by the duplicate and probing lemmas |
| VolumeGroups.AddPv | src/storage/devices.py:2160-2173 | adding a member PV raises ValueError; adding to an existing group raises DeviceError; success appends the PV, counts it as a child and sets `pvCount` to the new number of PVs |
| VolumeGroups.RemovePv | src/storage/devices.py:2175-2194 | removing a non-member raises ValueError; removing from an existing group raises DeviceError; success drops the PV, uncounts the child and sets `pvCount` to the new number of PVs |
| VolumeGroups.AddPvGrowsSize | src/storage/devices.py:2160-2173 | adding a PV grows the group by that PV's capacity |
| VolumeGroups.RemovePvShrinksSize | src/storage/devices.py:2175-2194 | removing a PV shrinks the group by that PV's capacity |
| VolumeGroups.AddThenRemovePv | src/storage/devices.py:2160-2194 | adding a PV and removing it gives back the original arena when `pvCount` was in step |
| VolumeGroups.AddPvIsLink | src/storage/devices.py:2160-2173 | adding a PV is raising the expected count and then linking the PV |
| VolumeGroups.AddPvKeepsKidsExact | src/storage/devices.py:2160-2173 | adding a PV keeps every `kids` counter exact |
| VolumeGroups.RemovePvKeepsKidsExact | src/storage/devices.py:2175-2194 | removing a PV keeps every `kids` counter exact |
| VolumeGroups.AddLogVolAsWritten | src/storage/devices.py:2138-2151 | as written, a new volume is accepted when its size alone fits the free space |
| VolumeGroups.SpaceChecked | src/storage/devices.py:2145-2147 | the space check applies only to a new, non-thin volume in a group that is not growable |
| VolumeGroups.AddLogVol | src/storage/devices.py:2138-2151 | a listed volume raises ValueError; a checked volume whose space need exceeds free space raises DeviceError; otherwise only the group's volume list grows |
| VolumeGroups.AddLogVolNeverOvercommits | src/storage/devices.py:2138-2151 | a checked volume that is accepted leaves non-negative free space |
| VolumeGroups.AddLogVolOvercommitExample | src/storage/devices.py:2138-2151 | a 60 MB two-copy volume in a 104 MB group is accepted as written and leaves -16 MB free; the corrected check refuses it |
| VolumeGroups.RemoveLogVol | src/storage/devices.py:2153-2158 | removing an unlisted volume raises; otherwise only its first listing is dropped |
| VolumeGroups.AddThenRemoveLogVol | src/storage/devices.py:2138-2158 | adding a volume and removing it gives back the original arena |
| LogicalVolumes.SetLvSizeAsWritten | src/storage/devices.py:2461-2469 | as written, the aligned size is accepted when it is at most free space plus the current size |
| LogicalVolumes.SetLvSize | src/storage/devices.py:2461-2469 | the size is aligned down; it is accepted exactly when the extra space the volume would use fits in free space; a refusal raises ValueError and changes nothing |
| LogicalVolumes.ResizeSpace | src/storage/devices.py:2461-2477 | resizing a listed volume lowers free space by exactly the change in the space it uses |
| LogicalVolumes.SetLvSizeNeverOvercommits | src/storage/devices.py:2461-2469 | an accepted resize leaves non-negative free space |
| LogicalVolumes.SetLvSizeOvercommitExample | src/storage/devices.py:2461-2469 | growing a 40 MB two-copy volume to 60 MB is accepted as written and leaves -16 MB free; the corrected setter refuses it |
| LogicalVolumes.SetThinSize | src/storage/devices.py:2827-2832 | a thin volume's size is set to a whole number of its pool's group's extents within one extent below the request, with no space check |
| LogicalVolumes.SetThinSizeAlignsOnce | src/storage/devices.py:2827-2832 | aligning the size twice gives the same result as aligning it once |
| LogicalVolumes.SetThinSizeMovesPoolSpace | src/storage/devices.py:2813-2825 | resizing a thin volume changes its pool's used space by the change in its rounded-up size, and the volume still uses no group space |
| LogicalVolumes.PoolSpaceOf | src/storage/devices.py:2813-2825 | a thin volume's `poolSpaceUsed` is its size rounded up to extents; pinned by SetThinSizeMovesPoolSpace |
| LogicalVolumes.PoolUsedSpace | src/storage/devices.py:2780-2782 | the pool's used space adds up its thin volumes' use; pinned by SetThinSizeMovesPoolSpace and PoolAddUsesPoolSpace |
| LogicalVolumes.PoolFreeSpace | src/storage/devices.py:2784-2786 | the pool's size less its used space; pinned by PoolAddUsesPoolSpace |
| LogicalVolumes.WithPoolLvs | src/storage/devices.py:2769-2772 | replacing a pool's volume list changes nothing else |
| LogicalVolumes.PoolAddLogVol | src/storage/devices.py:2751-2759 | adding to a pool raises for a pool member, fails as the group's add fails, and otherwise appends the volume to both the pool's list and the group's |
| LogicalVolumes.PoolRemoveLogVol | src/storage/devices.py:2761-2767 | removing from a pool raises for a non-member; it drops the volume from the pool before asking the group, so when the group refuses, the pool list has changed and the group's has not |
| LogicalVolumes.PoolAddKeepsNested | src/storage/devices.py:2751-2759 | adding keeps every pool volume in the group's list |
| LogicalVolumes.PoolRemoveKeepsNested | src/storage/devices.py:2761-2767 | removing keeps every pool volume in the group's list, and never fails when the lists were nested |
| LogicalVolumes.PoolAddThenRemove | src/storage/devices.py:2751-2767 | adding a volume to a pool and removing it gives back the original arena |
| LogicalVolumes.PoolAddUsesPoolSpace | src/storage/devices.py:2780-2786 | adding a volume lowers the pool's free space by the volume's rounded-up size |
| MdRaid.Smallest | src/storage/devices.py:2978-2984 | `smallestMember` is a member size no larger than any other |
| MdRaid.TypeOf | src/storage/devices.py:2880-2909 | a set whose first member is a container is a BIOS RAID set; otherwise a container level makes a container, anything else a plain array |
| MdRaid.RawArraySize | src/storage/devices.py:2922-2949 | the raw size fails exactly when there are no members; otherwise it is the level's number of half members times half the smallest member |
| MdRaid.CapacityIsHalves | src/storage/devices.py:2922-2949 | each level's rule equals its number of half members times half a member |
| MdRaid.Raid10IsHalfRaid0 | src/storage/devices.py:2922-2949 | RAID10 over an even number of members holds what RAID0 over half as many holds |
| MdRaid.HeadroomLoopNeverEnds | src/storage/devices.py:2951-2976 | for a negative raw size the loop as written is still running after any number of halvings |
| MdRaid.HeadroomLoopAsWritten | src/storage/devices.py:2972-2974 | the loop as written, when it stops, gives a headroom no larger than where it started whose 1024-fold fits the raw size |
| MdRaid.HeadroomNeverEndsExample | src/storage/devices.py:2922-2976 | a new RAID5 array of three 100 MB members whose member count the setter lowers to 0 has raw size -100 MB, and its headroom loop never ends |
| MdRaid.Headroom | src/storage/devices.py:2951-2976 | the headroom is 0 or a power of two up to 128 whose 1024-fold fits the raw size, and doubling it would not fit |
| MdRaid.HeadroomLoopStops | src/storage/devices.py:2951-2976 | for a non-negative raw size the loop as written stops within eight halvings at the headroom the intended loop describes |
| MdRaid.SuperBlockSize | src/storage/devices.py:2951-2976 | the superblock is 2 MB unless the metadata is 1.1 or 1.2; then it is the largest headroom up to 128 whose 1024-fold fits the raw size, or 0, and it fails only when there are no members |
| MdRaid.SuperBlockUnique | src/storage/devices.py:2951-2976 | only one value is the superblock size the description gives |
| MdRaid.TrimToChunk | src/storage/devices.py:2986-3023 | trimming gives a whole number of chunks less than one chunk below the size |
| MdRaid.MdSize | src/storage/devices.py:2986-3023 | an array without members has size 0; a BIOS RAID set reports its stored size; an existing array that parted can open reports parted's size; any other array holds the level's number of half members times half of the smallest member less the superblock, trimmed to chunks except for RAID1, less 1 MB, and an unknown level gives -1 MB |
| MdRaid.MdSizeWithinRaw | src/storage/devices.py:2986-3023 | a new array of a known level, less 1 MB, is a whole number of chunks and at most the raw size less 1 MB |
| MdRaid.ArraySize | src/storage/devices.py:2986-3023 | `size` end to end: 0 without members, the stored size for a BIOS RAID set, and otherwise `MdSize` at the superblock size `superBlockSize` gives, which for an existing array parted can open is parted's size and for a new array of a known level a whole number of chunks less 1 MB within the raw size |
| MdRaid.Spares | src/storage/devices.py:3120-3129 | spares and members make up the total when the total exceeds the members; otherwise there are no spares |
| MdRaid.TotalDevices | src/storage/devices.py:3098-3104 | the parents of an existing array, else the stored total; pinned by the spares lemmas |
| MdRaid.SetMemberDevices | src/storage/devices.py:3109-3115 | more members than devices raises ValueError; otherwise only the member count changes, and the spares are the rest |
| MdRaid.SetSpares | src/storage/devices.py:3131-3134 | a spare count at or above the total changes nothing; the setter fails only for a negative count |
| MdRaid.SetSparesRoundTrip | src/storage/devices.py:3120-3134 | setting a spare count below the total and reading it back gives that count |
| MdRaid.NegativeSparesRefused | src/storage/devices.py:3109-3134 | a negative spare count is refused by the members setter |
| MdRaid.MdadmConfEntry | src/storage/devices.py:3084-3096 | an array without a level or UUID raises DeviceError; every entry starts with `ARRAY` and the device path and ends in a newline |
| MdRaid.MdadmConfEntryReadsBack | src/storage/devices.py:3084-3096 | a plain array's entry splits into its five fields, and the level and member count parse back |
| Names.DevicePathToName | src/storage/devices.py:138-147 | a leading `/dev/` and then a leading `mapper/` are dropped, and nothing else |
| Names.DevicePathToNameInverts | src/storage/devices.py:138-147 | the name of a node under /dev or /dev/mapper is recovered from its path |
| Names.VgMapName | src/storage/devices.py:1962-1966 | the map name, read back with doubled dashes standing for one dash, gives the group name |
| Names.LvName | src/storage/devices.py:2503-2506 | a volume's name is the group's name, a dash, and its own name |
| Model.NameOf | src/storage/devices.py:2503-2506 | a logical volume with a group is named as Names.LvName joins the two names: the group's name, a dash, its own; any other device by its own name |
| Model.VgOf | src/storage/devices.py:2480-2482 | a volume's group is its parent, and for a thin volume (2809-2811) its pool's parent; only a logical volume has one |
| Names.LvMapName | src/storage/devices.py:2484-2488 | when the volume name does not start with a dash, the map name reads back as the group name followed by a lone dash and the volume's doubled name |
| Names.ParseLvMapName | src/storage/devices.py:2484-2488 | a volume's map name reads back as its group and volume names when the volume name does not start with a dash |
| Names.LvMapNameInjective | src/storage/devices.py:2484-2488 | two volumes whose names do not start with a dash never share a map name |
| Names.NameCollisions | src/storage/devices.py:2484-2506 | plain names of different volumes can coincide, while their map names differ; a volume name starting with a dash defeats the map name too |
| Names.Pairs | src/storage/devices.py:3608-3615 | the identity is cut into groups of two, the last possibly of one, which put together give it back |
| Names.Wwid | src/storage/devices.py:3608-3615 | reading `wwid` before the identity is set up raises RuntimeError; otherwise every third character is a colon, the others are the identity's characters in order, and there is one colon per two characters after the first |
| Names.GroupedShape | src/storage/devices.py:3608-3615 | the groups of two joined by colons have that shape |
| Names.WwidStripsBack | src/storage/devices.py:3608-3615 | dropping the colons of a `wwid` gives back the identity when it has no colon |
| Text.Split | src/pyanaconda/isys/__init__.py:182 | `split()` gives non-empty fields without whitespace |
| Text.ParseInt | src/pyanaconda/isys/__init__.py:187-188 | `int()` accepts exactly an optionally signed run of digits, and the sign gives the sign of the value |
| Meminfo.RoundUpMemory | src/pyanaconda/isys/__init__.py:193-200 | the rounded value is a multiple of 128 MB strictly above the reported value and at most 128 MB above it |
| Meminfo.NestedDivision | src/pyanaconda/isys/__init__.py:197-199 | dividing by 1024 and then by 128 is dividing by 128 MB |
| Meminfo.ReadMemTotalLine | src/pyanaconda/isys/__init__.py:182-200 | a line without three fields raises the format error; a second field that is not an integer raises the value error; otherwise the result is the value rounded up |
| Meminfo.MessagesDiffer | src/pyanaconda/isys/__init__.py:182-205 | the three RuntimeErrors are told apart by their messages |
| Meminfo.TotalMemory | src/pyanaconda/isys/__init__.py:174-205 | with no `MemTotal` line the not-found error is raised, and only then; a result is a multiple of 128 MB |
| Meminfo.FirstMemTotalDecides | src/pyanaconda/isys/__init__.py:176-181 | lines before the first `MemTotal` line are skipped, and that line alone decides the result |
| Meminfo.MemTotalRoundedUp | src/pyanaconda/isys/__init__.py:193-202 | a well-formed first `MemTotal` line gives a multiple of 128 MB strictly above its value, even when the value already is a multiple |

## Left out

- I/O and foreign code are left out: parted, `_ped`, lvm, mdadm, device-mapper, udev, sysfs and `os.access` probing, device setup, teardown and activation, and logging. Whether media is present, probed sizes and whether a disk label commit succeeds are fields or parameters.
- `lvm.get_pool_padding` is not part of this model. It is the parameter `pad`.
- The `mdraid` module's level constants, level parsing and minimum member counts are not part of this model. Levels are a datatype.
- iutil's `numeric_type` is not part of this model. Sizes are integers throughout.
- Floating point is left out: RAID10's `/ 2.0`, the float KB step in `align` and `reserved_percent * 0.01`. Sizes are whole MB and the extent size is a whole number of MB, where `align` is exact. Reserved space from a percentage is the exact rational rounded up to extents.
- `writeKS`, `dracutSetupArgs`, `__str__`, `dict` and `description` are output formatting.
- `_computeResize` and `resize` are left out. They need parted geometry.
- `partType`'s choice between the parted partition's type, the stored type and the requested type is left out. The model holds the resolved type, which may be unknown.
- `PartitionDevice`'s own `_setSize`, `maxSize` and `currentSize` are left out. They need parted geometry. The base setters (Graph.SetSize) are not defined for partitions and logical volumes, whose classes replace them; the volume setters are LogicalVolumes.SetLvSize and LogicalVolumes.SetThinSize.
- The constructors' argument validation is left out. This covers the VG constructor's PV check, the MD constructor's level and count checks and the thin pool's chunk size check.
- Graph.Create: a logical volume's `_preCreate`, which may shrink the volume to the free space LVM reports, and the size probe of `setup` after creating are left out, because they read LVM and the device. The LVM commands' outcome is the parameter `lvmFails`; the map name of the backing device's LUKS format is the parameter `mapName`, because formats are not modelled beyond their bounds and PV data.
- Graph.Destroy: tearing the format and device down and removing a volume's snapshots are I/O and are left out. Their failures are folded into `lvmFails` for groups and volumes, and taken to succeed for disks and LUKS mappings.
- The `create` and `destroy` of file-backed devices, directories, NFS mounts and `NoDevice` are not part of this model; the MD array's are left out with device setup, since the MdRaid module models its sizes and counts only.
- Graph.Resizable: `PartitionDevice.resizable` also requires that the disk is not a DASD; disk types are not part of this model, so a partition on a DASD counts as resizable here.
- Graph.RequestCheckSize: the request's `req_max_size` is the parameter `reqMaxSize`, because requests are not part of this model.
- Model.VgOf: a logical volume without a parent has no group here, where the source's `parents[0]` raises IndexError. Every volume the source builds has its group or pool as parent.
- VolumeGroups.PeStart: a PV whose format is not a PV raises AttributeError in the source; the model counts a data start of 0. Callers only pass PV-formatted devices.
- Graph.SizeOf: a volume group's own `size` is VolumeGroups.VgSize, in the module built on this one; SizeOf gives a group the stored-size rule and is read for a group only where a group stands in the place of a PV, a slave or a volume, which the source never builds. Setting a group's size and checking it are modelled (SetSize, CheckVgSize). A LUKS mapping with no parent gets its stored size less 2 MB from SizeOf; ReadSize raises the IndexError the source raises, and so does CheckSize when a format bound makes it read the size.
- Partitions.CreateThenDestroyPartition: the working label and the original label are independent parameters. How the original label catches up with the working one after a create is not part of this model; it happens outside the device classes.
- LogicalVolumes.PoolUsedSpace: a non-thin volume in a pool's list raises AttributeError in the source for `poolSpaceUsed`; the model counts 0 for it.
- The thin pool sets `metaDataSize` only after the base constructor has already asked the group for space. Listing a pool through `AddLogVol` uses whatever metadata size the record holds.
- MdRaid.SetMemberDevices: the `isinstance(number, int)` check is left out, because counts are integers.
- MdRaid.MdadmConfEntry: the `memberDevices is None` case is left out, because the member count is always an integer. The entry's contract also names its prefix and newline, not every field; the read-back lemma covers the fields of a plain array.
- MdRaid.Spares: the `totalDevices is None` branch, which also stores the member count as the total, is left out, because the total is always an integer.
- `setupIdentityFromInfo` and the RDAC override are not part of this model. The multipath identity is a parameter of `wwid`.
- Meminfo.TotalMemory: opening and reading /proc/meminfo is left out; the lines are a parameter.
- The `requires` clauses that name which devices are groups, volumes or pools, and that parent ids are valid, stand for the source's object types and references. They are not checks the source makes.

## Findings

| source | as written | input that shows it | evidently intended | confidence | as-written member | corrected member |
|---|---|---|---|---|---|---|
| src/storage/devices.py:671-676 | the error message calls `self.maxSize()`, but `maxSize` is a property, so the call is on an integer | an existing 100 MB multipath device (a class that keeps this setter) whose format allows 50 MB, size set to 80: TypeError "'int' object is not callable" | raise DeviceError "device cannot be larger than 50 MB" | high, not executed | Graph.SetSizeAsWritten, Graph.SetSizeTypeErrorExample | Graph.SetSize, Graph.SetSizeRaisesTypeError |
| src/storage/devices.py:2461-2469 | a new LV size is accepted when `size <= vg.freeSpace + _size`, ignoring copies, log and metadata | a 104 MB group holding a 40 MB two-copy LV (24 MB free), resized to 60 MB: accepted, free space becomes -16 MB | accept only when the extra group space the LV would use fits in free space | medium, not executed | LogicalVolumes.SetLvSizeAsWritten, LogicalVolumes.SetLvSizeOvercommitExample | LogicalVolumes.SetLvSize, LogicalVolumes.SetLvSizeNeverOvercommits |
| src/storage/devices.py:2138-2151 | a new LV is accepted when `lv.size <= freeSpace`, ignoring copies, log, metadata, pool padding and snapshot space | a 60 MB two-copy LV added to an empty 104 MB group: accepted, free space becomes -16 MB | accept only when the group space the LV would use fits in free space | medium, not executed | VolumeGroups.AddLogVolAsWritten, VolumeGroups.AddLogVolOvercommitExample | VolumeGroups.AddLogVol, VolumeGroups.AddLogVolNeverOvercommits |
| src/storage/devices.py:2951-2976 | `while headroom << 10 > array_size: headroom >>= 1` never stops when the raw size is negative, since halving 0 gives 0 | a new RAID5 array of three 100 MB members with metadata 1.2, whose `memberDevices` is then set to 0 (the setter accepts it): raw size -100 MB, the loop never ends | stop at headroom 0 | medium, not executed | MdRaid.HeadroomLoopAsWritten, MdRaid.HeadroomLoopNeverEnds, MdRaid.HeadroomNeverEndsExample | MdRaid.Headroom, MdRaid.HeadroomLoopStops |
