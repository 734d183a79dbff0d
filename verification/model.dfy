/** The device arena: every device the storage configuration knows about,
    as immutable records held in one sequence.

    A device's position in the sequence is its identifier.  The source
    hands out identifiers from a process-wide counter that only grows, so
    building a device appends it at the end of the arena.  Parent links are
    identifiers; a device records how many devices name it as a parent
    (`kids`), not which ones.
 */
module Model {
  import opened Outcomes
  import Names

  type DeviceId = nat

  /** A physical extent size in MB; a volume group always has one, 4 MB by
      default. */
  type ExtentSize = x: int | x > 0 witness 4

  const DEFAULT_PE_SIZE: ExtentSize := 4

  /** What a format means to the device graph. */
  datatype FormatRole =
    | Ordinary
      /** an LVM physical volume: `peStart` MB of header before the first
          extent, and the UUID of the volume group it belongs to */
    | PhysicalVolume(peStart: int, vgUuid: Option<string>)

  /** The content of a device, as far as the device graph looks at it.
      `active` is the format's reported status; a zero `minSize` or
      `maxSize` means the format sets no bound. */
  datatype Format = Format(
    fmtType: string,
    active: bool,
    resizable: bool,
    minSize: int,
    maxSize: int,
    role: FormatRole)

  /** The format `getFormat(None)` yields: no type, inactive, no bounds. */
  const BlankFormat: Format := Format("", false, false, 0, 0, Ordinary)

  /** Plain logical volumes, thin pools (which keep their own list of thin
      volumes) and thin volumes. */
  datatype LvVariant =
    | PlainLv
    | ThinPool(poolLvs: seq<DeviceId>)
    | ThinLv

  datatype VgInfo = VgInfo(
    peSize: ExtentSize,
    pvCount: int,
    uuid: Option<string>,
    hasDuplicate: bool,
    reservedPercent: int,
    reservedSpace: int,
    lvs: seq<DeviceId>,
    voriginSnapshots: seq<int>)

  /** `Device.name` of a logical volume is its own name within the group
      (the source's `_name`). */
  datatype LvInfo = LvInfo(
    copies: int,
    logSize: int,
    metaDataSize: int,
    snapshotSpace: int,
    variant: LvVariant)

  /** The kinds of device whose behaviour the model distinguishes. */
  datatype Kind =
      /** any other `StorageDevice` that keeps the base class's `size`
          property, `create` and `destroy`, such as a device-mapper or
          multipath device */
    | Generic
    | Disk
      /** `partType` is the parted partition type bit set, if known;
          `hasSysfsPath` records whether the partition has a sysfs path */
    | Partition(partType: Option<nat>, hasSysfsPath: bool)
    | Luks
    | VolumeGroup(vg: VgInfo)
    | LogicalVolume(lv: LvInfo)

  /** One device.  Sizes are whole MB.  `size` and `targetSize` are the
      stored `_size` and `_targetSize`; `probedSize` is what the parted
      device reports when one can be opened, and `mediaPresent` what the
      medium probe reports; both are snapshots of I/O the model does not
      perform.  `existing` is the source's `exists` flag; `reqGrow` is the
      partitioning request's grow flag. */
  datatype Device = Device(
    name: string,
    parents: seq<DeviceId>,
    kids: int,
    existing: bool,
    size: int,
    targetSize: int,
    probedSize: Option<int>,
    mediaPresent: bool,
    format: Format,
    reqGrow: bool,
    kind: Kind)

  type Tree = seq<Device>

  /** Every parent link and every logical-volume list entry names a device
      of the arena. */
  predicate WellFormed(t: Tree) {
    forall i :: 0 <= i < |t| ==> ValidIds(t, t[i].parents) && ListsValid(t, t[i])
  }

  /** Every parent link names a device of the arena. */
  predicate ParentsValid(t: Tree) {
    forall i :: 0 <= i < |t| ==> ValidIds(t, t[i].parents)
  }

  predicate ValidIds(t: Tree, ids: seq<DeviceId>) {
    forall k :: 0 <= k < |ids| ==> ids[k] < |t|
  }

  predicate ListsValid(t: Tree, d: Device) {
    match d.kind
    case VolumeGroup(vg) => ValidIds(t, vg.lvs)
    case LogicalVolume(lv) => lv.variant.ThinPool? ==> ValidIds(t, lv.variant.poolLvs)
    case _ => true
  }

  // -----------------------------------------------------------------------
  // Partition types, as parted's PedPartitionType bits

  const PARTITION_NORMAL: nat := 0
  const PARTITION_LOGICAL: nat := 1
  const PARTITION_EXTENDED: nat := 2
  const PARTITION_PROTECTED: nat := 16

  /** `bits & flag` for a flag that is a single bit 2^k. */
  predicate HasBit(bits: nat, flagValue: nat) {
    flagValue > 0 && (bits / flagValue) % 2 == 1
  }

  predicate IsExtendedType(partType: Option<nat>) {
    partType.Some? && HasBit(partType.value, PARTITION_EXTENDED)
  }

  predicate IsLogicalType(partType: Option<nat>) {
    partType.Some? && HasBit(partType.value, PARTITION_LOGICAL)
  }

  predicate IsPrimaryType(partType: Option<nat>) {
    partType.Some? && partType.value == PARTITION_NORMAL
  }

  predicate IsProtectedType(partType: Option<nat>) {
    partType.Some? && HasBit(partType.value, PARTITION_PROTECTED)
  }

  /** A partition's disk is its first parent, if it has one. */
  function DiskOf(d: Device): Option<DeviceId> {
    if |d.parents| > 0 then Some(d.parents[0]) else None
  }

  /** The volume group of a logical volume: its parent, or for a thin
      volume the parent of its pool. */
  function VgOf(t: Tree, id: DeviceId): (r: Option<DeviceId>)
    requires id < |t|
    ensures r.Some? ==> r.value < |t| && t[id].kind.LogicalVolume? && |t[id].parents| > 0 && t[id].parents[0] < |t|
    ensures r.Some? && !t[id].kind.lv.variant.ThinLv? ==> r.value == t[id].parents[0]
    ensures r.Some? && t[id].kind.lv.variant.ThinLv? ==>
              |t[t[id].parents[0]].parents| > 0 && r.value == t[t[id].parents[0]].parents[0]
    ensures (t[id].kind.LogicalVolume? && !t[id].kind.lv.variant.ThinLv? && |t[id].parents| > 0
             && t[id].parents[0] < |t|) ==> r == Some(t[id].parents[0])
  {
    var d := t[id];
    if !d.kind.LogicalVolume? || |d.parents| == 0 || d.parents[0] >= |t| then None
    else if d.kind.lv.variant.ThinLv? then
      var pool := t[d.parents[0]];
      if |pool.parents| == 0 || pool.parents[0] >= |t| then None else Some(pool.parents[0])
    else Some(d.parents[0])
  }

  /** The `name` property: a logical volume is called `<vg>-<lv>`, every
      other device by its own name. */
  function NameOf(t: Tree, id: DeviceId): (r: string)
    requires id < |t|
    ensures VgOf(t, id).None? ==> r == t[id].name
    ensures VgOf(t, id).Some? ==> var vg := t[VgOf(t, id).value].name;
            |r| == |vg| + 1 + |t[id].name| && r[..|vg|] == vg && r[|vg|] == '-' && r[|vg| + 1..] == t[id].name
  {
    match VgOf(t, id)
    case Some(vg) => Names.LvName(t[vg].name, t[id].name)
    case None => t[id].name
  }
}
