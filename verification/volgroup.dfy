/** `LVMVolumeGroupDevice`: extent alignment, the group's size, the space
    its logical volumes and snapshots use, reserved space, free space,
    completeness, and adding or removing physical and logical volumes.

    Sizes are whole MB and the extent size a whole number of MB, so the
    source's float arithmetic in `align` is exact here.  Thin pools pad
    their space with an amount the `lvm` module computes; that computation
    is a parameter, `pad`.
 */
module VolumeGroups {
  import opened Outcomes
  import opened Model
  import opened Lists
  import Graph
  import Dependencies

  /** `lvm.get_pool_padding(space, pesize)`. */
  type Padding = (int, ExtentSize) -> int

  // -----------------------------------------------------------------------
  // Extents

  /** `align`: the size rounded to a whole number of extents, up or down. */
  function Align(size: int, pe: ExtentSize, roundup: bool): (r: int)
    ensures r % pe == 0
    ensures roundup ==> size <= r < size + pe
    ensures !roundup ==> size - pe < r <= size
  {
    var q := if roundup then -((-size) / pe) else size / pe;
    MultipleMod(q, pe);
    q * pe
  }

  /** An aligned size is aligned already, in either direction: aligning
      twice is aligning once. */
  lemma AlignIdempotent(size: int, pe: ExtentSize, first: bool, second: bool)
    ensures Align(Align(size, pe, first), pe, second) == Align(size, pe, first)
  {
    var r := Align(size, pe, first);
    var q := r / pe;
    assert r == q * pe;
    MultipleMod(-q, pe);
    assert -r == (-q) * pe;
  }

  /** Aligning preserves order. */
  lemma AlignMonotone(a: int, b: int, pe: ExtentSize, roundup: bool)
    requires a <= b
    ensures Align(a, pe, roundup) <= Align(b, pe, roundup)
  {
    var ra := Align(a, pe, roundup);
    var rb := Align(b, pe, roundup);
    if ra > rb {
      MultiplesApart(ra, rb, pe);
    }
  }

  /** Two different multiples of the extent size are at least an extent
      apart. */
  lemma MultiplesApart(x: int, y: int, pe: ExtentSize)
    requires x % pe == 0 && y % pe == 0 && x > y
    ensures x >= y + pe
  {
    var qx := x / pe;
    var qy := y / pe;
    assert x == qx * pe && y == qy * pe;
    MulLe(qy + 1, qx, pe);
  }

  // -----------------------------------------------------------------------
  // The group record

  /** `vg` names a volume group whose member lists name devices of the
      arena. */
  predicate IsVg(t: Tree, vg: DeviceId) {
    vg < |t| && t[vg].kind.VolumeGroup? && ValidIds(t, t[vg].parents) && ValidIds(t, t[vg].kind.vg.lvs)
  }

  function Info(t: Tree, vg: DeviceId): VgInfo
    requires IsVg(t, vg)
  {
    t[vg].kind.vg
  }

  /** The header space a physical volume keeps before its first extent. */
  function PeStart(f: Format): int {
    if f.role.PhysicalVolume? then f.role.peStart else 0
  }

  /** What one physical volume contributes: its size less its header,
      rounded down to whole extents, and never negative. */
  function PvCapacity(t: Tree, pv: DeviceId, pe: ExtentSize): (r: int)
    requires pv < |t|
    ensures r >= 0 && r % pe == 0
    ensures r <= if Graph.SizeOf(t, pv) - PeStart(t[pv].format) > 0 then Graph.SizeOf(t, pv) - PeStart(t[pv].format) else 0
    ensures Graph.SizeOf(t, pv) - PeStart(t[pv].format) >= pe ==> r > Graph.SizeOf(t, pv) - PeStart(t[pv].format) - pe
  {
    var aligned := Align(Graph.SizeOf(t, pv) - PeStart(t[pv].format), pe, false);
    if aligned > 0 then aligned else 0
  }

  function CapacityOf(t: Tree, pe: ExtentSize): DeviceId -> int {
    (pv: DeviceId) => if pv < |t| then PvCapacity(t, pv, pe) else 0
  }

  /** The group's `size`: the capacities of its physical volumes added up.
      It is a whole number of extents. */
  function VgSize(t: Tree, vg: DeviceId): (r: int)
    requires IsVg(t, vg)
    ensures r >= 0 && r % Info(t, vg).peSize == 0
  {
    var pe := Info(t, vg).peSize;
    SumOfMultiples(t[vg].parents, CapacityOf(t, pe), pe);
    SumOf(t[vg].parents, CapacityOf(t, pe))
  }

  /** `vgSpaceUsed` of one logical volume, its snapshots excluded: its size
      rounded up to whole extents once per copy, plus its mirror log and
      metadata.  A thin pool adds its padding; a thin volume uses nothing
      of the group, its pool holds its space. */
  function LvSpaceUsed(d: Device, pe: ExtentSize, pad: Padding): (r: int)
    ensures !d.kind.LogicalVolume? || d.kind.lv.variant.ThinLv? ==> r == 0
    ensures d.kind.LogicalVolume? && d.kind.lv.variant.PlainLv? && d.kind.lv.copies >= 1 ==>
              var lv := d.kind.lv; var size := Graph.StorageSize(d);
              size * lv.copies <= r - lv.logSize - lv.metaDataSize < (size + pe) * lv.copies
    ensures d.kind.LogicalVolume? && d.kind.lv.variant.PlainLv? ==>
              (r - d.kind.lv.logSize - d.kind.lv.metaDataSize) % pe == 0
    ensures d.kind.LogicalVolume? && d.kind.lv.variant.PlainLv? ==>
              r == Align(Graph.StorageSize(d), pe, true) * d.kind.lv.copies + d.kind.lv.logSize + d.kind.lv.metaDataSize
    ensures d.kind.LogicalVolume? && d.kind.lv.variant.ThinPool? ==>
              var lv := d.kind.lv;
              var plain := Align(Graph.StorageSize(d), pe, true) * lv.copies + lv.logSize + lv.metaDataSize;
              r == plain + pad(plain, pe)
  {
    if !d.kind.LogicalVolume? then 0
    else
      var lv := d.kind.lv;
      var size := Graph.StorageSize(d);
      var a := Align(size, pe, true);
      var base := a * lv.copies + lv.logSize + lv.metaDataSize;
      match lv.variant
      case ThinLv => 0
      case PlainLv =>
        assert lv.copies >= 1 ==> size * lv.copies <= a * lv.copies < (size + pe) * lv.copies by {
          if lv.copies >= 1 {
            MulLe(size, a, lv.copies);
            MulLt(a, size + pe, lv.copies);
          }
        }
        MultipleMod(a / pe * lv.copies, pe);
        assert a * lv.copies == (a / pe * lv.copies) * pe;
        base
      case ThinPool(_) => base + pad(base, pe)
  }

  /** Each copy is rounded up on its own: a new 1 MB volume with two
      copies in 4 MB extents takes 8 MB, not the 4 MB that rounding the
      whole mirror once would give. */
  lemma LvSpaceUsedRoundsEachCopy()
    ensures var lv := LvInfo(2, 0, 0, 0, PlainLv);
            var d := Device("lv", [], 0, false, 1, 1, None, true, BlankFormat, false, LogicalVolume(lv));
            var pad := (a: int, b: ExtentSize) => 0;
            LvSpaceUsed(d, 4, pad) == 8 && Align(1 * 2, 4, true) == 4
  {
    var lv := LvInfo(2, 0, 0, 0, PlainLv);
    var d := Device("lv", [], 0, false, 1, 1, None, true, BlankFormat, false, LogicalVolume(lv));
    var pad := (a: int, b: ExtentSize) => 0;
    assert Graph.StorageSize(d) == 1;
    assert Align(1, 4, true) == 4;
  }

  lemma MulLe(a: int, b: int, c: int)
    requires a <= b && c >= 0
    ensures a * c <= b * c
  {
  }

  lemma MulLt(a: int, b: int, c: int)
    requires a < b && c > 0
    ensures a * c < b * c
  {
  }

  function SpaceOf(t: Tree, pe: ExtentSize, pad: Padding): DeviceId -> int {
    (lv: DeviceId) => if lv < |t| then LvSpaceUsed(t[lv], pe, pad) else 0
  }

  /** One logical volume's snapshot space, rounded up to whole extents. */
  function SnapOf(t: Tree, pe: ExtentSize): DeviceId -> int {
    (lv: DeviceId) =>
      if lv < |t| && t[lv].kind.LogicalVolume? then Align(t[lv].kind.lv.snapshotSpace, pe, true) else 0
  }

  /** Snapshots made without an origin volume, each rounded up. */
  function VoriginSpace(sizes: seq<int>, pe: ExtentSize): (r: int)
    ensures r % pe == 0
    ensures (forall k :: 0 <= k < |sizes| ==> sizes[k] >= 0) ==> r >= 0
  {
    if |sizes| == 0 then 0
    else
      var rest := VoriginSpace(sizes[..|sizes| - 1], pe);
      var last := Align(sizes[|sizes| - 1], pe, true);
      AddMultiples(rest, last, pe);
      rest + last
  }

  /** `snapshotSpace`: the snapshot space of every logical volume and of
      every origin-less snapshot, each rounded up to whole extents. */
  function SnapshotSpace(t: Tree, vg: DeviceId): int
    requires IsVg(t, vg)
  {
    var info := Info(t, vg);
    SumOf(info.lvs, SnapOf(t, info.peSize)) + VoriginSpace(info.voriginSnapshots, info.peSize)
  }

  /** `amount` rounded up to whole extents, where `wanted` is a hundred
      times the amount: the exact value of `percent * 0.01 * size`
      rounded up. */
  function HundredthsToExtents(wanted: int, pe: ExtentSize): (r: int)
    ensures 100 * r >= wanted && 100 * (r - pe) < wanted
    ensures r % pe == 0
  {
    var den := 100 * pe;
    var m := -wanted;
    var q := -(m / den);
    assert m == den * (m / den) + m % den && 0 <= m % den < den;
    assert q * den == wanted + m % den;
    assert 100 * (q * pe) == q * den;
    MultipleMod(q, pe);
    q * pe
  }

  /** `reservedSpace`: a percentage of the group's size when one is set,
      else a fixed amount, rounded up to whole extents.  The percentage is
      computed exactly rather than in floating point. */
  function ReservedSpace(t: Tree, vg: DeviceId): (r: int)
    requires IsVg(t, vg)
    ensures var info := Info(t, vg);
            info.reservedPercent > 0 ==>
              100 * r >= info.reservedPercent * VgSize(t, vg)
              && 100 * (r - info.peSize) < info.reservedPercent * VgSize(t, vg)
    ensures var info := Info(t, vg);
            info.reservedPercent <= 0 && info.reservedSpace > 0 ==> r == Align(info.reservedSpace, info.peSize, true)
    ensures var info := Info(t, vg);
            info.reservedPercent <= 0 && info.reservedSpace <= 0 ==> r == 0
    ensures r % Info(t, vg).peSize == 0
  {
    var info := Info(t, vg);
    if info.reservedPercent > 0 then HundredthsToExtents(info.reservedPercent * VgSize(t, vg), info.peSize)
    else if info.reservedSpace > 0 then Align(info.reservedSpace, info.peSize, true)
    else Align(0, info.peSize, true)
  }

  /** `freeSpace`: the group's size less what its logical volumes, their
      snapshots and the reserve take. */
  function FreeSpace(t: Tree, vg: DeviceId, pad: Padding): int
    requires IsVg(t, vg)
  {
    var info := Info(t, vg);
    VgSize(t, vg) - (SumOf(info.lvs, SpaceOf(t, info.peSize, pad)) + SnapshotSpace(t, vg) + ReservedSpace(t, vg))
  }

  /** `complete`: a group with a name clash is never complete; otherwise it
      is complete when all the physical volumes it expects are present, or
      when it does not exist yet. */
  predicate Complete(t: Tree, vg: DeviceId)
    requires IsVg(t, vg)
  {
    !Info(t, vg).hasDuplicate && (|t[vg].parents| == Info(t, vg).pvCount || !t[vg].existing)
  }

  /** `checkSize` for a volume group: the bounds test of the group's
      format on the group's own size, the sum of its physical volumes. */
  function CheckVgSize(t: Tree, vg: DeviceId): (r: Option<Graph.SizeProblem>)
    requires IsVg(t, vg)
    ensures var f := t[vg].format;
            r == None <==> (f.maxSize == 0 || VgSize(t, vg) <= f.maxSize) && (f.minSize == 0 || VgSize(t, vg) >= f.minSize)
    ensures r == Some(Graph.TooLarge) <==> t[vg].format.maxSize != 0 && VgSize(t, vg) > t[vg].format.maxSize
    ensures r == Some(Graph.TooSmall) ==> VgSize(t, vg) < t[vg].format.minSize
  {
    Graph.CheckBounds(t[vg].format, VgSize(t, vg))
  }

  // -----------------------------------------------------------------------
  // What the space figures read

  /** Everything about one device that sizes, capacities and space figures
      read: its size inputs, its format, and its logical-volume record. */
  function SpaceInputs(d: Device): (Graph.SizeInputs, Format, Option<LvInfo>) {
    (Graph.InputsOf(d), d.format, if d.kind.LogicalVolume? then Some(d.kind.lv) else None)
  }

  predicate SameSpaceInputs(t: Tree, u: Tree) {
    |t| == |u| && forall j :: 0 <= j < |t| ==> SpaceInputs(t[j]) == SpaceInputs(u[j])
  }

  /** Arenas that agree on the space inputs agree on every per-device
      capacity, space use and snapshot space. */
  lemma SpaceFiguresAgree(t: Tree, u: Tree, pe: ExtentSize, pad: Padding, x: DeviceId)
    requires SameSpaceInputs(t, u)
    ensures CapacityOf(u, pe)(x) == CapacityOf(t, pe)(x)
    ensures SpaceOf(u, pe, pad)(x) == SpaceOf(t, pe, pad)(x)
    ensures SnapOf(u, pe)(x) == SnapOf(t, pe)(x)
  {
    if x < |t| {
      Graph.SizeOfFrame(t, u, x);
    }
  }

  /** The group's size reads only its physical volumes' space inputs. */
  lemma VgSizeFrame(t: Tree, u: Tree, vg: DeviceId)
    requires IsVg(t, vg) && IsVg(u, vg) && SameSpaceInputs(t, u)
    requires u[vg].parents == t[vg].parents && Info(u, vg).peSize == Info(t, vg).peSize
    ensures VgSize(u, vg) == VgSize(t, vg)
  {
    var pe := Info(t, vg).peSize;
    forall x { SpaceFiguresAgree(t, u, pe, (a: int, b: ExtentSize) => 0, x); }
    SumOfAgree(t[vg].parents, CapacityOf(t, pe), CapacityOf(u, pe));
  }

  /** Free space reads the group's record, its members' space inputs and
      nothing else. */
  lemma FreeSpaceFrame(t: Tree, u: Tree, vg: DeviceId, pad: Padding)
    requires IsVg(t, vg) && IsVg(u, vg) && SameSpaceInputs(t, u)
    requires u[vg].parents == t[vg].parents && Info(u, vg) == Info(t, vg)
    ensures FreeSpace(u, vg, pad) == FreeSpace(t, vg, pad)
  {
    var info := Info(t, vg);
    VgSizeFrame(t, u, vg);
    forall x { SpaceFiguresAgree(t, u, info.peSize, pad, x); }
    SumOfAgree(info.lvs, SpaceOf(t, info.peSize, pad), SpaceOf(u, info.peSize, pad));
    SumOfAgree(info.lvs, SnapOf(t, info.peSize), SnapOf(u, info.peSize));
  }

  // -----------------------------------------------------------------------
  // Editing the group record and its physical volumes

  /** The arena with the group's record replaced. */
  function WithInfo(t: Tree, vg: DeviceId, info: VgInfo): (r: Tree)
    requires vg < |t| && t[vg].kind.VolumeGroup?
    ensures |r| == |t| && r[vg].kind == VolumeGroup(info)
    ensures forall j :: 0 <= j < |t| && j != vg ==> r[j] == t[j]
    ensures r[vg].parents == t[vg].parents && r[vg].kids == t[vg].kids
    ensures SameSpaceInputs(t, r)
  {
    t[vg := t[vg].(kind := VolumeGroup(info))]
  }

  lemma WithInfoKeepsKidsExact(t: Tree, vg: DeviceId, info: VgInfo)
    requires Graph.KidsExact(t) && vg < |t| && t[vg].kind.VolumeGroup?
    ensures Graph.KidsExact(WithInfo(t, vg, info))
  {
    Graph.SameLinksKeepKidsExact(t, WithInfo(t, vg, info));
  }

  /** Giving the group one more physical volume: that device gains a child
      and nothing else about any other device changes. */
  function LinkPv(t: Tree, vg: DeviceId, pv: DeviceId): (r: Tree)
    requires IsVg(t, vg) && pv < |t|
    ensures |r| == |t| && IsVg(r, vg) && Info(r, vg) == Info(t, vg)
    ensures r[vg].parents == t[vg].parents + [pv]
    ensures forall j :: 0 <= j < |t| ==> r[j].kids == t[j].kids + (if j == pv then 1 else 0)
    ensures forall j :: 0 <= j < |t| && j != vg ==> r[j] == t[j].(kids := r[j].kids)
    ensures SameSpaceInputs(t, r)
  {
    var ps := t[vg].parents;
    AppendedCounts(ps, pv);
    RelinkGroupKeepsSpace(t, vg, ps + [pv]);
    Graph.Relink(t, vg, ps + [pv])
  }

  /** Re-linking a group touches no space input and keeps its record. */
  lemma RelinkGroupKeepsSpace(t: Tree, vg: DeviceId, ps: seq<DeviceId>)
    requires IsVg(t, vg) && ValidIds(t, ps)
    ensures var r := Graph.Relink(t, vg, ps);
            SameSpaceInputs(t, r) && IsVg(r, vg) && Info(r, vg) == Info(t, vg)
  {
    var r := Graph.Relink(t, vg, ps);
    forall j | 0 <= j < |t| ensures SpaceInputs(t[j]) == SpaceInputs(r[j]) {
    }
  }

  lemma AppendedCounts(ps: seq<DeviceId>, pv: DeviceId)
    ensures forall j :: Count(ps + [pv], j) == Count(ps, j) + (if j == pv then 1 else 0)
  {
    forall j { CountAppend(ps, pv, j); }
  }

  /** Taking one listing of a physical volume out of the group: that
      device loses a child and nothing else about any other device
      changes. */
  function UnlinkPv(t: Tree, vg: DeviceId, pv: DeviceId): (r: Tree)
    requires IsVg(t, vg) && pv in t[vg].parents
    ensures |r| == |t| && IsVg(r, vg) && Info(r, vg) == Info(t, vg)
    ensures r[vg].parents == RemoveFirst(t[vg].parents, pv)
    ensures forall j :: 0 <= j < |t| ==> r[j].kids == t[j].kids - (if j == pv then 1 else 0)
    ensures forall j :: 0 <= j < |t| && j != vg ==> r[j] == t[j].(kids := r[j].kids)
    ensures SameSpaceInputs(t, r)
  {
    var ps := t[vg].parents;
    var rest := RemoveFirst(ps, pv);
    RemovedCounts(ps, pv);
    RemovedValid(t, ps, pv);
    RelinkGroupKeepsSpace(t, vg, rest);
    Graph.Relink(t, vg, rest)
  }

  lemma RemovedCounts(ps: seq<DeviceId>, pv: DeviceId)
    requires pv in ps
    ensures forall j :: Count(RemoveFirst(ps, pv), j) == Count(ps, j) - (if j == pv then 1 else 0)
  {
    forall j { CountRemoveFirst(ps, pv, j); }
  }

  lemma RemovedValid(t: Tree, ps: seq<DeviceId>, pv: DeviceId)
    requires pv in ps && ValidIds(t, ps)
    ensures ValidIds(t, RemoveFirst(ps, pv))
  {
    var rest := RemoveFirst(ps, pv);
    var k := IndexOf(ps, pv);
    assert forall i :: 0 <= i < |rest| ==> rest[i] == (if i < k then ps[i] else ps[i + 1]);
  }

  /** Adding a physical volume adds its capacity to the group's size. */
  lemma LinkPvGrowsSize(t: Tree, vg: DeviceId, pv: DeviceId)
    requires IsVg(t, vg) && pv < |t|
    ensures VgSize(LinkPv(t, vg, pv), vg) == VgSize(t, vg) + PvCapacity(t, pv, Info(t, vg).peSize)
  {
    var r := LinkPv(t, vg, pv);
    var pe := Info(t, vg).peSize;
    forall x { SpaceFiguresAgree(t, r, pe, (a: int, b: ExtentSize) => 0, x); }
    SumOfAppend(t[vg].parents, pv, CapacityOf(r, pe));
    SumOfAgree(t[vg].parents, CapacityOf(t, pe), CapacityOf(r, pe));
  }

  /** Removing a physical volume takes its capacity off the group's size. */
  lemma UnlinkPvShrinksSize(t: Tree, vg: DeviceId, pv: DeviceId)
    requires IsVg(t, vg) && pv in t[vg].parents
    ensures VgSize(UnlinkPv(t, vg, pv), vg) == VgSize(t, vg) - PvCapacity(t, pv, Info(t, vg).peSize)
  {
    var r := UnlinkPv(t, vg, pv);
    var pe := Info(t, vg).peSize;
    forall x { SpaceFiguresAgree(t, r, pe, (a: int, b: ExtentSize) => 0, x); }
    SumOfRemoveFirst(t[vg].parents, pv, CapacityOf(t, pe));
    SumOfAgree(r[vg].parents, CapacityOf(t, pe), CapacityOf(r, pe));
  }

  /** Linking a device and unlinking it again gives back the arena. */
  lemma LinkThenUnlink(t: Tree, vg: DeviceId, pv: DeviceId)
    requires IsVg(t, vg) && pv < |t| && pv !in t[vg].parents
    ensures UnlinkPv(LinkPv(t, vg, pv), vg, pv) == t
  {
    var r := UnlinkPv(LinkPv(t, vg, pv), vg, pv);
    RemoveAppended(t[vg].parents, pv);
    assert forall j :: 0 <= j < |t| ==> r[j] == t[j];
  }

  predicate IsPv(d: Device) {
    d.format.role.PhysicalVolume?
  }

  /** The device's format names a different volume group than this one,
      which has a UUID: another group of the same name is on the system. */
  predicate UuidMismatch(t: Tree, vg: DeviceId, dev: DeviceId)
    requires IsVg(t, vg) && dev < |t| && IsPv(t[dev])
  {
    var uuid := Info(t, vg).uuid;
    uuid.Some? && |uuid.value| > 0 && t[dev].format.role.vgUuid != uuid
  }

  /** An arena together with the exception an operation raised, for
      operations that change the arena before raising. */
  datatype TreeOutcome = TreeOutcome(tree: Tree, error: Option<Error>)

  /** `_addDevice`, used while probing existing groups: the group must
      exist and the device must hold a physical volume.  A device whose
      physical volume names another group marks the group as having a
      duplicate, and the mark stays even when the device turns out to be a
      member already, which is then refused.  Activating the group
      afterwards is I/O the model leaves out. */
  function AddDeviceToVg(t: Tree, vg: DeviceId, dev: DeviceId): (r: TreeOutcome)
    requires IsVg(t, vg) && dev < |t|
    ensures !t[vg].existing ==> r == TreeOutcome(t, Some(DeviceError("device does not exist", NameOf(t, vg))))
    ensures t[vg].existing && !IsPv(t[dev]) ==> r == TreeOutcome(t, Some(ValueError("addDevice requires a PV arg")))
    ensures r.error.None? <==> t[vg].existing && IsPv(t[dev]) && dev !in t[vg].parents
    ensures t[vg].existing && IsPv(t[dev]) && dev in t[vg].parents ==>
              r.error == Some(ValueError("device is already a member of this VG"))
    ensures |r.tree| == |t| && IsVg(r.tree, vg)
    ensures Info(r.tree, vg) == Info(t, vg).(hasDuplicate :=
              Info(t, vg).hasDuplicate || (t[vg].existing && IsPv(t[dev]) && UuidMismatch(t, vg, dev)))
    ensures r.error.None? ==> r.tree[vg].parents == t[vg].parents + [dev]
    ensures r.error.None? ==> forall j :: 0 <= j < |t| ==> r.tree[j].kids == t[j].kids + (if j == dev then 1 else 0)
    ensures r.error.Some? ==> forall j :: 0 <= j < |t| ==> r.tree[j].kids == t[j].kids && r.tree[j].parents == t[j].parents
    ensures forall j :: 0 <= j < |t| && j != vg ==> r.tree[j] == t[j].(kids := r.tree[j].kids)
    ensures SameSpaceInputs(t, r.tree)
  {
    if !t[vg].existing then TreeOutcome(t, Some(DeviceError("device does not exist", NameOf(t, vg))))
    else if !IsPv(t[dev]) then TreeOutcome(t, Some(ValueError("addDevice requires a PV arg")))
    else
      var info := Info(t, vg);
      var marked := WithInfo(t, vg, info.(hasDuplicate := info.hasDuplicate || UuidMismatch(t, vg, dev)));
      if dev in t[vg].parents then TreeOutcome(marked, Some(ValueError("device is already a member of this VG")))
      else TreeOutcome(LinkPv(marked, vg, dev), None)
  }

  /** `_removeDevice`: a device that is not a member is refused; otherwise
      its first listing goes and it loses a child.  The expected number of
      physical volumes is left as it was. */
  function RemoveDeviceFromVg(t: Tree, vg: DeviceId, dev: DeviceId): (r: Result<Tree>)
    requires IsVg(t, vg)
    ensures r.Err? <==> dev !in t[vg].parents
    ensures r.Err? ==> r.error == ValueError("cannot remove non-member PV device from VG")
    ensures r.Ok? ==> |r.value| == |t| && IsVg(r.value, vg) && Info(r.value, vg) == Info(t, vg)
    ensures r.Ok? ==> r.value[vg].parents == RemoveFirst(t[vg].parents, dev)
    ensures r.Ok? ==> forall j :: 0 <= j < |t| ==> r.value[j].kids == t[j].kids - (if j == dev then 1 else 0)
  {
    if dev !in t[vg].parents then Err(ValueError("cannot remove non-member PV device from VG"))
    else Ok(UnlinkPv(t, vg, dev))
  }

  /** A device whose physical volume names another group leaves the group
      incomplete, and no later addition of a device clears the mark. */
  lemma DuplicateMakesIncomplete(t: Tree, vg: DeviceId, dev: DeviceId)
    requires IsVg(t, vg) && dev < |t| && t[vg].existing && IsPv(t[dev]) && UuidMismatch(t, vg, dev)
    ensures !Complete(AddDeviceToVg(t, vg, dev).tree, vg)
  {
  }

  lemma DuplicateIsSticky(t: Tree, vg: DeviceId, dev: DeviceId)
    requires IsVg(t, vg) && dev < |t| && Info(t, vg).hasDuplicate
    ensures !Complete(AddDeviceToVg(t, vg, dev).tree, vg)
  {
  }

  /** While no name clash is known, an existing group whose physical
      volumes were all expected stays complete as probing adds the missing
      one. */
  lemma AddDeviceCompletes(t: Tree, vg: DeviceId, dev: DeviceId)
    requires IsVg(t, vg) && dev < |t| && t[vg].existing && IsPv(t[dev]) && dev !in t[vg].parents
    requires !Info(t, vg).hasDuplicate && !UuidMismatch(t, vg, dev)
    requires |t[vg].parents| + 1 == Info(t, vg).pvCount
    ensures Complete(AddDeviceToVg(t, vg, dev).tree, vg)
    ensures !Complete(t, vg)
  {
  }

  /** Probing a device into a group and clearing it out again restores the
      arena, unless the device revealed a name clash. */
  lemma AddThenRemoveDevice(t: Tree, vg: DeviceId, dev: DeviceId)
    requires IsVg(t, vg) && dev < |t| && t[vg].existing && IsPv(t[dev]) && dev !in t[vg].parents
    requires !UuidMismatch(t, vg, dev)
    ensures RemoveDeviceFromVg(AddDeviceToVg(t, vg, dev).tree, vg, dev) == Ok(t)
  {
    var info := Info(t, vg);
    var marked := WithInfo(t, vg, info.(hasDuplicate := info.hasDuplicate || UuidMismatch(t, vg, dev)));
    assert marked == t;
    LinkThenUnlink(t, vg, dev);
  }

  /** Probing a member in keeps every child count exact. */
  lemma AddDeviceKeepsKidsExact(t: Tree, vg: DeviceId, dev: DeviceId)
    requires Graph.KidsExact(t) && IsVg(t, vg) && dev < |t|
    ensures Graph.KidsExact(AddDeviceToVg(t, vg, dev).tree)
  {
    var r := AddDeviceToVg(t, vg, dev);
    if r.error.None? {
      var info := Info(t, vg);
      var marked := WithInfo(t, vg, info.(hasDuplicate := info.hasDuplicate || UuidMismatch(t, vg, dev)));
      WithInfoKeepsKidsExact(t, vg, info.(hasDuplicate := info.hasDuplicate || UuidMismatch(t, vg, dev)));
      Graph.RelinkKeepsKidsExact(marked, vg, marked[vg].parents + [dev]);
    } else {
      Graph.SameLinksKeepKidsExact(t, r.tree);
    }
  }

  /** `_addPV`: a member is refused, and so is any change to a group that
      exists; otherwise the device joins, gains a child, and the expected
      number of physical volumes becomes the new member count. */
  function AddPv(t: Tree, vg: DeviceId, pv: DeviceId): (r: Result<Tree>)
    requires IsVg(t, vg) && pv < |t|
    ensures pv in t[vg].parents ==> r == Err(ValueError("pv is already part of this vg"))
    ensures pv !in t[vg].parents && t[vg].existing ==> r == Err(DeviceError("cannot add pv to existing vg", NameOf(t, vg)))
    ensures r.Ok? <==> pv !in t[vg].parents && !t[vg].existing
    ensures r.Ok? ==> |r.value| == |t| && IsVg(r.value, vg) && r.value[vg].parents == t[vg].parents + [pv]
    ensures r.Ok? ==> Info(r.value, vg) == Info(t, vg).(pvCount := |r.value[vg].parents|)
    ensures r.Ok? ==> forall j :: 0 <= j < |t| ==> r.value[j].kids == t[j].kids + (if j == pv then 1 else 0)
    ensures r.Ok? ==> forall j :: 0 <= j < |t| && j != vg ==> r.value[j] == t[j].(kids := r.value[j].kids)
    ensures r.Ok? ==> SameSpaceInputs(t, r.value)
  {
    if pv in t[vg].parents then Err(ValueError("pv is already part of this vg"))
    else if t[vg].existing then Err(DeviceError("cannot add pv to existing vg", NameOf(t, vg)))
    else
      var linked := LinkPv(t, vg, pv);
      Ok(WithInfo(linked, vg, Info(t, vg).(pvCount := |linked[vg].parents|)))
  }

  /** `_removePV`: a non-member is refused, and so is any change to a group
      that exists; otherwise the device leaves, loses a child, and the
      expected number of physical volumes becomes the new member count. */
  function RemovePv(t: Tree, vg: DeviceId, pv: DeviceId): (r: Result<Tree>)
    requires IsVg(t, vg)
    ensures pv !in t[vg].parents ==> r == Err(ValueError("specified pv is not part of this vg"))
    ensures pv in t[vg].parents && t[vg].existing ==> r == Err(DeviceError("cannot remove pv from existing vg", NameOf(t, vg)))
    ensures r.Ok? <==> pv in t[vg].parents && !t[vg].existing
    ensures r.Ok? ==> |r.value| == |t| && IsVg(r.value, vg) && r.value[vg].parents == RemoveFirst(t[vg].parents, pv)
    ensures r.Ok? ==> Info(r.value, vg) == Info(t, vg).(pvCount := |r.value[vg].parents|)
    ensures r.Ok? ==> forall j :: 0 <= j < |t| ==> r.value[j].kids == t[j].kids - (if j == pv then 1 else 0)
    ensures r.Ok? ==> forall j :: 0 <= j < |t| && j != vg ==> r.value[j] == t[j].(kids := r.value[j].kids)
    ensures r.Ok? ==> SameSpaceInputs(t, r.value)
  {
    if pv !in t[vg].parents then Err(ValueError("specified pv is not part of this vg"))
    else if t[vg].existing then Err(DeviceError("cannot remove pv from existing vg", NameOf(t, vg)))
    else
      var unlinked := UnlinkPv(t, vg, pv);
      Ok(WithInfo(unlinked, vg, Info(t, vg).(pvCount := |unlinked[vg].parents|)))
  }

  /** Adding a physical volume to a new group grows the group by exactly
      that volume's capacity; removing one shrinks it by its capacity. */
  lemma AddPvGrowsSize(t: Tree, vg: DeviceId, pv: DeviceId)
    requires IsVg(t, vg) && pv < |t| && AddPv(t, vg, pv).Ok?
    ensures VgSize(AddPv(t, vg, pv).value, vg) == VgSize(t, vg) + PvCapacity(t, pv, Info(t, vg).peSize)
  {
    var linked := LinkPv(t, vg, pv);
    LinkPvGrowsSize(t, vg, pv);
    VgSizeFrame(linked, AddPv(t, vg, pv).value, vg);
  }

  lemma RemovePvShrinksSize(t: Tree, vg: DeviceId, pv: DeviceId)
    requires IsVg(t, vg) && RemovePv(t, vg, pv).Ok?
    ensures VgSize(RemovePv(t, vg, pv).value, vg) == VgSize(t, vg) - PvCapacity(t, pv, Info(t, vg).peSize)
  {
    var unlinked := UnlinkPv(t, vg, pv);
    UnlinkPvShrinksSize(t, vg, pv);
    VgSizeFrame(unlinked, RemovePv(t, vg, pv).value, vg);
  }

  /** Adding a physical volume to a new group and removing it again gives
      back the arena, once the expected count matches the member list as
      the group's constructor leaves it. */
  lemma AddThenRemovePv(t: Tree, vg: DeviceId, pv: DeviceId)
    requires IsVg(t, vg) && pv < |t| && AddPv(t, vg, pv).Ok?
    requires Info(t, vg).pvCount == |t[vg].parents|
    ensures RemovePv(AddPv(t, vg, pv).value, vg, pv) == Ok(t)
  {
    var info := Info(t, vg);
    var raised := info.(pvCount := |t[vg].parents| + 1);
    var added := AddPv(t, vg, pv).value;
    AddPvIsLink(t, vg, pv);
    LinkThenUnlink(WithInfo(t, vg, raised), vg, pv);
    assert UnlinkPv(added, vg, pv) == WithInfo(t, vg, raised);
    assert WithInfo(WithInfo(t, vg, raised), vg, info) == t;
  }

  /** Adding a physical volume is raising the expected count and then
      linking the volume. */
  lemma AddPvIsLink(t: Tree, vg: DeviceId, pv: DeviceId)
    requires IsVg(t, vg) && pv < |t| && AddPv(t, vg, pv).Ok?
    ensures var raised := Info(t, vg).(pvCount := |t[vg].parents| + 1);
            AddPv(t, vg, pv).value == LinkPv(WithInfo(t, vg, raised), vg, pv)
  {
    var raised := Info(t, vg).(pvCount := |t[vg].parents| + 1);
    var a := AddPv(t, vg, pv).value;
    var b := LinkPv(WithInfo(t, vg, raised), vg, pv);
    assert |a| == |b|;
    forall j | 0 <= j < |a| ensures a[j] == b[j] {
      if j == vg {
        assert a[vg].kind == b[vg].kind;
      }
    }
  }

  /** A new group is complete whatever its members; once it exists it is
      complete exactly when every expected member is present and no name
      clash is known. */
  lemma NewGroupComplete(t: Tree, vg: DeviceId)
    requires IsVg(t, vg) && !t[vg].existing
    ensures Complete(t, vg) <==> !Info(t, vg).hasDuplicate
  {
  }

  lemma AddPvKeepsKidsExact(t: Tree, vg: DeviceId, pv: DeviceId)
    requires Graph.KidsExact(t) && IsVg(t, vg) && pv < |t| && AddPv(t, vg, pv).Ok?
    ensures Graph.KidsExact(AddPv(t, vg, pv).value)
  {
    var linked := LinkPv(t, vg, pv);
    Graph.RelinkKeepsKidsExact(t, vg, t[vg].parents + [pv]);
    WithInfoKeepsKidsExact(linked, vg, Info(t, vg).(pvCount := |linked[vg].parents|));
  }

  lemma RemovePvKeepsKidsExact(t: Tree, vg: DeviceId, pv: DeviceId)
    requires Graph.KidsExact(t) && IsVg(t, vg) && RemovePv(t, vg, pv).Ok?
    ensures Graph.KidsExact(RemovePv(t, vg, pv).value)
  {
    var unlinked := UnlinkPv(t, vg, pv);
    Graph.RelinkKeepsKidsExact(t, vg, RemoveFirst(t[vg].parents, pv));
    WithInfoKeepsKidsExact(unlinked, vg, Info(t, vg).(pvCount := |unlinked[vg].parents|));
  }

  // -----------------------------------------------------------------------
  // Logical volumes of the group

  /** What a logical volume takes from the group once listed: its own
      space and its snapshots' space. */
  function Need(t: Tree, vg: DeviceId, lv: DeviceId, pad: Padding): int
    requires IsVg(t, vg)
  {
    var pe := Info(t, vg).peSize;
    SpaceOf(t, pe, pad)(lv) + SnapOf(t, pe)(lv)
  }

  /** `_addLogVol` checks the space only for a volume that does not exist
      yet, in a group that is not growable, and that is not a thin volume
      (whose pool already holds its space). */
  predicate SpaceChecked(t: Tree, vg: DeviceId, lv: DeviceId)
    requires ParentsValid(t) && IsVg(t, vg) && lv < |t|
  {
    !t[lv].existing && !Dependencies.Growable(t, vg)
    && !(t[lv].kind.LogicalVolume? && t[lv].kind.lv.variant.ThinLv?)
  }

  /** `_addLogVol` as the source writes it: the space check compares the
      volume's size with the free space, ignoring its copies, its log, its
      metadata, a pool's padding and its snapshots. */
  function AddLogVolAsWritten(t: Tree, vg: DeviceId, lv: DeviceId, pad: Padding): (r: Result<Tree>)
    requires ParentsValid(t) && IsVg(t, vg) && lv < |t|
    ensures lv in Info(t, vg).lvs ==> r == Err(ValueError("lv is already part of this vg"))
    ensures r.Ok? <==> lv !in Info(t, vg).lvs && !(SpaceChecked(t, vg, lv) && Graph.SizeOf(t, lv) > FreeSpace(t, vg, pad))
    ensures r.Ok? ==> r.value == WithInfo(t, vg, Info(t, vg).(lvs := Info(t, vg).lvs + [lv]))
  {
    var info := Info(t, vg);
    if lv in info.lvs then Err(ValueError("lv is already part of this vg"))
    else if SpaceChecked(t, vg, lv) && Graph.SizeOf(t, lv) > FreeSpace(t, vg, pad) then
      Err(DeviceError("new lv is too large to fit in free space", NameOf(t, vg)))
    else Ok(WithInfo(t, vg, info.(lvs := info.lvs + [lv])))
  }

  /** `_addLogVol` as intended: a listed volume is refused; a checked
      volume that would take more than the free space is refused; any
      other volume joins the group's list and nothing else changes. */
  function AddLogVol(t: Tree, vg: DeviceId, lv: DeviceId, pad: Padding): (r: Result<Tree>)
    requires ParentsValid(t) && IsVg(t, vg) && lv < |t|
    ensures lv in Info(t, vg).lvs ==> r == Err(ValueError("lv is already part of this vg"))
    ensures lv !in Info(t, vg).lvs && SpaceChecked(t, vg, lv) && Need(t, vg, lv, pad) > FreeSpace(t, vg, pad)
            ==> r == Err(DeviceError("new lv is too large to fit in free space", NameOf(t, vg)))
    ensures r.Ok? <==> lv !in Info(t, vg).lvs && !(SpaceChecked(t, vg, lv) && Need(t, vg, lv, pad) > FreeSpace(t, vg, pad))
    ensures r.Ok? ==> |r.value| == |t| && IsVg(r.value, vg)
    ensures r.Ok? ==> Info(r.value, vg) == Info(t, vg).(lvs := Info(t, vg).lvs + [lv])
    ensures r.Ok? ==> r.value[vg].parents == t[vg].parents && r.value[vg].kids == t[vg].kids
    ensures r.Ok? ==> forall j :: 0 <= j < |t| && j != vg ==> r.value[j] == t[j]
    ensures r.Ok? ==> SameSpaceInputs(t, r.value)
  {
    var info := Info(t, vg);
    if lv in info.lvs then Err(ValueError("lv is already part of this vg"))
    else if SpaceChecked(t, vg, lv) && Need(t, vg, lv, pad) > FreeSpace(t, vg, pad) then
      Err(DeviceError("new lv is too large to fit in free space", NameOf(t, vg)))
    else Ok(WithInfo(t, vg, info.(lvs := info.lvs + [lv])))
  }

  /** `_removeLogVol`: a volume that is not listed is refused; otherwise
      its first listing goes and nothing else changes. */
  function RemoveLogVol(t: Tree, vg: DeviceId, lv: DeviceId): (r: Result<Tree>)
    requires IsVg(t, vg)
    ensures r.Err? <==> lv !in Info(t, vg).lvs
    ensures r.Err? ==> r.error == ValueError("specified lv is not part of this vg")
    ensures r.Ok? ==> |r.value| == |t| && IsVg(r.value, vg)
    ensures r.Ok? ==> Info(r.value, vg) == Info(t, vg).(lvs := RemoveFirst(Info(t, vg).lvs, lv))
    ensures r.Ok? ==> r.value[vg].parents == t[vg].parents && r.value[vg].kids == t[vg].kids
    ensures r.Ok? ==> forall j :: 0 <= j < |t| && j != vg ==> r.value[j] == t[j]
  {
    var info := Info(t, vg);
    if lv !in info.lvs then Err(ValueError("specified lv is not part of this vg"))
    else
      RemovedValid(t, info.lvs, lv);
      Ok(WithInfo(t, vg, info.(lvs := RemoveFirst(info.lvs, lv))))
  }

  /** Listing a volume lowers the free space by exactly what the volume
      needs. */
  lemma ListingUsesSpace(t: Tree, vg: DeviceId, lv: DeviceId, pad: Padding)
    requires IsVg(t, vg) && lv < |t|
    ensures var info := Info(t, vg);
            var u := WithInfo(t, vg, info.(lvs := info.lvs + [lv]));
            IsVg(u, vg) && FreeSpace(u, vg, pad) == FreeSpace(t, vg, pad) - Need(t, vg, lv, pad)
  {
    var info := Info(t, vg);
    var pe := info.peSize;
    var u := WithInfo(t, vg, info.(lvs := info.lvs + [lv]));
    VgSizeFrame(t, u, vg);
    forall x { SpaceFiguresAgree(t, u, pe, pad, x); }
    SumOfAppend(info.lvs, lv, SpaceOf(u, pe, pad));
    SumOfAgree(info.lvs, SpaceOf(t, pe, pad), SpaceOf(u, pe, pad));
    SumOfAppend(info.lvs, lv, SnapOf(u, pe));
    SumOfAgree(info.lvs, SnapOf(t, pe), SnapOf(u, pe));
  }

  /** Unlisting a volume gives back exactly what it needed. */
  lemma UnlistingFreesSpace(t: Tree, vg: DeviceId, lv: DeviceId, pad: Padding)
    requires IsVg(t, vg) && lv in Info(t, vg).lvs
    ensures RemoveLogVol(t, vg, lv).Ok?
    ensures FreeSpace(RemoveLogVol(t, vg, lv).value, vg, pad) == FreeSpace(t, vg, pad) + Need(t, vg, lv, pad)
  {
    var info := Info(t, vg);
    var pe := info.peSize;
    var u := RemoveLogVol(t, vg, lv).value;
    var rest := RemoveFirst(info.lvs, lv);
    VgSizeFrame(t, u, vg);
    forall x { SpaceFiguresAgree(t, u, pe, pad, x); }
    SumOfRemoveFirst(info.lvs, lv, SpaceOf(t, pe, pad));
    SumOfAgree(rest, SpaceOf(t, pe, pad), SpaceOf(u, pe, pad));
    SumOfRemoveFirst(info.lvs, lv, SnapOf(t, pe));
    SumOfAgree(rest, SnapOf(t, pe), SnapOf(u, pe));
  }

  /** A volume the corrected check lets in never drives the group's free
      space below zero when it was not below zero before. */
  lemma AddLogVolNeverOvercommits(t: Tree, vg: DeviceId, lv: DeviceId, pad: Padding)
    requires ParentsValid(t) && IsVg(t, vg) && lv < |t|
    requires SpaceChecked(t, vg, lv) && AddLogVol(t, vg, lv, pad).Ok?
    ensures IsVg(AddLogVol(t, vg, lv, pad).value, vg)
    ensures FreeSpace(AddLogVol(t, vg, lv, pad).value, vg, pad) >= 0
  {
    ListingUsesSpace(t, vg, lv, pad);
  }

  /** Adding a volume and removing it again gives back the arena. */
  lemma AddThenRemoveLogVol(t: Tree, vg: DeviceId, lv: DeviceId, pad: Padding)
    requires ParentsValid(t) && IsVg(t, vg) && lv < |t| && AddLogVol(t, vg, lv, pad).Ok?
    ensures RemoveLogVol(AddLogVol(t, vg, lv, pad).value, vg, lv) == Ok(t)
  {
    var info := Info(t, vg);
    RemoveAppended(info.lvs, lv);
    var u := RemoveLogVol(AddLogVol(t, vg, lv, pad).value, vg, lv).value;
    assert u[vg] == t[vg];
    assert u == t;
  }

  /** A concrete input for the as-written check: a group of 104 MB on one
      physical volume with nothing allocated, and a new two-copy mirror of
      60 MB.  The size check lets it in, but it takes 120 MB, leaving the
      free space at -16 MB; the corrected check refuses it. */
  lemma AddLogVolOvercommitExample()
    ensures var t := OvercommitArena();
            var pad := (a: int, b: ExtentSize) => 0;
            && AddLogVolAsWritten(t, 1, 2, pad).Ok?
            && IsVg(AddLogVolAsWritten(t, 1, 2, pad).value, 1)
            && FreeSpace(AddLogVolAsWritten(t, 1, 2, pad).value, 1, pad) == -16
            && AddLogVol(t, 1, 2, pad).Err?
  {
    var t := OvercommitArena();
    var pad := (a: int, b: ExtentSize) => 0;
    ExampleFacts(pad);
    ListingUsesSpace(t, 1, 2, pad);
  }

  /** A 104 MB disk holding a physical volume, a group on it with no
      volumes, and a new 60 MB logical volume with two copies. */
  function OvercommitArena(): (t: Tree)
    ensures |t| == 3 && ParentsValid(t) && IsVg(t, 1)
  {
    var pvFormat := BlankFormat.(fmtType := "lvmpv", role := PhysicalVolume(0, None));
    var disk := Device("sda", [], 1, false, 104, 104, None, true, pvFormat, false, Disk);
    var info := VgInfo(4, 1, None, false, 0, 0, [], []);
    var group := Device("vg", [0], 1, false, 0, 0, None, true, BlankFormat, false, VolumeGroup(info));
    var mirror := LvInfo(2, 0, 0, 0, PlainLv);
    var lv := Device("root", [1], 0, false, 60, 60, None, true, BlankFormat, false, LogicalVolume(mirror));
    [disk, group, lv]
  }

  lemma ExampleFacts(pad: Padding)
    ensures var t := OvercommitArena();
            && VgSize(t, 1) == 104 && FreeSpace(t, 1, pad) == 104
            && Graph.SizeOf(t, 2) == 60 && SpaceChecked(t, 1, 2)
            && Need(t, 1, 2, pad) == 120
  {
    var t := OvercommitArena();
    assert Align(104, 4, false) == 104;
    assert SumOf(t[1].parents, CapacityOf(t, 4)) == 104 by {
      assert t[1].parents[..0] == [];
    }
    assert Align(60, 4, true) == 60;
    assert Align(0, 4, true) == 0;
    assert !Dependencies.Growable(t, 1);
  }
}
