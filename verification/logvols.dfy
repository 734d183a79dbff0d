/** `LVMLogicalVolumeDevice`, `LVMThinPoolDevice` and
    `LVMThinLogicalVolumeDevice`: resizing a volume against its group's
    free space, a pool's list of thin volumes, and the space used within a
    pool.
 */
module LogicalVolumes {
  import opened Outcomes
  import opened Model
  import opened Lists
  import Graph
  import opened VolumeGroups

  /** `lv` is a plain volume or a pool of the group `vg`, which it names as
      its first parent, as the volume's constructor arranges. */
  predicate InGroup(t: Tree, lv: DeviceId, vg: DeviceId) {
    && lv < |t| && IsVg(t, vg)
    && t[lv].kind.LogicalVolume? && !t[lv].kind.lv.variant.ThinLv?
    && |t[lv].parents| > 0 && t[lv].parents[0] == vg
  }

  /** The volume with both its stored size and its target set to `a`. */
  function Resized(d: Device, a: int): Device {
    d.(size := a, targetSize := a)
  }

  // -----------------------------------------------------------------------
  // Resizing a volume

  const NO_SPACE_MSG := "not enough free space in volume group"

  /** `LVMLogicalVolumeDevice._setSize` as the source writes it: the size
      is rounded down to whole extents and accepted when it is at most the
      group's free space plus the volume's current stored size, whatever
      the volume's copies, log and metadata take. */
  function SetLvSizeAsWritten(t: Tree, lv: DeviceId, vg: DeviceId, newSize: int, pad: Padding): (r: Result<Tree>)
    requires InGroup(t, lv, vg)
    ensures var a := Align(newSize, Info(t, vg).peSize, false);
            r.Ok? <==> a <= FreeSpace(t, vg, pad) + t[lv].size
    ensures r.Err? ==> r.error == ValueError(NO_SPACE_MSG)
    ensures r.Ok? ==> r.value == t[lv := Resized(t[lv], Align(newSize, Info(t, vg).peSize, false))]
  {
    var a := Align(newSize, Info(t, vg).peSize, false);
    if a <= FreeSpace(t, vg, pad) + t[lv].size then Ok(t[lv := Resized(t[lv], a)])
    else Err(ValueError(NO_SPACE_MSG))
  }

  /** The space the volume would take in the group at size `a`, and the
      space it takes now. */
  function SpaceAt(t: Tree, lv: DeviceId, vg: DeviceId, a: int, pad: Padding): int
    requires InGroup(t, lv, vg)
  {
    LvSpaceUsed(Resized(t[lv], a), Info(t, vg).peSize, pad)
  }

  function SpaceNow(t: Tree, lv: DeviceId, vg: DeviceId, pad: Padding): int
    requires InGroup(t, lv, vg)
  {
    LvSpaceUsed(t[lv], Info(t, vg).peSize, pad)
  }

  /** `LVMLogicalVolumeDevice._setSize` as intended: the size is rounded
      down to whole extents and accepted when the space the volume would
      then take in the group exceeds what it takes now by at most the free
      space. */
  function SetLvSize(t: Tree, lv: DeviceId, vg: DeviceId, newSize: int, pad: Padding): (r: Result<Tree>)
    requires InGroup(t, lv, vg)
    ensures var a := Align(newSize, Info(t, vg).peSize, false);
            r.Ok? <==> SpaceAt(t, lv, vg, a, pad) - SpaceNow(t, lv, vg, pad) <= FreeSpace(t, vg, pad)
    ensures r.Err? ==> r.error == ValueError(NO_SPACE_MSG)
    ensures r.Ok? ==> |r.value| == |t| && forall j :: 0 <= j < |t| && j != lv ==> r.value[j] == t[j]
    ensures r.Ok? ==> var a := r.value[lv].size;
            a % Info(t, vg).peSize == 0 && newSize - Info(t, vg).peSize < a <= newSize
            && r.value[lv] == Resized(t[lv], a)
  {
    var a := Align(newSize, Info(t, vg).peSize, false);
    if SpaceAt(t, lv, vg, a, pad) - SpaceNow(t, lv, vg, pad) <= FreeSpace(t, vg, pad) then Ok(t[lv := Resized(t[lv], a)])
    else Err(ValueError(NO_SPACE_MSG))
  }

  /** Resizing a volume listed once in its group, on physical volumes that
      precede it in the arena, changes the group's free space by exactly
      the change in the space the volume takes. */
  lemma ResizeSpace(t: Tree, lv: DeviceId, vg: DeviceId, a: int, pad: Padding)
    requires InGroup(t, lv, vg) && Count(Info(t, vg).lvs, lv) == 1
    requires forall k :: 0 <= k < |t[vg].parents| ==> t[vg].parents[k] < lv
    ensures var u := t[lv := Resized(t[lv], a)];
            IsVg(u, vg) && FreeSpace(u, vg, pad)
              == FreeSpace(t, vg, pad) - (SpaceAt(t, lv, vg, a, pad) - SpaceNow(t, lv, vg, pad))
  {
    var u := t[lv := Resized(t[lv], a)];
    var info := Info(t, vg);
    ResizeKeepsGroup(t, lv, vg, a);
    var delta := SpaceAt(t, lv, vg, a, pad) - SpaceNow(t, lv, vg, pad);
    SumOfChangedAt(info.lvs, SpaceOf(t, info.peSize, pad), SpaceOf(u, info.peSize, pad), lv, delta);
  }

  /** Resizing a volume that follows the group's physical volumes leaves
      the group's record, size, snapshot space and reserve as they were. */
  lemma ResizeKeepsGroup(t: Tree, lv: DeviceId, vg: DeviceId, a: int)
    requires InGroup(t, lv, vg)
    requires forall k :: 0 <= k < |t[vg].parents| ==> t[vg].parents[k] < lv
    ensures var u := t[lv := Resized(t[lv], a)];
            IsVg(u, vg) && Info(u, vg) == Info(t, vg) && VgSize(u, vg) == VgSize(t, vg)
            && SnapshotSpace(u, vg) == SnapshotSpace(t, vg) && ReservedSpace(u, vg) == ReservedSpace(t, vg)
  {
    var u := t[lv := Resized(t[lv], a)];
    var info := Info(t, vg);
    var pe := info.peSize;
    assert Info(u, vg) == info;
    forall k | 0 <= k < |t[vg].parents|
      ensures CapacityOf(u, pe)(t[vg].parents[k]) == CapacityOf(t, pe)(t[vg].parents[k])
    {
      Graph.SizeOfFrame(t, u, t[vg].parents[k]);
    }
    SumOfAgree(t[vg].parents, CapacityOf(t, pe), CapacityOf(u, pe));
    SumOfAgree(info.lvs, SnapOf(t, pe), SnapOf(u, pe));
  }

  /** A resize the corrected setter accepts never drives the group's free
      space below zero. */
  lemma SetLvSizeNeverOvercommits(t: Tree, lv: DeviceId, vg: DeviceId, newSize: int, pad: Padding)
    requires InGroup(t, lv, vg) && Count(Info(t, vg).lvs, lv) == 1
    requires forall k :: 0 <= k < |t[vg].parents| ==> t[vg].parents[k] < lv
    requires SetLvSize(t, lv, vg, newSize, pad).Ok?
    ensures IsVg(SetLvSize(t, lv, vg, newSize, pad).value, vg)
    ensures FreeSpace(SetLvSize(t, lv, vg, newSize, pad).value, vg, pad) >= 0
  {
    ResizeSpace(t, lv, vg, Align(newSize, Info(t, vg).peSize, false), pad);
  }

  /** A 104 MB disk holding a physical volume, a group on it, and a new
      40 MB logical volume with two copies listed in the group. */
  function MirrorArena(): (t: Tree)
    ensures |t| == 3 && ParentsValid(t) && InGroup(t, 2, 1) && Count(Info(t, 1).lvs, 2) == 1
  {
    var pvFormat := BlankFormat.(fmtType := "lvmpv", role := PhysicalVolume(0, None));
    var disk := Device("sda", [], 1, false, 104, 104, None, true, pvFormat, false, Disk);
    var info := VgInfo(4, 1, None, false, 0, 0, [2], []);
    var group := Device("vg", [0], 1, false, 0, 0, None, true, BlankFormat, false, VolumeGroup(info));
    var mirror := LvInfo(2, 0, 0, 0, PlainLv);
    var lv := Device("root", [1], 0, false, 40, 40, None, true, BlankFormat, false, LogicalVolume(mirror));
    assert Count([2], 2) == 1;
    [disk, group, lv]
  }

  lemma MirrorFacts(pad: Padding)
    ensures var t := MirrorArena();
            && VgSize(t, 1) == 104 && FreeSpace(t, 1, pad) == 24
            && SpaceNow(t, 2, 1, pad) == 80 && SpaceAt(t, 2, 1, 60, pad) == 120
  {
    var t := MirrorArena();
    assert Align(104, 4, false) == 104;
    assert SumOf(t[1].parents, CapacityOf(t, 4)) == 104 by {
      assert t[1].parents[..0] == [];
    }
    assert Align(40, 4, true) == 40;
    assert Align(60, 4, true) == 60;
    assert Align(0, 4, true) == 0;
    assert SumOf([2], SpaceOf(t, 4, pad)) == 80 by {
      assert [2][..0] == [];
    }
    assert SumOf([2], SnapOf(t, 4)) == 0 by {
      assert [2][..0] == [];
    }
  }

  /** A concrete input for the as-written setter: the mirror above, with
      24 MB free, asked to grow from 40 MB to 60 MB.  60 is at most 24 + 40,
      so the setter accepts, yet the mirror then takes 120 MB of the group
      and the free space falls to -16 MB; the corrected setter refuses. */
  lemma SetLvSizeOvercommitExample()
    ensures var t := MirrorArena();
            var pad := (a: int, b: ExtentSize) => 0;
            && SetLvSizeAsWritten(t, 2, 1, 60, pad).Ok?
            && IsVg(SetLvSizeAsWritten(t, 2, 1, 60, pad).value, 1)
            && FreeSpace(SetLvSizeAsWritten(t, 2, 1, 60, pad).value, 1, pad) == -16
            && SetLvSize(t, 2, 1, 60, pad).Err?
  {
    var t := MirrorArena();
    var pad := (a: int, b: ExtentSize) => 0;
    MirrorFacts(pad);
    assert Align(60, 4, false) == 60;
    ResizeSpace(t, 2, 1, 60, pad);
  }

  // -----------------------------------------------------------------------
  // Thin volumes and their pools

  /** `pool` is a thin pool of the group `vg`. */
  predicate IsPool(t: Tree, pool: DeviceId, vg: DeviceId) {
    InGroup(t, pool, vg) && t[pool].kind.lv.variant.ThinPool? && ValidIds(t, t[pool].kind.lv.variant.poolLvs)
  }

  function PoolLvs(t: Tree, pool: DeviceId, vg: DeviceId): seq<DeviceId>
    requires IsPool(t, pool, vg)
  {
    t[pool].kind.lv.variant.poolLvs
  }

  /** `LVMThinLogicalVolumeDevice._setSize`: the size is rounded down to
      whole extents of the pool's group `vg`, twice, and stored as both the
      size and the target.  Nothing is checked. */
  function SetThinSize(t: Tree, thin: DeviceId, vg: DeviceId, newSize: int): (r: Tree)
    requires thin < |t| && IsVg(t, vg) && VgOf(t, thin) == Some(vg)
    ensures |r| == |t| && forall j :: 0 <= j < |t| && j != thin ==> r[j] == t[j]
    ensures r[thin] == Resized(t[thin], r[thin].size)
    ensures var pe := Info(t, vg).peSize;
            r[thin].size % pe == 0 && newSize - pe < r[thin].size <= newSize
  {
    var pe := Info(t, vg).peSize;
    var once := Align(newSize, pe, false);
    t[thin := Resized(t[thin], Align(once, pe, false))]
  }

  /** Rounding twice is rounding once: the second alignment in the thin
      setter never changes the size. */
  lemma SetThinSizeAlignsOnce(t: Tree, thin: DeviceId, vg: DeviceId, newSize: int)
    requires thin < |t| && IsVg(t, vg) && VgOf(t, thin) == Some(vg)
    ensures SetThinSize(t, thin, vg, newSize)[thin].size == Align(newSize, Info(t, vg).peSize, false)
  {
    AlignIdempotent(newSize, Info(t, vg).peSize, false, false);
  }

  /** `poolSpaceUsed` of a thin volume: its size rounded up to whole
      extents of the group. */
  function PoolSpaceOf(t: Tree, pe: ExtentSize): DeviceId -> int {
    (x: DeviceId) =>
      if x < |t| && t[x].kind.LogicalVolume? && t[x].kind.lv.variant.ThinLv? then Align(Graph.StorageSize(t[x]), pe, true)
      else 0
  }

  /** The pool's `usedSpace`: what its thin volumes use within it. */
  function PoolUsedSpace(t: Tree, pool: DeviceId, vg: DeviceId): (r: int)
    requires IsPool(t, pool, vg)
  {
    SumOf(PoolLvs(t, pool, vg), PoolSpaceOf(t, Info(t, vg).peSize))
  }

  /** The pool's `freeSpace`: its size less what its thin volumes use. */
  function PoolFreeSpace(t: Tree, pool: DeviceId, vg: DeviceId): int
    requires IsPool(t, pool, vg)
  {
    Graph.SizeOf(t, pool) - PoolUsedSpace(t, pool, vg)
  }

  /** Resizing a thin volume listed once in its pool changes the pool's
      used space by the change in the volume's rounded-up size, and moves
      nothing in the group: a thin volume takes none of the group's
      space. */
  lemma SetThinSizeMovesPoolSpace(t: Tree, thin: DeviceId, pool: DeviceId, vg: DeviceId, newSize: int)
    requires IsPool(t, pool, vg) && thin < |t| && thin != pool && VgOf(t, thin) == Some(vg)
    requires t[thin].kind.LogicalVolume? && t[thin].kind.lv.variant.ThinLv?
    requires Count(PoolLvs(t, pool, vg), thin) == 1
    ensures var u := SetThinSize(t, thin, vg, newSize);
            var pe := Info(t, vg).peSize;
            IsPool(u, pool, vg)
            && PoolUsedSpace(u, pool, vg) == PoolUsedSpace(t, pool, vg)
                 + (PoolSpaceOf(u, pe)(thin) - PoolSpaceOf(t, pe)(thin))
            && LvSpaceUsed(u[thin], pe, (a: int, b: ExtentSize) => 0) == 0
  {
    var u := SetThinSize(t, thin, vg, newSize);
    var pe := Info(t, vg).peSize;
    SumOfChangedAt(PoolLvs(t, pool, vg), PoolSpaceOf(t, pe), PoolSpaceOf(u, pe), thin,
                   PoolSpaceOf(u, pe)(thin) - PoolSpaceOf(t, pe)(thin));
  }

  /** Every listing in the pool is matched by a listing in the group. */
  predicate PoolNested(t: Tree, pool: DeviceId, vg: DeviceId)
    requires IsPool(t, pool, vg)
  {
    multiset(PoolLvs(t, pool, vg)) <= multiset(Info(t, vg).lvs)
  }

  /** The arena with the pool's list replaced. */
  function WithPoolLvs(t: Tree, pool: DeviceId, vg: DeviceId, lvs: seq<DeviceId>): (r: Tree)
    requires IsPool(t, pool, vg) && ValidIds(t, lvs)
    ensures |r| == |t| && IsPool(r, pool, vg) && PoolLvs(r, pool, vg) == lvs
    ensures Info(r, vg) == Info(t, vg) && r[vg] == t[vg]
    ensures forall j :: 0 <= j < |t| && j != pool ==> r[j] == t[j]
    ensures r[pool].parents == t[pool].parents && r[pool].kids == t[pool].kids
  {
    var d := t[pool];
    t[pool := d.(kind := LogicalVolume(d.kind.lv.(variant := ThinPool(lvs))))]
  }

  /** `LVMThinPoolDevice._addLogVol`: a volume the pool lists already is
      refused; otherwise the group must accept the volume, and then the
      pool lists it too. */
  function PoolAddLogVol(t: Tree, pool: DeviceId, vg: DeviceId, lv: DeviceId, pad: Padding): (r: Result<Tree>)
    requires ParentsValid(t) && IsPool(t, pool, vg) && lv < |t|
    ensures lv in PoolLvs(t, pool, vg) ==> r == Err(ValueError("lv is already part of this vg"))
    ensures lv !in PoolLvs(t, pool, vg) && AddLogVol(t, vg, lv, pad).Err? ==> r == AddLogVol(t, vg, lv, pad)
    ensures r.Ok? <==> lv !in PoolLvs(t, pool, vg) && AddLogVol(t, vg, lv, pad).Ok?
    ensures r.Ok? ==> |r.value| == |t| && IsPool(r.value, pool, vg)
    ensures r.Ok? ==> PoolLvs(r.value, pool, vg) == PoolLvs(t, pool, vg) + [lv]
    ensures r.Ok? ==> Info(r.value, vg).lvs == Info(t, vg).lvs + [lv]
  {
    if lv in PoolLvs(t, pool, vg) then Err(ValueError("lv is already part of this vg"))
    else
      var added :- AddLogVol(t, vg, lv, pad);
      Ok(WithPoolLvs(added, pool, vg, PoolLvs(t, pool, vg) + [lv]))
  }

  /** `LVMThinPoolDevice._removeLogVol`: a volume the pool does not list
      is refused; otherwise the pool drops it first and then the group
      drops it, and when the group does not list it the group's refusal is
      raised with the pool's list already changed. */
  function PoolRemoveLogVol(t: Tree, pool: DeviceId, vg: DeviceId, lv: DeviceId): (r: TreeOutcome)
    requires IsPool(t, pool, vg)
    ensures lv !in PoolLvs(t, pool, vg) ==> r == TreeOutcome(t, Some(ValueError("specified lv is not part of this vg")))
    ensures r.error.None? <==> lv in PoolLvs(t, pool, vg) && lv in Info(t, vg).lvs
    ensures lv in PoolLvs(t, pool, vg) ==>
              (|r.tree| == |t| && IsPool(r.tree, pool, vg)
               && PoolLvs(r.tree, pool, vg) == RemoveFirst(PoolLvs(t, pool, vg), lv))
    ensures lv in PoolLvs(t, pool, vg) && r.error.None? ==> Info(r.tree, vg).lvs == RemoveFirst(Info(t, vg).lvs, lv)
    ensures lv in PoolLvs(t, pool, vg) && r.error.Some? ==>
              Info(r.tree, vg) == Info(t, vg) && r.error == Some(ValueError("specified lv is not part of this vg"))
  {
    var lvs := PoolLvs(t, pool, vg);
    if lv !in lvs then TreeOutcome(t, Some(ValueError("specified lv is not part of this vg")))
    else
      RemovedValid(t, lvs, lv);
      var dropped := WithPoolLvs(t, pool, vg, RemoveFirst(lvs, lv));
      match RemoveLogVol(dropped, vg, lv)
      case Ok(u) =>
        assert IsPool(u, pool, vg) by {
          assert u[pool] == dropped[pool];
        }
        TreeOutcome(u, None)
      case Err(e) => TreeOutcome(dropped, Some(e))
  }

  /** Adding a thin volume keeps the pool's list nested in the group's. */
  lemma PoolAddKeepsNested(t: Tree, pool: DeviceId, vg: DeviceId, lv: DeviceId, pad: Padding)
    requires ParentsValid(t) && IsPool(t, pool, vg) && lv < |t| && PoolNested(t, pool, vg)
    requires PoolAddLogVol(t, pool, vg, lv, pad).Ok?
    ensures PoolNested(PoolAddLogVol(t, pool, vg, lv, pad).value, pool, vg)
  {
  }

  /** While the pool's list is nested in the group's, removing a thin
      volume the pool lists never fails half-way, and keeps the lists
      nested. */
  lemma PoolRemoveKeepsNested(t: Tree, pool: DeviceId, vg: DeviceId, lv: DeviceId)
    requires IsPool(t, pool, vg) && PoolNested(t, pool, vg) && lv in PoolLvs(t, pool, vg)
    ensures PoolRemoveLogVol(t, pool, vg, lv).error.None?
    ensures PoolNested(PoolRemoveLogVol(t, pool, vg, lv).tree, pool, vg)
  {
    var lvs := PoolLvs(t, pool, vg);
    var glvs := Info(t, vg).lvs;
    assert lv in multiset(lvs);
    assert lv in glvs;
    MultisetRemoveFirst(lvs, lv);
    MultisetRemoveFirst(glvs, lv);
  }

  /** Adding a thin volume to a pool and removing it again gives back the
      arena. */
  lemma PoolAddThenRemove(t: Tree, pool: DeviceId, vg: DeviceId, lv: DeviceId, pad: Padding)
    requires ParentsValid(t) && IsPool(t, pool, vg) && lv < |t|
    requires PoolAddLogVol(t, pool, vg, lv, pad).Ok?
    ensures PoolRemoveLogVol(PoolAddLogVol(t, pool, vg, lv, pad).value, pool, vg, lv) == TreeOutcome(t, None)
  {
    var lvs := PoolLvs(t, pool, vg);
    var added := AddLogVol(t, vg, lv, pad).value;
    assert added[pool] == t[pool];
    var a := WithPoolLvs(added, pool, vg, lvs + [lv]);
    assert PoolAddLogVol(t, pool, vg, lv, pad) == Ok(a);
    RemoveAppended(lvs, lv);
    PoolListRestored(added, pool, vg, lvs + [lv]);
    AddThenRemoveLogVol(t, vg, lv, pad);
  }

  /** Putting the pool's own list back undoes a change of list. */
  lemma PoolListRestored(t: Tree, pool: DeviceId, vg: DeviceId, lvs: seq<DeviceId>)
    requires IsPool(t, pool, vg) && ValidIds(t, lvs)
    ensures WithPoolLvs(WithPoolLvs(t, pool, vg, lvs), pool, vg, PoolLvs(t, pool, vg)) == t
  {
    var u := WithPoolLvs(WithPoolLvs(t, pool, vg, lvs), pool, vg, PoolLvs(t, pool, vg));
    assert u[pool] == t[pool];
  }

  /** Listing a thin volume in a pool lowers the pool's free space by the
      volume's rounded-up size. */
  lemma PoolAddUsesPoolSpace(t: Tree, pool: DeviceId, vg: DeviceId, lv: DeviceId, pad: Padding)
    requires ParentsValid(t) && IsPool(t, pool, vg) && lv < |t|
    requires PoolAddLogVol(t, pool, vg, lv, pad).Ok?
    ensures var u := PoolAddLogVol(t, pool, vg, lv, pad).value;
            PoolFreeSpace(u, pool, vg) == PoolFreeSpace(t, pool, vg) - PoolSpaceOf(t, Info(t, vg).peSize)(lv)
  {
    var u := PoolAddLogVol(t, pool, vg, lv, pad).value;
    var pe := Info(t, vg).peSize;
    var lvs := PoolLvs(t, pool, vg);
    var added := AddLogVol(t, vg, lv, pad).value;
    assert SameSpaceInputs(t, added);
    forall j | 0 <= j <= pool ensures Graph.InputsOf(u[j]) == Graph.InputsOf(t[j]) {
      assert SpaceInputs(added[j]) == SpaceInputs(t[j]);
    }
    Graph.SizeOfFrame(t, u, pool);
    SumOfAppend(lvs, lv, PoolSpaceOf(u, pe));
    SumOfAgree(lvs + [lv], PoolSpaceOf(t, pe), PoolSpaceOf(u, pe));
    SumOfAppend(lvs, lv, PoolSpaceOf(t, pe));
  }
}
