/** `PartitionDevice`: partition types, partition requests, moving a
    partition to another disk, and creating or destroying a partition on a
    disk label whose commit can fail.

    A disk label is the set of partitions it holds.  The source creates on
    the disk's working label (`disk.format`) and destroys on the label read
    from the disk (`disk.originalFormat`); each operation here takes the
    label it edits.  Whether writing it to the disk succeeds is a parameter
    (`commitOk`): committing is I/O.
 */
module Partitions {
  import opened Outcomes
  import opened Model
  import Graph
  import Lists
  import Dependencies

  // -----------------------------------------------------------------------
  // Types

  /** What the partition types decide: a partition that is not logical
      depends directly on exactly its parents, as `Device.dependsOn` has
      it, whatever the types of the other partitions. */
  lemma NonLogicalDependsOnParents(t: Tree, id: DeviceId, dep: DeviceId)
    requires id < |t| && dep < |t| && t[id].kind.Partition?
    requires !IsLogicalType(t[id].kind.partType)
    ensures Dependencies.DirectlyDepends(t, id, dep) <==> dep in t[id].parents
  {
  }

  /** Between two partitions of one disk with no parent link, the extra
      rule of `PartitionDevice.dependsOn` fires exactly when the first is
      logical and the second extended: a primary partition never gains a
      dependant this way, and a protected bit alone changes nothing. */
  lemma ExtendedRuleIff(t: Tree, id: DeviceId, dep: DeviceId)
    requires id < |t| && dep < |t| && t[id].kind.Partition? && t[dep].kind.Partition?
    requires DiskOf(t[id]) == DiskOf(t[dep]) && dep !in t[id].parents
    ensures Dependencies.DirectlyDepends(t, id, dep)
        <==> IsLogicalType(t[id].kind.partType) && IsExtendedType(t[dep].kind.partType)
    ensures IsPrimaryType(t[dep].kind.partType) ==> !Dependencies.DirectlyDepends(t, id, dep)
    ensures IsPrimaryType(t[id].kind.partType) ==> !Dependencies.DirectlyDepends(t, id, dep)
  {
  }

  // -----------------------------------------------------------------------
  // Requests and disks

  /** `PartitionDevice.__init__` for a partition that does not exist yet:
      the device is built with its candidate disks as parents, then gives
      them back: it ends with no parents and no disk's child count moves. */
  function NewPartitionRequest(t: Tree, d: Device): (r: Tree)
    requires ValidIds(t, d.parents) && !d.existing && d.kind.Partition?
    ensures |r| == |t| + 1
    ensures r[|t|] == d.(kids := 0, parents := [])
    ensures forall i :: 0 <= i < |t| ==> r[i] == t[i]
  {
    var built := Graph.AddDevice(t, d);
    var r := Graph.Relink(built, |t|, []);
    assert forall i :: 0 <= i < |t| ==> r[i] == t[i] by {
      forall i | 0 <= i < |t| ensures r[i] == t[i] {
        assert Lists.Count([], i) == 0;
      }
    }
    r
  }

  /** Building a partition request keeps every child count exact. */
  lemma NewPartitionRequestKeepsKidsExact(t: Tree, d: Device)
    requires Graph.KidsExact(t) && ParentsValid(t)
    requires ValidIds(t, d.parents) && !d.existing && d.kind.Partition?
    ensures Graph.KidsExact(NewPartitionRequest(t, d))
  {
    Graph.AddDeviceKeepsKidsExact(t, d);
    Graph.RelinkKeepsKidsExact(Graph.AddDevice(t, d), |t|, []);
  }

  /** The arena with `delta` added to the child count of `p`, if given. */
  function CountChild(t: Tree, p: Option<DeviceId>, delta: int): (r: Tree)
    requires p.Some? ==> p.value < |t|
    ensures |r| == |t|
    ensures forall j :: 0 <= j < |t| ==> r[j] == t[j].(kids := t[j].kids + (if p == Some(j) then delta else 0))
  {
    if p.Some? then t[p.value := t[p.value].(kids := t[p.value].kids + delta)] else t
  }

  /** The `disk` setter: the old disk, if any, loses one child; the
      partition's parents become just the new disk, or nothing; the new
      disk gains one child. */
  function SetDisk(t: Tree, id: DeviceId, disk: Option<DeviceId>): (r: Tree)
    requires id < |t| && ValidIds(t, t[id].parents) && (disk.Some? ==> disk.value < |t|)
    ensures |r| == |t|
    ensures DiskOf(r[id]) == disk
    ensures r[id].parents == (if disk.Some? then [disk.value] else [])
    ensures forall j :: 0 <= j < |t| ==>
              r[j].kids == t[j].kids - (if DiskOf(t[id]) == Some(j) then 1 else 0)
                                     + (if disk == Some(j) then 1 else 0)
    ensures forall j :: 0 <= j < |t| && j != id ==> r[j] == t[j].(kids := r[j].kids)
    ensures r[id] == t[id].(parents := r[id].parents, kids := r[id].kids)
  {
    var t1 := CountChild(t, DiskOf(t[id]), -1);
    var newParents := if disk.Some? then [disk.value] else [];
    var t2 := t1[id := t1[id].(parents := newParents)];
    CountChild(t2, disk, 1)
  }

  /** For a partition on at most one disk, which is every partition the
      source builds, the setter is the general re-link. */
  lemma SetDiskIsRelink(t: Tree, id: DeviceId, disk: Option<DeviceId>)
    requires id < |t| && ValidIds(t, t[id].parents) && (disk.Some? ==> disk.value < |t|)
    requires |t[id].parents| <= 1
    ensures SetDisk(t, id, disk) == Graph.Relink(t, id, if disk.Some? then [disk.value] else [])
  {
    var newParents := if disk.Some? then [disk.value] else [];
    var r := SetDisk(t, id, disk);
    var s := Graph.Relink(t, id, newParents);
    forall j | 0 <= j < |t| ensures r[j] == s[j] {
      CountOfAtMostOne(newParents, j);
      CountOfAtMostOne(t[id].parents, j);
    }
  }

  /** How often a list of at most one id lists `j`. */
  lemma CountOfAtMostOne(ps: seq<DeviceId>, j: DeviceId)
    requires |ps| <= 1
    ensures Lists.Count(ps, j) == (if |ps| == 1 && ps[0] == j then 1 else 0)
  {
    if |ps| == 1 {
      assert ps == [ps[0]];
    }
  }

  /** Moving a partition between disks keeps every child count exact. */
  lemma SetDiskKeepsKidsExact(t: Tree, id: DeviceId, disk: Option<DeviceId>)
    requires Graph.KidsExact(t)
    requires id < |t| && ValidIds(t, t[id].parents) && (disk.Some? ==> disk.value < |t|)
    requires |t[id].parents| <= 1
    ensures Graph.KidsExact(SetDisk(t, id, disk))
  {
    SetDiskIsRelink(t, id, disk);
    Graph.RelinkKeepsKidsExact(t, id, if disk.Some? then [disk.value] else []);
  }

  // -----------------------------------------------------------------------
  // Creating and destroying on a disk label

  /** The arena and the disk label after an operation, and the exception it
      raised, if any.  The label is reported even on failure, because the
      source edits it in memory before committing. */
  datatype LabelOutcome = LabelOutcome(tree: Tree, parts: set<DeviceId>, error: Option<Error>)

  const NO_DISK_MSG := "'NoneType' object has no attribute 'format'"
  const NO_DISK_ORIG_MSG := "'NoneType' object has no attribute 'originalFormat'"

  /** `PartitionDevice.create` against `working`, the working label of the
      partition's disk (`disk.format`).  A partition that exists, or whose
      disk does not, is refused; a partition with no disk fails on the
      missing label.  Otherwise it is added to the label; if the commit
      fails it is taken out again and the commit error is raised, else the
      partition exists afterwards. */
  function CreatePartition(t: Tree, id: DeviceId, working: set<DeviceId>, commitOk: bool): (r: LabelOutcome)
    requires id < |t| && ValidIds(t, t[id].parents)
    ensures t[id].existing ==> r == LabelOutcome(t, working, Some(DeviceError("device already exists", NameOf(t, id))))
    ensures r.error.None? <==>
              !t[id].existing && |t[id].parents| > 0 && commitOk
              && forall k :: 0 <= k < |t[id].parents| ==> t[t[id].parents[k]].existing
    ensures r.error.None? ==> r.tree == t[id := t[id].(existing := true)] && r.parts == working + {id}
    ensures r.error == Some(DiskLabelCommitError) ==> r.tree == t && r.parts == working - {id}
    ensures r.error.Some? ==> r.tree == t
  {
    var d := t[id];
    if d.existing then LabelOutcome(t, working, Some(DeviceError("device already exists", NameOf(t, id))))
    else if exists k :: 0 <= k < |d.parents| && !t[d.parents[k]].existing then
      LabelOutcome(t, working, Some(DeviceError("parent device does not exist", NameOf(t, id))))
    else if |d.parents| == 0 then LabelOutcome(t, working, Some(AttributeError(NO_DISK_MSG)))
    else
      var added := working + {id};
      if !commitOk then LabelOutcome(t, added - {id}, Some(DiskLabelCommitError))
      else LabelOutcome(t[id := d.(existing := true)], added, None)
  }

  /** A partition the source can find in sysfs; every other kind of device
      counts as having a path. */
  predicate HasSysfsPath(d: Device) {
    d.kind.Partition? ==> d.kind.hasSysfsPath
  }

  /** `PartitionDevice.destroy` against `original`, the label read from
      the partition's disk (`disk.originalFormat`).  A partition that does
      not exist is refused; one without a sysfs path is left alone without
      complaint, even when it has children; one with children is refused.
      Otherwise it is taken off the label; if the commit fails it is put
      back and the commit error is raised, else the partition no longer
      exists. */
  function DestroyPartition(t: Tree, id: DeviceId, original: set<DeviceId>, commitOk: bool): (r: LabelOutcome)
    requires id < |t|
    ensures !t[id].existing ==>
              r == LabelOutcome(t, original, Some(DeviceError("device has not been created", NameOf(t, id))))
    ensures t[id].existing && !HasSysfsPath(t[id]) ==> r == LabelOutcome(t, original, None)
    ensures t[id].existing && HasSysfsPath(t[id]) && !Graph.IsLeaf(t[id]) ==>
              r == LabelOutcome(t, original, Some(DeviceError("Cannot destroy non-leaf device", NameOf(t, id))))
    ensures t[id].existing && HasSysfsPath(t[id]) && Graph.IsLeaf(t[id]) && |t[id].parents| == 0 ==>
              r == LabelOutcome(t, original, Some(AttributeError(NO_DISK_ORIG_MSG)))
    ensures t[id].existing && HasSysfsPath(t[id]) && Graph.IsLeaf(t[id]) && |t[id].parents| > 0 && !commitOk ==>
              r == LabelOutcome(t, original + {id}, Some(DiskLabelCommitError))
    ensures r.error.None? && r.tree != t <==>
              t[id].existing && HasSysfsPath(t[id]) && Graph.IsLeaf(t[id]) && |t[id].parents| > 0 && commitOk
    ensures r.error.None? && r.tree != t ==>
              r.tree == t[id := t[id].(existing := false)] && !r.tree[id].existing && r.parts == original - {id}
    ensures r.error.Some? ==> r.tree == t
  {
    var d := t[id];
    if !d.existing then LabelOutcome(t, original, Some(DeviceError("device has not been created", NameOf(t, id))))
    else if !HasSysfsPath(d) then LabelOutcome(t, original, None)
    else if !Graph.IsLeaf(d) then LabelOutcome(t, original, Some(DeviceError("Cannot destroy non-leaf device", NameOf(t, id))))
    else if |d.parents| == 0 then LabelOutcome(t, original, Some(AttributeError(NO_DISK_ORIG_MSG)))
    else
      var removed := original - {id};
      if !commitOk then LabelOutcome(t, removed + {id}, Some(DiskLabelCommitError))
      else LabelOutcome(t[id := d.(existing := false)], removed, None)
  }

  /** A failed commit during creation leaves the label as it was, as long
      as the partition was not on it already. */
  lemma CreateRollsBack(t: Tree, id: DeviceId, working: set<DeviceId>)
    requires id < |t| && ValidIds(t, t[id].parents) && id !in working
    requires CreatePartition(t, id, working, false).error == Some(DiskLabelCommitError)
    ensures CreatePartition(t, id, working, false) == LabelOutcome(t, working, Some(DiskLabelCommitError))
  {
    assert working - {id} == working;
  }

  /** A failed commit during destruction leaves the label as it was, as
      long as the partition was on it. */
  lemma DestroyRollsBack(t: Tree, id: DeviceId, original: set<DeviceId>)
    requires id < |t| && id in original
    requires DestroyPartition(t, id, original, false).error == Some(DiskLabelCommitError)
    ensures DestroyPartition(t, id, original, false) == LabelOutcome(t, original, Some(DiskLabelCommitError))
  {
    assert original + {id} == original;
  }

  /** Whatever the commit does, a failed or successful create never leaves
      a partition existing without being on the label, and never changes
      any other device. */
  lemma CreateKeepsLabelInStep(t: Tree, id: DeviceId, working: set<DeviceId>, commitOk: bool)
    requires id < |t| && ValidIds(t, t[id].parents)
    ensures var r := CreatePartition(t, id, working, commitOk);
            |r.tree| == |t| && (r.tree[id].existing && !t[id].existing ==> id in r.parts)
            && forall j :: 0 <= j < |t| && j != id ==> r.tree[j] == t[j]
  {
  }

  /** Creating a new leaf partition and destroying it again, both commits
      succeeding, gives back the arena.  Each of the two labels is edited
      once: the working label gains the partition and the original label
      loses it. */
  lemma CreateThenDestroyPartition(t: Tree, id: DeviceId, working: set<DeviceId>, original: set<DeviceId>)
    requires id < |t| && ValidIds(t, t[id].parents)
    requires t[id].kind.Partition? && t[id].kind.hasSysfsPath && Graph.IsLeaf(t[id])
    requires CreatePartition(t, id, working, true).error.None?
    ensures var c := CreatePartition(t, id, working, true);
            var d := DestroyPartition(c.tree, id, original, true);
            c.parts == working + {id} && d == LabelOutcome(t, original - {id}, None)
  {
    var c := CreatePartition(t, id, working, true);
    assert c.tree[id := c.tree[id].(existing := false)] == t;
  }
}
