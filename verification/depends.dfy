/** `dependsOn`: whether a device needs another one, directly or through
    its parents.  `Device.dependsOn` follows the parent lists;
    `PartitionDevice.dependsOn` adds that a logical partition depends on
    the extended partition of the same disk.  Python picks the method by
    the class of the device it is called on, so the partition rule applies
    at every step of the walk.
 */
module Dependencies {
  import opened Outcomes
  import opened Model


  /** The extra rule of `PartitionDevice.dependsOn`.  The disks are
      compared as the source compares them, so two partitions without a
      disk count as being on the same one. */
  predicate LogicalOnExtended(t: Tree, id: DeviceId, dep: DeviceId)
    requires id < |t| && dep < |t|
  {
    && t[dep].kind.Partition? && IsExtendedType(t[dep].kind.partType)
    && t[id].kind.Partition? && IsLogicalType(t[id].kind.partType)
    && DiskOf(t[id]) == DiskOf(t[dep])
  }

  /** What `dependsOn` decides at one device without descending. */
  predicate DirectlyDepends(t: Tree, id: DeviceId, dep: DeviceId)
    requires id < |t| && dep < |t|
  {
    LogicalOnExtended(t, id, dep) || dep in t[id].parents
  }

  /** The walk `dependsOn` and `growable` share: `stop` holds at `id`, or
      the walk succeeds from one of its parents, descending at most `fuel`
      levels. */
  function Within(t: Tree, id: DeviceId, stop: DeviceId -> bool, fuel: nat): bool
    requires ParentsValid(t) && id < |t|
    decreases fuel
  {
    if stop(id) then true
    else if fuel == 0 then false
    else exists k :: 0 <= k < |t[id].parents| && Within(t, t[id].parents[k], stop, fuel - 1)
  }

  /** `dependsOn`.  On an acyclic arena the walk never goes deeper than the
      number of devices, so that many levels decide it. */
  function DependsOn(t: Tree, id: DeviceId, dep: DeviceId): (r: bool)
    requires ParentsValid(t) && id < |t| && dep < |t|
    ensures DirectlyDepends(t, id, dep) ==> r
  {
    Within(t, id, (x: DeviceId) => x < |t| && DirectlyDepends(t, x, dep), |t|)
  }

  /** `growable`: the device, or a device it is built on, asks to grow. */
  function Growable(t: Tree, id: DeviceId): (r: bool)
    requires ParentsValid(t) && id < |t|
    ensures t[id].reqGrow ==> r
  {
    Within(t, id, (x: DeviceId) => x < |t| && t[x].reqGrow, |t|)
  }

  // -----------------------------------------------------------------------
  // Reachability through parent links

  /** A walk from a device to one of its parents, to one of that device's
      parents, and so on. */
  ghost predicate IsChain(t: Tree, p: seq<DeviceId>) {
    && |p| > 0
    && (forall k :: 0 <= k < |p| ==> p[k] < |t|)
    && (forall k :: 0 <= k < |p| - 1 ==> p[k + 1] in t[p[k]].parents)
  }

  /** No device is reachable from itself through parent links. */
  ghost predicate Acyclic(t: Tree) {
    forall p :: IsChain(t, p) && |p| >= 2 ==> p[0] != p[|p| - 1]
  }

  /** Some chain from `id` ends at a device where `stop` holds. */
  ghost predicate Reaches(t: Tree, id: DeviceId, stop: DeviceId -> bool) {
    exists p :: IsChain(t, p) && p[0] == id && stop(p[|p| - 1])
  }

  lemma {:induction false} WithinSound(t: Tree, id: DeviceId, stop: DeviceId -> bool, fuel: nat)
    requires ParentsValid(t) && id < |t|
    requires Within(t, id, stop, fuel)
    ensures Reaches(t, id, stop)
    decreases fuel
  {
    if stop(id) {
      assert IsChain(t, [id]);
    } else {
      var k :| 0 <= k < |t[id].parents| && Within(t, t[id].parents[k], stop, fuel - 1);
      var parent := t[id].parents[k];
      WithinSound(t, parent, stop, fuel - 1);
      var q :| IsChain(t, q) && q[0] == parent && stop(q[|q| - 1]);
      var p := [id] + q;
      assert p[1] == parent;
      assert forall j :: 1 <= j < |p| ==> p[j] == q[j - 1];
      assert IsChain(t, p);
      assert p[|p| - 1] == q[|q| - 1];
    }
  }

  lemma {:induction false} WithinComplete(t: Tree, p: seq<DeviceId>, stop: DeviceId -> bool, fuel: nat)
    requires ParentsValid(t)
    requires IsChain(t, p) && stop(p[|p| - 1]) && |p| <= fuel + 1
    ensures Within(t, p[0], stop, fuel)
    decreases |p|
  {
    if |p| > 1 && !stop(p[0]) {
      var q := p[1..];
      assert IsChain(t, q) by {
        assert forall j :: 0 <= j < |q| ==> q[j] == p[j + 1];
      }
      assert q[|q| - 1] == p[|p| - 1];
      WithinComplete(t, q, stop, fuel - 1);
      var parents := t[p[0]].parents;
      var k :| 0 <= k < |parents| && parents[k] == p[1];
      assert Within(t, parents[k], stop, fuel - 1);
    }
  }

  /** On an acyclic arena a chain never visits a device twice. */
  lemma ChainDistinct(t: Tree, p: seq<DeviceId>, i: nat, j: nat)
    requires Acyclic(t) && IsChain(t, p)
    requires i < j < |p|
    ensures p[i] != p[j]
  {
    var q := p[i..j + 1];
    assert IsChain(t, q) by {
      assert forall k :: 0 <= k < |q| ==> q[k] == p[i + k];
    }
    assert q[0] == p[i] && q[|q| - 1] == p[j];
  }

  /** A sequence without repeats has as many distinct elements as entries. */
  lemma {:induction false} DistinctCard(p: seq<DeviceId>)
    requires forall i, j :: 0 <= i < j < |p| ==> p[i] != p[j]
    ensures |set k | 0 <= k < |p| :: p[k]| == |p|
  {
    if |p| > 0 {
      var q := p[..|p| - 1];
      DistinctCard(q);
      var last := p[|p| - 1];
      assert (set k | 0 <= k < |p| :: p[k]) == (set k | 0 <= k < |q| :: q[k]) + {last};
      assert last !in (set k | 0 <= k < |q| :: q[k]);
    }
  }

  /** On an acyclic arena a chain is no longer than the arena. */
  lemma ChainBounded(t: Tree, p: seq<DeviceId>)
    requires Acyclic(t) && IsChain(t, p)
    ensures |p| <= |t|
  {
    forall i, j | 0 <= i < j < |p| ensures p[i] != p[j] {
      ChainDistinct(t, p, i, j);
    }
    DistinctCard(p);
    var ids: seq<DeviceId> := seq(|t|, i => i);
    DistinctCard(ids);
    var visited := set k | 0 <= k < |p| :: p[k];
    var all := set k | 0 <= k < |ids| :: ids[k];
    assert forall k :: 0 <= k < |p| ==> ids[p[k]] == p[k];
    assert visited <= all;
    SubsetCard(visited, all);
  }

  lemma {:induction false} SubsetCard(a: set<nat>, b: set<nat>)
    requires a <= b
    ensures |a| <= |b|
    decreases |b|
  {
    if b != {} {
      var x :| x in b;
      SubsetCard(a - {x}, b - {x});
    } else {
      assert a == {};
    }
  }

  /** On an acyclic arena the bounded walk decides reachability. */
  lemma WithinIffReaches(t: Tree, id: DeviceId, stop: DeviceId -> bool)
    requires ParentsValid(t) && Acyclic(t) && id < |t|
    ensures Within(t, id, stop, |t|) <==> Reaches(t, id, stop)
  {
    if Within(t, id, stop, |t|) {
      WithinSound(t, id, stop, |t|);
    }
    if Reaches(t, id, stop) {
      var p :| IsChain(t, p) && p[0] == id && stop(p[|p| - 1]);
      ChainBounded(t, p);
      WithinComplete(t, p, stop, |t|);
    }
  }

  /** On an acyclic arena `dependsOn(dep)` holds exactly when some chain of
      parent links leads from the device to one that lists `dep` as a
      parent or is a logical partition beside the extended partition
      `dep`. */
  lemma DependsOnIffReaches(t: Tree, id: DeviceId, dep: DeviceId)
    requires ParentsValid(t) && Acyclic(t) && id < |t| && dep < |t|
    ensures DependsOn(t, id, dep) <==>
            exists p :: IsChain(t, p) && p[0] == id && DirectlyDepends(t, p[|p| - 1], dep)
  {
    var stop := (x: DeviceId) => x < |t| && DirectlyDepends(t, x, dep);
    WithinIffReaches(t, id, stop);
    if DependsOn(t, id, dep) {
      var p :| IsChain(t, p) && p[0] == id && stop(p[|p| - 1]);
      assert DirectlyDepends(t, p[|p| - 1], dep);
    }
    if exists p :: IsChain(t, p) && p[0] == id && DirectlyDepends(t, p[|p| - 1], dep) {
      var p :| IsChain(t, p) && p[0] == id && DirectlyDepends(t, p[|p| - 1], dep);
      assert stop(p[|p| - 1]);
    }
  }

  /** On an acyclic arena a device is growable exactly when some chain of
      parent links leads from it to a device that asks to grow. */
  lemma GrowableIffReaches(t: Tree, id: DeviceId)
    requires ParentsValid(t) && Acyclic(t) && id < |t|
    ensures Growable(t, id) <==> exists p :: IsChain(t, p) && p[0] == id && t[p[|p| - 1]].reqGrow
  {
    var stop := (x: DeviceId) => x < |t| && t[x].reqGrow;
    WithinIffReaches(t, id, stop);
    if Growable(t, id) {
      var p :| IsChain(t, p) && p[0] == id && stop(p[|p| - 1]);
      assert t[p[|p| - 1]].reqGrow;
    }
    if exists p :: IsChain(t, p) && p[0] == id && t[p[|p| - 1]].reqGrow {
      var p :| IsChain(t, p) && p[0] == id && t[p[|p| - 1]].reqGrow;
      assert stop(p[|p| - 1]);
    }
  }

  /** Every parent is depended on. */
  lemma DependsOnParents(t: Tree, id: DeviceId, k: nat)
    requires ParentsValid(t) && id < |t| && k < |t[id].parents|
    ensures DependsOn(t, id, t[id].parents[k])
  {
  }

  /** Dependence is transitive along parent links: a device depends on
      whatever any of its parents depends on. */
  lemma DependsThroughParent(t: Tree, id: DeviceId, k: nat, dep: DeviceId)
    requires ParentsValid(t) && Acyclic(t) && id < |t| && dep < |t| && k < |t[id].parents|
    requires DependsOn(t, t[id].parents[k], dep)
    ensures DependsOn(t, id, dep)
  {
    var stop := (x: DeviceId) => x < |t| && DirectlyDepends(t, x, dep);
    var parent := t[id].parents[k];
    WithinIffReaches(t, parent, stop);
    var q :| IsChain(t, q) && q[0] == parent && stop(q[|q| - 1]);
    ChainCons(t, id, q);
    assert stop(([id] + q)[|[id] + q| - 1]);
    WithinIffReaches(t, id, stop);
  }

  /** A chain from a parent extends to a chain from its child. */
  lemma ChainCons(t: Tree, id: DeviceId, q: seq<DeviceId>)
    requires id < |t| && IsChain(t, q) && q[0] in t[id].parents
    ensures IsChain(t, [id] + q) && ([id] + q)[0] == id
    ensures ([id] + q)[|[id] + q| - 1] == q[|q| - 1]
  {
    var p := [id] + q;
    assert forall j :: 1 <= j < |p| ==> p[j] == q[j - 1];
  }

  /** A device with no parents that is not a logical partition depends on
      nothing. */
  lemma RootDependsOnNothing(t: Tree, id: DeviceId, dep: DeviceId)
    requires ParentsValid(t) && id < |t| && dep < |t|
    requires |t[id].parents| == 0 && !(t[id].kind.Partition? && IsLogicalType(t[id].kind.partType))
    ensures !DependsOn(t, id, dep)
  {
  }

  /** A logical partition depends on an extended partition of its disk
      whether or not any parent link joins them. */
  lemma LogicalDependsOnExtended(t: Tree, id: DeviceId, dep: DeviceId)
    requires ParentsValid(t) && id < |t| && dep < |t|
    requires t[id].kind.Partition? && IsLogicalType(t[id].kind.partType)
    requires t[dep].kind.Partition? && IsExtendedType(t[dep].kind.partType)
    requires DiskOf(t[id]) == DiskOf(t[dep])
    ensures DependsOn(t, id, dep)
  {
  }
}
