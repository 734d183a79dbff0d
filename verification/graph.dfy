/** `Device` and `StorageDevice`: child counting, leaves, building a device,
    `create`/`destroy`, replacing a format, the size properties and the
    format size check.
 */
module Graph {
  import opened Outcomes
  import opened Model
  import Text
  import opened Lists

  // -----------------------------------------------------------------------
  // Child counting

  /** Number of parent links, over the whole arena, that point at `p`. */
  function ChildLinks(t: Tree, p: DeviceId): nat {
    if |t| == 0 then 0 else ChildLinks(t[..|t| - 1], p) + Count(t[|t| - 1].parents, p)
  }

  /** Each device's `kids` is exactly the number of links pointing at it. */
  ghost predicate KidsExact(t: Tree) {
    forall i :: 0 <= i < |t| ==> t[i].kids == ChildLinks(t, i)
  }


  /** `isleaf`. */
  predicate IsLeaf(d: Device) {
    d.kids == 0
  }

  lemma {:induction false} NoLinksIffAbsent(t: Tree, p: DeviceId)
    ensures ChildLinks(t, p) == 0 <==> forall j :: 0 <= j < |t| ==> p !in t[j].parents
  {
    if |t| > 0 {
      NoLinksIffAbsent(t[..|t| - 1], p);
      assert forall j :: 0 <= j < |t| - 1 ==> t[..|t| - 1][j] == t[j];
    }
  }

  /** While the child counts are exact, a device is a leaf exactly when no
      device lists it as a parent. */
  lemma LeafIffNoChildren(t: Tree, i: DeviceId)
    requires KidsExact(t) && i < |t|
    ensures IsLeaf(t[i]) <==> forall j :: 0 <= j < |t| ==> i !in t[j].parents
  {
    NoLinksIffAbsent(t, i);
  }

  /** Two arenas of equal length whose parent lists agree everywhere except
      at `id`: the links into `p` differ by what the two lists at `id`
      contribute. */
  lemma {:induction false} ChildLinksRelinked(t: Tree, u: Tree, id: DeviceId, p: DeviceId)
    requires |t| == |u| && id < |t|
    requires forall j :: 0 <= j < |t| && j != id ==> u[j].parents == t[j].parents
    ensures ChildLinks(u, p) == ChildLinks(t, p) - Count(t[id].parents, p) + Count(u[id].parents, p)
    decreases |t|
  {
    var n := |t| - 1;
    if id == n {
      SameParentsSameLinks(t[..n], u[..n], p);
    } else {
      ChildLinksRelinked(t[..n], u[..n], id, p);
    }
  }

  lemma {:induction false} SameParentsSameLinks(t: Tree, u: Tree, p: DeviceId)
    requires |t| == |u|
    requires forall j :: 0 <= j < |t| ==> u[j].parents == t[j].parents
    ensures ChildLinks(u, p) == ChildLinks(t, p)
    decreases |t|
  {
    if |t| > 0 {
      SameParentsSameLinks(t[..|t| - 1], u[..|u| - 1], p);
    }
  }

  /** Changing fields other than `parents` and `kids` keeps the counts exact. */
  lemma SameLinksKeepKidsExact(t: Tree, u: Tree)
    requires KidsExact(t) && |t| == |u|
    requires forall j :: 0 <= j < |t| ==> u[j].parents == t[j].parents && u[j].kids == t[j].kids
    ensures KidsExact(u)
  {
    forall i | 0 <= i < |u|
      ensures u[i].kids == ChildLinks(u, i)
    {
      SameParentsSameLinks(t, u, i);
    }
  }

  // -----------------------------------------------------------------------
  // Building a device, and re-linking one

  /** `Device.__init__`: the new device gets the next identifier and no
      children, and every listed parent gains one child per listing. */
  function AddDevice(t: Tree, d: Device): (r: Tree)
    requires ValidIds(t, d.parents)
    ensures |r| == |t| + 1 && r[|t|] == d.(kids := 0)
    ensures forall i :: 0 <= i < |t| ==>
              r[i].kids == t[i].kids + Count(d.parents, i) && r[i] == t[i].(kids := r[i].kids)
  {
    seq(|t|, i requires 0 <= i < |t| => t[i].(kids := t[i].kids + Count(d.parents, i)))
      + [d.(kids := 0)]
  }

  lemma {:induction false} CountAbsent(s: seq<DeviceId>, bound: nat)
    requires forall k :: 0 <= k < |s| ==> s[k] < bound
    ensures Count(s, bound) == 0
  {
    assert bound !in s;
  }

  /** Building a device keeps every child count exact. */
  lemma AddDeviceKeepsKidsExact(t: Tree, d: Device)
    requires KidsExact(t) && ParentsValid(t) && ValidIds(t, d.parents)
    ensures KidsExact(AddDevice(t, d))
  {
    var r := AddDevice(t, d);
    var n := |t|;
    assert r[..n] == seq(n, i requires 0 <= i < n => t[i].(kids := t[i].kids + Count(d.parents, i)));
    forall i | 0 <= i < |r|
      ensures r[i].kids == ChildLinks(r, i)
    {
      SameParentsSameLinks(t, r[..n], i);
      if i == n {
        forall j | 0 <= j < n ensures n !in t[j].parents {
          CountAbsent(t[j].parents, n);
        }
        NoLinksIffAbsent(t, n);
        CountAbsent(d.parents, n);
      }
    }
  }

  /** Replace the parent list of `id`, dropping one child from every old
      parent per listing and adding one to every new parent per listing
      (the `removeChild`/`addChild` pairs of `_addPV`, `_removePV` and the
      partition `disk` setter). */
  function Relink(t: Tree, id: DeviceId, newParents: seq<DeviceId>): (r: Tree)
    requires id < |t|
    ensures |r| == |t|
    ensures r[id].parents == newParents
    ensures forall j :: 0 <= j < |t| && j != id ==> r[j].parents == t[j].parents
    ensures forall j :: 0 <= j < |t| ==>
              r[j].kids == t[j].kids - Count(t[id].parents, j) + Count(newParents, j)
    ensures forall j :: 0 <= j < |t| ==> r[j] == t[j].(kids := r[j].kids, parents := r[j].parents)
  {
    var before := t[id].parents;
    seq(|t|, j requires 0 <= j < |t| =>
      t[j].(kids := t[j].kids - Count(before, j) + Count(newParents, j),
            parents := if j == id then newParents else t[j].parents))
  }

  /** Re-linking keeps every child count exact. */
  lemma RelinkKeepsKidsExact(t: Tree, id: DeviceId, newParents: seq<DeviceId>)
    requires KidsExact(t) && id < |t|
    ensures KidsExact(Relink(t, id, newParents))
  {
    var r := Relink(t, id, newParents);
    forall p | 0 <= p < |r|
      ensures r[p].kids == ChildLinks(r, p)
    {
      ChildLinksRelinked(t, r, id, p);
    }
  }

  // -----------------------------------------------------------------------
  // Sizes

  /** `resizable`: the kind allows it, the device exists and its format can
      be resized.  Partitions and logical volumes other than thin pools are
      the resizable kinds. */
  predicate Resizable(d: Device): (r: bool)
    ensures r ==> d.existing && d.format.resizable
    ensures r ==> d.kind.Partition? || d.kind.LogicalVolume?
  {
    var kindResizable := d.kind.Partition? || (d.kind.LogicalVolume? && !d.kind.lv.variant.ThinPool?);
    kindResizable && d.existing && d.format.resizable
  }

  /** The LUKS metadata area, in MB. */
  const LUKS_HEADER_MB: int := 2

  /** The `size` property.  The general rule (`StorageDevice._getSize`): an
      existing device without medium is empty; an existing device that can
      be probed reports the probe; a pending resize of an existing
      resizable device shows as its target.  A partition reports its parted
      partition's size when it has one.  A LUKS mapping that is not open
      reports its backing device's size less the LUKS header. */
  function SizeOf(t: Tree, id: DeviceId): (r: int)
    requires id < |t|
    ensures var d := t[id];
            !d.kind.Partition? && !d.kind.Luks? && d.existing && !d.mediaPresent ==> r == 0
    ensures var d := t[id];
            !d.kind.Partition? && !d.kind.Luks? && !d.existing ==> r == d.size
    ensures var d := t[id];
            !d.kind.Partition? && !d.kind.Luks? && d.existing && d.mediaPresent && Resizable(d) ==> r == d.targetSize
    ensures var d := t[id];
            d.existing && d.probedSize.Some? && (d.mediaPresent || d.kind.Partition? || d.kind.Luks?) && !Resizable(d)
            ==> r == d.probedSize.value
    ensures var d := t[id];
            d.kind.Partition? ==> r == if d.probedSize.Some? then d.probedSize.value else d.size
    ensures var d := t[id];
            d.kind.Luks? && !(d.existing && d.probedSize.Some?) && |d.parents| > 0 && d.parents[0] < id
            ==> r == SizeOf(t, d.parents[0]) - LUKS_HEADER_MB
    decreases id
  {
    var d := t[id];
    match d.kind
    case Partition(_, _) => if d.probedSize.Some? then d.probedSize.value else d.size
    case Luks =>
      if d.existing && d.probedSize.Some? then d.probedSize.value
      else if |d.parents| > 0 && d.parents[0] < id then SizeOf(t, d.parents[0]) - LUKS_HEADER_MB
      else d.size - LUKS_HEADER_MB
    case _ => StorageSize(d)
  }

  /** What `SizeOf` reads from one device: which of its three rules
      applies, the stored and probed sizes, the flags, and for a LUKS
      mapping its backing device. */
  datatype SizeInputs = SizeInputs(
    rule: nat, existing: bool, size: int, targetSize: int, probedSize: Option<int>,
    mediaPresent: bool, resizable: bool, slave: Option<DeviceId>)

  function InputsOf(d: Device): SizeInputs {
    var rule := if d.kind.Partition? then 0 else if d.kind.Luks? then 1 else 2;
    var slave := if d.kind.Luks? && |d.parents| > 0 then Some(d.parents[0]) else None;
    SizeInputs(rule, d.existing, d.size, d.targetSize, d.probedSize, d.mediaPresent, Resizable(d), slave)
  }

  /** The size of a device depends only on the size inputs of itself and of
      the devices before it in the arena: changing children, names or
      volume-group bookkeeping never changes a size. */
  lemma {:induction false} SizeOfFrame(t: Tree, u: Tree, x: DeviceId)
    requires |t| == |u| && x < |t|
    requires forall j :: 0 <= j <= x ==> InputsOf(t[j]) == InputsOf(u[j])
    ensures SizeOf(t, x) == SizeOf(u, x)
    decreases x
  {
    assert InputsOf(t[x]) == InputsOf(u[x]);
    if t[x].kind.Luks? && |t[x].parents| > 0 && t[x].parents[0] < x {
      SizeOfFrame(t, u, t[x].parents[0]);
    }
  }

  /** `StorageDevice._getSize` over the stored and probed values. */
  function StorageSize(d: Device): (r: int)
    ensures d.existing && !d.mediaPresent ==> r == 0
    ensures !d.existing ==> r == d.size
    ensures d.existing && d.mediaPresent && Resizable(d) ==> r == d.targetSize
  {
    if d.existing && !d.mediaPresent then 0
    else
      var stored := if d.existing && d.probedSize.Some? then d.probedSize.value else d.size;
      if d.existing && Resizable(d) && d.targetSize != stored then d.targetSize else stored
  }

  /** `currentSize`: the probed size of an existing device, else its stored
      size; 0 for a device that does not exist. */
  function CurrentSize(d: Device): (r: int)
    ensures !d.existing ==> r == 0
    ensures d.existing ==> r == if d.probedSize.Some? then d.probedSize.value else d.size
  {
    if d.existing && d.probedSize.Some? then d.probedSize.value
    else if d.existing then d.size
    else 0
  }

  /** `maxSize`: the smaller of the format's maximum and the current size. */
  function MaxSize(d: Device): (r: int)
    ensures r <= CurrentSize(d) && r <= d.format.maxSize
    ensures r == CurrentSize(d) || r == d.format.maxSize
  {
    if d.format.maxSize > CurrentSize(d) then CurrentSize(d) else d.format.maxSize
  }

  /** The kinds whose `size` is a property without a setter: a disk
      (`DiskDevice.size`), a LUKS mapping (`LUKSDevice.size`) and a volume
      group (`LVMVolumeGroupDevice.size`).  Assigning it raises
      AttributeError. */
  predicate SizeReadOnly(k: Kind) {
    k.Disk? || k.Luks? || k.VolumeGroup?
  }

  /** Logical volumes and partitions have setters of their own
      (`LogicalVolumes.SetLvSize`, `LogicalVolumes.SetThinSize`; the
      partition's needs parted); every other kind keeps the one of
      `StorageDevice` or has none. */
  predicate KeepsStorageSetter(k: Kind) {
    !k.LogicalVolume? && !k.Partition?
  }

  /** `StorageDevice._setSize` as the source writes it: the error branch
      calls the number `maxSize` as if it were a method, so Python raises
      TypeError before the intended DeviceError can be built. */
  function SetSizeAsWritten(t: Tree, id: DeviceId, newSize: int): (r: Result<Tree>)
    requires id < |t| && KeepsStorageSetter(t[id].kind)
    ensures r.Err? <==> SizeReadOnly(t[id].kind) || newSize > MaxSize(t[id])
    ensures SizeReadOnly(t[id].kind) ==> r == Err(AttributeError(READ_ONLY_MSG))
    ensures r.Err? && !SizeReadOnly(t[id].kind) ==> r.error.TypeError?
    ensures r.Ok? ==> r.value == t[id := t[id].(size := newSize)]
  {
    if SizeReadOnly(t[id].kind) then Err(AttributeError(READ_ONLY_MSG))
    else if newSize > MaxSize(t[id]) then Err(TypeError("'int' object is not callable"))
    else Ok(t[id := t[id].(size := newSize)])
  }

  /** Assigning a property that has no setter. */
  const READ_ONLY_MSG := "can't set attribute"

  /** `StorageDevice._setSize` as intended: a size above `maxSize` is refused
      with a DeviceError naming the bound; any other size is stored.  A
      read-only size cannot be assigned at all. */
  function SetSize(t: Tree, id: DeviceId, newSize: int): (r: Result<Tree>)
    requires id < |t| && KeepsStorageSetter(t[id].kind)
    ensures r.Err? <==> SizeReadOnly(t[id].kind) || newSize > MaxSize(t[id])
    ensures SizeReadOnly(t[id].kind) ==> r == Err(AttributeError(READ_ONLY_MSG))
    ensures r.Err? && !SizeReadOnly(t[id].kind) ==> r.error == DeviceError(
              "device cannot be larger than " + Text.ShowInt(MaxSize(t[id])) + " MB", NameOf(t, id))
    ensures r.Ok? ==> |r.value| == |t| && r.value[id].size == newSize <= MaxSize(t[id])
    ensures r.Ok? ==> forall j :: 0 <= j < |t| && j != id ==> r.value[j] == t[j]
    ensures r.Ok? ==> r.value[id] == t[id].(size := newSize)
  {
    var bound := MaxSize(t[id]);
    if SizeReadOnly(t[id].kind) then Err(AttributeError(READ_ONLY_MSG))
    else if newSize > bound then
      Err(DeviceError("device cannot be larger than " + Text.ShowInt(bound) + " MB", NameOf(t, id)))
    else Ok(t[id := t[id].(size := newSize)])
  }

  /** The as-written setter never raises the DeviceError it builds: every
      refused size surfaces as a TypeError, where the corrected setter
      raises a DeviceError, and the two agree on every accepted size and on
      a read-only size. */
  lemma SetSizeRaisesTypeError(t: Tree, id: DeviceId, newSize: int)
    requires id < |t| && KeepsStorageSetter(t[id].kind)
    ensures SetSizeAsWritten(t, id, newSize).Err? <==> SetSize(t, id, newSize).Err?
    ensures SetSizeAsWritten(t, id, newSize).Err? && !SizeReadOnly(t[id].kind) ==>
              SetSizeAsWritten(t, id, newSize).error.TypeError?
              && SetSize(t, id, newSize).error.DeviceError?
    ensures SetSizeAsWritten(t, id, newSize).Ok? || SizeReadOnly(t[id].kind) ==>
              SetSizeAsWritten(t, id, newSize) == SetSize(t, id, newSize)
  {
  }

  /** A concrete input: an existing 100 MB multipath device, which keeps
      `StorageDevice`'s setter, whose format allows at most 50 MB, asked to
      become 80 MB.  A disk of the same shape refuses the assignment
      outright. */
  lemma SetSizeTypeErrorExample()
    ensures var fmt := BlankFormat.(maxSize := 50);
            var dev := Device("mpatha", [], 0, true, 100, 100, None, true, fmt, false, Generic);
            SetSizeAsWritten([dev], 0, 80) == Err(TypeError("'int' object is not callable"))
            && SetSize([dev], 0, 80).error.DeviceError?
    ensures var fmt := BlankFormat.(maxSize := 50);
            var disk := Device("sda", [], 0, true, 100, 100, None, true, fmt, false, Disk);
            SetSizeAsWritten([disk], 0, 40) == Err(AttributeError(READ_ONLY_MSG))
  {
  }

  datatype SizeProblem = TooLarge | TooSmall

  /** The test of `checkSize` for a given size: "large" when the format has
      a maximum and the size exceeds it, otherwise "small" when the format
      has a minimum and the size falls short of it. */
  function CheckBounds(f: Format, size: int): (r: Option<SizeProblem>)
    ensures r == None <==> (f.maxSize == 0 || size <= f.maxSize) && (f.minSize == 0 || size >= f.minSize)
    ensures r == Some(TooLarge) <==> f.maxSize != 0 && size > f.maxSize
    ensures r == Some(TooSmall) ==> size < f.minSize
  {
    if f.maxSize != 0 && size > f.maxSize then Some(TooLarge)
    else if f.minSize != 0 && size < f.minSize then Some(TooSmall)
    else None
  }

  const NO_SLAVE_MSG := "list index out of range"

  /** Reading the size of this LUKS mapping needs its backing device
      (`slave`, the first parent), and somewhere down that chain there is
      none to read. */
  predicate SlaveMissing(t: Tree, id: DeviceId)
    requires id < |t|
    decreases id
  {
    var d := t[id];
    && d.kind.Luks? && !(d.existing && d.probedSize.Some?)
    && (|d.parents| == 0 || (d.parents[0] < id && SlaveMissing(t, d.parents[0])))
  }

  /** Reading the `size` property of a device other than a volume group: a
      LUKS mapping whose size needs a backing device it does not have
      raises IndexError; any other device has the size `SizeOf` gives. */
  function ReadSize(t: Tree, id: DeviceId): (r: Result<int>)
    requires id < |t|
    ensures r.Err? <==> SlaveMissing(t, id)
    ensures r.Err? ==> r.error == IndexError(NO_SLAVE_MSG)
    ensures r.Ok? ==> r.value == SizeOf(t, id)
    ensures t[id].kind.Luks? && |t[id].parents| == 0 && !(t[id].existing && t[id].probedSize.Some?) ==> r.Err?
    ensures !t[id].kind.Luks? ==> r == Ok(SizeOf(t, id))
  {
    if SlaveMissing(t, id) then Err(IndexError(NO_SLAVE_MSG)) else Ok(SizeOf(t, id))
  }

  /** `StorageDevice.checkSize` for the kinds that keep it (a volume
      group's size rule lives with the group, and logical volumes and
      partitions override it, see `RequestCheckSize`): the bounds test on
      the device's size.  The size is read only when the format sets a
      bound, so only then can a missing LUKS backing device raise. */
  function CheckSize(t: Tree, id: DeviceId): (r: Result<Option<SizeProblem>>)
    requires id < |t| && !t[id].kind.VolumeGroup? && KeepsStorageSetter(t[id].kind)
    ensures var f := t[id].format;
            r.Err? <==> SlaveMissing(t, id) && (f.maxSize != 0 || f.minSize != 0)
    ensures r.Err? ==> r.error == IndexError(NO_SLAVE_MSG)
    ensures t[id].format.maxSize == 0 && t[id].format.minSize == 0 ==> r == Ok(None)
    ensures r.Ok? ==> var f := t[id].format; var size := SizeOf(t, id);
            (r.value == None <==> (f.maxSize == 0 || size <= f.maxSize) && (f.minSize == 0 || size >= f.minSize))
            && (r.value == Some(TooLarge) <==> f.maxSize != 0 && size > f.maxSize)
            && (r.value == Some(TooSmall) ==> size < f.minSize)
  {
    var f := t[id].format;
    if f.maxSize == 0 && f.minSize == 0 then Ok(None)
    else
      var size := ReadSize(t, id);
      if size.Err? then Err(size.error) else Ok(CheckBounds(f, size.value))
  }

  /** `checkSize` of a logical volume or a partition, whose request may ask
      to grow up to `reqMaxSize` (0 for no limit): too large as in the base
      test; too small when a request that does not grow is below the
      format's minimum, or when a growing request may never reach it.
      Python reads the condition as `(min and not grow and size < min) or
      (grow and max and max < min)`. */
  function RequestCheckSize(t: Tree, id: DeviceId, reqMaxSize: int): (r: Option<SizeProblem>)
    requires id < |t| && !KeepsStorageSetter(t[id].kind)
    ensures var f := t[id].format; var size := SizeOf(t, id);
            r == Some(TooLarge) <==> f.maxSize != 0 && size > f.maxSize
    ensures var f := t[id].format; var size := SizeOf(t, id);
            r == Some(TooSmall) <==>
              (!(f.maxSize != 0 && size > f.maxSize)
               && ((f.minSize != 0 && !t[id].reqGrow && size < f.minSize)
                   || (t[id].reqGrow && reqMaxSize != 0 && reqMaxSize < f.minSize)))
  {
    var d := t[id];
    var f := d.format;
    var size := SizeOf(t, id);
    if f.maxSize != 0 && size > f.maxSize then Some(TooLarge)
    else if (f.minSize != 0 && !d.reqGrow && size < f.minSize) || (d.reqGrow && reqMaxSize != 0 && reqMaxSize < f.minSize)
    then Some(TooSmall)
    else None
  }

  /** A request that does not grow is checked exactly as the base class
      checks a device. */
  lemma RequestCheckWithoutGrow(t: Tree, id: DeviceId, reqMaxSize: int)
    requires id < |t| && !KeepsStorageSetter(t[id].kind) && !t[id].reqGrow
    ensures RequestCheckSize(t, id, reqMaxSize) == CheckBounds(t[id].format, SizeOf(t, id))
  {
  }

  /** A growing request is never too small for its current size: only a
      size limit below the format's minimum makes it so. */
  lemma GrowingRequestIgnoresSize(t: Tree, id: DeviceId, reqMaxSize: int)
    requires id < |t| && !KeepsStorageSetter(t[id].kind) && t[id].reqGrow
    ensures RequestCheckSize(t, id, reqMaxSize) == Some(TooSmall)
            <==> (!(t[id].format.maxSize != 0 && SizeOf(t, id) > t[id].format.maxSize)
                  && reqMaxSize != 0 && reqMaxSize < t[id].format.minSize)
  {
  }

  // -----------------------------------------------------------------------
  // Lifecycle: create, destroy, format replacement

  /** Partitions create and destroy themselves through a disk label
      (`Partitions.CreatePartition`, `Partitions.DestroyPartition`); every
      other kind is created and destroyed here. */
  predicate LifecycleHere(k: Kind) {
    !k.Partition?
  }

  /** The kinds whose `create` is their own (`LUKSDevice`,
      `LVMVolumeGroupDevice`, `LVMLogicalVolumeDevice`) and words the refusal
      of an existing device differently from `StorageDevice.create`. */
  predicate OwnCreate(k: Kind) {
    k.Luks? || k.VolumeGroup? || k.LogicalVolume?
  }

  const CREATED_MSG := "device has already been created"
  const EXISTS_MSG := "device already exists"
  const NOT_CREATED_MSG := "device has not been created"

  /** `create`: refused for a device that already exists, in the words of
      its class, and for one with a parent that does not exist
      (`createParents`).  A LUKS mapping then reads its backing device,
      raising IndexError when it has none, and takes the map name of that
      device's LUKS format (`mapName`, which the format record does not
      carry).  A volume group or logical volume runs LVM, and when
      `lvmFails` the LVMError passes through with nothing changed.
      Otherwise the device exists afterwards; setting the parents and the
      device up is I/O the model takes to succeed. */
  function Create(t: Tree, id: DeviceId, mapName: string, lvmFails: bool): (r: Result<Tree>)
    requires id < |t| && ValidIds(t, t[id].parents) && LifecycleHere(t[id].kind)
    ensures t[id].existing && !OwnCreate(t[id].kind) ==> r == Err(DeviceError(CREATED_MSG, NameOf(t, id)))
    ensures t[id].existing && OwnCreate(t[id].kind) ==> r == Err(DeviceError(EXISTS_MSG, NameOf(t, id)))
    ensures !t[id].existing && (exists k :: 0 <= k < |t[id].parents| && !t[t[id].parents[k]].existing)
            ==> r == Err(DeviceError("parent device does not exist", NameOf(t, id)))
    ensures !t[id].existing && t[id].kind.Luks? && |t[id].parents| == 0 ==> r == Err(IndexError(NO_SLAVE_MSG))
    ensures r.Ok? <==>
              (!t[id].existing && (forall k :: 0 <= k < |t[id].parents| ==> t[t[id].parents[k]].existing)
               && (t[id].kind.Luks? ==> |t[id].parents| > 0)
               && ((t[id].kind.VolumeGroup? || t[id].kind.LogicalVolume?) ==> !lvmFails))
    ensures r.Ok? ==> |r.value| == |t| && r.value[id].existing
    ensures r.Ok? ==> forall j :: 0 <= j < |t| && j != id ==> r.value[j] == t[j]
    ensures r.Ok? ==> r.value[id] == t[id].(existing := true, name := if t[id].kind.Luks? then mapName else t[id].name)
  {
    var d := t[id];
    if d.existing then
      Err(DeviceError(if OwnCreate(d.kind) then EXISTS_MSG else CREATED_MSG, NameOf(t, id)))
    else if exists k :: 0 <= k < |d.parents| && !t[d.parents[k]].existing then
      Err(DeviceError("parent device does not exist", NameOf(t, id)))
    else if d.kind.Luks? && |d.parents| == 0 then Err(IndexError(NO_SLAVE_MSG))
    else if (d.kind.VolumeGroup? || d.kind.LogicalVolume?) && lvmFails then Err(LVMError)
    else Ok(t[id := d.(existing := true, name := if d.kind.Luks? then mapName else d.name)])
  }

  /** The arena after a call, and the exception the call raised, if any:
      a volume group's `destroy` changes the arena even when it raises. */
  datatype After = After(tree: Tree, raised: Option<Error>)

  /** `destroy`, kind by kind.  `StorageDevice.destroy` refuses a device
      that does not exist or still has children and otherwise clears its
      `exists` flag.  A disk's refuses one without media and otherwise only
      tears the device down, which refuses one that does not exist; a LUKS
      mapping's only tears down, with the same refusal.  Neither of those
      clears `exists`.  A volume group's refuses one that does not exist,
      then clears `exists` whether or not LVM's removal fails, and turns a
      failure into DeviceError.  A logical volume's refuses one that does
      not exist and clears `exists` once LVM has removed it; a failure
      passes through with nothing changed.  Only the base class tests for
      children.  The parents keep their child counts: unlinking is the
      device tree's job. */
  function Destroy(t: Tree, id: DeviceId, lvmFails: bool): (r: After)
    requires id < |t| && LifecycleHere(t[id].kind)
    ensures |r.tree| == |t| && forall j :: 0 <= j < |t| && j != id ==> r.tree[j] == t[j]
    ensures r.tree[id] == t[id] || r.tree[id] == t[id].(existing := false)
    ensures t[id].kind.Disk? && !t[id].mediaPresent ==>
              r == After(t, Some(DeviceError("cannot destroy disk with no media", NameOf(t, id))))
    ensures !t[id].existing && (t[id].kind.Disk? ==> t[id].mediaPresent) ==>
              r == After(t, Some(DeviceError(NOT_CREATED_MSG, NameOf(t, id))))
    ensures t[id].existing && t[id].kind.Generic? && !IsLeaf(t[id]) ==>
              r == After(t, Some(DeviceError("Cannot destroy non-leaf device", NameOf(t, id))))
    ensures t[id].existing && t[id].kind.VolumeGroup? && lvmFails ==>
              r == After(t[id := t[id].(existing := false)], Some(DeviceError("Could not completely remove VG", NameOf(t, id))))
    ensures t[id].existing && t[id].kind.LogicalVolume? && lvmFails ==> r == After(t, Some(LVMError))
    ensures r.raised.None? <==>
              (t[id].existing
               && (t[id].kind.Disk? ==> t[id].mediaPresent)
               && (t[id].kind.Generic? ==> IsLeaf(t[id]))
               && ((t[id].kind.VolumeGroup? || t[id].kind.LogicalVolume?) ==> !lvmFails))
    ensures t[id].kind.Disk? || t[id].kind.Luks? ==> r.tree == t
    ensures t[id].kind.VolumeGroup? ==> !r.tree[id].existing
    ensures r.raised.None? && !t[id].kind.Disk? && !t[id].kind.Luks? ==> r.tree == t[id := t[id].(existing := false)]
  {
    var d := t[id];
    var cleared := t[id := d.(existing := false)];
    if d.kind.Disk? then
      if !d.mediaPresent then After(t, Some(DeviceError("cannot destroy disk with no media", NameOf(t, id))))
      else if !d.existing then After(t, Some(DeviceError(NOT_CREATED_MSG, NameOf(t, id))))
      else After(t, None)
    else if !d.existing then After(t, Some(DeviceError(NOT_CREATED_MSG, NameOf(t, id))))
    else if d.kind.Luks? then After(t, None)
    else if d.kind.VolumeGroup? then
      After(cleared, if lvmFails then Some(DeviceError("Could not completely remove VG", NameOf(t, id))) else None)
    else if d.kind.LogicalVolume? then
      if lvmFails then After(t, Some(LVMError)) else After(cleared, None)
    else if !IsLeaf(d) then After(t, Some(DeviceError("Cannot destroy non-leaf device", NameOf(t, id))))
    else After(cleared, None)
  }

  /** Creating a device and destroying it again gives back the arena it
      started from, for the kinds whose `destroy` clears `exists`: a leaf
      of the base class, a volume group or a logical volume (which need
      not be leaves).  A disk or LUKS mapping still exists afterwards. */
  lemma CreateThenDestroy(t: Tree, id: DeviceId, mapName: string)
    requires id < |t| && ValidIds(t, t[id].parents)
    requires t[id].kind.Generic? || t[id].kind.VolumeGroup? || t[id].kind.LogicalVolume?
    requires Create(t, id, mapName, false).Ok?
    requires t[id].kind.Generic? ==> IsLeaf(t[id])
    ensures Destroy(Create(t, id, mapName, false).value, id, false) == After(t, None)
  {
    var t1 := Create(t, id, mapName, false).value;
    assert t1[id := t1[id].(existing := false)] == t;
  }

  /** A disk or LUKS mapping that `create` brought into existence still
      exists after `destroy`, whatever `destroy` raised. */
  lemma CreatedDiskOutlivesDestroy(t: Tree, id: DeviceId, mapName: string, lvmFails: bool)
    requires id < |t| && ValidIds(t, t[id].parents) && (t[id].kind.Disk? || t[id].kind.Luks?)
    requires Create(t, id, mapName, lvmFails).Ok?
    ensures Destroy(Create(t, id, mapName, lvmFails).value, id, lvmFails).tree[id].existing
  {
  }

  /** `_setFormat`: replacing the format of a device whose current format
      is active is refused; otherwise the new format, or a blank one when
      none is given, takes its place. */
  function SetFormat(t: Tree, id: DeviceId, f: Option<Format>): (r: Result<Tree>)
    requires id < |t|
    ensures r.Err? <==> t[id].format.active
    ensures r.Err? ==> r.error == DeviceError("cannot replace active format", NameOf(t, id))
    ensures r.Ok? ==> |r.value| == |t| && forall j :: 0 <= j < |t| && j != id ==> r.value[j] == t[j]
    ensures r.Ok? ==> r.value[id] == t[id].(format := if f.Some? then f.value else BlankFormat)
  {
    if t[id].format.active then Err(DeviceError("cannot replace active format", NameOf(t, id)))
    else Ok(t[id := t[id].(format := if f.Some? then f.value else BlankFormat)])
  }

  /** Installing an inactive format and then reinstating the original one
      undoes the change. */
  lemma SetFormatUndo(t: Tree, id: DeviceId, f: Format)
    requires id < |t| && !t[id].format.active && !f.active
    ensures SetFormat(t, id, Some(f)).Ok?
    ensures SetFormat(SetFormat(t, id, Some(f)).value, id, Some(t[id].format)) == Ok(t)
  {
    var t1 := SetFormat(t, id, Some(f)).value;
    assert t1[id := t1[id].(format := t[id].format)] == t;
  }
}
