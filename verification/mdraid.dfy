/** `MDRaidArrayDevice`: the raw and usable sizes of a software RAID array,
    the superblock headroom, the member, spare and total device counts, and
    the array's `mdadm.conf` line.

    The array's members are given by their sizes (each member's `size`, in
    MB).  The source mixes MB and fractions of MB: a RAID10 array holds half
    a member per member device and the chunk size is 0.5 MB.  The model
    computes array sizes in KB, where all of these are whole numbers.
 */
module MdRaid {
  import opened Outcomes
  import Text

  const KB_PER_MB: int := 1024

  /** The chunk size, 0.5 MB. */
  const CHUNK_KB: int := 512

  /** The RAID levels the size rules name, the "container" pseudo-level,
      and any other level by number. */
  datatype RaidLevel = Raid0 | Raid1 | Raid4 | Raid5 | Raid6 | Raid10 | Container | OtherLevel(n: int)

  /** The number `%d` prints for a level. */
  function LevelNumber(level: RaidLevel): int
    requires !level.Container?
  {
    match level
    case Raid0 => 0
    case Raid1 => 1
    case Raid4 => 4
    case Raid5 => 5
    case Raid6 => 6
    case Raid10 => 10
    case OtherLevel(n) => n
  }

  /** The device `type`: a plain array, a BIOS RAID container, or a set
      within such a container. */
  datatype MdType = MdArray | MdContainer | BiosRaidArray

  /** One array.  `inContainer` records that its first member is a
      container; `storedSize` is `_size` (MB) and `partedSize` what the
      parted device reports for an existing array, if it can be opened. */
  datatype MdDevice = MdDevice(
    name: string,
    level: Option<RaidLevel>,
    inContainer: bool,
    memberSizes: seq<int>,
    memberDevices: int,
    totalDevices: int,
    existing: bool,
    metadataVersion: string,
    uuid: Option<string>,
    storedSize: int,
    partedSize: Option<int>)

  /** The constructor's choice of type: a set whose first member is a
      container is a BIOS RAID set, even when it is a container itself. */
  function TypeOf(md: MdDevice): MdType {
    if md.inContainer then BiosRaidArray
    else if md.level == Some(Container) then MdContainer
    else MdArray
  }

  // -----------------------------------------------------------------------
  // Sizes

  /** `smallestMember.size`: the least member size. */
  function Smallest(sizes: seq<int>): (r: int)
    requires |sizes| > 0
    ensures r in sizes
    ensures forall k :: 0 <= k < |sizes| ==> r <= sizes[k]
  {
    if |sizes| == 1 then sizes[0]
    else
      var rest := Smallest(sizes[1..]);
      assert forall k :: 1 <= k < |sizes| ==> sizes[k] == sizes[1..][k - 1];
      if sizes[0] <= rest then sizes[0] else rest
  }

  const NO_MEMBER_MSG := "'NoneType' object has no attribute 'size'"

  /** The data a level stores, in KB, when its smallest member holds `s`
      MB and it has `m` member devices; the rules `rawArraySize` and
      `size` share.  An unknown level stores one member. */
  function LevelCapacity(level: Option<RaidLevel>, m: int, s: int): int {
    match level
    case Some(Raid0) => m * s * KB_PER_MB
    case Some(Raid1) => s * KB_PER_MB
    case Some(Raid4) => (m - 1) * s * KB_PER_MB
    case Some(Raid5) => (m - 1) * s * KB_PER_MB
    case Some(Raid6) => (m - 2) * s * KB_PER_MB
    case Some(Raid10) => m * s * (KB_PER_MB / 2)
    case _ => s * KB_PER_MB
  }

  /** `rawArraySize`, in KB: the data the array holds before metadata and
      chunk alignment, by level, from the smallest member.  An array with
      no members has no smallest member, and reading its size fails. */
  function RawArraySize(md: MdDevice): (r: Result<int>)
    ensures r.Err? <==> |md.memberSizes| == 0
    ensures r.Err? ==> r.error == AttributeError(NO_MEMBER_MSG)
    ensures r.Ok? ==> r.value == Halves(md.level, md.memberDevices) * Smallest(md.memberSizes) * CHUNK_KB
  {
    if |md.memberSizes| == 0 then Err(AttributeError(NO_MEMBER_MSG))
    else
      var s := Smallest(md.memberSizes);
      CapacityIsHalves(md.level, md.memberDevices, s);
      Ok(LevelCapacity(md.level, md.memberDevices, s))
  }

  /** How many halves of a member's size one level stores, with `m` member
      devices: the reference the per-level rules are checked against. */
  function Halves(level: Option<RaidLevel>, m: int): int {
    match level
    case Some(Raid0) => 2 * m
    case Some(Raid1) => 2
    case Some(Raid4) => 2 * (m - 1)
    case Some(Raid5) => 2 * (m - 1)
    case Some(Raid6) => 2 * (m - 2)
    case Some(Raid10) => m
    case _ => 2
  }

  /** Every level's capacity is its number of half members times half a
      member. */
  lemma CapacityIsHalves(level: Option<RaidLevel>, m: int, s: int)
    ensures LevelCapacity(level, m, s) == Halves(level, m) * s * CHUNK_KB
  {
    assert m * s * KB_PER_MB == (2 * m) * s * CHUNK_KB;
    assert (m - 1) * s * KB_PER_MB == (2 * (m - 1)) * s * CHUNK_KB;
    assert (m - 2) * s * KB_PER_MB == (2 * (m - 2)) * s * CHUNK_KB;
  }

  /** A RAID10 array of an even number of members holds as much as a RAID0
      array of half as many. */
  lemma Raid10IsHalfRaid0(md: MdDevice)
    requires |md.memberSizes| > 0 && md.level == Some(Raid10) && md.memberDevices % 2 == 0
    ensures RawArraySize(md) == RawArraySize(md.(level := Some(Raid0), memberDevices := md.memberDevices / 2))
  {
  }

  // -----------------------------------------------------------------------
  // The superblock headroom

  /** The headroom test compares `headroom << 10` with the raw size in MB;
      against the raw size in KB that is `headroom * 2^20`. */
  const HEADROOM_SCALE: int := 1048576

  const MAX_HEADROOM: nat := 128

  /** The values the halving loop can produce. */
  predicate IsHeadroom(h: int) {
    h == 0 || h == 1 || h == 2 || h == 4 || h == 8 || h == 16 || h == 32 || h == 64 || h == 128
  }

  /** The loop of `superBlockSize` as the source writes it, run for at most
      `fuel` halvings: `None` when it is still running then.  The loop
      stops only when `headroom << 10` no longer exceeds the raw size, and
      halving 0 gives 0 again. */
  function HeadroomLoopAsWritten(h: nat, rawKB: int, fuel: nat): (r: Option<nat>)
    ensures r.Some? ==> r.value <= h && r.value * HEADROOM_SCALE <= rawKB
    decreases fuel
  {
    if h * HEADROOM_SCALE <= rawKB then Some(h)
    else if fuel == 0 then None
    else HeadroomLoopAsWritten(h / 2, rawKB, fuel - 1)
  }

  /** For a negative raw size the as-written loop never stops, however many
      halvings it is given. */
  lemma {:induction false} HeadroomLoopNeverEnds(h: nat, rawKB: int, fuel: nat)
    requires rawKB < 0
    ensures HeadroomLoopAsWritten(h, rawKB, fuel) == None
    decreases fuel
  {
    if fuel > 0 {
      HeadroomLoopNeverEnds(h / 2, rawKB, fuel - 1);
    }
  }

  /** A concrete input: a new RAID5 array over three 100 MB members,
      whose member count is then set to 0 through the `memberDevices`
      setter, which accepts it.  Its raw size is -100 MB, and with version
      1.2 metadata the loop is still running after any number of
      halvings. */
  lemma HeadroomNeverEndsExample(fuel: nat)
    ensures var md := MdDevice("md0", Some(Raid5), false, [100, 100, 100], 3, 3, false, "1.2", None, 0, None);
            var lowered := md.(memberDevices := 0);
            SetMemberDevices(md, 0) == Ok(lowered)
            && RawArraySize(lowered) == Ok(-102400)
            && HeadroomLoopAsWritten(MAX_HEADROOM, -102400, fuel) == None
  {
    var md := MdDevice("md0", Some(Raid5), false, [100, 100, 100], 3, 3, false, "1.2", None, 0, None);
    assert Smallest(md.memberSizes) == 100;
    HeadroomLoopNeverEnds(MAX_HEADROOM, -102400, fuel);
  }

  /** The halving loop as intended: it also stops when the headroom reaches
      0.  The result is the largest headroom of at most 128 whose 1024-fold
      fits the raw size in MB, or 0 when none does. */
  method Headroom(rawKB: int) returns (h: int)
    ensures IsHeadroom(h)
    ensures h > 0 ==> h * HEADROOM_SCALE <= rawKB
    ensures h < MAX_HEADROOM ==> (if h == 0 then 1 else 2 * h) * HEADROOM_SCALE > rawKB
  {
    h := MAX_HEADROOM;
    while h > 0 && h * HEADROOM_SCALE > rawKB
      invariant IsHeadroom(h)
      invariant h < MAX_HEADROOM ==> (if h == 0 then 1 else 2 * h) * HEADROOM_SCALE > rawKB
      decreases h
    {
      h := h / 2;
    }
  }

  /** Where the raw size is not negative, the loop as written stops, given
      more halvings than the headroom has bits, at the headroom the
      intended loop characterises. */
  lemma {:induction false} HeadroomLoopAgrees(h: nat, rawKB: int, fuel: nat)
    requires rawKB >= 0 && IsHeadroom(h) && h < Pow2(fuel)
    ensures HeadroomLoopAsWritten(h, rawKB, fuel).Some?
    ensures var r := HeadroomLoopAsWritten(h, rawKB, fuel).value;
            IsHeadroom(r) && (r > 0 ==> r * HEADROOM_SCALE <= rawKB)
            && (r < h ==> (if r == 0 then 1 else 2 * r) * HEADROOM_SCALE > rawKB)
    decreases fuel
  {
    if h * HEADROOM_SCALE > rawKB {
      HeadroomLoopAgrees(h / 2, rawKB, fuel - 1);
    }
  }

  function Pow2(n: nat): (r: nat)
    ensures r >= 1
  {
    if n == 0 then 1 else 2 * Pow2(n - 1)
  }

  /** From 128 MB, eight halvings are enough. */
  lemma HeadroomLoopStops(rawKB: int)
    requires rawKB >= 0
    ensures HeadroomLoopAsWritten(MAX_HEADROOM, rawKB, 8).Some?
    ensures var r := HeadroomLoopAsWritten(MAX_HEADROOM, rawKB, 8).value;
            IsHeadroom(r) && (r > 0 ==> r * HEADROOM_SCALE <= rawKB)
            && (r < MAX_HEADROOM ==> (if r == 0 then 1 else 2 * r) * HEADROOM_SCALE > rawKB)
  {
    assert Pow2(8) == 256;
    HeadroomLoopAgrees(MAX_HEADROOM, rawKB, 8);
  }

  /** The superblock size, in MB, that `superBlockSize` gives: 2 MB
      unless the metadata is version 1.1 or 1.2; for those, the largest
      headroom of at most 128 MB whose 1024-fold fits the raw size in MB,
      or 0 when none does. */
  predicate IsSuperBlock(md: MdDevice, sb: int) {
    if md.metadataVersion != "1.1" && md.metadataVersion != "1.2" then sb == 2
    else
      && RawArraySize(md).Ok?
      && IsHeadroom(sb)
      && (sb > 0 ==> sb * HEADROOM_SCALE <= RawArraySize(md).value)
      && (sb < MAX_HEADROOM ==> (if sb == 0 then 1 else 2 * sb) * HEADROOM_SCALE > RawArraySize(md).value)
  }

  /** At most one value meets that description. */
  lemma SuperBlockUnique(md: MdDevice, a: int, b: int)
    requires IsSuperBlock(md, a) && IsSuperBlock(md, b)
    ensures a == b
  {
  }

  /** `superBlockSize`, in MB: 2 MB unless the metadata is version 1.1 or
      1.2, whose headroom follows the raw size. */
  method SuperBlockSize(md: MdDevice) returns (r: Result<int>)
    ensures md.metadataVersion != "1.1" && md.metadataVersion != "1.2" ==> r == Ok(2)
    ensures r.Err? <==> (md.metadataVersion == "1.1" || md.metadataVersion == "1.2") && |md.memberSizes| == 0
    ensures r.Err? ==> r.error == AttributeError(NO_MEMBER_MSG)
    ensures r.Ok? ==> IsSuperBlock(md, r.value)
  {
    if md.metadataVersion != "1.1" && md.metadataVersion != "1.2" {
      return Ok(2);
    }
    var raw := RawArraySize(md);
    if raw.Err? {
      return Err(raw.error);
    }
    var h := Headroom(raw.value);
    return Ok(h);
  }

  /** `size -= size % chunkSize`: rounded down to whole chunks. */
  function TrimToChunk(kb: int): (r: int)
    ensures r % CHUNK_KB == 0 && kb - CHUNK_KB < r <= kb
  {
    kb - kb % CHUNK_KB
  }

  /** The `size` of an array, in KB, given its superblock size in MB.  An
      array with no members is empty; a BIOS RAID set reports its stored
      size; an existing array that parted can open reports parted's size;
      any other array is computed per level from the smallest member less
      the superblock, rounded down to whole chunks for the striped levels,
      less 1 MB for unexpected metadata.  An unknown level starts from 0. */
  function MdSize(md: MdDevice, superBlock: int): (r: int)
    ensures |md.memberSizes| == 0 ==> r == 0
    ensures |md.memberSizes| > 0 && TypeOf(md) == BiosRaidArray ==> r == md.storedSize * KB_PER_MB
    ensures |md.memberSizes| > 0 && TypeOf(md) != BiosRaidArray && md.existing && md.partedSize.Some? ==>
              r == md.partedSize.value * KB_PER_MB
    ensures |md.memberSizes| > 0 && TypeOf(md) != BiosRaidArray && !(md.existing && md.partedSize.Some?) ==>
              var data := Halves(md.level, md.memberDevices) * (Smallest(md.memberSizes) - superBlock) * CHUNK_KB;
              r + KB_PER_MB == (if md.level == Some(Raid1) then data else if KnownLevel(md.level) then TrimToChunk(data) else 0)
  {
    if |md.memberSizes| == 0 then 0
    else if TypeOf(md) == BiosRaidArray then md.storedSize * KB_PER_MB
    else if md.existing && md.partedSize.Some? then md.partedSize.value * KB_PER_MB
    else
      var data := LevelCapacity(md.level, md.memberDevices, Smallest(md.memberSizes) - superBlock);
      CapacityIsHalves(md.level, md.memberDevices, Smallest(md.memberSizes) - superBlock);
      var size :=
        if md.level == Some(Raid1) then data
        else if KnownLevel(md.level) then TrimToChunk(data)
        else 0;
      size - KB_PER_MB
  }

  /** `size` end to end: the superblock size is read first, for existing
      arrays too, and then the size follows from it.  A BIOS RAID set or an
      array without members never reads it. */
  method ArraySize(md: MdDevice) returns (r: int)
    ensures |md.memberSizes| == 0 ==> r == 0
    ensures |md.memberSizes| > 0 && TypeOf(md) == BiosRaidArray ==> r == md.storedSize * KB_PER_MB
    ensures |md.memberSizes| > 0 && TypeOf(md) != BiosRaidArray ==>
              (exists sb :: IsSuperBlock(md, sb) && r == MdSize(md, sb))
              && forall sb :: IsSuperBlock(md, sb) ==> r == MdSize(md, sb)
    ensures |md.memberSizes| > 0 && TypeOf(md) != BiosRaidArray && md.existing && md.partedSize.Some? ==>
              r == md.partedSize.value * KB_PER_MB
    ensures |md.memberSizes| > 0 && TypeOf(md) != BiosRaidArray && !md.existing && KnownLevel(md.level)
            && Halves(md.level, md.memberDevices) >= 0 ==>
              (r + KB_PER_MB) % CHUNK_KB == 0 && r <= RawArraySize(md).value - KB_PER_MB
  {
    if |md.memberSizes| == 0 {
      return 0;
    }
    if TypeOf(md) == BiosRaidArray {
      return md.storedSize * KB_PER_MB;
    }
    var sb := SuperBlockSize(md);
    r := MdSize(md, sb.value);
    forall other | IsSuperBlock(md, other) ensures r == MdSize(md, other) {
      SuperBlockUnique(md, sb.value, other);
    }
    if !md.existing && KnownLevel(md.level) && Halves(md.level, md.memberDevices) >= 0 {
      assert sb.value >= 0;
      MdSizeWithinRaw(md, sb.value);
    }
  }

  predicate KnownLevel(level: Option<RaidLevel>) {
    level.Some? && level.value in {Raid0, Raid1, Raid4, Raid5, Raid6, Raid10}
  }

  /** A new array of a known level is a whole number of chunks less 1 MB,
      and never larger than its raw size less 1 MB, as long as the level
      stores a non-negative number of members and the superblock is not
      negative. */
  lemma MdSizeWithinRaw(md: MdDevice, superBlock: int)
    requires |md.memberSizes| > 0 && TypeOf(md) != BiosRaidArray && !md.existing
    requires KnownLevel(md.level) && Halves(md.level, md.memberDevices) >= 0 && superBlock >= 0
    ensures (MdSize(md, superBlock) + KB_PER_MB) % CHUNK_KB == 0
    ensures MdSize(md, superBlock) <= RawArraySize(md).value - KB_PER_MB
  {
    var s := Smallest(md.memberSizes);
    var f := Halves(md.level, md.memberDevices);
    var t := s - superBlock;
    var data := LevelCapacity(md.level, md.memberDevices, t);
    CapacityIsHalves(md.level, md.memberDevices, t);
    assert MdSize(md, superBlock) + KB_PER_MB <= data;
    assert data == f * s * CHUNK_KB - (f * superBlock) * CHUNK_KB;
    MulNonNegative(f, superBlock);
    if md.level == Some(Raid1) {
      assert data == (2 * t) * CHUNK_KB;
      MultipleOfChunk(2 * t);
    }
  }

  lemma MulNonNegative(a: int, b: int)
    requires a >= 0 && b >= 0
    ensures a * b >= 0
  {
  }

  lemma MultipleOfChunk(q: int)
    ensures (q * CHUNK_KB) % CHUNK_KB == 0
  {
    var x := q * CHUNK_KB;
    var d := q - x / CHUNK_KB;
    assert CHUNK_KB * d == x % CHUNK_KB;
  }

  // -----------------------------------------------------------------------
  // Counts

  /** `totalDevices`: the member list of an existing array, else the
      stored total. */
  function TotalDevices(md: MdDevice): int {
    if md.existing then |md.memberSizes| else md.totalDevices
  }

  /** `spares`: the devices beyond the members, when there are any. */
  function Spares(md: MdDevice): (r: int)
    ensures r >= 0
    ensures TotalDevices(md) >= md.memberDevices ==> r + md.memberDevices == TotalDevices(md)
    ensures TotalDevices(md) <= md.memberDevices ==> r == 0
  {
    if TotalDevices(md) > md.memberDevices then TotalDevices(md) - md.memberDevices else 0
  }

  const TOO_MANY_MEMBERS_MSG := "memberDevices cannot be greater than totalDevices"

  /** The `memberDevices` setter: more members than devices is refused. */
  function SetMemberDevices(md: MdDevice, number: int): (r: Result<MdDevice>)
    ensures r.Err? <==> number > TotalDevices(md)
    ensures r.Err? ==> r.error == ValueError(TOO_MANY_MEMBERS_MSG)
    ensures r.Ok? ==> r.value.memberDevices == number && r.value.(memberDevices := md.memberDevices) == md
    ensures r.Ok? ==> Spares(r.value) == TotalDevices(md) - number
  {
    if number > TotalDevices(md) then Err(ValueError(TOO_MANY_MEMBERS_MSG))
    else Ok(md.(memberDevices := number))
  }

  /** The `spares` setter: when the total exceeds the requested spares the
      members become the rest, through the members setter; otherwise
      nothing changes. */
  function SetSpares(md: MdDevice, spares: int): (r: Result<MdDevice>)
    ensures TotalDevices(md) <= spares ==> r == Ok(md)
    ensures r.Err? <==> TotalDevices(md) > spares && spares < 0
  {
    if TotalDevices(md) > spares then SetMemberDevices(md, TotalDevices(md) - spares)
    else Ok(md)
  }

  /** Setting a spare count below the total and reading it back gives the
      same count; members and spares then make up the total. */
  lemma SetSparesRoundTrip(md: MdDevice, spares: int)
    requires 0 <= spares < TotalDevices(md)
    ensures SetSpares(md, spares).Ok?
    ensures Spares(SetSpares(md, spares).value) == spares
    ensures SetSpares(md, spares).value.memberDevices + spares == TotalDevices(md)
  {
  }

  /** A negative spare count is refused by the members setter it goes
      through. */
  lemma NegativeSparesRefused(md: MdDevice, spares: int)
    requires spares < 0 && TotalDevices(md) > spares
    ensures SetSpares(md, spares) == Err(ValueError(TOO_MANY_MEMBERS_MSG))
  {
  }

  // -----------------------------------------------------------------------
  // mdadm.conf

  const NOT_DEFINED_MSG := "array is not fully defined"

  /** `path`: the device node under /dev. */
  function MdPath(md: MdDevice): string {
    "/dev/" + md.name
  }

  /** `mdadmConfEntry`: an array without a level or UUID is refused; a
      container or a set within one is named by its UUID alone; any other
      array also gives its level and member count. */
  function MdadmConfEntry(md: MdDevice): (r: Result<string>)
    ensures r.Err? <==> md.level.None? || md.uuid.None? || |md.uuid.value| == 0
    ensures r.Err? ==> r.error == DeviceError(NOT_DEFINED_MSG, md.name)
    ensures r.Ok? ==> |r.value| > 0 && r.value[|r.value| - 1] == '\n'
    ensures r.Ok? ==> Text.StartsWith(r.value, "ARRAY " + MdPath(md) + " ")
  {
    if md.level.None? || md.uuid.None? || |md.uuid.value| == 0 then Err(DeviceError(NOT_DEFINED_MSG, md.name))
    else if TypeOf(md) != MdArray then
      Ok("ARRAY " + MdPath(md) + " UUID=" + md.uuid.value + "\n")
    else
      Ok("ARRAY " + MdPath(md) + " level=raid" + Text.ShowInt(LevelNumber(md.level.value))
         + " num-devices=" + Text.ShowInt(md.memberDevices) + " UUID=" + md.uuid.value + "\n")
  }

  /** The fields of a plain array's entry. */
  function EntryFields(md: MdDevice): seq<string>
    requires md.level.Some? && !md.level.value.Container? && md.uuid.Some?
  {
    ["ARRAY", MdPath(md), "level=raid" + Text.ShowInt(LevelNumber(md.level.value)),
     "num-devices=" + Text.ShowInt(md.memberDevices), "UUID=" + md.uuid.value]
  }

  lemma ShowIntNoSpace(i: int)
    ensures Text.NoSpace(Text.ShowInt(i))
  {
    var s := Text.ShowInt(i);
    if i < 0 {
      assert forall k :: 1 <= k < |s| ==> s[k] == Text.ShowNat(-i)[k - 1];
    }
  }

  /** A plain array's entry is its fields joined by single spaces, then a
      newline. */
  lemma EntryIsJoined(md: MdDevice)
    requires md.level.Some? && md.uuid.Some? && |md.uuid.value| > 0 && TypeOf(md) == MdArray
    ensures MdadmConfEntry(md).Ok?
    ensures MdadmConfEntry(md).value == Text.JoinSpaced(EntryFields(md)) + "\n"
  {
    var lv := Text.ShowInt(LevelNumber(md.level.value));
    var n := Text.ShowInt(md.memberDevices);
    var path := MdPath(md);
    var u := md.uuid.value;
    assert MdadmConfEntry(md).value
        == "ARRAY " + path + " level=raid" + lv + " num-devices=" + n + " UUID=" + u + "\n";
    EntryShape(path, lv, n, u);
    JoinFive("ARRAY", path, "level=raid" + lv, "num-devices=" + n, "UUID=" + u);
  }

  lemma EntryShape(path: string, lv: string, n: string, u: string)
    ensures "ARRAY " + path + " level=raid" + lv + " num-devices=" + n + " UUID=" + u
         == "ARRAY" + " " + path + " " + ("level=raid" + lv) + " " + ("num-devices=" + n) + " " + ("UUID=" + u)
  {
    assert "ARRAY " == "ARRAY" + " ";
    assert " level=raid" == " " + "level=raid";
    assert " num-devices=" == " " + "num-devices=";
    assert " UUID=" == " " + "UUID=";
  }

  lemma JoinFive(a: string, b: string, c: string, d: string, e: string)
    ensures Text.JoinSpaced([a, b, c, d, e]) == a + " " + b + " " + c + " " + d + " " + e
  {
    var ws := [a, b, c, d, e];
    assert ws[1..][1..][1..][1..] == [e];
    assert Text.JoinSpaced([d, e]) == d + " " + e;
    assert ws[1..][1..][1..] == [d, e];
    assert Text.JoinSpaced([c, d, e]) == c + " " + (d + " " + e);
    assert ws[1..][1..] == [c, d, e];
    assert Text.JoinSpaced([b, c, d, e]) == b + " " + (c + " " + (d + " " + e));
    assert ws[1..] == [b, c, d, e];
    assert Text.JoinSpaced(ws) == a + " " + (b + " " + (c + " " + (d + " " + e)));
  }

  /** No field of a plain array's entry holds whitespace when the name and
      UUID hold none. */
  lemma EntryFieldsNoSpace(md: MdDevice)
    requires md.level.Some? && !md.level.value.Container? && md.uuid.Some?
    requires Text.NoSpace(md.name) && Text.NoSpace(md.uuid.value)
    ensures forall k :: 0 <= k < |EntryFields(md)| ==> Text.NoSpace(EntryFields(md)[k]) && |EntryFields(md)[k]| > 0
  {
    var fields := EntryFields(md);
    ShowIntNoSpace(LevelNumber(md.level.value));
    ShowIntNoSpace(md.memberDevices);
    assert Text.NoSpace(fields[1]) by {
      assert forall k :: 5 <= k < |fields[1]| ==> fields[1][k] == md.name[k - 5];
    }
    assert Text.NoSpace(fields[2]) by {
      assert forall k :: 10 <= k < |fields[2]| ==> fields[2][k] == Text.ShowInt(LevelNumber(md.level.value))[k - 10];
    }
    assert Text.NoSpace(fields[3]) by {
      assert forall k :: 12 <= k < |fields[3]| ==> fields[3][k] == Text.ShowInt(md.memberDevices)[k - 12];
    }
    assert Text.NoSpace(fields[4]) by {
      assert forall k :: 5 <= k < |fields[4]| ==> fields[4][k] == md.uuid.value[k - 5];
    }
  }

  /** Reading a plain array's entry back: splitting it on whitespace gives
      the five fields, and the level and member count parse back from
      theirs, as long as the name and UUID hold no whitespace. */
  lemma MdadmConfEntryReadsBack(md: MdDevice)
    requires md.level.Some? && md.uuid.Some? && |md.uuid.value| > 0 && TypeOf(md) == MdArray
    requires Text.NoSpace(md.name) && Text.NoSpace(md.uuid.value)
    ensures MdadmConfEntry(md).Ok?
    ensures var e := MdadmConfEntry(md).value;
            Text.Split(e[..|e| - 1]) == EntryFields(md)
    ensures Text.ParseInt(EntryFields(md)[2][10..]) == Some(LevelNumber(md.level.value))
    ensures Text.ParseInt(EntryFields(md)[3][12..]) == Some(md.memberDevices)
  {
    var fields := EntryFields(md);
    EntryIsJoined(md);
    var e := MdadmConfEntry(md).value;
    assert e[..|e| - 1] == Text.JoinSpaced(fields);
    EntryFieldsNoSpace(md);
    Text.SplitJoin(fields);
    assert fields[2][10..] == Text.ShowInt(LevelNumber(md.level.value));
    assert fields[3][12..] == Text.ShowInt(md.memberDevices);
    Text.ParseShowInt(LevelNumber(md.level.value));
    Text.ParseShowInt(md.memberDevices);
  }
}
