/** Assembling an array from its members' superblocks. */
module MdAssembly {
  import opened Arithmetic
  import opened ChunkRead
  import opened GaloisField
  import opened MdArrays
  import opened ParityLayout
  import opened Raid0Zones
  import opened Raid10Placement
  import opened Raid6Recovery
  import opened Raid6Survival
  import opened Sizes
  import opened Wrappers

  /** What a member is to its array. */
  datatype Role = Active(slot: nat) | Spare | Faulty | Journal

  /** A member's superblock, decoded. */
  datatype Superblock = Superblock(uuid: nat, level: int, layout: nat, chunkBytes: nat, raidDisks: nat, role: Role,
                                   dataOffset: nat, dataSize: nat, componentSize: nat, events: nat,
                                   recovering: bool, reshaping: bool)

  /** A device, and the superblock found on it. */
  datatype Device = Device(bytes: seq<byte>, sb: Option<Superblock>)

  datatype MdError = Empty | NoSuperblock(member: nat) | MixedArrays(member: nat) | Corrupt | DuplicateRole(slot: nat)
                   | TooFewMembers(level: int, present: nat, needed: nat) | NoCopyLeft(slots: seq<nat>) | Unsupported

  datatype Result<+T> = Ok(value: T) | Err(error: MdError)

  /** What decoding a superblock checked: the data area is on the device. */
  predicate Decoded(d: Device) {
    d.sb.Some? ==> d.sb.value.dataOffset + d.sb.value.dataSize <= |d.bytes|
  }

  // ----- placing members

  /** Device `d` is the up-to-date member of slot `s`. */
  predicate Claims(d: Device, newest: nat, n: nat, s: nat) {
    && s < n && d.sb.Some? && d.sb.value.role == Active(s)
    && d.sb.value.events >= newest && !d.sb.value.recovering
  }

  function MemberOf(d: Device): Member
    requires d.sb.Some?
  {
    Member(d.bytes, d.sb.value.dataOffset, d.sb.value.dataSize)
  }

  /** Each slot holds the one device among the first `k` that claims it, if one does. */
  ghost predicate Placed(devices: seq<Device>, newest: nat, n: nat, k: nat, slots: Slots) {
    && k <= |devices| && |slots| == n
    && (forall i: nat, s: nat :: i < k && Claims(devices[i], newest, n, s) ==> slots[s] == Some(MemberOf(devices[i])))
    && (forall s: nat :: s < n && slots[s].Some? ==> exists i: nat :: i < k && Claims(devices[i], newest, n, s))
  }

  /** Two devices claim slot `s`. */
  ghost predicate Disputed(devices: seq<Device>, newest: nat, n: nat, s: nat) {
    exists i: nat, j: nat :: i < j < |devices| && Claims(devices[i], newest, n, s) && Claims(devices[j], newest, n, s)
  }

  /** No two of the first `k` devices claim the same slot. */
  ghost predicate Undisputed(devices: seq<Device>, newest: nat, n: nat, k: nat) {
    && k <= |devices|
    && forall i: nat, j: nat, s: nat :: i < j < k && Claims(devices[i], newest, n, s) ==>
         !Claims(devices[j], newest, n, s)
  }

  /** The slots are settled by the devices. */
  lemma {:induction false} PlacedUnique(devices: seq<Device>, newest: nat, n: nat, a: Slots, b: Slots)
    requires Placed(devices, newest, n, |devices|, a) && Placed(devices, newest, n, |devices|, b)
    ensures a == b
  {
    forall s: nat | s < n ensures a[s] == b[s] {
      if a[s].Some? {
        var i: nat :| i < |devices| && Claims(devices[i], newest, n, s);
      }
      if b[s].Some? {
        var i: nat :| i < |devices| && Claims(devices[i], newest, n, s);
      }
    }
  }

  /** A member in its slot is a device whose superblock gives it the slot, as new as any and not recovering, with its
      data where the superblock says; and such a device is in its slot. */
  lemma {:induction false} MembersPlaced(devices: seq<Device>, newest: nat, n: nat, slots: Slots, s: nat)
    requires Placed(devices, newest, n, |devices|, slots) && s < n
    ensures slots[s].Some? ==> exists i: nat :: i < |devices| && InSlot(devices[i], newest, s, slots[s].value)
    ensures forall i: nat :: i < |devices| && UpToDate(devices[i], newest, s) ==>
      slots[s].Some? && InSlot(devices[i], newest, s, slots[s].value)
  {
    if slots[s].Some? {
      var i: nat :| i < |devices| && Claims(devices[i], newest, n, s);
      assert InSlot(devices[i], newest, s, slots[s].value);
    }
    forall i: nat | i < |devices| && UpToDate(devices[i], newest, s)
      ensures slots[s].Some? && InSlot(devices[i], newest, s, slots[s].value)
    {
      assert Claims(devices[i], newest, n, s);
    }
  }

  predicate UpToDate(d: Device, newest: nat, s: nat) {
    d.sb.Some? && d.sb.value.role == Active(s) && d.sb.value.events >= newest && !d.sb.value.recovering
  }

  predicate InSlot(d: Device, newest: nat, s: nat, m: Member) {
    && UpToDate(d, newest, s) && m.device == d.bytes
    && m.dataOffset == d.sb.value.dataOffset && m.dataSize == d.sb.value.dataSize
  }

  method PlaceMembers(devices: seq<Device>, newest: nat, n: nat) returns (r: Result<Slots>)
    ensures r.Ok? <==> Undisputed(devices, newest, n, |devices|)
    ensures r.Ok? ==> Placed(devices, newest, n, |devices|, r.value)
    ensures r.Err? ==> r.error.DuplicateRole? && Disputed(devices, newest, n, r.error.slot)
  {
    var slots: Slots := seq(n, _ => None);
    var k := 0;
    while k < |devices|
      invariant 0 <= k <= |devices| && Placed(devices, newest, n, k, slots)
      invariant Undisputed(devices, newest, n, k)
    {
      var d := devices[k];
      if d.sb.Some? && d.sb.value.role.Active? {
        var s := d.sb.value.role.slot;
        if d.sb.value.events >= newest && !d.sb.value.recovering && s < n {
          assert Claims(devices[k], newest, n, s);
          if slots[s].Some? {
            return Err(DuplicateRole(s));
          }
          slots := slots[s := Some(MemberOf(d))];
        }
      }
      k := k + 1;
    }
    r := Ok(slots);
  }

  /** Members whose data area is on their device. */
  ghost predicate OnDevice(slots: Slots) {
    forall s :: 0 <= s < |slots| && slots[s].Some? ==>
      slots[s].value.dataOffset + slots[s].value.dataSize <= |slots[s].value.device|
  }

  lemma {:induction false} PlacedOnDevice(devices: seq<Device>, newest: nat, n: nat, slots: Slots)
    requires Placed(devices, newest, n, |devices|, slots) && forall d :: d in devices ==> Decoded(d)
    ensures OnDevice(slots)
  {
    forall s: nat | s < n && slots[s].Some?
      ensures slots[s].value.dataOffset + slots[s].value.dataSize <= |slots[s].value.device|
    {
      var i: nat :| i < |devices| && Claims(devices[i], newest, n, s);
      assert Decoded(devices[i]);
    }
  }

  // ----- the levels

  method CountMembers(slots: Slots) returns (present: nat)
    ensures present == CountPresent(View(slots), |slots|)
  {
    present := 0;
    for s := 0 to |slots|
      invariant present == CountPresent(View(slots), s)
    {
      if slots[s].Some? {
        present := present + 1;
      }
    }
  }

  lemma {:induction false} AllCounted(ms: Members, k: nat)
    requires k <= |ms| && CountPresent(ms, k) >= k
    ensures forall s :: 0 <= s < k ==> ms[s].Some?
  {
    if k > 0 {
      CountAtMost(ms, k - 1);
      AllCounted(ms, k - 1);
    }
  }

  lemma {:induction false} CountAll(ms: Members, k: nat)
    requires k <= |ms| && forall s :: 0 <= s < k ==> ms[s].Some?
    ensures CountPresent(ms, k) == k
  {
    if k > 0 { CountAll(ms, k - 1); }
  }

  predicate AllThere(slots: Slots) {
    forall s :: 0 <= s < |slots| ==> slots[s].Some?
  }

  lemma {:induction false} AllThereCounted(slots: Slots)
    ensures CountPresent(View(slots), |slots|) >= |slots| <==> AllThere(slots)
  {
    var ms := View(slots);
    assert forall s :: 0 <= s < |slots| ==> ms[s].Some? == slots[s].Some?;
    if AllThere(slots) { CountAll(ms, |slots|); }
    if CountPresent(ms, |slots|) >= |slots| { AllCounted(ms, |slots|); }
  }

  lemma {:induction false} CountAtMost(ms: Members, k: nat)
    requires k <= |ms|
    ensures CountPresent(ms, k) <= k
  {
    if k > 0 { CountAtMost(ms, k - 1); }
  }

  lemma {:induction false} SomeCounted(ms: Members, k: nat)
    requires k <= |ms| && CountPresent(ms, k) >= 1
    ensures exists s :: 0 <= s < k && ms[s].Some?
  {
    if ms[k - 1].None? { SomeCounted(ms, k - 1); }
  }

  /** Every member that is there is long enough for `span` bytes of data. */
  method MembersReach(slots: Slots, span: nat) returns (ok: bool)
    requires OnDevice(slots)
    ensures ok <==> AllReach(View(slots), span)
  {
    for s := 0 to |slots|
      invariant forall i :: 0 <= i < s && slots[i].Some? ==> span <= |View(slots)[i].value|
    {
      if slots[s].Some? {
        var m := slots[s].value;
        if m.dataOffset + span > |m.device| {
          assert View(slots)[s].Some? && span > |View(slots)[s].value|;
          return false;
        }
      }
    }
    ok := true;
  }

  predicate ChunkOk(chunk: nat) {
    chunk != 0 && chunk % SECTOR == 0
  }

  /** What assembly asks of a RAID4, 5 or 6 array. */
  ghost predicate ParityAccepted(slots: Slots, level: int, layout: nat, chunk: nat, perMember: nat) {
    var n, parity := |slots|, ParityCount(level);
    && ChunkOk(chunk) && n > parity
    && (level == LEVEL_RAID6 ==> Raid6LayoutKnown(layout)) && (level == LEVEL_RAID5 ==> layout <= PARITY_LAST)
    && CountPresent(View(slots), n) >= n - parity
    && ParitySize(perMember, chunk, n - parity) < U64
    && AllReach(View(slots), perMember)
  }

  function ParityArray(slots: Slots, level: int, layout: nat, chunk: nat, perMember: nat): MdArray
    requires chunk > 0 && |slots| > ParityCount(level)
  {
    MdArray(slots, level, layout, chunk, ParitySize(perMember, chunk, |slots| - ParityCount(level)), perMember, [],
            None)
  }

  method AssembleParity(slots: Slots, level: int, layout: nat, chunk: nat, perMember: nat, present: nat)
    returns (r: Result<MdArray>)
    requires level in {LEVEL_RAID4, LEVEL_RAID5, LEVEL_RAID6} && OnDevice(slots)
    requires present == CountPresent(View(slots), |slots|)
    ensures r.Ok? <==> ParityAccepted(slots, level, layout, chunk, perMember)
    ensures r.Ok? ==> r.value == ParityArray(slots, level, layout, chunk, perMember) && GoodParity(r.value)
    ensures r.Err? && r.error.TooFewMembers? ==> present < |slots| - ParityCount(level)
  {
    if !ChunkOk(chunk) { return Err(Corrupt); }
    var n := |slots|;
    var parity := ParityCount(level);
    if n <= parity { return Err(Corrupt); }
    if level == LEVEL_RAID6 && !Raid6LayoutKnown(layout) { return Err(Unsupported); }
    if level == LEVEL_RAID5 && layout > PARITY_LAST { return Err(Unsupported); }
    if present < n - parity { return Err(TooFewMembers(level, present, n - parity)); }
    FewAbsent(View(slots), parity);
    var size := ParitySize(perMember, chunk, n - parity);
    if size >= U64 { return Err(Corrupt); }
    var reach := MembersReach(slots, perMember);
    if !reach { return Err(Corrupt); }
    r := Ok(MdArray(slots, level, layout, chunk, size, perMember, [], None));
  }

  /** Devices of the members' bytes, their data from the start. */
  function SlotsWith(ms: Members): (slots: Slots)
    ensures |slots| == |ms| && View(slots) == ms && OnDevice(slots)
  {
    var slots := seq(|ms|, s requires 0 <= s < |ms| =>
      if ms[s].None? then None else Some(Member(ms[s].value, 0, |ms[s].value|)));
    assert View(slots) == ms;
    slots
  }

  lemma {:induction false} WitnessAccepted(ms: Members, layout: nat, chunk: nat, perMember: nat)
    requires |ms| >= 3 && Raid6LayoutKnown(layout) && ChunkOk(chunk) && CountPresent(ms, |ms|) == |ms| - 2
    requires AllReach(ms, perMember) && ParitySize(perMember, chunk, |ms| - 2) < U64
    ensures ParityAccepted(SlotsWith(ms), LEVEL_RAID6, layout, chunk, perMember)
  {
  }

  /** Past the member limit, and up to all the members assembly takes, there is an array with two
      members missing that assembly accepts and a chunk of it that cannot be read: for every known
      layout, and every chunk size a superblock can record. */
  lemma {:induction false} AcceptedUnreadable(layout: nat, n: nat, chunk: nat)
    returns (slots: Slots, perMember: nat, k: nat)
    requires MemberLimit(layout) < n <= MAX_DISKS && Raid6LayoutKnown(layout)
    requires ChunkOk(chunk) && chunk < 0x200_0000_0000
    ensures |slots| == n && OnDevice(slots) && ParityAccepted(slots, LEVEL_RAID6, layout, chunk, perMember)
    ensures k * chunk < ParityArray(slots, LEVEL_RAID6, layout, chunk, perMember).size
    ensures !ChunkReadable(Striping(LEVEL_RAID6, layout, chunk, None), View(slots), k, 0, 1)
  {
    var stripe, x, ms := TwoMissingNotAlways(layout, n, chunk);
    slots := SlotsWith(ms);
    perMember, k := WitnessPlace(stripe, n, chunk, x);
    UnreadableChunk(layout, ms, chunk, stripe, x, k);
    WitnessArray(ms, layout, chunk, perMember, k);
  }

  lemma {:induction false} WitnessArray(ms: Members, layout: nat, chunk: nat, perMember: nat, k: nat)
    requires |ms| >= 3 && Raid6LayoutKnown(layout) && ChunkOk(chunk) && CountPresent(ms, |ms|) == |ms| - 2
    requires AllReach(ms, perMember) && k * chunk < ParitySize(perMember, chunk, |ms| - 2) < U64
    ensures ParityAccepted(SlotsWith(ms), LEVEL_RAID6, layout, chunk, perMember)
    ensures k * chunk < ParityArray(SlotsWith(ms), LEVEL_RAID6, layout, chunk, perMember).size
  {
    WitnessAccepted(ms, layout, chunk, perMember);
  }

  lemma {:induction false} WitnessPlace(stripe: nat, n: nat, chunk: nat, x: nat) returns (perMember: nat, k: nat)
    requires stripe < n <= MAX_DISKS && n >= 3 && 0 < chunk < 0x200_0000_0000 && x < n - 2
    ensures perMember == (stripe + 1) * chunk && k / (n - 2) == stripe && k % (n - 2) == x
    ensures k * chunk < ParitySize(perMember, chunk, n - 2) < U64
  {
    WitnessSize(stripe, n, chunk, x);
    perMember, k := (stripe + 1) * chunk, stripe * (n - 2) + x;
    DivModUnique(k, n - 2, stripe, x);
  }

  lemma {:induction false} WitnessSize(stripe: nat, n: nat, chunk: nat, x: nat)
    requires stripe < n <= MAX_DISKS && n >= 3 && 0 < chunk < 0x200_0000_0000 && x < n - 2
    ensures 0 <= stripe * (n - 2) + x && (stripe + 1) * chunk >= 0
    ensures (stripe * (n - 2) + x) * chunk < ParitySize((stripe + 1) * chunk, chunk, n - 2) < U64
  {
    var data, rows := n - 2, stripe + 1;
    MulMonotone(0, stripe, data);
    MulMonotone(0, rows, chunk);
    DivModUnique(rows * chunk, chunk, rows, 0);
    Reorder(rows, chunk, data);
    MulMonotone(rows, MAX_DISKS, data);
    MulMonotone(data, MAX_DISKS, MAX_DISKS);
    assert rows * data == stripe * data + data;
    MulMonotone(stripe * data + x + 1, rows * data, chunk);
    assert (stripe * data + x + 1) * chunk == (stripe * data + x) * chunk + chunk;
    MulMonotone(rows * data, MAX_DISKS * MAX_DISKS, chunk);
  }

  method AssembleRaid1(slots: Slots, layout: nat, chunk: nat, perMember: nat, present: nat) returns (r: Result<MdArray>)
    requires OnDevice(slots) && present == CountPresent(View(slots), |slots|)
    ensures r.Ok? <==> present >= 1 && AllReach(View(slots), perMember)
    ensures r.Ok? ==>
      r.value == MdArray(slots, LEVEL_RAID1, layout, chunk, perMember, perMember, [], None) && GoodRaid1(r.value)
    ensures r.Err? && r.error.TooFewMembers? ==> present == 0
  {
    if present < 1 { return Err(TooFewMembers(LEVEL_RAID1, present, 1)); }
    SomeCounted(View(slots), |slots|);
    var reach := MembersReach(slots, perMember);
    if !reach { return Err(Corrupt); }
    r := Ok(MdArray(slots, LEVEL_RAID1, layout, chunk, perMember, perMember, [], None));
  }

  /** A data area rounded down to the chunk, when there is one. */
  function RoundDown(size: nat, chunk: nat): (r: nat)
    ensures r <= size && (chunk > 0 ==> r % chunk == 0 && size < r + chunk)
  {
    if chunk == 0 then size
    else
      DivModRecompose(size, chunk);
      DivNonNegative(size, chunk);
      DivModUnique(size / chunk * chunk, chunk, size / chunk, 0);
      size / chunk * chunk
  }

  /** The usable size of each of the first `k` members. */
  function UsableSizes(slots: Slots, chunk: nat, k: nat): (sizes: seq<nat>)
    requires k <= |slots| && AllThere(slots)
    ensures |sizes| == k && forall s :: 0 <= s < k ==> sizes[s] == RoundDown(slots[s].value.dataSize, chunk)
  {
    seq(k, s requires 0 <= s < k => RoundDown(slots[s].value.dataSize, chunk))
  }

  lemma {:induction false} UsableSizesOf(slots: Slots, chunk: nat)
    requires OnDevice(slots) && AllThere(slots)
    ensures SizesOf(slots, UsableSizes(slots, chunk, |slots|))
  {}

  lemma {:induction false} EndToEndExtend(zones: seq<Zone>, lens: seq<nat>, start: int, k: nat, len: nat)
    requires EndToEnd(zones, lens, start, k)
    ensures EndToEnd(zones + [Zone(start + TotalLen(zones), len, 0, [|lens|])], lens + [len], start, k)
    ensures TotalLen(zones + [Zone(start + TotalLen(zones), len, 0, [|lens|])]) == TotalLen(zones) + len
  {
    var z := Zone(start + TotalLen(zones), len, 0, [|lens|]);
    if zones == [] {
      assert (zones + [z])[1..] == [];
    } else {
      EndToEndExtend(zones[1..], lens, start + lens[k], k + 1, len);
      assert (zones + [z])[1..] == zones[1..] + [z];
    }
  }

  lemma {:induction false} SumNext(sizes: seq<nat>, k: nat)
    requires k < |sizes|
    ensures Sum(sizes[..k + 1]) == Sum(sizes[..k]) + sizes[k] <= Sum(sizes)
  {
    if k == 0 {
      assert sizes[..1] == [sizes[0]] && sizes[..1][1..] == [];
    } else {
      SumNext(sizes[1..], k - 1);
      assert sizes[..k + 1][1..] == sizes[1..][..k] && sizes[..k][1..] == sizes[1..][..k - 1];
    }
  }

  /** One zone per member, each after the last, unless they do not fit a 64-bit size. */
  method LinearZones(slots: Slots, chunk: nat, ghost sizes: seq<nat>) returns (zones: seq<Zone>, start: int, fits: bool)
    requires AllThere(slots) && sizes == UsableSizes(slots, chunk, |slots|)
    ensures fits <==> Sum(sizes) < U64
    ensures fits ==> start == TotalLen(zones) == Sum(sizes) && EndToEnd(zones, sizes, 0, 0)
  {
    zones, start, fits := [], 0, true;
    var s: nat := 0;
    while s < |slots|
      invariant s <= |slots| && fits
      invariant start == TotalLen(zones) == Sum(sizes[..s]) < U64 && EndToEnd(zones, sizes[..s], 0, 0)
    {
      var len := RoundDown(slots[s].value.dataSize, chunk);
      EndToEndExtend(zones, sizes[..s], 0, 0, len);
      assert sizes[..s] + [len] == sizes[..s + 1];
      SumNext(sizes, s);
      zones := zones + [Zone(start, len, 0, [s])];
      start := start + len;
      if start >= U64 { return zones, start, false; }
      s := s + 1;
    }
    assert sizes[..|slots|] == sizes;
  }

  /** What assembly asks of a linear array: every member, and a size of 64 bits. */
  ghost predicate LinearAccepted(slots: Slots, chunk: nat) {
    AllThere(slots) && Sum(UsableSizes(slots, chunk, |slots|)) < U64
  }

  method AssembleLinear(slots: Slots, layout: nat, chunk: nat, perMember: nat, present: nat)
    returns (r: Result<MdArray>)
    requires OnDevice(slots) && present == CountPresent(View(slots), |slots|)
    ensures r.Ok? <==> LinearAccepted(slots, chunk)
    ensures r.Ok? ==> GoodLinear(r.value, UsableSizes(slots, chunk, |slots|)) && r.value.slots == slots
    ensures r.Ok? ==> r.value.size == Sum(UsableSizes(slots, chunk, |slots|))
    ensures r.Ok? ==> r.value.layout == layout && r.value.chunk == chunk && r.value.perMember == perMember
    ensures r.Err? && r.error.TooFewMembers? ==> present < |slots|
  {
    AllThereCounted(slots);
    if present < |slots| { return Err(TooFewMembers(LEVEL_LINEAR, present, |slots|)); }
    ghost var sizes := UsableSizes(slots, chunk, |slots|);
    var zones, start, fits := LinearZones(slots, chunk, sizes);
    if !fits { return Err(Corrupt); }
    UsableSizesOf(slots, chunk);
    EndToEndInOrder(zones, sizes, 0, 0);
    r := Ok(MdArray(slots, LEVEL_LINEAR, layout, chunk, start, perMember, zones, None));
  }

  /** What assembly asks of a RAID0 array: every member, and over uneven ones a layout it knows. */
  ghost predicate Raid0Accepted(slots: Slots, layout: nat, chunk: nat) {
    && AllThere(slots) && ChunkOk(chunk)
    && (Uneven(UsableSizes(slots, chunk, |slots|)) ==> layout == RAID0_ALTERNATE || layout == RAID0_ORIGINAL)
  }

  method AssembleRaid0(slots: Slots, layout: nat, chunk: nat, perMember: nat, present: nat) returns (r: Result<MdArray>)
    requires OnDevice(slots) && present == CountPresent(View(slots), |slots|)
    ensures r.Ok? <==> Raid0Accepted(slots, layout, chunk)
    ensures r.Ok? ==> GoodRaid0(r.value, UsableSizes(slots, chunk, |slots|)) && r.value.slots == slots
    ensures r.Ok? ==> r.value.size == Sum(UsableSizes(slots, chunk, |slots|))
    ensures r.Ok? ==> r.value.layout == layout && r.value.chunk == chunk && r.value.perMember == perMember
    ensures r.Err? && r.error.TooFewMembers? ==> present < |slots|
  {
    AllThereCounted(slots);
    if present < |slots| { return Err(TooFewMembers(LEVEL_RAID0, present, |slots|)); }
    if !ChunkOk(chunk) { return Err(Corrupt); }
    var sizes := UsableSizes(slots, chunk, |slots|);
    UsableSizesOf(slots, chunk);
    var zones := BuildZones(sizes, chunk);
    SeveralZones(sizes);
    if |zones| > 1 && layout != RAID0_ALTERNATE && layout != RAID0_ORIGINAL {
      return Err(Unsupported);
    }
    ZonesHoldAll(zones, sizes, chunk);
    ChainSlots(zones, sizes, chunk, 0, 0);
    r := Ok(MdArray(slots, LEVEL_RAID0, layout, chunk, TotalLen(zones), perMember, zones, None));
  }

  // ----- RAID10

  const RAID10_KNOWN_BITS: nat := 0x20000

  /** Whether every copy of a chunk is on a missing member. */
  method NoneLeft(slots: Slots, copies: seq<Copy>) returns (none: bool)
    requires forall c :: c in copies ==> c.slot < |slots|
    ensures none <==> forall c :: c in copies ==> slots[c.slot].None?
  {
    for i := 0 to |copies|
      invariant forall j :: 0 <= j < i ==> slots[copies[j].slot].None?
    {
      if slots[copies[i].slot].Some? {
        return false;
      }
    }
    none := true;
  }

  /** Check the first `n` chunks for one with no copy left. */
  method AllKept(slots: Slots, g: Raid10) returns (lost: Option<seq<Copy>>)
    requires |slots| > 0 && g.near >= 1 && g.far >= 1
    ensures lost.None? <==> SurvivesRaid10(g, View(slots))
  {
    var d := |slots|;
    var c := 0;
    while c < d
      invariant 0 <= c <= d
      invariant forall c': nat :: c' < c ==> Kept(g, d, c', PresentSlots(View(slots)))
    {
      var copies := ComputeCopies(g, d, c);
      CopiesLegal(g, d, c, g.near);
      var none := NoneLeft(slots, copies);
      if none {
        assert !Kept(g, d, c, PresentSlots(View(slots)));
        return Some(copies);
      }
      var x :| x in copies && slots[x.slot].Some?;
      assert x.slot in PresentSlots(View(slots));
      c := c + 1;
    }
    lost := None;
  }

  /** The chunks of a RAID10 array, as counted in 64 bits. */
  function CountedChunks(g: Raid10, d: nat): (r: nat)
    requires g.near >= 1
    ensures r <= ArrayChunks(g, d)
    ensures g.stride * d < U64 ==> r * g.near <= g.stride * d < (r + 1) * g.near
  {
    var whole := g.stride * d;
    DivModRecompose(whole % U64, g.near);
    assert (whole % U64 / g.near + 1) * g.near == whole % U64 / g.near * g.near + g.near;
    DivModRecompose(whole, U64);
    DivNonNegative(whole, U64);
    DivNonNegative(whole % U64, g.near);
    DivMonotone(whole % U64, whole, g.near);
    whole % U64 / g.near
  }

  lemma {:induction false} DivMonotone(x: nat, y: nat, b: nat)
    requires b > 0 && x <= y
    ensures x / b <= y / b
  {
    DivModRecompose(x, b);
    DivModRecompose(y, b);
    if x / b > y / b { MulMonotone(y / b + 1, x / b, b); }
  }

  /** What assembly asks of a RAID10 array. */
  ghost predicate Raid10Accepted(slots: Slots, layout: nat, chunk: nat, perMember: nat) {
    && ChunkOk(chunk) && layout < RAID10_KNOWN_BITS
    && layout % 256 != 0 && (layout / 256) % 256 != 0 && layout % 256 * ((layout / 256) % 256) <= |slots|
    && perMember / chunk >= 0
    && var g := Raid10Of(layout, perMember / chunk);
       && SurvivesRaid10(g, View(slots)) && CountedChunks(g, |slots|) * chunk < U64 && AllReach(View(slots), perMember)
  }

  method AssembleRaid10(slots: Slots, layout: nat, chunk: nat, perMember: nat) returns (r: Result<MdArray>)
    requires OnDevice(slots) && |slots| > 0
    ensures r.Ok? <==> Raid10Accepted(slots, layout, chunk, perMember)
    ensures r.Ok? ==> GoodRaid10(r.value) && r.value.slots == slots
    ensures r.Ok? ==> r.value.layout == layout && r.value.chunk == chunk
    ensures r.Ok? ==> r.value.perMember == perMember && r.value.raid10 == Some(Raid10Of(layout, perMember / chunk))
    ensures r.Ok? ==> r.value.size == CountedChunks(r.value.raid10.value, |slots|) * chunk
    ensures r.Err? && r.error.NoCopyLeft? ==>
      chunk > 0 && (layout / 256) % 256 != 0 && !SurvivesRaid10(Raid10Of(layout, perMember / chunk), View(slots))
  {
    if !ChunkOk(chunk) { return Err(Corrupt); }
    if layout >= RAID10_KNOWN_BITS { return Err(Unsupported); }
    var (near, far) := (layout % 256, (layout / 256) % 256);
    if near == 0 || far == 0 || near * far > |slots| { return Err(Corrupt); }
    DivNonNegative(perMember, chunk);
    var g := Raid10Of(layout, perMember / chunk);
    var lost := AllKept(slots, g);
    if lost.Some? { return Err(NoCopyLeft(SlotsOf(lost.value))); }
    var chunks := CountedChunks(g, |slots|);
    MulMonotone(0, chunks, chunk);
    var size := chunks * chunk;
    if size >= U64 { return Err(Corrupt); }
    var reach := MembersReach(slots, perMember);
    if !reach { return Err(Corrupt); }
    var a := MdArray(slots, LEVEL_RAID10, layout, chunk, size, perMember, [], Some(g));
    assert Chunked(a, chunks);
    r := Ok(a);
  }

  function SlotsOf(copies: seq<Copy>): seq<nat> {
    seq(|copies|, i requires 0 <= i < |copies| => copies[i].slot)
  }

  // ----- the whole

  /** Device `j` is the first of the first `k` devices with their highest event count. */
  ghost predicate FirstNewest(devices: seq<Device>, k: int, j: int) {
    && 0 <= j < k <= |devices|
    && (forall i :: 0 <= i < k ==> devices[i].sb.Some?)
    && (forall i :: 0 <= i < k ==> devices[i].sb.value.events <= devices[j].sb.value.events)
    && (forall i :: 0 <= i < j ==> devices[i].sb.value.events < devices[j].sb.value.events)
  }

  /** The superblock that speaks for the array: the first of the newest. */
  method FindLead(devices: seq<Device>) returns (lead: Superblock)
    requires devices != [] && forall d :: d in devices ==> d.sb.Some?
    ensures exists i :: FirstNewest(devices, |devices|, i) && devices[i].sb == Some(lead)
  {
    lead := devices[0].sb.value;
    for i := 1 to |devices|
      invariant exists j :: FirstNewest(devices, i, j) && devices[j].sb == Some(lead)
    {
      ghost var j :| FirstNewest(devices, i, j) && devices[j].sb == Some(lead);
      assert FirstNewest(devices, i + 1, if devices[i].sb.value.events > lead.events then i else j);
      if devices[i].sb.value.events > lead.events {
        lead := devices[i].sb.value;
      }
    }
  }

  /** The superblocks there are, all of one array. */
  method CheckSuperblocks(devices: seq<Device>) returns (r: Option<MdError>)
    ensures r.None? <==> OneArray(devices)
  {
    if devices == [] { return Some(Empty); }
    for i := 0 to |devices|
      invariant forall j :: 0 <= j < i ==> devices[j].sb.Some?
    {
      if devices[i].sb.None? { return Some(NoSuperblock(i)); }
    }
    for i := 0 to |devices|
      invariant forall j :: 0 <= j < i ==> devices[j].sb.value.uuid == devices[0].sb.value.uuid
    {
      if devices[i].sb.value.uuid != devices[0].sb.value.uuid { return Some(MixedArrays(i)); }
    }
    r := None;
  }

  /** The array is the one a superblock records. */
  predicate DescribedBy(a: MdArray, sb: Superblock) {
    && a.level == sb.level && a.layout == sb.layout && a.chunk == sb.chunkBytes && a.perMember == sb.componentSize
  }

  /** What assembly asks of an array at the level its superblock records. */
  ghost predicate LevelAccepted(slots: Slots, lead: Superblock) {
    var (layout, chunk, per) := (lead.layout, lead.chunkBytes, lead.componentSize);
    if lead.level == LEVEL_LINEAR then LinearAccepted(slots, chunk)
    else if lead.level == LEVEL_RAID1 then CountPresent(View(slots), |slots|) >= 1 && AllReach(View(slots), per)
    else if lead.level == LEVEL_RAID0 then Raid0Accepted(slots, layout, chunk)
    else if lead.level == LEVEL_RAID10 then Raid10Accepted(slots, layout, chunk, per)
    else lead.level in {LEVEL_RAID4, LEVEL_RAID5, LEVEL_RAID6} && ParityAccepted(slots, lead.level, layout, chunk, per)
  }

  method AssembleLevel(slots: Slots, lead: Superblock) returns (r: Result<MdArray>)
    requires OnDevice(slots) && |slots| > 0
    ensures r.Ok? <==> LevelAccepted(slots, lead)
    ensures r.Ok? ==> Assembled(r.value) && r.value.slots == slots && DescribedBy(r.value, lead)
  {
    var present := CountMembers(slots);
    var (layout, chunk, per) := (lead.layout, lead.chunkBytes, lead.componentSize);
    if lead.level == LEVEL_LINEAR {
      r := AssembleLinear(slots, layout, chunk, per, present);
      if r.Ok? { assert GoodZoned(r.value, UsableSizes(slots, chunk, |slots|)); }
    } else if lead.level == LEVEL_RAID1 {
      r := AssembleRaid1(slots, layout, chunk, per, present);
    } else if lead.level == LEVEL_RAID0 {
      r := AssembleRaid0(slots, layout, chunk, per, present);
      if r.Ok? { assert GoodZoned(r.value, UsableSizes(slots, chunk, |slots|)); }
    } else if lead.level == LEVEL_RAID10 {
      r := AssembleRaid10(slots, layout, chunk, per);
    } else if lead.level in {LEVEL_RAID4, LEVEL_RAID5, LEVEL_RAID6} {
      r := AssembleParity(slots, lead.level, layout, chunk, per, present);
    } else {
      r := Err(Unsupported);
    }
  }

  /** The superblocks there are, all of one array. */
  predicate OneArray(devices: seq<Device>) {
    && devices != [] && (forall d :: d in devices ==> d.sb.Some?)
    && (forall d :: d in devices ==> d.sb.value.uuid == devices[0].sb.value.uuid)
  }

  /** Devices assembly takes: of one array, that is not reshaping and has a number of members it can
      have, no slot claimed twice, and as many members in place as its level asks for. */
  ghost predicate Accepted(devices: seq<Device>) {
    && OneArray(devices)
    && exists i :: FirstNewest(devices, |devices|, i) && AcceptedAs(devices, devices[i].sb.value)
  }

  ghost predicate AcceptedAs(devices: seq<Device>, lead: Superblock) {
    && !lead.reshaping && 0 < lead.raidDisks <= MAX_DISKS
    && Undisputed(devices, lead.events, lead.raidDisks, |devices|)
    && exists slots :: Placed(devices, lead.events, lead.raidDisks, |devices|, slots) && LevelAccepted(slots, lead)
  }

  lemma {:induction false} LeadUnique(devices: seq<Device>, i: int, j: int)
    requires FirstNewest(devices, |devices|, i) && FirstNewest(devices, |devices|, j)
    ensures i == j
  {
    var a, b := devices[i].sb.value.events, devices[j].sb.value.events;
    assert (i < j ==> a < b) && (j < i ==> b < a);
  }

  /** With the lead known and the members in place, the level decides. */
  lemma {:induction false} AcceptedBy(devices: seq<Device>, i: int, slots: Slots)
    requires OneArray(devices) && FirstNewest(devices, |devices|, i)
    requires var lead := devices[i].sb.value;
      && !lead.reshaping && 0 < lead.raidDisks <= MAX_DISKS
      && Undisputed(devices, lead.events, lead.raidDisks, |devices|)
      && Placed(devices, lead.events, lead.raidDisks, |devices|, slots)
    ensures Accepted(devices) <==> LevelAccepted(slots, devices[i].sb.value)
  {
    var lead := devices[i].sb.value;
    if Accepted(devices) {
      var j :| FirstNewest(devices, |devices|, j) && AcceptedAs(devices, devices[j].sb.value);
      LeadUnique(devices, i, j);
      var other :| Placed(devices, lead.events, lead.raidDisks, |devices|, other) && LevelAccepted(other, lead);
      PlacedUnique(devices, lead.events, lead.raidDisks, slots, other);
    }
  }

  lemma {:induction false} NotAccepted(devices: seq<Device>, i: int)
    requires OneArray(devices) && FirstNewest(devices, |devices|, i)
    requires var lead := devices[i].sb.value;
      || lead.reshaping || !(0 < lead.raidDisks <= MAX_DISKS)
      || !Undisputed(devices, lead.events, lead.raidDisks, |devices|)
    ensures !Accepted(devices)
  {
    forall j | FirstNewest(devices, |devices|, j) ensures !AcceptedAs(devices, devices[j].sb.value) {
      LeadUnique(devices, i, j);
    }
  }

  /** Assemble an array from its member devices: the one the first of the newest superblocks
      records, each up-to-date device in the slot it claims. */
  method Assemble(devices: seq<Device>) returns (r: Result<MdArray>)
    requires forall d :: d in devices ==> Decoded(d)
    ensures r.Ok? <==> Accepted(devices)
    ensures r.Ok? ==> Assembled(r.value) && 0 < |r.value.slots| <= MAX_DISKS
    ensures r.Ok? ==>
      exists i :: FirstNewest(devices, |devices|, i) && AssembledFrom(devices, devices[i].sb.value, r.value)
  {
    var bad := CheckSuperblocks(devices);
    if bad.Some? { return Err(bad.value); }
    var lead := FindLead(devices);
    ghost var i :| FirstNewest(devices, |devices|, i) && devices[i].sb == Some(lead);
    var n := lead.raidDisks;
    if lead.reshaping || n == 0 || n > MAX_DISKS {
      NotAccepted(devices, i);
      return Err(if lead.reshaping then Unsupported else Corrupt);
    }
    var placed := PlaceMembers(devices, lead.events, n);
    if placed.Err? {
      NotAccepted(devices, i);
      return Err(placed.error);
    }
    PlacedOnDevice(devices, lead.events, n, placed.value);
    AcceptedBy(devices, i, placed.value);
    r := AssembleLevel(placed.value, lead);
  }

  ghost predicate AssembledFrom(devices: seq<Device>, lead: Superblock, a: MdArray) {
    && !lead.reshaping && |a.slots| == lead.raidDisks && DescribedBy(a, lead)
    && (forall d :: d in devices ==> d.sb.Some? && d.sb.value.uuid == lead.uuid)
    && Placed(devices, lead.events, lead.raidDisks, |devices|, a.slots)
  }

  // ----- what assembly takes and cannot read

  /** A device for each member, a spare in place of one that is missing. */
  function DevicesWith(ms: Members, layout: nat, chunk: nat, per: nat): (devices: seq<Device>)
    ensures |devices| == |ms| && forall d :: d in devices ==> Decoded(d)
  {
    seq(|ms|, s requires 0 <= s < |ms| =>
      var (bytes, role) := if ms[s].Some? then (ms[s].value, Active(s)) else ([], Spare);
      Device(bytes, Some(Superblock(0, LEVEL_RAID6, layout, chunk, |ms|, role, 0, |bytes|, per, 0, false, false))))
  }

  lemma {:induction false} DevicesClaim(ms: Members, layout: nat, chunk: nat, per: nat, i: nat, s: nat)
    requires i < |ms|
    ensures Claims(DevicesWith(ms, layout, chunk, per)[i], 0, |ms|, s) <==> i == s && ms[s].Some?
  {
  }

  lemma {:induction false} DevicesPlaced(ms: Members, layout: nat, chunk: nat, per: nat)
    ensures var devices := DevicesWith(ms, layout, chunk, per);
      Placed(devices, 0, |ms|, |ms|, SlotsWith(ms)) && Undisputed(devices, 0, |ms|, |ms|)
  {
    var devices := DevicesWith(ms, layout, chunk, per);
    forall i: nat, s: nat | i < |ms| ensures Claims(devices[i], 0, |ms|, s) <==> i == s && ms[s].Some? {
      DevicesClaim(ms, layout, chunk, per, i, s);
    }
    forall s: nat | s < |ms| && ms[s].Some?
      ensures SlotsWith(ms)[s] == Some(MemberOf(devices[s])) && Claims(devices[s], 0, |ms|, s)
    {
    }
  }

  /** Chunk `k` is inside the array and its first byte cannot be read. */
  ghost predicate HasUnreadable(a: MdArray, level: int, k: nat) {
    && a.level == level && k * a.chunk < a.size && Legal(a.ToStriping(), |a.slots|)
    && !ChunkReadable(a.ToStriping(), View(a.slots), k, 0, 1)
  }

  /** So past the member limit there are devices that assembly takes, although the array they make
      has a chunk that cannot be read. */
  lemma {:induction false} AssembledUnreadable(layout: nat, n: nat, chunk: nat) returns (devices: seq<Device>, k: nat)
    requires MemberLimit(layout) < n <= MAX_DISKS && Raid6LayoutKnown(layout)
    requires ChunkOk(chunk) && chunk < 0x200_0000_0000
    ensures (forall d :: d in devices ==> Decoded(d)) && Accepted(devices)
    ensures forall a: MdArray :: Assembled(a) && AssembledFrom(devices, devices[0].sb.value, a) ==>
      HasUnreadable(a, LEVEL_RAID6, k)
  {
    var slots, per;
    slots, per, k := AcceptedUnreadable(layout, n, chunk);
    var ms := View(slots);
    devices := DevicesWith(ms, layout, chunk, per);
    DevicesPlaced(ms, layout, chunk, per);
    assert FirstNewest(devices, n, 0);
    WitnessSlots(slots, ms, layout, chunk, per);
    AcceptedBy(devices, 0, SlotsWith(ms));
    forall a: MdArray | Assembled(a) && AssembledFrom(devices, devices[0].sb.value, a)
      ensures HasUnreadable(a, LEVEL_RAID6, k)
    {
      PlacedUnique(devices, 0, n, a.slots, SlotsWith(ms));
      ParityAssembled(a);
      UnreadableAs(a, layout, chunk, per, k);
    }
  }

  lemma {:induction false} UnreadableAs(a: MdArray, layout: nat, chunk: nat, per: nat, k: nat)
    requires GoodParity(a) && a.level == LEVEL_RAID6 && a.layout == layout && a.chunk == chunk && a.perMember == per
    requires |a.slots| > 2 && chunk > 0
    requires k * chunk < ParitySize(per, chunk, |a.slots| - 2)
    requires !ChunkReadable(Striping(LEVEL_RAID6, layout, chunk, None), View(a.slots), k, 0, 1)
    ensures HasUnreadable(a, LEVEL_RAID6, k)
  {
    assert a.ToStriping() == Striping(LEVEL_RAID6, layout, chunk, None);
  }

  lemma {:induction false} ParityAssembled(a: MdArray)
    requires Assembled(a) && a.level == LEVEL_RAID6
    ensures GoodParity(a)
  {
  }

  lemma {:induction false} WitnessSlots(slots: Slots, ms: Members, layout: nat, chunk: nat, per: nat)
    requires ms == View(slots) && ParityAccepted(slots, LEVEL_RAID6, layout, chunk, per)
    ensures ParityAccepted(SlotsWith(ms), LEVEL_RAID6, layout, chunk, per)
  {
  }
}
