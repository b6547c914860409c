/** Resolving a logical volume's segments to runs, through sub-volumes that may refer to one
    another in any way. */
module LvmMapper {
  import opened Arithmetic
  import opened ChunkRead
  import opened LvmReading
  import opened LvmSegments
  import opened LvmVolumes
  import opened Raid10Placement
  import opened Raid6Recovery
  import opened Raid6Survival
  import opened Sizes
  import opened ThinLookup
  import opened Wrappers

  // ----- the metadata

  datatype Volume = Volume(name: string, segments: seq<Segment>)

  datatype PhysicalVolume = PhysicalVolume(name: string, uuid: string, peStart: nat, peCount: nat)

  /** What a dm-raid superblock says of its array. */
  datatype RaidSuper = RaidSuper(level: int, layout: nat, chunk: nat, dataOffset: nat)

  /** A pool's metadata: its block size, the root of the map of its devices, and its blocks. */
  datatype PoolMeta = PoolMeta(block: nat, devicesRoot: nat, blocks: Metadata)

  /** A thin device found in its pool: the pool's block size and the root of the device's map. */
  datatype ThinRoot = ThinRoot(block: nat, root: nat)

  /** The group, its devices by UUID, and what its metadata sub-volumes decode to, by name: a
      RAID's superblock, a pool's metadata. */
  datatype Group = Group(extentSize: nat, pvs: seq<PhysicalVolume>, volumes: seq<Volume>, devOf: map<string, nat>,
                         devices: Devices, raidSuper: string -> Option<RaidSuper>,
                         poolMeta: string -> Option<PoolMeta>)
  {
    predicate Known() {
      forall u :: u in devOf ==> devOf[u] < |devices|
    }
  }

  /** The first volume of that name. */
  function VolumeNamed(volumes: seq<Volume>, name: string): Option<Volume> {
    if volumes == [] then None
    else if volumes[0].name == name then Some(volumes[0]) else VolumeNamed(volumes[1..], name)
  }

  /** The first physical volume of that name. */
  function PvNamed(pvs: seq<PhysicalVolume>, name: string): Option<PhysicalVolume> {
    if pvs == [] then None
    else if pvs[0].name == name then Some(pvs[0]) else PvNamed(pvs[1..], name)
  }

  // ----- what a name resolves to

  /** A volume of this name resolves to these runs, nesting sub-volumes at most `left` levels. */
  ghost predicate Resolves(g: Group, name: string, left: nat, r: Resolved)
    decreases left, 0
  {
    var v := VolumeNamed(g.volumes, name);
    left > 0 && v.Some? && ResolvedFrom(g.extentSize, v.value.segments, JudgeOf(g, SubsOf(g, left - 1)), r)
  }

  ghost predicate RunsOf(g: Group, name: string, left: nat, runs: seq<Run>)
    decreases left, 1
  {
    exists size: nat :: Resolves(g, name, left, Resolved(runs, size))
  }

  ghost predicate Available(g: Group, name: string, left: nat) {
    exists r: Resolved :: Resolves(g, name, left, r)
  }

  /** A volume does not resolve for want of a physical volume that was not given, with nothing else
      wrong before. */
  ghost predicate Lacks(g: Group, name: string, left: nat)
    decreases left, 0
  {
    var v := VolumeNamed(g.volumes, name);
    left > 0 && v.Some? && SegmentsLack(g.extentSize, v.value.segments, JudgeOf(g, SubsOf(g, left - 1)))
  }

  /** What the sub-volumes a segment names are: their runs, and whether they lack a physical volume. */
  datatype Subs = Subs(runs: (string, seq<Run>) -> bool, lacks: string -> bool) {
    ghost predicate There(name: string) {
      exists rs: seq<Run> :: runs(name, rs)
    }

    ghost predicate Known(name: string) {
      There(name) || lacks(name)
    }

    ghost predicate NotBoth(name: string) {
      !(There(name) && lacks(name))
    }
  }

  ghost function SubsOf(g: Group, left: nat): Subs
    decreases left, 2
  {
    Subs((name, runs) => RunsOf(g, name, left, runs), name => Lacks(g, name, left))
  }

  lemma {:induction false} SubThere(g: Group, name: string, left: nat)
    ensures SubsOf(g, left).There(name) <==> Available(g, name, left)
    ensures SubsOf(g, left).lacks(name) <==> Lacks(g, name, left)
  {
    if SubsOf(g, left).There(name) {
      var rs :| SubsOf(g, left).runs(name, rs);
      assert RunsOf(g, name, left, rs);
      var size: nat :| Resolves(g, name, left, Resolved(rs, size));
    }
    if Available(g, name, left) {
      var r :| Resolves(g, name, left, r);
      assert Resolves(g, name, left, Resolved(r.runs, r.size));
      assert SubsOf(g, left).runs(name, r.runs);
    }
  }

  /** What each segment is mapped to, and which lack a physical volume. */
  ghost function JudgeOf(g: Group, subs: Subs): Judge {
    Judge((seg, m) => SegmentMapped(g, seg, subs, m), seg => SegmentLacks(g, seg, subs))
  }

  ghost predicate CanMap(g: Group, seg: Segment, subs: Subs) {
    exists m: Mapping :: SegmentMapped(g, seg, subs, m)
  }

  /** A segment's mapping is the one its kind asks for. */
  ghost predicate SegmentMapped(g: Group, seg: Segment, subs: Subs, m: Mapping) {
    match seg.kind
    case StripedKind => StripedMapped(g, seg, m)
    case MirrorKind => MirrorMapped(seg, subs, m)
    case RaidKind => RaidMapped(g, seg, subs, m)
    case ThinKind => ThinMapped(g, seg, subs, m)
    case ThinPoolKind => false
    case OtherKind => false
  }

  /** A segment cannot be mapped for want of a physical volume, with nothing else wrong before it. */
  ghost predicate SegmentLacks(g: Group, seg: Segment, subs: Subs) {
    match seg.kind
    case StripedKind => StripedLacks(g, seg)
    case MirrorKind => MirrorLacks(seg, subs)
    case RaidKind => RaidLacks(g, seg, subs)
    case ThinKind => ThinLacks(g, seg, subs)
    case ThinPoolKind => false
    case OtherKind => false
  }

  // ----- stripes

  /** A stripe is `per` extents of its physical volume from the one it names, inside its device. */
  ghost predicate StripeFits(g: Group, st: StripeRef, per: nat) {
    var pv := PvNamed(g.pvs, st.pv);
    && pv.Some? && pv.value.uuid in g.devOf && g.devOf[pv.value.uuid] < |g.devices|
    && st.startExtent + per <= pv.value.peCount
    && var end := st.startExtent * g.extentSize + pv.value.peStart + per * g.extentSize;
       end < U64 && end <= |g.devices[g.devOf[pv.value.uuid]]|
  }

  ghost predicate StripeFrom(g: Group, st: StripeRef, per: nat, at: Stripe) {
    && StripeFits(g, st, per)
    && var pv := PvNamed(g.pvs, st.pv).value;
       at.dev == g.devOf[pv.uuid] && at.off == st.startExtent * g.extentSize + pv.peStart
  }

  /** A stripe's physical volume is one of the group's and was not given. */
  predicate PvGone(g: Group, st: StripeRef) {
    PvNamed(g.pvs, st.pv).Some? && PvNamed(g.pvs, st.pv).value.uuid !in g.devOf
  }

  ghost predicate StripesLack(g: Group, refs: seq<StripeRef>, per: nat) {
    exists i: nat :: i < |refs| && PvGone(g, refs[i]) && forall j: nat :: j < i ==> StripeFits(g, refs[j], per)
  }

  /** The extents divide equally over stripes that all fit, in whole stripe units. */
  ghost predicate StripedFits(g: Group, seg: Segment) {
    var n := |seg.stripes|;
    && n > 0 && seg.extentCount % n == 0
    && (forall i: nat :: i < n ==> StripeFits(g, seg.stripes[i], seg.extentCount / n))
    && (n > 1 ==> WholeUnits(seg.extentCount / n * g.extentSize, seg.stripeSize))
  }

  predicate WholeUnits(share: int, unit: nat) {
    if unit == 0 then share == 0 else share % unit == 0
  }

  ghost predicate StripedMapped(g: Group, seg: Segment, m: Mapping) {
    && m.Striped? && StripedFits(g, seg) && m.stripeSize == seg.stripeSize && |m.stripes| == |seg.stripes|
    && forall i: nat :: i < |m.stripes| ==>
         StripeFrom(g, seg.stripes[i], seg.extentCount / |m.stripes|, m.stripes[i])
  }

  ghost predicate StripedMaps(g: Group, seg: Segment) {
    exists m :: StripedMapped(g, seg, m)
  }

  ghost predicate StripedLacks(g: Group, seg: Segment) {
    var n := |seg.stripes|;
    n > 0 && seg.extentCount % n == 0 && StripesLack(g, seg.stripes, seg.extentCount / n)
  }

  method MapStripe(g: Group, st: StripeRef, per: nat) returns (r: Mapped<Stripe>)
    requires g.Known()
    ensures r.Ok? <==> StripeFits(g, st, per)
    ensures r.Ok? ==> StripeFrom(g, st, per, r.value)
    ensures r == Err(MissingPv) <==> PvGone(g, st)
  {
    var pv := PvNamed(g.pvs, st.pv);
    if pv.None? { return Err(Refused); }
    if pv.value.uuid !in g.devOf { return Err(MissingPv); }
    var dev := g.devOf[pv.value.uuid];
    if st.startExtent + per > pv.value.peCount { return Err(Refused); }
    MulMonotone(0, st.startExtent, g.extentSize);
    MulMonotone(0, per, g.extentSize);
    var off := st.startExtent * g.extentSize + pv.value.peStart;
    var share := per * g.extentSize;
    if off >= U64 || off + share >= U64 || off + share > |g.devices[dev]| { return Err(Refused); }
    r := Ok(Stripe(dev, off));
  }

  method MapStripes(g: Group, refs: seq<StripeRef>, per: nat) returns (r: Mapped<seq<Stripe>>)
    requires g.Known()
    ensures r.Ok? <==> forall i: nat :: i < |refs| ==> StripeFits(g, refs[i], per)
    ensures r.Ok? ==>
      |r.value| == |refs| && forall i: nat :: i < |refs| ==> StripeFrom(g, refs[i], per, r.value[i])
    ensures r == Err(MissingPv) <==> StripesLack(g, refs, per)
  {
    var out: seq<Stripe> := [];
    var i: nat := 0;
    while i < |refs|
      invariant i <= |refs| && |out| == i && forall k: nat :: k < i ==> StripeFrom(g, refs[k], per, out[k])
      invariant forall k: nat :: k < i ==> !PvGone(g, refs[k])
    {
      var st := MapStripe(g, refs[i], per);
      if st.Err? { return Err(st.error); }
      out := out + [st.value];
      i := i + 1;
    }
    r := Ok(out);
  }

  method MapStriped(g: Group, seg: Segment) returns (r: Mapped<Mapping>)
    requires g.Known()
    ensures r.Ok? <==> StripedFits(g, seg)
    ensures r.Ok? <==> StripedMaps(g, seg)
    ensures r.Ok? ==> StripedMapped(g, seg, r.value)
    ensures r == Err(MissingPv) <==> StripedLacks(g, seg)
  {
    var n := |seg.stripes|;
    if n == 0 || seg.extentCount % n != 0 { return Err(Refused); }
    DivNonNegative(seg.extentCount, n);
    var per := seg.extentCount / n;
    var stripes := MapStripes(g, seg.stripes, per);
    if stripes.Err? { return Err(stripes.error); }
    if n > 1 && !WholeUnits(per * g.extentSize, seg.stripeSize) { return Err(Refused); }
    r := Ok(Striped(seg.stripeSize, stripes.value));
    assert StripedMapped(g, seg, r.value);
  }

  // ----- RAID images

  /** The images subs are as many as the level needs, as far as the mapper checks. */
  ghost predicate RaidAccepted(m: Mapping)
    requires m.Raid?
  {
    var n := |m.images|;
    && n > 0 && m.level in {1, 5, 6, 10}
    && (m.level == 10 <==> m.raid10.Some?)
    && (m.raid10.Some? ==> NearOnly(m.raid10.value) && 1 <= m.raid10.value.near <= n)
    && (m.level != 1 ==> m.chunk > 0 && n > ParityOf(m.level))
    && EnoughLeft(m.level, m.raid10, Marks(m.images))
  }

  /** One image of a mirror, a copy of each chunk, or all but as many images as there is parity. */
  ghost predicate EnoughLeft(level: int, raid10: Option<Raid10>, ms: Members) {
    if level == 1 then |AbsentSlots(ms)| < |ms|
    else if level == 10 && raid10.Some? then SurvivesRaid10(raid10.value, ms)
    else |AbsentSlots(ms)| <= if level == 6 then 2 else 1
  }

  function ParityOf(level: int): nat {
    if level == 6 then 2 else if level == 5 then 1 else 0
  }

  /** An image's runs, or that its physical volumes were not given. */
  ghost predicate ImageMapped(name: string, subs: Subs, image: Image) {
    match image
    case Image(runs) => subs.runs(name, runs)
    case Missing => subs.lacks(name)
  }

  ghost predicate ImagesMapped(names: seq<string>, subs: Subs, images: seq<Image>) {
    |images| == |names| > 0 && forall i: nat :: i < |names| ==> ImageMapped(names[i], subs, images[i])
  }

  ghost predicate ImagesKnown(names: seq<string>, subs: Subs) {
    names != [] && forall i: nat :: i < |names| ==> subs.Known(names[i])
  }

  /** Which images are there. */
  ghost function MarksOf(names: seq<string>, subs: Subs): (ms: Members)
    ensures |ms| == |names| && forall i :: 0 <= i < |ms| ==> ms[i].Some? == subs.There(names[i])
  {
    seq(|names|, i requires 0 <= i < |names| => if subs.There(names[i]) then Some([]) else None)
  }

  /** The superblock is the one in the first metadata sub-volume that is there. */
  ghost predicate SuperFrom(g: Group, names: seq<string>, subs: Subs, sb: RaidSuper) {
    exists k: nat :: k < |names| && FirstThere(names, subs, k) && g.raidSuper(names[k]) == Some(sb)
  }

  ghost predicate FirstThere(names: seq<string>, subs: Subs, k: nat)
    requires k < |names|
  {
    subs.There(names[k]) && forall j: nat :: j < k ==> subs.lacks(names[j])
  }

  ghost predicate AllLack(names: seq<string>, subs: Subs) {
    forall i :: 0 <= i < |names| ==> subs.lacks(names[i])
  }

  /** md's level: RAID4 is RAID5 with parity last or first. */
  function LevelOf(sb: RaidSuper): int {
    if sb.level == 4 then 5 else sb.level
  }

  function CopiesOf(sb: RaidSuper, n: nat): Option<Raid10> {
    if sb.level == 10 then NearLayout(sb.layout, n) else None
  }

  /** The near copies a RAID10 layout word asks for, if it asks for nothing else. */
  function NearLayout(layout: nat, n: nat): Option<Raid10> {
    if layout / 0x100 == 1 && 1 <= layout % 0x100 <= n then Some(Raid10(layout % 0x100, 1, false, 0)) else None
  }

  /** An array of this superblock over `n` images is one the mapper takes. */
  predicate SuperOk(sb: RaidSuper, n: nat) {
    && sb.level in {1, 4, 5, 6, 10} && (sb.level == 10 ==> NearLayout(sb.layout, n).Some?)
    && (sb.level != 1 ==> sb.chunk > 0 && n > ParityOf(LevelOf(sb)))
  }

  ghost predicate MirrorMapped(seg: Segment, subs: Subs, m: Mapping) {
    && m.Raid? && m == Raid(1, None, 0, 0, 0, m.images)
    && ImagesMapped(seg.images, subs, m.images) && EnoughLeft(1, None, Marks(m.images))
  }

  ghost predicate MirrorLacks(seg: Segment, subs: Subs) {
    ImagesKnown(seg.images, subs) && !EnoughLeft(1, None, MarksOf(seg.images, subs))
  }

  ghost predicate RaidMapped(g: Group, seg: Segment, subs: Subs, m: Mapping) {
    && m.Raid? && |seg.metadata| == |seg.images| && ImagesMapped(seg.images, subs, m.images)
    && exists sb :: SuperFrom(g, seg.metadata, subs, sb) && RaidDescribed(m, sb)
  }

  /** The mapping is the array a superblock describes, with enough images subs. */
  ghost predicate RaidDescribed(m: Mapping, sb: RaidSuper)
    requires m.Raid?
  {
    && SuperOk(sb, |m.images|)
    && m == Raid(LevelOf(sb), CopiesOf(sb, |m.images|), sb.layout, sb.chunk, sb.dataOffset, m.images)
    && EnoughLeft(m.level, m.raid10, Marks(m.images))
  }

  ghost predicate RaidLacks(g: Group, seg: Segment, subs: Subs) {
    && |seg.metadata| == |seg.images| && ImagesKnown(seg.images, subs)
    && (AllLack(seg.metadata, subs)
        || exists sb :: SuperFrom(g, seg.metadata, subs, sb) && TooFew(seg.images, subs, sb))
  }

  ghost predicate TooFew(images: seq<string>, subs: Subs, sb: RaidSuper) {
    SuperOk(sb, |images|) && !EnoughLeft(LevelOf(sb), CopiesOf(sb, |images|), MarksOf(images, subs))
  }

  method CountMissing(ms: Members) returns (missing: nat)
    ensures missing == |AbsentSlots(ms)|
  {
    missing := 0;
    var i: nat := 0;
    assert AbsentSlots(ms[..0]) == {};
    while i < |ms|
      invariant i <= |ms| && missing == |AbsentSlots(ms[..i])|
    {
      AbsentNext(ms, i);
      if ms[i].None? { missing := missing + 1; }
      i := i + 1;
    }
    assert ms[..i] == ms;
  }

  lemma {:induction false} AbsentNext(ms: Members, i: nat)
    requires i < |ms|
    ensures |AbsentSlots(ms[..i + 1])| == |AbsentSlots(ms[..i])| + if ms[i].None? then 1 else 0
  {
    CountIsComplement(ms, i);
    CountIsComplement(ms, i + 1);
  }

  /** Whether a copy of chunk `c` is on an image that is there. */
  method CopyLeft(geo: Raid10, ms: Members, c: nat) returns (left: bool)
    requires |ms| > 0
    ensures left <==> Kept(geo, |ms|, c, PresentSlots(ms))
  {
    var copies := ComputeCopies(geo, |ms|, c);
    CopiesLegal(geo, |ms|, c, geo.near);
    left := exists x :: x in copies && ms[x.slot].Some?;
    assert left <==> exists x :: x in copies && x.slot in PresentSlots(ms);
  }

  /** Whether a segment of this level can be read with the images that are there. */
  method Survives(level: int, raid10: Option<Raid10>, ms: Members) returns (ok: bool)
    requires |ms| > 0
    ensures ok <==> EnoughLeft(level, raid10, ms)
  {
    var missing := CountMissing(ms);
    if level == 1 { return missing < |ms|; }
    if level != 10 || raid10.None? { return missing <= if level == 6 then 2 else 1; }
    var c: nat := 0;
    while c < |ms|
      invariant c <= |ms| && forall k: nat :: k < c ==> Kept(raid10.value, |ms|, k, PresentSlots(ms))
    {
      var left := CopyLeft(raid10.value, ms, c);
      if !left { return false; }
      c := c + 1;
    }
    ok := true;
  }

  /** What survives depends only on which images are there. */
  lemma {:induction false} EnoughByPresence(level: int, raid10: Option<Raid10>, a: Members, b: Members)
    requires |a| == |b| && forall i :: 0 <= i < |a| ==> a[i].Some? == b[i].Some?
    ensures EnoughLeft(level, raid10, a) <==> EnoughLeft(level, raid10, b)
  {
    assert AbsentSlots(a) == AbsentSlots(b);
    assert PresentSlots(a) == PresentSlots(b);
  }

  /** No name both resolves and lacks a physical volume. */
  ghost predicate ToldApart(names: seq<string>, subs: Subs) {
    forall i: nat :: i < |names| ==> subs.NotBoth(names[i])
  }

  lemma {:induction false} MappedKnown(name: string, subs: Subs, image: Image)
    requires ImageMapped(name, subs, image)
    ensures subs.Known(name) && (subs.NotBoth(name) ==> image.Image? == subs.There(name))
  {
  }

  lemma {:induction false} AllKnown(names: seq<string>, subs: Subs, images: seq<Image>)
    requires ImagesMapped(names, subs, images)
    ensures ImagesKnown(names, subs)
  {
    forall i: nat | i < |names| ensures subs.Known(names[i]) {
      MappedKnown(names[i], subs, images[i]);
    }
  }

  /** Which images are missing is settled by their names. */
  lemma {:induction false} EnoughByNames(names: seq<string>, subs: Subs, images: seq<Image>, level: int,
                                         raid10: Option<Raid10>)
    requires ImagesMapped(names, subs, images) && ToldApart(names, subs)
    ensures EnoughLeft(level, raid10, Marks(images)) <==> EnoughLeft(level, raid10, MarksOf(names, subs))
  {
    var there, known := Marks(images), MarksOf(names, subs);
    forall i: nat | i < |names| ensures there[i].Some? == known[i].Some? {
      MappedKnown(names[i], subs, images[i]);
      assert subs.NotBoth(names[i]);
      assert there[i].Some? == images[i].Image? && known[i].Some? == subs.There(names[i]);
    }
    EnoughByPresence(level, raid10, there, known);
  }

  /** None of the first `k` names is there. */
  ghost predicate NoneThere(names: seq<string>, subs: Subs, k: nat)
    requires k <= |names|
  {
    forall j: nat :: j < k ==> subs.lacks(names[j]) && !subs.There(names[j])
  }

  lemma {:induction false} SuperHere(g: Group, names: seq<string>, subs: Subs, k: nat)
    requires k < |names| && NoneThere(names, subs, k) && subs.There(names[k]) && !subs.lacks(names[k])
    ensures forall sb :: SuperFrom(g, names, subs, sb) <==> g.raidSuper(names[k]) == Some(sb)
  {
    assert FirstThere(names, subs, k);
    forall i: nat | i < |names| && i != k ensures !FirstThere(names, subs, i) {
      assert i < k ==> !subs.There(names[i]);
    }
  }

  lemma {:induction false} SuperNowhere(g: Group, names: seq<string>, subs: Subs, k: nat)
    requires k <= |names| && NoneThere(names, subs, k)
    requires k < |names| ==> !subs.Known(names[k])
    ensures forall sb :: !SuperFrom(g, names, subs, sb)
    ensures AllLack(names, subs) <==> k == |names|
  {
    forall i: nat | i < |names| ensures !FirstThere(names, subs, i) {
      if i < k { assert !subs.There(names[i]); }
    }
  }

  /** Whether a sub-volume is there. */
  method MapSub(g: Group, name: string, depth: nat, ghost subs: Subs)
    returns (r: Mapped<seq<Run>>)
    requires g.Known() && depth <= 2 && subs == SubsOf(g, 2 - depth)
    ensures r.Ok? <==> subs.There(name)
    ensures r.Ok? ==> subs.runs(name, r.value)
    ensures r == Err(MissingPv) <==> subs.lacks(name)
    decreases 3 - depth, 0
  {
    var sub := MapVolume(g, name, depth + 1);
    SubThere(g, name, 2 - depth);
    if sub.Err? { return Err(sub.error); }
    assert Resolves(g, name, 2 - depth, Resolved(sub.value.runs, sub.value.size));
    r := Ok(sub.value.runs);
  }

  /** The superblock in the first metadata sub-volume that is there. */
  method FindSuper(g: Group, names: seq<string>, depth: nat, ghost subs: Subs)
    returns (r: Mapped<RaidSuper>)
    requires g.Known() && depth <= 2 && subs == SubsOf(g, 2 - depth)
    ensures forall sb :: SuperFrom(g, names, subs, sb) <==> r == Ok(sb)
    ensures r == Err(MissingPv) <==> AllLack(names, subs)
    decreases 3 - depth, 1
  {
    var i: nat := 0;
    while i < |names|
      invariant i <= |names| && NoneThere(names, subs, i)
    {
      var sub := MapSub(g, names[i], depth, subs);
      if sub.Ok? {
        SuperHere(g, names, subs, i);
        var sb := g.raidSuper(names[i]);
        return if sb.Some? then Ok(sb.value) else Err(Refused);
      }
      if sub.error != MissingPv {
        SuperNowhere(g, names, subs, i);
        return Err(sub.error);
      }
      i := i + 1;
    }
    SuperNowhere(g, names, subs, i);
    r := Err(MissingPv);
  }

  /** The images so far. */
  ghost predicate ImagesSoFar(names: seq<string>, subs: Subs, images: seq<Image>) {
    && |images| <= |names|
    && (forall i: nat :: i < |images| ==>
          ImageMapped(names[i], subs, images[i]) && subs.NotBoth(names[i]))
  }

  method MapImage(g: Group, name: string, depth: nat, ghost subs: Subs)
    returns (r: Mapped<Image>)
    requires g.Known() && depth <= 2 && subs == SubsOf(g, 2 - depth)
    ensures r.Ok? <==> subs.Known(name)
    ensures r.Ok? ==> ImageMapped(name, subs, r.value)
    ensures subs.NotBoth(name) && (r.Err? ==> r.error == Refused)
    decreases 3 - depth, 1
  {
    var sub := MapSub(g, name, depth, subs);
    if sub.Ok? { return Ok(Image(sub.value)); }
    if sub.error != MissingPv { return Err(sub.error); }
    r := Ok(Missing);
  }

  /** Each image's runs; an image on a physical volume that was not given is missing. */
  method MapImages(g: Group, names: seq<string>, depth: nat, ghost subs: Subs)
    returns (r: Mapped<seq<Image>>)
    requires g.Known() && depth <= 2 && subs == SubsOf(g, 2 - depth)
    ensures r.Ok? <==> ImagesKnown(names, subs)
    ensures r.Ok? ==> ImagesMapped(names, subs, r.value) && ToldApart(names, subs)
    ensures r.Err? ==> r.error == Refused
    decreases 3 - depth, 2
  {
    if names == [] { return Err(Refused); }
    var images: seq<Image> := [];
    var i: nat := 0;
    while i < |names|
      invariant i <= |names| && |images| == i && ImagesSoFar(names, subs, images)
    {
      var image := MapImage(g, names[i], depth, subs);
      if image.Err? { return Err(image.error); }
      images := images + [image.value];
      i := i + 1;
    }
    AllKnown(names, subs, images);
    r := Ok(images);
  }

  ghost predicate MirrorMaps(seg: Segment, subs: Subs) {
    exists m :: MirrorMapped(seg, subs, m)
  }

  lemma {:induction false} MirrorUnknown(seg: Segment, subs: Subs)
    requires !ImagesKnown(seg.images, subs)
    ensures !MirrorMaps(seg, subs) && !MirrorLacks(seg, subs)
  {
    forall m | MirrorMapped(seg, subs, m) ensures false {
      AllKnown(seg.images, subs, m.images);
    }
  }

  /** With the images known, a mirror needs one of them. */
  lemma {:induction false} MirrorDecided(seg: Segment, subs: Subs, images: seq<Image>)
    requires ImagesKnown(seg.images, subs) && ToldApart(seg.images, subs)
    requires ImagesMapped(seg.images, subs, images)
    ensures EnoughLeft(1, None, Marks(images)) <==> MirrorMaps(seg, subs)
    ensures EnoughLeft(1, None, Marks(images)) <==> !MirrorLacks(seg, subs)
  {
    EnoughByNames(seg.images, subs, images, 1, None);
    if EnoughLeft(1, None, Marks(images)) {
      assert MirrorMapped(seg, subs, Raid(1, None, 0, 0, 0, images));
    }
    forall m | MirrorMapped(seg, subs, m) ensures EnoughLeft(1, None, Marks(images)) {
      EnoughByNames(seg.images, subs, m.images, 1, None);
    }
  }

  method MapMirror(g: Group, seg: Segment, depth: nat, ghost subs: Subs)
    returns (r: Mapped<Mapping>)
    requires g.Known() && depth <= 2 && subs == SubsOf(g, 2 - depth)
    ensures r.Ok? <==> MirrorMaps(seg, subs)
    ensures r.Ok? ==> MirrorMapped(seg, subs, r.value)
    ensures r == Err(MissingPv) <==> MirrorLacks(seg, subs)
    decreases 3 - depth, 3
  {
    var images := MapImages(g, seg.images, depth, subs);
    if images.Err? {
      MirrorUnknown(seg, subs);
      return Err(images.error);
    }
    MirrorDecided(seg, subs, images.value);
    var ok := Survives(1, None, Marks(images.value));
    if !ok { return Err(MissingPv); }
    r := Ok(Raid(1, None, 0, 0, 0, images.value));
  }

  ghost predicate RaidMaps(g: Group, seg: Segment, subs: Subs) {
    exists m :: RaidMapped(g, seg, subs, m)
  }

  lemma {:induction false} RaidUnknown(g: Group, seg: Segment, subs: Subs)
    requires (|seg.metadata| == |seg.images| ==> !ImagesKnown(seg.images, subs))
    ensures !RaidMaps(g, seg, subs) && !RaidLacks(g, seg, subs)
  {
    forall m | RaidMapped(g, seg, subs, m) ensures false {
      AllKnown(seg.images, subs, m.images);
    }
  }

  /** Without a superblock there is no array. */
  lemma {:induction false} RaidHeadless(g: Group, seg: Segment, subs: Subs)
    requires |seg.metadata| == |seg.images| && ImagesKnown(seg.images, subs)
    requires forall sb :: !SuperFrom(g, seg.metadata, subs, sb)
    ensures !RaidMaps(g, seg, subs)
    ensures RaidLacks(g, seg, subs) <==> AllLack(seg.metadata, subs)
  {
  }

  /** With one, it is mapped exactly when the superblock is in order and enough images are subs. */
  lemma {:induction false} RaidDecided(g: Group, seg: Segment, subs: Subs, sb: RaidSuper)
    requires |seg.metadata| == |seg.images| && ImagesKnown(seg.images, subs)
    requires ToldApart(seg.images, subs) && !AllLack(seg.metadata, subs)
    requires forall x :: SuperFrom(g, seg.metadata, subs, x) <==> x == sb
    ensures RaidMaps(g, seg, subs) ==> SuperOk(sb, |seg.images|) && !TooFew(seg.images, subs, sb)
    ensures RaidLacks(g, seg, subs) <==> TooFew(seg.images, subs, sb)
  {
    forall m | RaidMapped(g, seg, subs, m) ensures SuperOk(sb, |seg.images|) && !TooFew(seg.images, subs, sb) {
      assert RaidDescribed(m, sb);
      EnoughByNames(seg.images, subs, m.images, m.level, m.raid10);
    }
    assert SuperFrom(g, seg.metadata, subs, sb);
  }

  /** With the superblock found, the images decide. */
  method MapOver(g: Group, seg: Segment, sb: RaidSuper, images: seq<Image>, ghost subs: Subs)
    returns (r: Mapped<Mapping>)
    requires |seg.metadata| == |seg.images| && ImagesKnown(seg.images, subs) && ToldApart(seg.images, subs)
    requires ImagesMapped(seg.images, subs, images) && !AllLack(seg.metadata, subs)
    requires forall x :: SuperFrom(g, seg.metadata, subs, x) <==> x == sb
    ensures r.Ok? <==> RaidMaps(g, seg, subs)
    ensures r.Ok? ==> RaidMapped(g, seg, subs, r.value)
    ensures r == Err(MissingPv) <==> RaidLacks(g, seg, subs)
  {
    var n := |images|;
    RaidDecided(g, seg, subs, sb);
    if sb.level !in {1, 4, 5, 6, 10} { return Err(Refused); }
    var level := if sb.level == 4 then 5 else sb.level;
    var parity := if level == 5 then 1 else if level == 6 then 2 else 0;
    var raid10 := if level == 10 then NearLayout(sb.layout, n) else None;
    if level == 10 && raid10.None? { return Err(Refused); }
    if level != 1 && (sb.chunk == 0 || n <= parity) { return Err(Refused); }
    EnoughByNames(seg.images, subs, images, level, raid10);
    var ok := Survives(level, raid10, Marks(images));
    if !ok { return Err(MissingPv); }
    r := Ok(Raid(level, raid10, sb.layout, sb.chunk, sb.dataOffset, images));
    assert RaidDescribed(r.value, sb);
    assert RaidMapped(g, seg, subs, r.value);
  }

  method MapRaid(g: Group, seg: Segment, depth: nat, ghost subs: Subs)
    returns (r: Mapped<Mapping>)
    requires g.Known() && depth <= 2 && subs == SubsOf(g, 2 - depth)
    ensures r.Ok? <==> RaidMaps(g, seg, subs)
    ensures r.Ok? ==> RaidMapped(g, seg, subs, r.value)
    ensures r == Err(MissingPv) <==> RaidLacks(g, seg, subs)
    decreases 3 - depth, 3
  {
    if |seg.metadata| != |seg.images| {
      RaidUnknown(g, seg, subs);
      return Err(Refused);
    }
    var images := MapImages(g, seg.images, depth, subs);
    if images.Err? {
      RaidUnknown(g, seg, subs);
      return Err(images.error);
    }
    var found := FindSuper(g, seg.metadata, depth, subs);
    if found.Err? {
      RaidHeadless(g, seg, subs);
      return Err(found.error);
    }
    r := MapOver(g, seg, found.value, images.value, subs);
  }

  // ----- thin volumes

  /** The pool segment of a thin segment the mapper takes. */
  function PoolOf(g: Group, seg: Segment): (p: Option<Segment>)
    ensures p.Some? ==> |p.value.images| == 1 && |p.value.metadata| == 1 && seg.deviceId.Some?
  {
    if seg.externalOrigin || seg.startExtent != 0 || seg.thinPool.None? || seg.deviceId.None? then None
    else
      var pool := VolumeNamed(g.volumes, seg.thinPool.value);
      if pool.None? || |pool.value.segments| != 1 then None
      else
        var p := pool.value.segments[0];
        if p.kind != ThinPoolKind || |p.images| != 1 || |p.metadata| != 1 then None else Some(p)
  }

  /** The root of a device's map: what the walk of the pool's map of devices finds. */
  predicate RootFound(g: Group, name: string, device: nat, root: ThinRoot) {
    && g.poolMeta(name).Some?
    && var p := g.poolMeta(name).value;
       p.block == root.block && Walk(p.blocks, p.devicesRoot, device, MAX_DEPTH) == Found(root.root)
  }

  ghost predicate ThinMapped(g: Group, seg: Segment, subs: Subs, m: Mapping) {
    && m.Thin? && PoolOf(g, seg).Some?
    && var p := PoolOf(g, seg).value;
       && subs.runs(p.metadata[0], m.meta) && subs.runs(p.images[0], m.data)
       && RootFound(g, p.metadata[0], seg.deviceId.value, ThinRoot(m.block, m.root))
  }

  ghost predicate ThinLacks(g: Group, seg: Segment, subs: Subs) {
    && PoolOf(g, seg).Some?
    && var p := PoolOf(g, seg).value;
       || subs.lacks(p.metadata[0])
       || (subs.There(p.metadata[0]) && subs.lacks(p.images[0]))
  }

  method FindRoot(g: Group, name: string, device: nat) returns (r: Option<ThinRoot>)
    ensures forall root :: RootFound(g, name, device, root) <==> r == Some(root)
  {
    var pool := g.poolMeta(name);
    if pool.None? { return None; }
    var at, _ := Lookup(pool.value.blocks, pool.value.devicesRoot, device, 0, 0);
    r := if at.Found? then Some(ThinRoot(pool.value.block, at.value)) else None;
  }

  ghost predicate ThinMaps(g: Group, seg: Segment, subs: Subs) {
    exists m :: ThinMapped(g, seg, subs, m)
  }

  /** A thin segment needs its pool, both its sub-volumes and its device. */
  lemma {:induction false} ThinNeeds(g: Group, seg: Segment, subs: Subs)
    requires ThinMaps(g, seg, subs)
    ensures PoolOf(g, seg).Some?
    ensures var p := PoolOf(g, seg).value;
      && subs.There(p.metadata[0]) && subs.There(p.images[0])
      && exists root :: RootFound(g, p.metadata[0], seg.deviceId.value, root)
  {
    var m :| ThinMapped(g, seg, subs, m);
    var p := PoolOf(g, seg).value;
    assert subs.runs(p.metadata[0], m.meta) && subs.runs(p.images[0], m.data);
    assert RootFound(g, p.metadata[0], seg.deviceId.value, ThinRoot(m.block, m.root));
  }

  method MapThin(g: Group, seg: Segment, depth: nat, ghost subs: Subs)
    returns (r: Mapped<Mapping>)
    requires g.Known() && depth <= 2 && subs == SubsOf(g, 2 - depth)
    ensures r.Ok? <==> ThinMaps(g, seg, subs)
    ensures r.Ok? ==> ThinMapped(g, seg, subs, r.value)
    ensures r == Err(MissingPv) <==> ThinLacks(g, seg, subs)
    decreases 3 - depth, 3
  {
    if ThinMaps(g, seg, subs) { ThinNeeds(g, seg, subs); }
    var pool := PoolOf(g, seg);
    if pool.None? { return Err(Refused); }
    var meta := MapSub(g, pool.value.metadata[0], depth, subs);
    if meta.Err? { return Err(meta.error); }
    var data := MapSub(g, pool.value.images[0], depth, subs);
    if data.Err? { return Err(data.error); }
    var root := FindRoot(g, pool.value.metadata[0], seg.deviceId.value);
    if root.None? { return Err(Refused); }
    r := Ok(Thin(root.value.block, meta.value, data.value, root.value.root));
    assert RootFound(g, pool.value.metadata[0], seg.deviceId.value, root.value);
    assert ThinMapped(g, seg, subs, r.value);
  }

  // ----- volumes

  lemma {:induction false} CanMapByKind(g: Group, seg: Segment, subs: Subs)
    ensures seg.kind == StripedKind ==> (CanMap(g, seg, subs) <==> StripedMaps(g, seg))
    ensures seg.kind == MirrorKind ==> (CanMap(g, seg, subs) <==> MirrorMaps(seg, subs))
    ensures seg.kind == RaidKind ==> (CanMap(g, seg, subs) <==> RaidMaps(g, seg, subs))
    ensures seg.kind == ThinKind ==> (CanMap(g, seg, subs) <==> ThinMaps(g, seg, subs))
  {
    if seg.kind == StripedKind { CanMapStriped(g, seg, subs); }
    if seg.kind == MirrorKind { CanMapMirror(g, seg, subs); }
    if seg.kind == RaidKind { CanMapRaid(g, seg, subs); }
    if seg.kind == ThinKind { CanMapThin(g, seg, subs); }
  }

  lemma {:induction false} CanMapStriped(g: Group, seg: Segment, subs: Subs)
    requires seg.kind == StripedKind
    ensures CanMap(g, seg, subs) <==> StripedMaps(g, seg)
  {
    forall m ensures SegmentMapped(g, seg, subs, m) <==> StripedMapped(g, seg, m) {
    }
  }

  lemma {:induction false} CanMapMirror(g: Group, seg: Segment, subs: Subs)
    requires seg.kind == MirrorKind
    ensures CanMap(g, seg, subs) <==> MirrorMaps(seg, subs)
  {
    forall m ensures SegmentMapped(g, seg, subs, m) <==> MirrorMapped(seg, subs, m) {
    }
  }

  lemma {:induction false} CanMapRaid(g: Group, seg: Segment, subs: Subs)
    requires seg.kind == RaidKind
    ensures CanMap(g, seg, subs) <==> RaidMaps(g, seg, subs)
  {
    forall m ensures SegmentMapped(g, seg, subs, m) <==> RaidMapped(g, seg, subs, m) {
    }
  }

  lemma {:induction false} CanMapThin(g: Group, seg: Segment, subs: Subs)
    requires seg.kind == ThinKind
    ensures CanMap(g, seg, subs) <==> ThinMaps(g, seg, subs)
  {
    forall m ensures SegmentMapped(g, seg, subs, m) <==> ThinMapped(g, seg, subs, m) {
    }
  }

  method MapSegment(g: Group, seg: Segment, depth: nat) returns (r: Mapped<Mapping>)
    requires g.Known() && depth <= 2
    ensures r.Ok? <==> CanMap(g, seg, SubsOf(g, 2 - depth))
    ensures r.Ok? ==> SegmentMapped(g, seg, SubsOf(g, 2 - depth), r.value)
    ensures r == Err(MissingPv) <==> SegmentLacks(g, seg, SubsOf(g, 2 - depth))
    decreases 3 - depth, 4
  {
    ghost var subs := SubsOf(g, 2 - depth);
    CanMapByKind(g, seg, subs);
    match seg.kind
    case StripedKind => r := MapStriped(g, seg);
    case ThinKind => r := MapThin(g, seg, depth, subs);
    case MirrorKind => r := MapMirror(g, seg, depth, subs);
    case RaidKind => r := MapRaid(g, seg, depth, subs);
    case ThinPoolKind => r := Err(Refused);
    case OtherKind => r := Err(Refused);
  }

  /** Resolve a volume. The nesting bound ends every chain of references, cyclic ones included. */
  method MapVolume(g: Group, name: string, depth: nat) returns (r: Mapped<Resolved>)
    requires g.Known() && depth <= 3
    ensures r.Ok? <==> Available(g, name, 3 - depth)
    ensures r.Ok? ==> Resolves(g, name, 3 - depth, r.value)
    ensures r == Err(MissingPv) <==> Lacks(g, name, 3 - depth)
    decreases 3 - depth, 8
  {
    if depth > 2 { return Err(Refused); }
    var v := VolumeNamed(g.volumes, name);
    if v.None? { return Err(Refused); }
    r := MapSegments(g, v.value.segments, depth, JudgeOf(g, SubsOf(g, 2 - depth)));
    assert r.Ok? ==> Resolves(g, name, 3 - depth, r.value);
  }

  lemma {:induction false} JudgeMeans(g: Group, subs: Subs, seg: Segment)
    ensures JudgeOf(g, subs).Maps(seg) <==> CanMap(g, seg, subs)
    ensures JudgeOf(g, subs).lacks(seg) <==> SegmentLacks(g, seg, subs)
  {
    forall m ensures JudgeOf(g, subs).maps(seg, m) <==> SegmentMapped(g, seg, subs, m) {
    }
  }

  method MapJudged(g: Group, seg: Segment, depth: nat, ghost j: Judge) returns (r: Mapped<Mapping>)
    requires g.Known() && depth <= 2 && j == JudgeOf(g, SubsOf(g, 2 - depth))
    ensures r.Ok? <==> j.Maps(seg)
    ensures r.Ok? ==> j.maps(seg, r.value)
    ensures r == Err(MissingPv) <==> j.lacks(seg)
    decreases 3 - depth, 5
  {
    JudgeMeans(g, SubsOf(g, 2 - depth), seg);
    r := MapSegment(g, seg, depth);
  }

  method MapNext(g: Group, seg: Segment, next: nat, depth: nat, ghost j: Judge) returns (r: Mapped<Run>)
    requires g.Known() && depth <= 2 && j == JudgeOf(g, SubsOf(g, 2 - depth))
    ensures r.Ok? <==> StartsAt(g.extentSize, seg, next) && j.Maps(seg)
    ensures r.Ok? ==> RunFor(g.extentSize, seg, next, j, r.value)
    ensures r == Err(MissingPv) <==> StartsAt(g.extentSize, seg, next) && j.lacks(seg)
    decreases 3 - depth, 6
  {
    if seg.startExtent != next { return Err(Refused); }
    MulMonotone(0, seg.extentCount, g.extentSize);
    var len := seg.extentCount * g.extentSize;
    if len >= U64 { return Err(Refused); }
    var m := MapJudged(g, seg, depth, j);
    if m.Err? { return Err(m.error); }
    r := Ok(Run(WrappedBytes(next, g.extentSize), len, m.value));
  }

  method MapSegments(g: Group, segs: seq<Segment>, depth: nat, ghost j: Judge) returns (r: Mapped<Resolved>)
    requires g.Known() && depth <= 2 && j == JudgeOf(g, SubsOf(g, 2 - depth))
    ensures r.Ok? <==> Resolvable(g.extentSize, segs, j)
    ensures r.Ok? ==> ResolvedFrom(g.extentSize, segs, j, r.value)
    ensures r == Err(MissingPv) <==> SegmentsLack(g.extentSize, segs, j)
    decreases 3 - depth, 7
  {
    var runs: seq<Run>, next: nat, k: nat := [], 0, 0;
    while k < |segs|
      invariant Resolving(g.extentSize, segs, k, runs, next, j)
    {
      var run := MapNext(g, segs[k], next, depth, j);
      if run.Err? {
        FailsAt(g.extentSize, segs, k, runs, next, j);
        return Err(run.error);
      }
      ResolvingNext(g.extentSize, segs, k, runs, next, j, run.value);
      runs, next, k := runs + [run.value], (next + segs[k].extentCount) % U64, k + 1;
    }
    ResolvingDone(g.extentSize, segs, runs, next, j);
    r := Ok(Resolved(runs, WrappedBytes(next, g.extentSize)));
  }
}
