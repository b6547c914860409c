/** Reading a logical volume run by run. */
module LvmReading {
  import opened ChunkRead
  import opened GaloisField
  import opened LvmVolumes
  import opened Raid10Placement
  import opened Raid6Recovery
  import opened ThinLookup
  import opened Wrappers

  /** A metadata block read as a btree node, if its checksum is right. */
  type NodeDecoder = seq<byte> -> Option<Node>

  type Devices = seq<seq<byte>>

  const MIRROR: int := 1

  // ----- the bytes a volume holds

  /** Byte `w` of a striped run is this byte. */
  ghost predicate StripeHolds(devs: Devices, stripeSize: nat, stripes: seq<Stripe>, w: nat, b: byte)
    requires |stripes| > 0 && (|stripes| > 1 ==> stripeSize > 0)
  {
    var at := PlaceInStripes(|stripes|, stripeSize, w);
    && 0 <= at.stripe < |stripes| && stripes[at.stripe].dev < |devs|
    && var (d, o) := (stripes[at.stripe].dev, stripes[at.stripe].off + at.x);
       0 <= o < |devs[d]| && devs[d][o] == b
  }

  /** The metadata of a pool, block by block. */
  function MetadataOf(meta: seq<byte>, decode: NodeDecoder): Metadata {
    map b: nat | b < |meta| / BLOCK && NodeAt(meta, b, decode).Some? && NodeAt(meta, b, decode).value.Whole()
      :: NodeAt(meta, b, decode).value
  }

  function NodeAt(meta: seq<byte>, b: nat, decode: NodeDecoder): Option<Node>
    requires b < |meta| / BLOCK
  {
    decode(meta[b * BLOCK..(b + 1) * BLOCK])
  }

  /** Byte `inner` of block `key` of a thin volume is this byte: the pool's, or zero in a hole. */
  ghost predicate BlockHolds(m: Metadata, root: nat, depth: nat, key: nat, block: nat, data: seq<byte>, inner: int,
                             b: byte) {
    && (forall v: nat :: HasEntry(m, root, depth, key, v) ==> PoolByte(v / TIME_SPAN * block, data, inner, b))
    && (NoEntry(m, root, depth, key) ==> b == 0)
  }

  predicate PoolByte(base: int, data: seq<byte>, inner: int, b: byte) {
    0 <= base + inner < |data| && data[base + inner] == b
  }

  /** Byte `w` of a thin run is this byte. */
  ghost predicate ThinByteHolds(m: Metadata, root: nat, depth: nat, block: nat, data: seq<byte>, w: nat, b: byte)
    requires block > 0
  {
    w / block >= 0 && BlockHolds(m, root, depth, w / block, block, data, w % block, b)
  }

  ghost predicate ThinHolds(block: nat, root: nat, m: Metadata, data: seq<byte>, slice: seq<byte>) {
    && block > 0
    && exists depth: nat, hi: nat :: depth <= MAX_DEPTH && WellFormed(m, root, depth, 0, hi)
         && forall w: nat :: w < |slice| ==> ThinByteHolds(m, root, depth, block, data, w, slice[w])
  }

  function StripingOf(m: Mapping): Striping
    requires m.Raid?
  {
    Striping(m.level, m.layout, m.chunk, m.raid10)
  }

  /** The striping of near copies over images of `rows` chunks each. A segment does not record
      how many chunks its images have, and near copies do not depend on it. */
  ghost function StripingOver(m: Mapping, rows: nat): Striping
    requires m.Raid? && m.raid10.Some?
  {
    StripingOf(m).(raid10 := Some(m.raid10.value.(stride := rows)))
  }

  predicate NearOnly(g: Raid10) {
    g.far == 1 && !g.offset
  }

  /** The images' data hold these bytes in near copies; `full` is the rest of their array too. */
  ghost predicate CopiesHold(m: Mapping, truth: Truth, slice: seq<byte>, full: seq<byte>, rows: nat, chunks: nat)
    requires m.Raid?
  {
    && m.raid10.Some? && NearOnly(m.raid10.value)
    && slice <= full && HoldsRaid10(StripingOver(m, rows), truth, full, rows, chunks) && |slice| <= chunks * m.chunk
  }

  /** The images' data hold these bytes with parity. */
  ghost predicate ParityHolds(m: Mapping, truth: Truth, slice: seq<byte>, full: seq<byte>, rows: nat)
    requires m.Raid?
  {
    && slice <= full && HoldsParity(StripingOf(m), truth, full, rows)
    && |slice| <= rows * DataCount(StripingOf(m), |truth|) * m.chunk
  }

  /** The images' data hold these bytes, mirrored, in copies or with parity. */
  ghost predicate ImagesHold(m: Mapping, truth: Truth, slice: seq<byte>)
    requires m.Raid?
  {
    if m.level == MIRROR then forall i :: 0 <= i < |truth| ==> slice <= truth[i]
    else if m.raid10.Some? then
      exists full: seq<byte>, rows: nat, chunks: nat :: CopiesHold(m, truth, slice, full, rows, chunks)
    else exists full: seq<byte>, rows: nat :: ParityHolds(m, truth, slice, full, rows)
  }

  /** What is left of the images is enough to read any byte. */
  ghost predicate Enough(m: Mapping, present: Members)
    requires m.Raid?
  {
    if m.level == MIRROR then exists i :: 0 <= i < |present| && present[i].Some?
    else if m.raid10.Some? then SurvivesRaid10(m.raid10.value, present)
    else SurvivesParity(StripingOf(m), present)
  }

  /** The bytes of a run. */
  ghost predicate RunHolds(devs: Devices, r: Run, slice: seq<byte>, decode: NodeDecoder)
    decreases r, 0
  {
    match r.mapping
    case Striped(stripeSize, stripes) =>
      && |stripes| > 0 && (|stripes| > 1 && slice != [] ==> stripeSize > 0)
      && forall w: nat :: w < |slice| ==> StripeHolds(devs, stripeSize, stripes, w, slice[w])
    case Raid(_, _, _, _, _, images) =>
      Enough(r.mapping, Marks(images)) && Consistent(devs, r.mapping, slice, decode)
    case Thin(block, meta, data, root) =>
      exists metaBytes: seq<byte>, dataBytes: seq<byte> ::
        && VolumeHolds(devs, meta, metaBytes, decode) && VolumeHolds(devs, data, dataBytes, decode)
        && ThinHolds(block, root, MetadataOf(metaBytes, decode), dataBytes, slice)
  }

  /** The images of a RAID segment hold these bytes, as far as they are there. */
  ghost predicate Consistent(devs: Devices, m: Mapping, slice: seq<byte>, decode: NodeDecoder)
    requires m.Raid?
    decreases m, 0
  {
    exists truth: Truth ::
      && |truth| == |m.images| && ImagesHold(m, truth, slice)
      && forall i :: 0 <= i < |m.images| && m.images[i].Image? ==>
           ImageHolds(devs, m.images[i].runs, m.dataOffset, truth[i], decode)
  }

  /** Which images are there. */
  function Marks(images: seq<Image>): (r: Members)
    ensures |r| == |images| && forall i :: 0 <= i < |r| ==> r[i].Some? == images[i].Image?
  {
    seq(|images|, i requires 0 <= i < |images| => if images[i].Image? then Some([]) else None)
  }

  /** An image's data region is these bytes. */
  ghost predicate ImageHolds(devs: Devices, runs: seq<Run>, dataOffset: nat, data: seq<byte>, decode: NodeDecoder)
    decreases runs, 1
  {
    exists bytes: seq<byte> ::
      VolumeHolds(devs, runs, bytes, decode) && dataOffset <= |bytes| && data == bytes[dataOffset..]
  }

  /** A volume holds these bytes. */
  ghost predicate VolumeHolds(devs: Devices, runs: seq<Run>, bytes: seq<byte>, decode: NodeDecoder)
    decreases runs, 0
  {
    && Tiles(runs, 0, |bytes|)
    && forall i :: 0 <= i < |runs| ==>
      runs[i].start + runs[i].len <= |bytes| && RunHolds(devs, runs[i],
          bytes[runs[i].start..runs[i].start + runs[i].len], decode)
  }
}
