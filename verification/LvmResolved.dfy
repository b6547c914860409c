/** What a resolved logical volume is: its runs, the bytes they hold, and what cannot be read. */
module LvmResolved {
  import opened Arithmetic
  import opened ChunkRead
  import opened GaloisField
  import opened LvmMapper
  import opened LvmPieces
  import opened LvmReader
  import opened LvmReading
  import opened LvmSegments
  import opened LvmVolumes
  import opened ParityLayout
  import opened Raid10Placement
  import opened Raid6Recovery
  import opened Raid6Survival
  import opened Sizes
  import opened ThinLookup
  import opened Wrappers

  /** Stripes that share the run's bytes equally, each inside its device. */
  ghost predicate StripedWell(g: Group, m: Mapping, len: nat)
    requires m.Striped?
  {
    var n := |m.stripes|;
    && n > 0 && len % n == 0
    && (n > 1 && len > 0 ==> m.stripeSize > 0 && (len / n) % m.stripeSize == 0)
    && forall i :: 0 <= i < n ==>
         m.stripes[i].dev < |g.devices| && m.stripes[i].off + len / n <= |g.devices[m.stripes[i].dev]|
  }

  lemma {:induction false} EqualShares(per: nat, n: nat, ext: nat, count: nat)
    requires n > 0 && count == per * n
    ensures (count * ext) % n == 0 && count * ext / n == per * ext
  {
    assert count * ext == per * ext * n;
    DivModUnique(count * ext, n, per * ext, 0);
  }

  lemma {:induction false} MappedWell(g: Group, seg: Segment, m: Mapping)
    requires StripedMapped(g, seg, m)
    ensures StripedWell(g, m, seg.extentCount * g.extentSize)
  {
    var n, per := |m.stripes|, seg.extentCount / |m.stripes|;
    DivModRecompose(seg.extentCount, n);
    DivNonNegative(seg.extentCount, n);
    EqualShares(per, n, g.extentSize, seg.extentCount);
    SharesWell(g, seg, m, per, per * g.extentSize, seg.extentCount * g.extentSize);
  }

  lemma {:induction false} SharesWell(g: Group, seg: Segment, m: Mapping, per: nat, share: int, len: int)
    requires StripedMapped(g, seg, m) && per == seg.extentCount / |m.stripes| && share == per * g.extentSize
    requires len >= 0 && len % |m.stripes| == 0 && len / |m.stripes| == share
    ensures StripedWell(g, m, len)
  {
    var n := |m.stripes|;
    forall i: nat | i < n
      ensures m.stripes[i].dev < |g.devices| && m.stripes[i].off + share <= |g.devices[m.stripes[i].dev]|
    {
      assert StripeFrom(g, seg.stripes[i], per, m.stripes[i]);
    }
    DivModRecompose(len, n);
  }

  /** Every byte of a striped run is on one stripe's extents, inside its device. */
  lemma {:induction false} StripedByteInside(g: Group, r: Run, w: nat)
    requires r.mapping.Striped? && StripedWell(g, r.mapping, r.len) && w < r.len
    ensures var n := |r.mapping.stripes|;
      && (n > 1 ==> r.mapping.stripeSize > 0)
      && var b := PlaceInStripes(n, r.mapping.stripeSize, w);
         && 0 <= b.stripe < n && 0 <= b.x < r.len / n
         && r.mapping.stripes[b.stripe].off + b.x < |g.devices[r.mapping.stripes[b.stripe].dev]|
         && PosOfStripe(n, r.mapping.stripeSize, b) == w
  {
    var n, share := |r.mapping.stripes|, r.len / |r.mapping.stripes|;
    DivModRecompose(r.len, n);
    DivNonNegative(r.len, n);
    StripeOfPos(n, r.mapping.stripeSize, share, w);
  }

  /** An accepted parity or RAID10 segment places its chunks as md does, exactly when a RAID6
      layout is one md knows. */
  lemma {:induction false} AcceptedLegal(m: Mapping)
    requires m.Raid? && RaidAccepted(m) && m.level != 1
    ensures Legal(StripingOf(m), |m.images|) <==> (m.level == 6 ==> Raid6LayoutKnown(m.layout))
  {
  }

  /** And what is left of it is enough to read every chunk, exactly when a RAID6 segment has no
      more images than distinct weights. */
  lemma {:induction false} AcceptedEnough(m: Mapping)
    requires m.Raid? && RaidAccepted(m)
    ensures Enough(m, Marks(m.images)) <==> (m.level == 6 ==> |m.images| <= MemberLimit(m.layout))
  {
    if m.level == 1 {
      SomePresent(Marks(m.images));
    }
  }

  lemma {:induction false} SomePresent(ms: Members)
    requires |AbsentSlots(ms)| < |ms|
    ensures exists i :: 0 <= i < |ms| && ms[i].Some?
  {
    CountIsComplement(ms, |ms|);
    assert ms[..|ms|] == ms;
    if forall i :: 0 <= i < |ms| ==> ms[i].None? {
      NoneCounted(ms, |ms|);
    }
  }

  lemma {:induction false} NoneCounted(ms: Members, k: nat)
    requires k <= |ms| && forall i :: 0 <= i < |ms| ==> ms[i].None?
    ensures CountPresent(ms, k) == 0
  {
    if k > 0 { NoneCounted(ms, k - 1); }
  }

  /** Images of `rows` chunks each, as many of them there as an accepted segment has. */
  ghost predicate Deployed(m: Mapping, ms: Members, rows: nat) {
    && m.Raid? && RaidAccepted(m) && AllReach(ms, rows * m.chunk)
    && |ms| == |m.images| && forall i :: 0 <= i < |ms| ==> ms[i].Some? == m.images[i].Image?
  }

  /** The chunks that so many rows hold. */
  ghost function ChunksIn(m: Mapping, n: nat, rows: nat): int
    requires m.Raid? && Legal(StripingOf(m), n)
  {
    if m.raid10.Some? then ArrayChunks(m.raid10.value.(stride := rows), n) else rows * DataCount(StripingOf(m), n)
  }

  ghost predicate AllReadable(m: Mapping, ms: Members, rows: nat) {
    && m.Raid? && Legal(StripingOf(m), |ms|)
    && forall k: nat, inner: nat, len: nat ::
         k < ChunksIn(m, |ms|, rows) && inner < m.chunk && inner + len <= m.chunk ==>
           ChunkReadable(StripingOf(m), ms, k, inner, len)
  }

  /** Every chunk of an accepted parity or RAID10 segment can be read, if a RAID6 layout is known
      and there are no more images than distinct weights. */
  lemma {:induction false} AcceptedReadable(m: Mapping, ms: Members, rows: nat)
    requires Deployed(m, ms, rows) && m.level != 1
    requires m.level == 6 ==> Raid6LayoutKnown(m.layout) && |m.images| <= MemberLimit(m.layout)
    ensures AllReadable(m, ms, rows)
  {
    AcceptedLegal(m);
    AcceptedEnough(m);
    EnoughByMarks(m, Marks(m.images), ms);
    forall k: nat, inner: nat, len: nat | k < ChunksIn(m, |ms|, rows) && inner < m.chunk && inner + len <= m.chunk
      ensures ChunkReadable(StripingOf(m), ms, k, inner, len)
    {
      if m.raid10.Some? {
        NearReadable(m, ms, rows, k, inner, len);
      } else {
        ParitySurvives(StripingOf(m), ms, rows, k, inner, len);
      }
    }
  }

  lemma {:induction false} NearReadable(m: Mapping, ms: Members, rows: nat, k: nat, inner: nat, len: nat)
    requires Deployed(m, ms, rows) && m.raid10.Some? && SurvivesRaid10(m.raid10.value, ms)
    requires Legal(StripingOf(m), |ms|) && k < ChunksIn(m, |ms|, rows) && inner + len <= m.chunk
    ensures ChunkReadable(StripingOf(m), ms, k, inner, len)
  {
    SurvivesSame(m.raid10.value, ms, rows);
    Raid10Survives(StripingOver(m, rows), ms, rows, k, inner, len);
    NearCopiesSame(m.raid10.value, |ms|, k, m.raid10.value.near, rows);
  }

  /** A RAID6 segment of a known layout with images where the members are. */
  function Raid6Over(layout: nat, chunk: nat, ms: Members): (m: Mapping)
    ensures m.Raid? && |m.images| == |ms| && forall i :: 0 <= i < |ms| ==> m.images[i].Image? == ms[i].Some?
  {
    Raid(6, None, layout, chunk, 0, seq(|ms|, i requires 0 <= i < |ms| => if ms[i].Some? then Image([]) else Missing))
  }

  /** Past that many images, there is a segment the mapper takes and a chunk of it that cannot be read. */
  lemma {:induction false} AcceptedUnreadable(layout: nat, n: nat, chunk: nat)
    returns (m: Mapping, ms: Members, rows: nat)
    requires Raid6LayoutKnown(layout) && n > MemberLimit(layout) && chunk > 0
    ensures Deployed(m, ms, rows) && m.level == 6 && m.layout == layout && m.chunk == chunk && |m.images| == n
    ensures !AllReadable(m, ms, rows)
  {
    var stripe, x;
    stripe, x, ms := TwoMissingNotAlways(layout, n, chunk);
    m, rows := Raid6Over(layout, chunk, ms), stripe + 1;
    Raid6Deployed(layout, chunk, ms, rows);
    var k := ChunkInRow(stripe, n - 2, x);
    UnreadableChunk(layout, ms, chunk, stripe, x, k);
    Unreadable(m, ms, rows, k);
  }

  lemma {:induction false} Raid6Deployed(layout: nat, chunk: nat, ms: Members, rows: nat)
    requires Raid6LayoutKnown(layout) && chunk > 0 && |ms| > 2 && |AbsentSlots(ms)| <= 2 && AllReach(ms, rows * chunk)
    ensures Deployed(Raid6Over(layout, chunk, ms), ms, rows)
  {
    assert AbsentSlots(Marks(Raid6Over(layout, chunk, ms).images)) == AbsentSlots(ms);
  }

  lemma {:induction false} ChunkInRow(stripe: nat, data: nat, x: nat) returns (k: nat)
    requires x < data
    ensures k < (stripe + 1) * data && k / data == stripe && k % data == x
  {
    MulMonotone(0, stripe, data);
    k := stripe * data + x;
    DivModUnique(k, data, stripe, x);
    assert (stripe + 1) * data == stripe * data + data;
  }

  lemma {:induction false} Unreadable(m: Mapping, ms: Members, rows: nat, k: nat)
    requires Deployed(m, ms, rows) && m.level == 6 && Raid6LayoutKnown(m.layout)
    requires k < rows * (|ms| - 2) && !ChunkReadable(StripingOf(m), ms, k, 0, 1)
    ensures !AllReadable(m, ms, rows)
  {
    AcceptedLegal(m);
    assert ChunksIn(m, |ms|, rows) == rows * (|ms| - 2);
  }

  /** So every chunk of every accepted RAID6 segment can be read exactly up to the limit. */
  lemma {:induction false} AcceptedReadsExactly(layout: nat, n: nat, chunk: nat)
    requires Raid6LayoutKnown(layout) && chunk > 0
    ensures n <= MemberLimit(layout) <==>
      forall m: Mapping, ms: Members, rows: nat ::
        Deployed(m, ms, rows) && m.level == 6 && m.layout == layout && m.chunk == chunk && |m.images| == n
        ==> AllReadable(m, ms, rows)
  {
    if n <= MemberLimit(layout) {
      forall m: Mapping, ms: Members, rows: nat |
        Deployed(m, ms, rows) && m.level == 6 && m.layout == layout && m.chunk == chunk && |m.images| == n
        ensures AllReadable(m, ms, rows)
      {
        AcceptedReadable(m, ms, rows);
      }
    } else {
      var m, ms, rows := AcceptedUnreadable(layout, n, chunk);
    }
  }

  // ----- the bytes of a resolved volume

  /** There are bytes for a run to hold, whatever is left of it. Stripes always have them; images
      must be consistent, and a pool's map well formed and inside its data. */
  ghost predicate Served(devs: Devices, r: Run, decode: NodeDecoder) {
    match r.mapping
    case Striped(_, _) => true
    case Raid(level, _, layout, _, _, images) =>
      && (level == 6 ==> |images| <= MemberLimit(layout))
      && exists slice: seq<byte> :: |slice| == r.len && Consistent(devs, r.mapping, slice, decode)
    case Thin(block, meta, data, root) =>
      exists metaBytes: seq<byte>, dataBytes: seq<byte> ::
        && VolumeHolds(devs, meta, metaBytes, decode) && VolumeHolds(devs, data, dataBytes, decode)
        && PoolReady(block, root, MetadataOf(metaBytes, decode), dataBytes, r.len)
  }

  /** A device's map is well formed, and the blocks it names are in the pool. */
  ghost predicate PoolReady(block: nat, root: nat, m: Metadata, data: seq<byte>, len: nat) {
    && block > 0
    && exists depth: nat, hi: nat :: depth <= MAX_DEPTH && WellFormed(m, root, depth, 0, hi)
         && BlocksInside(m, root, depth, block, |data|, len)
  }

  ghost predicate BlocksInside(m: Metadata, root: nat, depth: nat, block: nat, size: nat, len: nat)
    requires block > 0
  {
    forall w: nat :: w < len ==> ByteInside(m, root, depth, block, size, w)
  }

  ghost predicate ByteInside(m: Metadata, root: nat, depth: nat, block: nat, size: nat, w: nat)
    requires block > 0
  {
    && w / block >= 0
    && forall v: nat :: HasEntry(m, root, depth, w / block, v) ==> 0 <= v / TIME_SPAN * block + w % block < size
  }

  /** The byte of a thin run: the pool's, or zero in a hole. */
  lemma {:induction false} ThinByteExists(m: Metadata, root: nat, depth: nat, hi: nat, block: nat, data: seq<byte>,
                                          w: nat)
    returns (b: byte)
    requires block > 0 && WellFormed(m, root, depth, 0, hi) && ByteInside(m, root, depth, block, |data|, w)
    ensures ThinByteHolds(m, root, depth, block, data, w, b)
  {
    var key: nat := w / block;
    if NoEntry(m, root, depth, key) {
      b := 0;
    } else {
      var v: nat :| HasEntry(m, root, depth, key, v);
      b := data[v / TIME_SPAN * block + w % block];
      forall u: nat | HasEntry(m, root, depth, key, u)
        ensures PoolByte(u / TIME_SPAN * block, data, w % block, b)
      {
        EntryUnique(m, root, depth, 0, hi, key, u, v);
      }
    }
  }

  lemma {:induction false} ThinBytes(m: Metadata, root: nat, depth: nat, hi: nat, block: nat, data: seq<byte>, len: nat)
    returns (slice: seq<byte>)
    requires block > 0 && WellFormed(m, root, depth, 0, hi) && BlocksInside(m, root, depth, block, |data|, len)
    ensures |slice| == len && forall w: nat :: w < len ==> ThinByteHolds(m, root, depth, block, data, w, slice[w])
  {
    slice := [];
    while |slice| < len
      invariant |slice| <= len
      invariant forall w: nat :: w < |slice| ==> ThinByteHolds(m, root, depth, block, data, w, slice[w])
      decreases len - |slice|
    {
      assert ByteInside(m, root, depth, block, |data|, |slice|);
      var b := ThinByteExists(m, root, depth, hi, block, data, |slice|);
      slice := slice + [b];
    }
  }

  /** A pool has bytes for a thin run exactly when its map is in order. */
  lemma {:induction false} PoolServes(block: nat, root: nat, m: Metadata, data: seq<byte>, len: nat)
    ensures PoolReady(block, root, m, data, len) <==>
      exists slice: seq<byte> :: |slice| == len && ThinHolds(block, root, m, data, slice)
  {
    if PoolReady(block, root, m, data, len) {
      var depth: nat, hi: nat :| depth <= MAX_DEPTH && WellFormed(m, root, depth, 0, hi)
        && BlocksInside(m, root, depth, block, |data|, len);
      var slice := ThinBytes(m, root, depth, hi, block, data, len);
      assert ThinHolds(block, root, m, data, slice);
    }
    if exists slice: seq<byte> :: |slice| == len && ThinHolds(block, root, m, data, slice) {
      var slice: seq<byte> :| |slice| == len && ThinHolds(block, root, m, data, slice);
      PoolNeeds(block, root, m, data, slice);
    }
  }

  lemma {:induction false} PoolNeeds(block: nat, root: nat, m: Metadata, data: seq<byte>, slice: seq<byte>)
    requires ThinHolds(block, root, m, data, slice)
    ensures PoolReady(block, root, m, data, |slice|)
  {
    var depth: nat, hi: nat :| depth <= MAX_DEPTH && WellFormed(m, root, depth, 0, hi)
      && forall w: nat :: w < |slice| ==> ThinByteHolds(m, root, depth, block, data, w, slice[w]);
    forall w: nat | w < |slice| ensures ByteInside(m, root, depth, block, |data|, w) {
      assert ThinByteHolds(m, root, depth, block, data, w, slice[w]);
      forall v: nat | HasEntry(m, root, depth, w / block, v)
        ensures 0 <= v / TIME_SPAN * block + w % block < |data|
      {
        assert PoolByte(v / TIME_SPAN * block, data, w % block, slice[w]);
      }
    }
    assert BlocksInside(m, root, depth, block, |data|, |slice|);
  }

  lemma {:induction false} StripedBytes(g: Group, r: Run, decode: NodeDecoder) returns (slice: seq<byte>)
    requires r.mapping.Striped? && StripedWell(g, r.mapping, r.len)
    ensures |slice| == r.len && RunHolds(g.devices, r, slice, decode)
  {
    slice := [];
    while |slice| < r.len
      invariant |slice| <= r.len && (|r.mapping.stripes| > 1 && slice != [] ==> r.mapping.stripeSize > 0)
      invariant forall w: nat :: w < |slice| ==>
        StripeHolds(g.devices, r.mapping.stripeSize, r.mapping.stripes, w, slice[w])
      decreases r.len - |slice|
    {
      StripedByteInside(g, r, |slice|);
      var at := PlaceInStripes(|r.mapping.stripes|, r.mapping.stripeSize, |slice|);
      var st := r.mapping.stripes[at.stripe];
      slice := slice + [g.devices[st.dev][st.off + at.x]];
    }
  }

  ghost predicate HasBytes(devs: Devices, r: Run, decode: NodeDecoder) {
    exists slice: seq<byte> :: |slice| == r.len && RunHolds(devs, r, slice, decode)
  }

  /** A mapped segment's run has bytes to hold exactly when it is served. */
  lemma {:induction false} RunBytes(g: Group, seg: Segment, subs: Subs, r: Run, decode: NodeDecoder)
    requires SegmentMapped(g, seg, subs, r.mapping) && r.len == seg.extentCount * g.extentSize
    ensures Served(g.devices, r, decode) <==> HasBytes(g.devices, r, decode)
  {
    match r.mapping
    case Striped(_, _) =>
      MappedWell(g, seg, r.mapping);
      var slice := StripedBytes(g, r, decode);
    case Raid(_, _, _, _, _, _) =>
      MappedAccepted(g, seg, subs, r.mapping);
      AcceptedEnough(r.mapping);
    case Thin(block, meta, data, root) =>
      if Served(g.devices, r, decode) { ThinHasBytes(g.devices, r, decode); }
      if HasBytes(g.devices, r, decode) {
        var slice: seq<byte> :| |slice| == r.len && RunHolds(g.devices, r, slice, decode);
        ThinIsServed(g.devices, r, slice, decode);
      }
  }

  lemma {:induction false} ThinHasBytes(devs: Devices, r: Run, decode: NodeDecoder)
    requires r.mapping.Thin? && Served(devs, r, decode)
    ensures HasBytes(devs, r, decode)
  {
    var mb: seq<byte>, db: seq<byte> :|
      && VolumeHolds(devs, r.mapping.meta, mb, decode) && VolumeHolds(devs, r.mapping.data, db, decode)
      && PoolReady(r.mapping.block, r.mapping.root, MetadataOf(mb, decode), db, r.len);
    var m := MetadataOf(mb, decode);
    PoolServes(r.mapping.block, r.mapping.root, m, db, r.len);
    var slice: seq<byte> :| |slice| == r.len && ThinHolds(r.mapping.block, r.mapping.root, m, db, slice);
    assert RunHolds(devs, r, slice, decode);
  }

  lemma {:induction false} ThinIsServed(devs: Devices, r: Run, slice: seq<byte>, decode: NodeDecoder)
    requires r.mapping.Thin? && |slice| == r.len && RunHolds(devs, r, slice, decode)
    ensures Served(devs, r, decode)
  {
    match r.mapping
    case Thin(block, meta, data, root) =>
      var mb: seq<byte>, db: seq<byte> :|
        && VolumeHolds(devs, meta, mb, decode) && VolumeHolds(devs, data, db, decode)
        && ThinHolds(block, root, MetadataOf(mb, decode), db, slice);
      PoolNeeds(block, root, MetadataOf(mb, decode), db, slice);
      ServedBy(devs, r, decode, mb, db);
  }

  lemma {:induction false} ServedBy(devs: Devices, r: Run, decode: NodeDecoder, mb: seq<byte>, db: seq<byte>)
    requires r.mapping.Thin?
    requires VolumeHolds(devs, r.mapping.meta, mb, decode) && VolumeHolds(devs, r.mapping.data, db, decode)
    requires PoolReady(r.mapping.block, r.mapping.root, MetadataOf(mb, decode), db, r.len)
    ensures Served(devs, r, decode)
  {
  }

  lemma {:induction false} MappedAccepted(g: Group, seg: Segment, subs: Subs, m: Mapping)
    requires SegmentMapped(g, seg, subs, m) && m.Raid?
    ensures RaidAccepted(m)
  {
    if seg.kind == RaidKind {
      var sb :| SuperFrom(g, seg.metadata, subs, sb) && RaidDescribed(m, sb);
    }
  }

  /** Each run's part of the bytes is one it holds. */
  ghost predicate AllHold(holds: (Run, seq<byte>) -> bool, runs: seq<Run>, start: int, bytes: seq<byte>) {
    forall i :: 0 <= i < |runs| ==> HoldsAt(holds, runs[i], runs[i].start - start, bytes)
  }

  ghost predicate HoldsAt(holds: (Run, seq<byte>) -> bool, r: Run, at: int, bytes: seq<byte>) {
    0 <= at && at + r.len <= |bytes| && holds(r, bytes[at..at + r.len])
  }

  /** Runs end to end, each with bytes to hold, hold the bytes one after another. */
  lemma {:induction false} JoinBytes(holds: (Run, seq<byte>) -> bool, runs: seq<Run>, start: nat, end: nat)
    returns (bytes: seq<byte>)
    requires Tiles(runs, start, end)
    requires forall i :: 0 <= i < |runs| ==> exists slice: seq<byte> :: |slice| == runs[i].len && holds(runs[i], slice)
    ensures start + |bytes| == end && AllHold(holds, runs, start, bytes)
  {
    if runs == [] {
      bytes := [];
    } else {
      var first: seq<byte> :| |first| == runs[0].len && holds(runs[0], first);
      var next := start + runs[0].len;
      var rest := JoinBytes(holds, runs[1..], next, end);
      bytes := first + rest;
      HoldFirst(holds, runs, start, first, rest);
    }
  }

  lemma {:induction false} HoldFirst(holds: (Run, seq<byte>) -> bool, runs: seq<Run>, start: nat, first: seq<byte>,
                                     rest: seq<byte>)
    requires runs != [] && runs[0].start == start && |first| == runs[0].len && holds(runs[0], first)
    requires AllHold(holds, runs[1..], start + runs[0].len, rest)
    ensures AllHold(holds, runs, start, first + rest)
  {
    forall i | 0 <= i < |runs| ensures HoldsAt(holds, runs[i], runs[i].start - start, first + rest) {
      if i == 0 {
        assert (first + rest)[..|first|] == first;
      } else {
        assert runs[1..][i - 1] == runs[i];
        assert HoldsAt(holds, runs[i], runs[i].start - start - |first|, rest);
        SliceAfter(first, rest, runs[i].start - start, runs[i].len);
      }
    }
  }

  lemma {:induction false} SliceAfter(first: seq<byte>, rest: seq<byte>, at: int, len: nat)
    requires |first| <= at && at + len <= |first| + |rest|
    ensures (first + rest)[at..at + len] == rest[at - |first|..at - |first| + len]
  {
  }

  lemma {:induction false} JoinVolume(devs: Devices, runs: seq<Run>, size: nat, decode: NodeDecoder)
    returns (bytes: seq<byte>)
    requires Tiles(runs, 0, size) && forall i :: 0 <= i < |runs| ==> HasBytes(devs, runs[i], decode)
    ensures |bytes| == size && VolumeHolds(devs, runs, bytes, decode)
  {
    var holds: (Run, seq<byte>) -> bool := (r, slice) => RunHolds(devs, r, slice, decode);
    forall i | 0 <= i < |runs| ensures exists slice: seq<byte> :: |slice| == runs[i].len && holds(runs[i], slice) {
      var slice: seq<byte> :| |slice| == runs[i].len && RunHolds(devs, runs[i], slice, decode);
      assert holds(runs[i], slice);
    }
    bytes := JoinBytes(holds, runs, 0, size);
    forall i | 0 <= i < |runs|
      ensures runs[i].start + runs[i].len <= |bytes|
      ensures RunHolds(devs, runs[i], bytes[runs[i].start..runs[i].start + runs[i].len], decode)
    {
      assert HoldsAt(holds, runs[i], runs[i].start - 0, bytes);
    }
  }

  lemma {:induction false} ResolvedRun(g: Group, segs: seq<Segment>, subs: Subs, r: Resolved, decode: NodeDecoder,
                                       i: nat)
    requires ResolvedFrom(g.extentSize, segs, JudgeOf(g, subs), r) && i < |segs|
    ensures Served(g.devices, r.runs[i], decode) <==> HasBytes(g.devices, r.runs[i], decode)
  {
    assert LaidAt(g.extentSize, segs, i, r.runs[i]) && JudgeOf(g, subs).maps(segs[i], r.runs[i].mapping);
    RunBytes(g, segs[i], subs, r.runs[i], decode);
  }

  lemma {:induction false} HeldRun(devs: Devices, runs: seq<Run>, bytes: seq<byte>, decode: NodeDecoder, i: nat)
    requires VolumeHolds(devs, runs, bytes, decode) && i < |runs|
    ensures HasBytes(devs, runs[i], decode)
  {
    assert |bytes[runs[i].start..runs[i].start + runs[i].len]| == runs[i].len;
  }

  ghost predicate Holding(devs: Devices, r: Resolved, decode: NodeDecoder) {
    exists bytes: seq<byte> :: |bytes| == r.size && VolumeHolds(devs, r.runs, bytes, decode)
  }

  /** A resolved volume holds bytes, as many as its size, exactly when its extents fit 64-bit byte
      offsets and each of its runs is served. */
  lemma {:induction false} HoldsExactly(g: Group, segs: seq<Segment>, subs: Subs, r: Resolved, decode: NodeDecoder)
    requires ResolvedFrom(g.extentSize, segs, JudgeOf(g, subs), r)
    ensures Holding(g.devices, r, decode) <==>
      && Extents(segs, |segs|) * g.extentSize < U64
      && forall i: nat :: i < |segs| ==> Served(g.devices, r.runs[i], decode)
  {
    var devs, runs := g.devices, r.runs;
    ResolvedTiles(g.extentSize, segs, JudgeOf(g, subs), r);
    forall i: nat | i < |segs| ensures Served(devs, runs[i], decode) <==> HasBytes(devs, runs[i], decode) {
      ResolvedRun(g, segs, subs, r, decode, i);
    }
    if Tiles(runs, 0, r.size) && forall i: nat :: i < |segs| ==> HasBytes(devs, runs[i], decode) {
      var bytes := JoinVolume(devs, runs, r.size, decode);
    }
    if Holding(devs, r, decode) {
      var bytes: seq<byte> :| |bytes| == r.size && VolumeHolds(devs, runs, bytes, decode);
      forall i: nat | i < |segs| ensures HasBytes(devs, runs[i], decode) {
        HeldRun(devs, runs, bytes, decode, i);
      }
    }
  }

  /** So a volume of stripes holds bytes whatever is on its devices. */
  lemma {:induction false} StripesHold(g: Group, segs: seq<Segment>, subs: Subs, r: Resolved, decode: NodeDecoder)
    returns (bytes: seq<byte>)
    requires ResolvedFrom(g.extentSize, segs, JudgeOf(g, subs), r)
    requires forall i :: 0 <= i < |segs| ==> segs[i].kind == StripedKind
    requires Extents(segs, |segs|) * g.extentSize < U64
    ensures |bytes| == r.size && VolumeHolds(g.devices, r.runs, bytes, decode)
  {
    var j := JudgeOf(g, subs);
    forall i | 0 <= i < |segs| ensures Served(g.devices, r.runs[i], decode) {
      assert j.maps(segs[i], r.runs[i].mapping);
      assert StripedMapped(g, segs[i], r.runs[i].mapping);
    }
    HoldsExactly(g, segs, subs, r, decode);
    bytes :| |bytes| == r.size && VolumeHolds(g.devices, r.runs, bytes, decode);
  }

  /** The root of a mapped thin run is its device's one entry in the pool's map of devices. */
  lemma {:induction false} ThinRootExact(g: Group, seg: Segment, subs: Subs, m: Mapping, depth: nat, hi: nat)
    requires ThinMapped(g, seg, subs, m)
    requires var pool := g.poolMeta(PoolOf(g, seg).value.metadata[0]).value;
      WellFormed(pool.blocks, pool.devicesRoot, depth, 0, hi) && depth <= MAX_DEPTH
    ensures var pool := g.poolMeta(PoolOf(g, seg).value.metadata[0]).value;
      forall v: nat :: HasEntry(pool.blocks, pool.devicesRoot, depth, seg.deviceId.value, v) <==> v == m.root
  {
    var pool := g.poolMeta(PoolOf(g, seg).value.metadata[0]).value;
    WalkExact(pool.blocks, pool.devicesRoot, seg.deviceId.value, MAX_DEPTH, depth, 0, hi);
  }

  // ----- what the mapper takes

  /** A group of one device, with a volume `v` of these segments and a volume `s` of one extent. */
  function OneDevice(ext: nat, device: seq<byte>, segs: seq<Segment>, sb: Option<RaidSuper>): Group {
    var one := Segment(0, 1, StripedKind, 0, [StripeRef("p", 0)], [], [], None, None, false);
    Group(ext, [PhysicalVolume("p", "u", 0, 1)], [Volume("v", segs), Volume("s", [one])], map["u" := 0], [device],
          _ => sb, _ => None)
  }

  function OneExtent(ext: nat): seq<Run> {
    [Run(0, ext, Striped(0, [Stripe(0, 0)]))]
  }

  lemma {:induction false} ExtentResolves(ext: nat, device: seq<byte>, segs: seq<Segment>, sb: Option<RaidSuper>,
                                          left: nat)
    requires left > 0 && ext <= |device| && ext < U64
    ensures var g := OneDevice(ext, device, segs, sb);
      g.Known() && SubsOf(g, left).runs("s", OneExtent(ext))
  {
    var g := OneDevice(ext, device, segs, sb);
    var one := g.volumes[1].segments;
    assert g.volumes[1..][0] == Volume("s", one);
    assert VolumeNamed(g.volumes, "s") == Some(Volume("s", one));
    var r := Resolved(OneExtent(ext), ext);
    assert StripeFrom(g, one[0].stripes[0], 1, Stripe(0, 0));
    assert StripedMapped(g, one[0], r.runs[0].mapping);
    assert Extents(one, 0) == 0 && Extents(one, 1) == 1;
    assert ResolvedFrom(ext, one, JudgeOf(g, SubsOf(g, left - 1)), r);
    assert Resolves(g, "s", left, Resolved(r.runs, r.size));
    assert RunsOf(g, "s", left, r.runs);
  }

  function RaidSegment(start: nat, count: nat, kind: SegmentKind, images: seq<string>): Segment {
    Segment(start, count, kind, 0, [], images, images, None, None, false)
  }

  /** The mapper takes any RAID6 segment with enough images, whatever its layout, and maps it to one
      that md cannot place if the layout is none of md's. */
  lemma {:induction false} LayoutUnchecked(g: Group, seg: Segment, subs: Subs, images: seq<Image>, sb: RaidSuper)
    requires |seg.metadata| == |seg.images| > 2 && ImagesMapped(seg.images, subs, images)
    requires SuperFrom(g, seg.metadata, subs, sb) && sb.level == 6 && sb.chunk > 0
    requires EnoughLeft(6, None, Marks(images))
    ensures RaidMapped(g, seg, subs, Raid(6, None, sb.layout, sb.chunk, sb.dataOffset, images))
  {
    assert RaidDescribed(Raid(6, None, sb.layout, sb.chunk, sb.dataOffset, images), sb);
  }

  /** Three one-extent images and a superblock of RAID6 with layout 7: the mapper takes the segment,
      and whatever it maps it to, md has no place for its chunks. */
  lemma {:induction false} UnknownLayoutAccepted(device: seq<byte>)
    requires |device| == 4096
    ensures var seg := RaidSegment(0, 1, RaidKind, ["s", "s", "s"]);
      var g := OneDevice(4096, device, [seg], Some(RaidSuper(6, 7, 4096, 0)));
      && g.Known() && CanMap(g, seg, SubsOf(g, 2))
      && forall m :: SegmentMapped(g, seg, SubsOf(g, 2), m) ==> m.Raid? && !Legal(StripingOf(m), |m.images|)
  {
    var seg, sb := RaidSegment(0, 1, RaidKind, ["s", "s", "s"]), RaidSuper(6, 7, 4096, 0);
    var g := OneDevice(4096, device, [seg], Some(sb));
    var subs, image := SubsOf(g, 2), Image(OneExtent(4096));
    ExtentResolves(4096, device, [seg], Some(sb), 2);
    var images := [image, image, image];
    assert FirstThere(seg.metadata, subs, 0);
    assert AbsentSlots(Marks(images)) == {};
    LayoutUnchecked(g, seg, subs, images, sb);
    assert SegmentMapped(g, seg, subs, Raid(6, None, 7, 4096, 0, images));
  }

  /** Two mirror segments of 2^63 bytes over a one-extent image: the mapper takes the volume, gives it
      the size 0, and its runs do not tile it. */
  lemma {:induction false} OversizeAccepted(device: seq<byte>)
    requires |device| == 0x1_0000_0000
    ensures var half := 0x8000_0000;
      var segs := [RaidSegment(0, half, MirrorKind, ["s"]), RaidSegment(half, half, MirrorKind, ["s"])];
      var g := OneDevice(0x1_0000_0000, device, segs, None);
      && g.Known() && Available(g, "v", 3)
      && forall r :: Resolves(g, "v", 3, r) ==> r.size == 0 && !Tiles(r.runs, 0, r.size)
  {
    var ext, half := 0x1_0000_0000, 0x8000_0000;
    var segs := [RaidSegment(0, half, MirrorKind, ["s"]), RaidSegment(half, half, MirrorKind, ["s"])];
    var g := OneDevice(ext, device, segs, None);
    var subs, images := SubsOf(g, 2), [Image(OneExtent(ext))];
    ExtentResolves(ext, device, segs, None, 2);
    assert AbsentSlots(Marks(images)) == {};
    var m := Raid(1, None, 0, 0, 0, images);
    assert MirrorMapped(segs[0], subs, m) && MirrorMapped(segs[1], subs, m);
    assert Extents(segs, 0) == 0 && Extents(segs, 1) == half && Extents(segs, 2) == 0x1_0000_0000;
    var r := Resolved([Run(0, half * ext, m), Run(half * ext, half * ext, m)], 0);
    assert LaidAt(ext, segs, 0, r.runs[0]) && LaidAt(ext, segs, 1, r.runs[1]);
    assert ResolvedFrom(ext, segs, JudgeOf(g, subs), r);
    assert Resolves(g, "v", 3, r);
    forall x | Resolves(g, "v", 3, x) ensures x.size == 0 && !Tiles(x.runs, 0, x.size) {
      ResolvedTiles(ext, segs, JudgeOf(g, subs), x);
    }
  }

  // ----- opening a volume

  /** Open a volume by name: whatever resolves, with every image of every segment accounted for. */
  method Open(g: Group, name: string) returns (r: Mapped<LogicalVolume>)
    requires g.Known()
    ensures r.Ok? <==> Available(g, name, 3)
    ensures r.Ok? ==> r.value.devices == g.devices && Resolves(g, name, 3, Resolved(r.value.runs, r.value.size))
    ensures r == Err(MissingPv) <==> Lacks(g, name, 3)
  {
    var v := MapVolume(g, name, 0);
    if v.Err? { return Err(v.error); }
    r := Ok(LogicalVolume(g.devices, v.value.runs, v.value.size));
  }
}
