/** One piece of a run: as many bytes as follow one another where they are kept. */
module LvmPieces {
  import opened Arithmetic
  import opened ChunkRead
  import opened GaloisField
  import opened LvmReading
  import opened LvmVolumes
  import opened MdArrays
  import opened Raid10Placement
  import opened Raid6Recovery
  import opened Raid6Survival
  import opened ThinLookup
  import opened Wrappers

  /** Part of the buffer holds part of the bytes. */
  ghost predicate Filled(buf: array<byte>, lo: nat, len: nat, bytes: seq<byte>, at: nat)
    reads buf
  {
    && lo + len <= buf.Length && at + len <= |bytes|
    && forall j :: lo <= j < lo + len ==> buf[j] == bytes[at + (j - lo)]
  }

  /** Bytes from `within` up to the end of its unit, or as many as are wanted. */
  function UpToUnit(unit: nat, within: nat, want: nat): nat
    requires unit > 0
  {
    DivModRecompose(within, unit);
    if unit - within % unit < want then unit - within % unit else want
  }

  // ----- stripes

  method ReadDevice(dev: seq<byte>, at: nat, buf: array<byte>, lo: nat, len: nat)
    requires at + len <= |dev| && lo + len <= buf.Length
    modifies buf
    ensures Filled(buf, lo, len, dev, at) && SameOutside(buf, lo, len)
  {
    for j := 0 to len
      invariant forall k :: lo <= k < lo + j ==> buf[k] == dev[at + (k - lo)]
      invariant forall k :: 0 <= k < buf.Length && (k < lo || lo + j <= k) ==> buf[k] == old(buf[k])
    {
      buf[lo + j] := dev[at + j];
    }
  }

  /** The next `take` bytes of the run are the device's from `at`. */
  lemma {:induction false} StripeTake(devs: Devices, stripeSize: nat, stripes: seq<Stripe>, slice: seq<byte>,
                                      within: nat, take: nat, j: nat)
    requires |stripes| > 0 && (|stripes| > 1 ==> stripeSize > 0 && within % stripeSize + take <= stripeSize)
    requires within + take <= |slice| && j < take
    requires forall w: nat :: w < |slice| ==> StripeHolds(devs, stripeSize, stripes, w, slice[w])
    ensures var b := PlaceInStripes(|stripes|, stripeSize, within);
      && 0 <= b.stripe < |stripes| && stripes[b.stripe].dev < |devs|
      && var (d, o) := (stripes[b.stripe].dev, stripes[b.stripe].off + b.x + j);
         0 <= o < |devs[d]| && devs[d][o] == slice[within + j]
  {
    assert StripeHolds(devs, stripeSize, stripes, within + j, slice[within + j]);
    if |stripes| > 1 { StripeRun(|stripes|, stripeSize, within, j); }
  }

  method ReadStripes(devs: Devices, stripeSize: nat, stripes: seq<Stripe>, within: nat, want: nat, buf: array<byte>,
                     lo: nat, ghost slice: seq<byte>)
    returns (take: nat)
    requires |stripes| > 0 && (|stripes| > 1 ==> stripeSize > 0)
    requires forall w: nat :: w < |slice| ==> StripeHolds(devs, stripeSize, stripes, w, slice[w])
    requires 0 < want && within + want <= |slice| && lo + want <= buf.Length
    modifies buf
    ensures take == if |stripes| == 1 then want else UpToUnit(stripeSize, within, want)
    ensures 0 < take <= want && Filled(buf, lo, take, slice, within) && SameOutside(buf, lo, take)
  {
    take := want;
    if |stripes| > 1 {
      take := UpToUnit(stripeSize, within, want);
    }
    ghost var last := take - 1;
    StripeTake(devs, stripeSize, stripes, slice, within, take, 0);
    StripeTake(devs, stripeSize, stripes, slice, within, take, last);
    var b := PlaceInStripes(|stripes|, stripeSize, within);
    var st := stripes[b.stripe];
    ReadDevice(devs[st.dev], st.off + b.x, buf, lo, take);
    forall j | lo <= j < lo + take ensures buf[j] == slice[within + (j - lo)] {
      StripeTake(devs, stripeSize, stripes, slice, within, take, j - lo);
    }
  }

  // ----- RAID images

  /** What survives depends only on which images are there. */
  lemma {:induction false} EnoughByMarks(m: Mapping, a: Members, b: Members)
    requires m.Raid? && |a| == |b| && (forall i :: 0 <= i < |a| ==> a[i].Some? == b[i].Some?) && Enough(m, a)
    ensures Enough(m, b)
  {
    assert AbsentSlots(a) == AbsentSlots(b);
    assert PresentSlots(a) == PresentSlots(b);
  }

  /** Any image that is there holds the bytes of a mirror. */
  method ReadMirror(ms: Members, within: nat, buf: array<byte>, lo: nat, len: nat, ghost truth: Truth,
                    ghost slice: seq<byte>)
    requires Agrees(ms, truth) && (forall i :: 0 <= i < |truth| ==> slice <= truth[i])
    requires (exists i :: 0 <= i < |ms| && ms[i].Some?) && within + len <= |slice| && lo + len <= buf.Length
    modifies buf
    ensures Filled(buf, lo, len, slice, within) && SameOutside(buf, lo, len)
  {
    var i: nat := 0;
    while i < |ms|
      invariant i <= |ms| && (forall s :: 0 <= s < i ==> ms[s].None?)
      invariant forall j :: 0 <= j < buf.Length ==> buf[j] == old(buf[j])
    {
      var got := ReadMember(ms, i, within, buf, lo, len);
      if got.Read? { return; }
      i := i + 1;
    }
  }

  lemma {:induction false} ReachOfTruth(ms: Members, truth: Truth, end: int)
    requires Agrees(ms, truth) && Deep(truth, end)
    ensures AllReach(ms, end)
  {
  }

  /** Near copies are where they are whatever the stride of far ones would be. */
  lemma {:induction false} NearCopiesSame(g: Raid10, d: nat, c: nat, i: nat, stride: nat)
    requires d > 0 && NearOnly(g)
    ensures NearCopies(g, d, c, i) == NearCopies(g.(stride := stride), d, c, i)
  {
    if i > 0 {
      NearCopiesSame(g, d, c, i - 1, stride);
      OneFarCopy(g, d, c, i - 1);
      OneFarCopy(g.(stride := stride), d, c, i - 1);
      FirstCopySame(g, d, c, i - 1, stride);
    }
  }

  lemma {:induction false} OneFarCopy(g: Raid10, d: nat, c: nat, i: nat)
    requires d > 0
    ensures FarCopies(g, d, c, i, 1) == [CopyAt(g, d, c, i, 0)]
  {
    assert FarCopies(g, d, c, i, 0) == [];
  }

  lemma {:induction false} FirstCopySame(g: Raid10, d: nat, c: nat, i: nat, stride: nat)
    requires d > 0
    ensures CopyAt(g, d, c, i, 0) == CopyAt(g.(stride := stride), d, c, i, 0)
  {
  }

  lemma {:induction false} SurvivesSame(g: Raid10, ms: Members, stride: nat)
    requires NearOnly(g) && SurvivesRaid10(g, ms)
    ensures SurvivesRaid10(g.(stride := stride), ms)
  {
    forall c: nat | c < |ms| ensures Kept(g.(stride := stride), |ms|, c, PresentSlots(ms)) {
      assert Kept(g, |ms|, c, PresentSlots(ms));
      NearCopiesSame(g, |ms|, c, g.near, stride);
    }
  }

  /** A piece inside one chunk of copies can be read, and holds the run's bytes. */
  lemma {:induction false} CopiesPiece(m: Mapping, ms: Members, truth: Truth, slice: seq<byte>, full: seq<byte>,
                                       rows: nat, chunks: nat, within: nat, len: nat)
    requires m.Raid? && CopiesHold(m, truth, slice, full, rows, chunks) && Agrees(ms, truth)
    requires SurvivesRaid10(m.raid10.value, ms)
    requires within + len <= |slice| && len > 0 && within % m.chunk + len <= m.chunk
    ensures Legal(StripingOf(m), |ms|) && within / m.chunk >= 0
    ensures ChunkReadable(StripingOf(m), ms, within / m.chunk, within % m.chunk, len)
    ensures forall j: nat :: j < len ==>
      ChunkByte(StripingOf(m), ms, within / m.chunk, within % m.chunk, len, j) == slice[within + j]
  {
    var s, wide := StripingOf(m), StripingOver(m, rows);
    ReachOfTruth(ms, truth, rows * m.chunk);
    ChunkOfByte(within, m.chunk, chunks);
    var k, inner := within / m.chunk, within % m.chunk;
    SurvivesSame(m.raid10.value, ms, rows);
    Raid10Survives(wide, ms, rows, k, inner, len);
    NearCopiesSame(m.raid10.value, |ms|, k, m.raid10.value.near, rows);
    forall j: nat | j < len ensures ChunkByte(s, ms, k, inner, len, j) == slice[within + j] {
      Raid10ByteExact(wide, ms, truth, full, rows, chunks, k, inner, len, j);
    }
  }

  /** A piece inside one chunk of a row can be read or rebuilt, and is the run's bytes. */
  lemma {:induction false} ParityPiece(m: Mapping, ms: Members, truth: Truth, slice: seq<byte>, full: seq<byte>,
                                       rows: nat, within: nat, len: nat)
    requires m.Raid? && ParityHolds(m, truth, slice, full, rows) && Agrees(ms, truth)
    requires m.raid10.None? && SurvivesParity(StripingOf(m), ms)
    requires within + len <= |slice| && len > 0 && within % m.chunk + len <= m.chunk
    ensures within / m.chunk >= 0 && ChunkReadable(StripingOf(m), ms, within / m.chunk, within % m.chunk, len)
    ensures forall j: nat :: j < len ==>
      ChunkByte(StripingOf(m), ms, within / m.chunk, within % m.chunk, len, j) == slice[within + j]
  {
    var s := StripingOf(m);
    ReachOfTruth(ms, truth, rows * m.chunk);
    ChunkOfByte(within, m.chunk, rows * DataCount(s, |truth|));
    var k, inner := within / m.chunk, within % m.chunk;
    ParitySurvives(s, ms, rows, k, inner, len);
    forall j: nat | j < len ensures ChunkByte(s, ms, k, inner, len, j) == slice[within + j] {
      ParityPieceByte(s, ms, truth, full, rows, k, inner, len, j);
    }
  }

  lemma {:induction false} PieceExact(m: Mapping, ms: Members, truth: Truth, slice: seq<byte>, within: nat, len: nat)
    requires m.Raid? && m.level != MIRROR && ImagesHold(m, truth, slice) && Agrees(ms, truth) && Enough(m, ms)
    requires within + len <= |slice| && len > 0 && m.chunk > 0 && within % m.chunk + len <= m.chunk
    requires Legal(StripingOf(m), |ms|)
    ensures within / m.chunk >= 0 && ChunkReadable(StripingOf(m), ms, within / m.chunk, within % m.chunk, len)
    ensures forall j: nat :: j < len ==>
      ChunkByte(StripingOf(m), ms, within / m.chunk, within % m.chunk, len, j) == slice[within + j]
  {
    if m.raid10.Some? {
      var full: seq<byte>, rows: nat, chunks: nat :| CopiesHold(m, truth, slice, full, rows, chunks);
      CopiesPiece(m, ms, truth, slice, full, rows, chunks, within, len);
    } else {
      var full: seq<byte>, rows: nat :| ParityHolds(m, truth, slice, full, rows);
      ParityPiece(m, ms, truth, slice, full, rows, within, len);
    }
  }

  lemma {:induction false} HeldIsLegal(m: Mapping, truth: Truth, slice: seq<byte>)
    requires m.Raid? && m.level != MIRROR && ImagesHold(m, truth, slice)
    ensures Legal(StripingOf(m), |truth|) && m.chunk > 0
  {
  }

  method ReadRaid(t: Tables, m: Mapping, ms: Members, within: nat, want: nat, buf: array<byte>, lo: nat,
                  ghost truth: Truth, ghost slice: seq<byte>)
    returns (take: nat)
    requires t.Valid() && m.Raid? && ImagesHold(m, truth, slice) && Agrees(ms, truth) && Enough(m, ms)
    requires 0 < want && within + want <= |slice| && lo + want <= buf.Length
    modifies buf
    ensures m.level == MIRROR ==> take == want
    ensures m.level != MIRROR ==> m.chunk > 0 && take == UpToUnit(m.chunk, within, want)
    ensures 0 < take <= want && Filled(buf, lo, take, slice, within) && SameOutside(buf, lo, take)
  {
    if m.level == MIRROR {
      ReadMirror(ms, within, buf, lo, want, truth, slice);
      return want;
    }
    HeldIsLegal(m, truth, slice);
    DivModRecompose(within, m.chunk);
    DivNonNegative(within, m.chunk);
    var inner := within % m.chunk;
    take := UpToUnit(m.chunk, within, want);
    PieceExact(m, ms, truth, slice, within, take);
    var _ := ReadChunk(t, StripingOf(m), ms, within / m.chunk, inner, buf, lo, take);
  }

  // ----- thin blocks

  method FillZeros(buf: array<byte>, lo: nat, len: nat)
    requires lo + len <= buf.Length
    modifies buf
    ensures (forall j :: lo <= j < lo + len ==> buf[j] == 0) && SameOutside(buf, lo, len)
  {
    for j := 0 to len
      invariant forall k :: lo <= k < lo + j ==> buf[k] == 0
      invariant forall k :: 0 <= k < buf.Length && (k < lo || lo + j <= k) ==> buf[k] == old(buf[k])
    {
      buf[lo + j] := 0;
    }
  }

  lemma {:induction false} SameBlock(within: nat, block: nat, j: nat)
    requires block > 0 && within % block + j < block
    ensures (within + j) / block == within / block && (within + j) % block == within % block + j
  {
    DivModRecompose(within, block);
    DivModUnique(within + j, block, within / block, within % block + j);
  }

  /** Where a block's bytes are, or that it is a hole, gives byte `j` of the piece. */
  ghost predicate Serves(base: Option<int>, data: seq<byte>, inner: int, slice: seq<byte>, within: int, j: int)
    requires 0 <= within + j < |slice|
  {
    match base
    case None => slice[within + j] == 0
    case Some(o) => PoolByte(o, data, inner + j, slice[within + j])
  }

  lemma {:induction false} BlockServes(m: Metadata, root: nat, depth: nat, key: nat, block: nat, data: seq<byte>,
                                       inner: int, b: byte, r: Answer)
    requires BlockHolds(m, root, depth, key, block, data, inner, b)
    requires !r.Corrupt? && (r.Hole? <==> NoEntry(m, root, depth, key))
    requires r.Found? ==> exists v: nat :: HasEntry(m, root, depth, key, v) && r.value == v / TIME_SPAN
    ensures r.Hole? ==> b == 0
    ensures r.Found? ==> PoolByte(r.value * block, data, inner, b)
  {
    if r.Found? {
      var v: nat :| HasEntry(m, root, depth, key, v) && r.value == v / TIME_SPAN;
      assert PoolByte(v / TIME_SPAN * block, data, inner, b);
      var db := v / TIME_SPAN;
      assert db * block == r.value * block;
    }
  }

  /** The bytes of one block: the pool's, or zeros where there is none. */
  lemma {:induction false} ThinTake(m: Metadata, root: nat, depth: nat, key: nat, block: nat, data: seq<byte>,
                                    slice: seq<byte>, within: nat, j: nat, r: Answer)
    requires block > 0 && within % block + j < block && within + j < |slice| && key == within / block
    requires ThinByteHolds(m, root, depth, block, data, within + j, slice[within + j])
    requires !r.Corrupt? && (r.Hole? <==> NoEntry(m, root, depth, key))
    requires r.Found? ==> exists v: nat :: HasEntry(m, root, depth, key, v) && r.value == v / TIME_SPAN
    ensures Serves(if r.Found? then Some(r.value * block) else None, data, within % block, slice, within, j)
  {
    SameBlock(within, block, j);
    BlockServes(m, root, depth, key, block, data, within % block + j, slice[within + j], r);
  }

  /** Copy out of the pool's block, or write zeros. */
  method ReadBlock(base: Option<int>, data: seq<byte>, inner: int, buf: array<byte>, lo: nat, len: nat,
                   ghost slice: seq<byte>, ghost within: nat)
    requires len > 0 && lo + len <= buf.Length && within + len <= |slice|
    requires forall j :: 0 <= j < len ==> Serves(base, data, inner, slice, within, j)
    modifies buf
    ensures Filled(buf, lo, len, slice, within) && SameOutside(buf, lo, len)
  {
    assert Serves(base, data, inner, slice, within, 0);
    assert Serves(base, data, inner, slice, within, len - 1);
    if base.Some? {
      ReadDevice(data, base.value + inner, buf, lo, len);
    } else {
      FillZeros(buf, lo, len);
    }
    forall j | lo <= j < lo + len ensures buf[j] == slice[within + (j - lo)] {
      assert Serves(base, data, inner, slice, within, j - lo);
    }
  }

  method ReadThin(block: nat, root: nat, m: Metadata, data: seq<byte>, within: nat, want: nat, buf: array<byte>,
                  lo: nat, ghost slice: seq<byte>)
    returns (take: nat)
    requires ThinHolds(block, root, m, data, slice)
    requires 0 < want && within + want <= |slice| && lo + want <= buf.Length
    modifies buf
    ensures block > 0 && take == UpToUnit(block, within, want)
    ensures 0 < take <= want && Filled(buf, lo, take, slice, within) && SameOutside(buf, lo, take)
  {
    DivModRecompose(within, block);
    DivNonNegative(within, block);
    var inner := within % block;
    take := UpToUnit(block, within, want);
    var key := within / block;
    ghost var depth: nat, hi: nat :| depth <= MAX_DEPTH && WellFormed(m, root, depth, 0, hi)
      && forall w: nat :: w < |slice| ==> ThinByteHolds(m, root, depth, block, data, w, slice[w]);
    var at := DataBlock(m, root, key, depth, hi);
    var base := if at.Found? then Some(at.value * block) else None;
    forall j | 0 <= j < take ensures Serves(base, data, inner, slice, within, j) {
      ThinTake(m, root, depth, key, block, data, slice, within, j, at);
    }
    ReadBlock(base, data, inner, buf, lo, take, slice, within);
  }
}
