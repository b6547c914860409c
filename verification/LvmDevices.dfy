/** Where the bytes of a logical volume are on its devices and images, told without the formulas that
    place them: extents, stripe units, rows and blocks are counted off from the start. */
module LvmDevices {
  import opened Arithmetic
  import opened ChunkRead
  import opened GaloisField
  import opened LvmMapper
  import opened LvmReading
  import opened LvmSegments
  import opened LvmVolumes
  import opened MdDevices
  import opened ParityLayout
  import opened ParityRules
  import opened Raid10Placement
  import opened Raid10Rules
  import opened Raid6Recovery
  import opened ThinLookup
  import opened Wrappers

  // ----- stripes

  /** A device byte. */
  predicate DeviceByte(devs: Devices, dev: nat, at: int, b: byte) {
    dev < |devs| && 0 <= at < |devs[dev]| && devs[dev][at] == b
  }

  lemma {:induction false} UnitOf(n: nat, unit: nat, t: nat, j: nat, inner: nat)
    requires n > 1 && j < n && inner < unit
    ensures 0 <= (t * n + j) * unit + inner
    ensures PlaceInStripes(n, unit, (t * n + j) * unit + inner) == StripeByte(j, t * unit + inner)
  {
    MulMonotone(0, t, n);
    var u := t * n + j;
    MulMonotone(0, u, unit);
    DivModUnique(u * unit + inner, unit, u, inner);
    DivModUnique(u, n, t, j);
  }

  /** Units are dealt to the stripes in turn: the first `n` to stripes 0 to n - 1, the next `n` after
      them, and so on. A single stripe holds the run whole. */
  lemma {:induction false} UnitsInTurn(devs: Devices, r: Run, slice: seq<byte>, decode: NodeDecoder, t: nat, j: nat,
                                       inner: nat)
    requires r.mapping.Striped? && RunHolds(devs, r, slice, decode)
    ensures var n, unit := |r.mapping.stripes|, r.mapping.stripeSize;
      n > 1 && j < n && inner < unit && (t * n + j) * unit + inner < |slice| ==>
        var w := (t * n + j) * unit + inner;
        w >= 0 && DeviceByte(devs, r.mapping.stripes[j].dev, r.mapping.stripes[j].off + (t * unit + inner), slice[w])
    ensures |r.mapping.stripes| == 1 && inner < |slice| ==>
      DeviceByte(devs, r.mapping.stripes[0].dev, r.mapping.stripes[0].off + inner, slice[inner])
  {
    var n, unit, stripes := |r.mapping.stripes|, r.mapping.stripeSize, r.mapping.stripes;
    if n > 1 && j < n && inner < unit && (t * n + j) * unit + inner < |slice| {
      UnitOf(n, unit, t, j, inner);
      var w: nat := (t * n + j) * unit + inner;
      assert StripeHolds(devs, unit, stripes, w, slice[w]);
    }
    if n == 1 && inner < |slice| {
      assert StripeHolds(devs, unit, stripes, inner, slice[inner]);
    }
  }

  /** The physical volume a stripe names: the first of that name. */
  ghost predicate IsPv(g: Group, name: string, pv: PhysicalVolume) {
    exists i: nat ::
      i < |g.pvs| && g.pvs[i] == pv && pv.name == name && forall k: nat :: k < i ==> g.pvs[k].name != name
  }

  lemma {:induction false} PvFound(pvs: seq<PhysicalVolume>, name: string, i: nat)
    requires i < |pvs| && pvs[i].name == name && forall k: nat :: k < i ==> pvs[k].name != name
    ensures PvNamed(pvs, name) == Some(pvs[i])
  {
    if i > 0 {
      assert pvs[0].name != name;
      forall k: nat | k < i - 1 ensures pvs[1..][k].name != name { assert pvs[k + 1].name != name; }
      PvFound(pvs[1..], name, i - 1);
    }
  }

  /** A mapped stripe is on the device of its physical volume, and starts as many extents on from the
      volume's first as it says. */
  lemma {:induction false} StripeOnVolume(g: Group, seg: Segment, m: Mapping, j: nat, pv: PhysicalVolume)
    requires StripedMapped(g, seg, m) && j < |seg.stripes| && IsPv(g, seg.stripes[j].pv, pv)
    ensures |m.stripes| == |seg.stripes| && m.stripeSize == seg.stripeSize && pv.uuid in g.devOf
    ensures m.stripes[j].dev == g.devOf[pv.uuid]
    ensures m.stripes[j].off == pv.peStart + seg.stripes[j].startExtent * g.extentSize
  {
    var i: nat :| i < |g.pvs| && g.pvs[i] == pv && pv.name == seg.stripes[j].pv
      && forall k: nat :: k < i ==> g.pvs[k].name != seg.stripes[j].pv;
    PvFound(g.pvs, seg.stripes[j].pv, i);
    assert StripeFrom(g, seg.stripes[j], seg.extentCount / |m.stripes|, m.stripes[j]);
  }

  // ----- RAID segments

  /** Byte `w` of data chunk `i` of row `row` of a segment with parity is on the image its layout's rules
      give, `row` chunks into the image's data. */
  lemma {:induction false} ChunkOnImage(m: Mapping, truth: Truth, slice: seq<byte>, f: Layout, row: nat, i: nat, w: nat)
    requires m.Raid? && m.level in {5, 6} && m.raid10.None? && ImagesHold(m, truth, slice)
    requires if m.level == 6 then Raid6Rules(m.layout, |truth|, f) else Raid5Rules(m.layout, |truth|, f)
    requires var data := |truth| - (if m.level == 6 then 2 else 1);
      i < data && w < m.chunk && (row * data + i) * m.chunk + w < |slice|
    ensures var data := |truth| - (if m.level == 6 then 2 else 1);
      var (o, pos) := (row * m.chunk + w, (row * data + i) * m.chunk + w);
      && f(row, i).data < |truth| && 0 <= o < |truth[f(row, i).data]| && pos >= 0
      && truth[f(row, i).data][o] == slice[pos]
  {
    var full: seq<byte>, rows: nat :| ParityHolds(m, truth, slice, full, rows);
    var s, n := StripingOf(m), |truth|;
    var data := DataCount(s, n);
    RowUnder(row, rows, data, i, m.chunk, w);
    RuledMember(s, n, f, row, i);
    ChunkBelow(row, rows, data, i, m.chunk, w);
    RowAndNumber(s, n, row, i);
    assert ChunkStored(s, truth, full, row * data + i, w);
  }

  lemma {:induction false} RowUnder(row: nat, rows: nat, data: nat, i: nat, chunk: nat, w: nat)
    requires i < data && w < chunk && (row * data + i) * chunk + w < rows * data * chunk
    ensures row < rows
  {
    if rows <= row {
      MulMonotone(rows, row, data);
      MulMonotone(rows * data, row * data + i, chunk);
    }
  }

  /** A copy of a chunk of a RAID10 segment is where the rules of its layout word have it. */
  lemma {:induction false} CopyOnImage(m: Mapping, truth: Truth, slice: seq<byte>, f: Copying, c: nat, i: nat, w: nat)
    requires m.Raid? && m.level == 10 && m.raid10 == NearLayout(m.layout, |truth|) && m.raid10.Some?
    requires ImagesHold(m, truth, slice) && Steps(Near(m.layout), 1, 1, 0, |truth|, f)
    requires i < Near(m.layout) && w < m.chunk && c * m.chunk + w < |slice|
    ensures f(c, i, 0).slot < |truth| && f(c, i, 0).row >= 0
    ensures var (x, o) := (f(c, i, 0), f(c, i, 0).row * m.chunk + w);
      0 <= o < |truth[x.slot]| && c * m.chunk + w >= 0 && truth[x.slot][o] == slice[c * m.chunk + w]
  {
    var full: seq<byte>, rows: nat, chunks: nat :| CopiesHold(m, truth, slice, full, rows, chunks);
    NearCopyHeld(m, truth, slice, full, rows, chunks, f, c, i, w);
  }

  lemma {:induction false} NearCopyHeld(m: Mapping, truth: Truth, slice: seq<byte>, full: seq<byte>, rows: nat,
                                        chunks: nat, f: Copying, c: nat, i: nat, w: nat)
    requires m.Raid? && m.level == 10 && m.raid10 == NearLayout(m.layout, |truth|) && m.raid10.Some?
    requires CopiesHold(m, truth, slice, full, rows, chunks) && Steps(Near(m.layout), 1, 1, 0, |truth|, f)
    requires i < Near(m.layout) && w < m.chunk && c * m.chunk + w < |slice|
    ensures f(c, i, 0).slot < |truth| && f(c, i, 0).row >= 0
    ensures var (x, o) := (f(c, i, 0), f(c, i, 0).row * m.chunk + w);
      0 <= o < |truth[x.slot]| && c * m.chunk + w >= 0 && truth[x.slot][o] == slice[c * m.chunk + w]
  {
    var g, d := m.raid10.value.(stride := rows), |truth|;
    NearPlace(g, d, f, c, i);
    MulMonotone(0, c, m.chunk);
    if chunks <= c { MulMonotone(chunks, c, m.chunk); }
    CopyLocated(g, d, rows, c, i, 0);
    var x := f(c, i, 0);
    NearCopiesMember(g, d, c, g.near, x);
    ChunkBelow(x.row, rows, 1, 0, m.chunk, w);
    assert CopiesStored(g, m.chunk, truth, full, c, w);
  }

  lemma {:induction false} NearPlace(g: Raid10, d: nat, f: Copying, c: nat, i: nat)
    requires 0 < d && 1 <= g.near <= d && g.far == 1 && !g.offset && Steps(g.near, 1, 1, 0, d, f) && i < g.near
    ensures f(c, i, 0) == CopyAt(g, d, c, i, 0)
  {
    var h: Copying := (c: nat, i: nat, k: nat) => CopyAt(g.(stride := 0), d, c, i, k);
    FormulaSteps(g.(stride := 0), d, h);
    SameNear(g.near, 1, 1, 0, d, f, h, c, i);
    assert h(c, i, 0) == CopyAt(g.(stride := 0), d, c, i, 0);
  }

  // ----- thin runs

  /** Byte `inner` of block `q` of a thin run is byte `inner` of the pool's block that the entry's value
      names above its low 24 bits, or zero without an entry. */
  lemma {:induction false} BlockInPool(block: nat, root: nat, m: Metadata, data: seq<byte>, slice: seq<byte>, q: nat,
                                       inner: nat, depth: nat, hi: nat, v: nat, pb: nat, time: nat)
    requires ThinHolds(block, root, m, data, slice) && inner < block && q * block + inner < |slice|
    requires WellFormed(m, root, depth, 0, hi) && depth <= 16
    requires v == pb * 16777216 + time && time < 16777216
    ensures q * block + inner >= 0
    ensures HasEntry(m, root, depth, q, v) ==>
      0 <= pb * block + inner < |data| && data[pb * block + inner] == slice[q * block + inner]
    ensures NoEntry(m, root, depth, q) ==> slice[q * block + inner] == 0
  {
    MulMonotone(0, q, block);
    var w := q * block + inner;
    DivModUnique(w, block, q, inner);
    DivModUnique(v, 16777216, pb, time);
    var d: nat, h: nat :| d <= MAX_DEPTH && WellFormed(m, root, d, 0, h)
      && forall w: nat :: w < |slice| ==> ThinByteHolds(m, root, d, block, data, w, slice[w]);
    assert ThinByteHolds(m, root, d, block, data, w, slice[w]);
    SameTree(m, root, depth, hi, d, h, q);
    if HasEntry(m, root, depth, q, v) {
      assert PoolByte(v / TIME_SPAN * block, data, inner, slice[w]);
    }
  }

  /** What a key maps to does not depend on how deep the tree is said to be at most. */
  lemma {:induction false} SameTree(m: Metadata, root: nat, a: nat, ha: nat, b: nat, hb: nat, key: nat)
    requires WellFormed(m, root, a, 0, ha) && WellFormed(m, root, b, 0, hb) && a <= MAX_DEPTH && b <= MAX_DEPTH
    ensures forall v: nat :: HasEntry(m, root, a, key, v) <==> HasEntry(m, root, b, key, v)
  {
    WalkExact(m, root, key, MAX_DEPTH, a, 0, ha);
    WalkExact(m, root, key, MAX_DEPTH, b, 0, hb);
  }
}
