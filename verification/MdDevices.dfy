/** Where the bytes of an array are on its devices, told without the formulas that place them: rows,
    chunks and copies are counted off from the start, and levels and layouts are the numbers
    superblocks record. */
module MdDevices {
  import opened Arithmetic
  import opened ChunkRead
  import opened GaloisField
  import opened MdArrays
  import opened ParityLayout
  import opened ParityRules
  import opened Raid0Zones
  import opened Raid10Placement
  import opened Raid10Rules
  import opened Raid5Recovery
  import opened Raid6Recovery
  import opened Wrappers

  /** Byte `o` of the data of member `m` is byte `pos` of the array, if the member is there: on its
      device that is `o` bytes on from where the superblock says its data starts. */
  ghost predicate OnDevice(slots: Slots, m: int, o: int, bytes: seq<byte>, pos: int) {
    && 0 <= m < |slots| && 0 <= pos < |bytes| && 0 <= o
    && (slots[m].Some? ==>
          var at := slots[m].value.dataOffset + o;
          at < |slots[m].value.device| && slots[m].value.device[at] == bytes[pos])
  }

  lemma {:induction false} StoredOnDevice(slots: Slots, truth: Truth, m: nat, o: nat, bytes: seq<byte>, pos: nat)
    requires Agrees(View(slots), truth) && StoredAt(truth, m, o, bytes, pos) && o < |truth[m]| && pos < |bytes|
    ensures OnDevice(slots, m, o, bytes, pos)
  {
    if slots[m].Some? { assert View(slots)[m] == Some(truth[m]); }
  }

  // ----- levels 1, 4, 5 and 6

  lemma {:induction false} MirrorOnDevice(a: MdArray, truth: Truth, bytes: seq<byte>, m: nat, pos: nat)
    requires a.level == 1 && GoodRaid1(a) && HoldsMirrored(a, truth, bytes) && m < |a.slots| && pos < a.size
    ensures a.slots[m].Some? ==> OnDevice(a.slots, m, pos, bytes, pos)
  {
    if a.slots[m].Some? {
      assert View(a.slots)[m] == Some(truth[m]);
      assert StoredAt(truth, m, pos, bytes, pos);
      StoredOnDevice(a.slots, truth, m, pos, bytes, pos);
    }
  }

  /** The array's rows follow the rules of the layout its superblock records; a RAID4's are those of
      layout 5, whatever it records. */
  ghost predicate LaidBy(a: MdArray, f: Layout) {
    if a.level == 6 then Raid6Rules(a.layout, |a.slots|, f)
    else Raid5Rules(if a.level == 4 then 5 else a.layout, |a.slots|, f)
  }

  function DataMembers(a: MdArray): int {
    |a.slots| - if a.level == 6 then 2 else 1
  }

  lemma {:induction false} RowAndNumber(s: Striping, n: nat, row: nat, i: nat)
    requires n > ParityCount(s.level) && i < DataCount(s, n)
    ensures 0 <= row * DataCount(s, n) + i
    ensures StripeOf(s, n, row * DataCount(s, n) + i) == row && NumberOf(s, n, row * DataCount(s, n) + i) == i
  {
    var data := DataCount(s, n);
    MulMonotone(0, row, data);
    DivModUnique(row * data + i, data, row, i);
  }

  lemma {:induction false} ChunkBelow(row: nat, rows: nat, data: nat, i: nat, chunk: nat, w: nat)
    requires row < rows && i < data && w < chunk
    ensures 0 <= row * data + i < rows * data && 0 <= row * chunk + w < rows * chunk
    ensures 0 <= (row * data + i) * chunk + w < rows * data * chunk
  {
    MulMonotone(0, row, data);
    MulMonotone(0, row, chunk);
    MulMonotone(row + 1, rows, data);
    MulMonotone(row + 1, rows, chunk);
    assert (row + 1) * data == row * data + data && (row + 1) * chunk == row * chunk + chunk;
    var k := row * data + i;
    MulMonotone(0, k, chunk);
    MulMonotone(k + 1, rows * data, chunk);
    assert (k + 1) * chunk == k * chunk + chunk;
  }

  lemma {:induction false} RowsFit(perMember: nat, chunk: nat, row: nat)
    requires chunk > 0 && (row + 1) * chunk <= perMember
    ensures row < perMember / chunk
  {
    DivModRecompose(perMember, chunk);
    if perMember / chunk <= row { MulMonotone(perMember / chunk, row, chunk); }
    assert (row + 1) * chunk == row * chunk + chunk;
  }

  /** The formulas place every chunk where the rules do. */
  lemma {:induction false} RuledMember(s: Striping, n: nat, f: Layout, row: nat, i: nat)
    requires s.level in {4, 5, 6} && Mappable(s.level, s.layout, n) && i < DataCount(s, n)
    requires if s.level == 6 then Raid6Rules(s.layout, n, f)
             else Raid5Rules(if s.level == 4 then 5 else s.layout, n, f)
    ensures f(row, i) == ParityMap(s.level, EffectiveLayout(s), n, row, i)
  {
    if s.level == 6 {
      Raid6Determined(s.layout, n, f, row, i);
    } else {
      Raid5Determined(EffectiveLayout(s), n, f, row, i);
    }
  }

  lemma {:induction false} RuledPlace(a: MdArray, f: Layout, row: nat, i: nat)
    requires GoodParity(a) && LaidBy(a, f) && i < DataMembers(a)
    ensures f(row, i) == ParityMap(a.level, EffectiveLayout(a.ToStriping()), |a.slots|, row, i)
  {
    RuledMember(a.ToStriping(), |a.slots|, f, row, i);
  }

  /** Byte `w` of data chunk `i` of row `row` of a RAID4, 5 or 6 array is on the member its layout's
      rules give, `row` chunks into the data; rows of chunks follow one another in the array. */
  lemma {:induction false} ParityOnDevice(a: MdArray, truth: Truth, bytes: seq<byte>, f: Layout, row: nat, i: nat,
                                          w: nat)
    requires GoodParity(a) && HoldsStriped(a, truth, bytes) && LaidBy(a, f)
    requires i < DataMembers(a) && w < a.chunk && (row + 1) * a.chunk <= a.perMember
    ensures OnDevice(a.slots, f(row, i).data, row * a.chunk + w, bytes, (row * DataMembers(a) + i) * a.chunk + w)
  {
    var s, n, data := a.ToStriping(), |a.slots|, DataMembers(a);
    RowsFit(a.perMember, a.chunk, row);
    ChunkBelow(row, Rows(a), data, i, a.chunk, w);
    RowAndNumber(s, n, row, i);
    Reorder(Rows(a), a.chunk, data);
    RuledPlace(a, f, row, i);
    var k := row * data + i;
    assert ChunkStored(s, truth, bytes, k, w);
    StoredOnDevice(a.slots, truth, f(row, i).data, row * a.chunk + w, bytes, k * a.chunk + w);
  }

  /** Byte `o` of the data chunks of a row, in order of chunk. */
  ghost function Chunks(truth: Truth, f: Layout, row: nat, data: nat, o: nat): (col: seq<byte>)
    requires forall i: nat :: i < data ==> f(row, i).data < |truth| && o < |truth[f(row, i).data]|
    ensures |col| == data && forall i :: 0 <= i < data ==> col[i] == truth[f(row, i).data][o]
  {
    seq(data, i requires 0 <= i < data => truth[f(row, i).data][o])
  }

  function Weights(layout: nat, n: nat, row: nat): (w: seq<int>)
    requires n >= 3 && Raid6LayoutKnown(layout)
    ensures |w| == n - 2 && forall i :: 0 <= i < n - 2 ==> w[i] == QExponent(layout, n, row, i)
  {
    seq(n - 2, i requires 0 <= i < n - 2 => QExponent(layout, n, row, i))
  }

  lemma {:induction false} RowByte(a: MdArray, row: nat, w: nat)
    requires a.chunk > 0 && w < a.chunk && (row + 1) * a.chunk <= a.perMember
    ensures 0 <= row * a.chunk + w < Rows(a) * a.chunk && (row * a.chunk + w) / a.chunk == row
  {
    RowsFit(a.perMember, a.chunk, row);
    ChunkBelow(row, Rows(a), 1, 0, a.chunk, w);
    DivModUnique(row * a.chunk + w, a.chunk, row, w);
  }

  lemma {:induction false} RowHeld(a: MdArray, truth: Truth, bytes: seq<byte>, o: nat)
    requires GoodParity(a) && HoldsStriped(a, truth, bytes) && o < Rows(a) * a.chunk
    ensures |truth| == |a.slots| && ParityStored(a.ToStriping(), truth, o)
  {
  }

  /** P is where the rules have it and is the sum of its row's chunks. */
  ghost predicate PSums(truth: Truth, f: Layout, row: nat, data: nat, o: nat) {
    && (forall i: nat :: i < data ==> f(row, i).data < |truth| && o < |truth[f(row, i).data]|)
    && f(row, 0).p < |truth| && o < |truth[f(row, 0).p]|
    && truth[f(row, 0).p][o] == SumTo(Chunks(truth, f, row, data, o), data)
  }

  /** So is Q, of the chunks weighted. */
  ghost predicate QSums(truth: Truth, f: Layout, row: nat, weights: seq<int>, o: nat) {
    && (forall i: nat :: i < |weights| ==> f(row, i).data < |truth| && o < |truth[f(row, i).data]|)
    && f(row, 0).q.Some? && f(row, 0).q.value < |truth| && o < |truth[f(row, 0).q.value]|
    && truth[f(row, 0).q.value][o] == SumTo(Weighted(Chunks(truth, f, row, |weights|, o), weights), |weights|)
  }

  lemma {:induction false} Raid6Row(layout: nat, n: nat, truth: Truth, f: Layout, row: nat, o: nat)
    requires n >= 3 && |truth| == n && Raid6LayoutKnown(layout) && RowConsistent(RowOf(layout, n, row), truth, o)
    requires forall i: nat :: i < n - 2 ==> f(row, i) == Raid6Map(layout, n, row, i)
    ensures PSums(truth, f, row, n - 2, o) && QSums(truth, f, row, Weights(layout, n, row), o)
  {
    var r := RowOf(layout, n, row);
    assert r.weights == Weights(layout, n, row);
    RowSums(r, truth, f, row, o);
  }

  lemma {:induction false} RowSums(r: Row, truth: Truth, f: Layout, row: nat, o: nat)
    requires RowConsistent(r, truth, o) && |r.data| == |r.weights| && f(row, 0).p == r.p && f(row, 0).q == Some(r.q)
    requires forall i: nat :: i < |r.data| ==> f(row, i).data == r.data[i]
    ensures PSums(truth, f, row, |r.data|, o) && QSums(truth, f, row, r.weights, o)
  {
    assert r.Column(All(truth), o) == Chunks(truth, f, row, |r.data|, o);
  }

  lemma {:induction false} Raid5Row(layout: nat, n: nat, truth: Truth, f: Layout, row: nat, o: nat)
    requires n >= 2 && |truth| == n && RowConsistent5(RowOf5(layout, n, row), truth, o)
    requires forall i: nat :: i < n - 1 ==> f(row, i) == Raid5Map(layout, n, row, i)
    ensures PSums(truth, f, row, n - 1, o)
  {
    var r := RowOf5(layout, n, row);
    forall i: nat | i < n - 1 ensures f(row, i).data == r.data[i] {
    }
    assert DataBytes(r, truth, o) == Chunks(truth, f, row, n - 1, o);
  }

  /** The parity of a RAID6 array: at every byte of every row. */
  lemma {:induction false} Raid6Syndromes(a: MdArray, truth: Truth, bytes: seq<byte>, f: Layout, row: nat, w: nat)
    requires a.level == 6 && GoodParity(a) && HoldsStriped(a, truth, bytes) && LaidBy(a, f)
    requires w < a.chunk && (row + 1) * a.chunk <= a.perMember
    ensures row * a.chunk + w >= 0 && PSums(truth, f, row, |a.slots| - 2, row * a.chunk + w)
    ensures QSums(truth, f, row, Weights(a.layout, |a.slots|, row), row * a.chunk + w)
  {
    var n, o := |a.slots|, row * a.chunk + w;
    RowByte(a, row, w);
    forall i: nat | i < n - 2 ensures f(row, i) == Raid6Map(a.layout, n, row, i) {
      RuledPlace(a, f, row, i);
    }
    RowHeld(a, truth, bytes, o);
    Raid6Row(a.layout, n, truth, f, row, o);
  }

  /** And of a RAID4 or RAID5 array. */
  lemma {:induction false} Raid5Syndrome(a: MdArray, truth: Truth, bytes: seq<byte>, f: Layout, row: nat, w: nat)
    requires a.level in {4, 5} && GoodParity(a) && HoldsStriped(a, truth, bytes) && LaidBy(a, f)
    requires w < a.chunk && (row + 1) * a.chunk <= a.perMember
    ensures row * a.chunk + w >= 0 && PSums(truth, f, row, |a.slots| - 1, row * a.chunk + w)
  {
    var n, o, layout := |a.slots|, row * a.chunk + w, EffectiveLayout(a.ToStriping());
    RowByte(a, row, w);
    forall i: nat | i < n - 1 ensures f(row, i) == Raid5Map(layout, n, row, i) {
      RuledPlace(a, f, row, i);
    }
    RowHeld(a, truth, bytes, o);
    Raid5Row(layout, n, truth, f, row, o);
  }

  // ----- level 10

  /** The array is placed by the word its superblock records. */
  ghost predicate Worded(a: MdArray, stride: nat) {
    && a.level == 10 && GoodRaid10(a) && WordOk(a.layout, |a.slots|) && StrideOf(a.layout, Rows(a), stride)
    && a.raid10 == Some(Raid10Of(a.layout, Rows(a)))
  }

  /** Byte `w` of every copy of chunk `c` is where the word's rules have the copy. */
  lemma {:induction false} CopyOnDevice(a: MdArray, truth: Truth, bytes: seq<byte>, f: Copying, stride: nat, c: nat,
                                        i: nat, k: nat, w: nat)
    requires Worded(a, stride) && HoldsStriped(a, truth, bytes) && CopyRules(a.layout, |a.slots|, stride, f)
    requires i < Near(a.layout) && k < Far(a.layout) && w < a.chunk && (c + 1) * a.chunk <= a.size
    ensures OnDevice(a.slots, f(c, i, k).slot, f(c, i, k).row * a.chunk + w, bytes, c * a.chunk + w)
  {
    var chunks: nat :| a.size == chunks * a.chunk && HoldsRaid10(a.ToStriping(), truth, bytes, Rows(a), chunks);
    CountBelow(c, chunks, a.chunk, w);
    CopyPlaced(a, f, stride, c, i, k);
    CopyHeld(a, truth, bytes, chunks, f(c, i, k), c, w);
  }

  lemma {:induction false} CopyPlaced(a: MdArray, f: Copying, stride: nat, c: nat, i: nat, k: nat)
    requires Worded(a, stride) && CopyRules(a.layout, |a.slots|, stride, f) && i < Near(a.layout) && k < Far(a.layout)
    requires c < ArrayChunks(a.raid10.value, |a.slots|)
    ensures f(c, i, k) in Copies(a.raid10.value, |a.slots|, c) && f(c, i, k).slot < |a.slots|
    ensures 0 <= f(c, i, k).row < Rows(a)
  {
    var d, g := |a.slots|, a.raid10.value;
    Raid10Determined(a.layout, d, Rows(a), stride, f, c, i, k);
    WordRead(a.layout, d, Rows(a), stride);
    CopyLocated(g, d, Rows(a), c, i, k);
    NearCopiesMember(g, d, c, g.near, f(c, i, k));
  }

  lemma {:induction false} CopyHeld(a: MdArray, truth: Truth, bytes: seq<byte>, chunks: nat, x: Copy, c: nat, w: nat)
    requires a.raid10.Some? && a.chunk > 0 && |bytes| == a.size == chunks * a.chunk && Agrees(View(a.slots), truth)
    requires HoldsRaid10(a.ToStriping(), truth, bytes, Rows(a), chunks) && c < chunks && w < a.chunk
    requires x in Copies(a.raid10.value, |a.slots|, c) && x.slot < |a.slots| && 0 <= x.row < Rows(a)
    requires 0 <= c * a.chunk + w < chunks * a.chunk
    ensures OnDevice(a.slots, x.slot, x.row * a.chunk + w, bytes, c * a.chunk + w)
  {
    ChunkBelow(x.row, Rows(a), 1, 0, a.chunk, w);
    assert CopiesStored(a.raid10.value, a.chunk, truth, bytes, c, w);
    StoredOnDevice(a.slots, truth, x.slot, x.row * a.chunk + w, bytes, c * a.chunk + w);
  }

  lemma {:induction false} CountBelow(c: nat, chunks: nat, chunk: nat, w: nat)
    requires (c + 1) * chunk <= chunks * chunk && w < chunk
    ensures c < chunks && 0 <= c * chunk + w < chunks * chunk
  {
    MulMonotone(0, c, chunk);
    assert (c + 1) * chunk == c * chunk + chunk;
    if chunks <= c { MulMonotone(chunks, c, chunk); }
  }

  // ----- linear and RAID0

  lemma {:induction false} ZoneFound(zones: seq<Zone>, i: nat, pos: int)
    requires InOrder(zones) && i < |zones| && InZone(zones[i], pos)
    ensures FindZone(zones, pos) == i
  {
    if i > 0 {
      assert zones[0].start + zones[0].len <= zones[i].start;
      ZoneFound(zones[1..], i - 1, pos);
    }
  }

  /** Where member `s` starts in a linear array: after all the members before it. */
  lemma {:induction false} LinearZone(zones: seq<Zone>, lens: seq<nat>, start: int, k: nat, s: nat)
    requires EndToEnd(zones, lens, start, k) && k + s < |lens|
    ensures s < |zones| && zones[s] == Zone(start + Sum(lens[k..k + s]), lens[k + s], 0, [k + s])
  {
    if s == 0 {
      assert lens[k..k] == [];
    } else {
      LinearZone(zones[1..], lens, start + lens[k], k + 1, s - 1);
      assert lens[k..k + s][1..] == lens[k + 1..k + s];
    }
  }

  /** Byte `o` of member `s` of a linear array comes after all the members before it. */
  lemma {:induction false} LinearOnDevice(a: MdArray, sizes: seq<nat>, truth: Truth, bytes: seq<byte>, s: nat, o: nat)
    requires a.level == -1 && GoodLinear(a, sizes) && HoldsZoned(a, truth, bytes) && s < |sizes| && o < sizes[s]
    ensures OnDevice(a.slots, s, o, bytes, Sum(sizes[..s]) + o)
  {
    LinearZone(a.zones, sizes, 0, 0, s);
    EndToEndInOrder(a.zones, sizes, 0, 0);
    assert sizes[0..s] == sizes[..s];
    ZonedHeld(a, sizes, truth, bytes, s, s, o, Sum(sizes[..s]) + o);
  }

  /** A byte of a zone is where the zone's place for it is. */
  lemma {:induction false} ZonedHeld(a: MdArray, sizes: seq<nat>, truth: Truth, bytes: seq<byte>, i: nat, m: nat,
                                     o: nat, pos: nat)
    requires HoldsZoned(a, truth, bytes) && InOrder(a.zones) && SizesOf(a.slots, sizes)
    requires i < |a.zones| && InZone(a.zones[i], pos) && pos < a.size && m < |sizes| && o < sizes[m]
    requires var z := a.zones[i];
      || (a.level == -1 && z.slots == [m] && z.devStart + (pos - z.start) == o)
      || (a.level == 0 && a.chunk > 0 && z.slots != [] && ZonePlace(z, a.chunk, a.Original(), pos) == MemberByte(m, o))
    ensures OnDevice(a.slots, m, o, bytes, pos)
  {
    ZoneFound(a.zones, i, pos);
    assert ZonedByteStored(a, truth, bytes, pos);
    assert View(a.slots)[m] == Some(truth[m]);
    StoredOnDevice(a.slots, truth, m, o, bytes, pos);
  }

  /** Chunk `c` of a zone is chunk `j` of its row `r`. In layout 1 the chunks of the whole array are
      dealt round the zone's members, array chunk `t * width + j` to its member number `j`; in any
      other layout those of the zone are, from its lowest member on. */
  ghost predicate Dealt(a: MdArray, z: Zone, c: nat, r: nat, j: nat) {
    && j < |z.slots| && r * |z.slots| <= c < (r + 1) * |z.slots|
    && if a.layout == 1 then exists t: int :: (t * |z.slots| + j) * a.chunk == z.start + c * a.chunk
       else c == r * |z.slots| + j
  }

  lemma {:induction false} ZoneChunk(z: Zone, chunk: nat, original: bool, c: nat, w: nat)
    requires chunk > 0 && z.slots != [] && z.start % chunk == 0 && w < chunk
    ensures ZonePlace(z, chunk, original, z.start + c * chunk + w) ==
      MemberByte(z.slots[(c + if original then z.start / chunk else 0) % |z.slots|],
                 z.devStart + c / |z.slots| * chunk + w)
  {
    MulMonotone(0, c, chunk);
    DivModUnique(c * chunk + w, chunk, c, w);
    PlacePick(z, chunk, original, z.start + c * chunk + w);
  }

  lemma {:induction false} DealtTo(a: MdArray, z: Zone, c: nat, r: nat, j: nat)
    requires a.chunk > 0 && z.start % a.chunk == 0 && Dealt(a, z, c, r, j)
    ensures (c + if a.layout == 1 then z.start / a.chunk else 0) % |z.slots| == j && c / |z.slots| == r
  {
    var k := |z.slots|;
    DivModUnique(c, k, r, c - r * k);
    if a.layout == 1 {
      var t: int :| (t * k + j) * a.chunk == z.start + c * a.chunk;
      DivModRecompose(z.start, a.chunk);
      assert (t * k + j) * a.chunk == (z.start / a.chunk + c) * a.chunk;
      SameFactor(t * k + j, z.start / a.chunk + c, a.chunk);
      DivModUnique(c + z.start / a.chunk, k, t, j);
    }
  }

  lemma {:induction false} SameFactor(x: int, y: int, m: int)
    requires m > 0 && x * m == y * m
    ensures x == y
  {
    DivModUnique(x * m, m, x, 0);
    DivModUnique(y * m, m, y, 0);
  }

  /** Byte `w` of a chunk of a zone is on the member it is dealt to, its row's chunks into the zone there. */
  lemma {:induction false} ZoneOnDevice(a: MdArray, sizes: seq<nat>, truth: Truth, bytes: seq<byte>, i: nat, c: nat,
                                        r: nat, j: nat, w: nat)
    requires a.level == 0 && GoodRaid0(a, sizes) && HoldsZoned(a, truth, bytes) && i < |a.zones| && w < a.chunk
    requires (c + 1) * a.chunk <= a.zones[i].len && Dealt(a, a.zones[i], c, r, j)
    ensures OnDevice(a.slots, a.zones[i].slots[j], a.zones[i].devStart + r * a.chunk + w, bytes,
                     a.zones[i].start + c * a.chunk + w)
  {
    var z := a.zones[i];
    var pos := z.start + c * a.chunk + w;
    ChainInOrder(a.zones, sizes, a.chunk, 0, 0);
    ChainZone(a.zones, sizes, a.chunk, 0, 0, i);
    MulMonotone(0, c, a.chunk);
    assert (c + 1) * a.chunk == c * a.chunk + a.chunk;
    DealtPlace(a, z, c, r, j, w);
    ZoneInside(a, sizes, i, pos);
    ZonedHeld(a, sizes, truth, bytes, i, z.slots[j], z.devStart + r * a.chunk + w, pos);
  }

  lemma {:induction false} DealtPlace(a: MdArray, z: Zone, c: nat, r: nat, j: nat, w: nat)
    requires a.chunk > 0 && z.slots != [] && z.start % a.chunk == 0 && w < a.chunk && Dealt(a, z, c, r, j)
    ensures ZonePlace(z, a.chunk, a.Original(), z.start + c * a.chunk + w) ==
      MemberByte(z.slots[j], z.devStart + r * a.chunk + w)
  {
    ZoneChunk(z, a.chunk, a.Original(), c, w);
    DealtTo(a, z, c, r, j);
  }

  lemma {:induction false} ZoneInside(a: MdArray, sizes: seq<nat>, i: nat, pos: nat)
    requires GoodRaid0(a, sizes) && i < |a.zones| && InZone(a.zones[i], pos) && pos < a.size
    requires InOrder(a.zones) && a.zones[i].slots != []
    ensures var m := ZonePlace(a.zones[i], a.chunk, a.Original(), pos);
      m.slot < |sizes| && 0 <= m.off < sizes[m.slot]
  {
    ZoneFound(a.zones, i, pos);
    ZonedRun(a, sizes, pos);
    assert RunOn(a, sizes, pos, 0);
  }

  /** The zones end with the array, and each starts on a chunk over its members in order of slot. */
  lemma {:induction false} ChainZone(zones: seq<Zone>, sizes: seq<nat>, chunk: nat, start: int, prev: int, i: nat)
    requires Chain(zones, sizes, chunk, start, prev) && i < |zones|
    ensures zones[i].slots != [] && zones[i].start % chunk == 0 && Ascending(zones[i].slots)
    ensures zones[i].start + zones[i].len <= start + TotalLen(zones)
  {
    LenPositive(zones[0], sizes, chunk);
    ChainLength(zones[1..], sizes, chunk, start + zones[0].len, prev + Depth(zones[0]));
    if i > 0 { ChainZone(zones[1..], sizes, chunk, start + zones[0].len, prev + Depth(zones[0]), i - 1); }
  }

  lemma {:induction false} ChainLength(zones: seq<Zone>, sizes: seq<nat>, chunk: nat, start: int, prev: int)
    requires Chain(zones, sizes, chunk, start, prev)
    ensures TotalLen(zones) >= 0
  {
    if zones != [] {
      LenPositive(zones[0], sizes, chunk);
      ChainLength(zones[1..], sizes, chunk, start + zones[0].len, prev + Depth(zones[0]));
    }
  }
}
