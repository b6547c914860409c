/** Writing an array out over its members, with parity or in copies, and reading it back with
    members lost. */
module Encoding {
  import opened Arithmetic
  import opened ChunkRead
  import opened GaloisField
  import opened ParityLayout
  import opened Raid10Placement
  import opened Raid5Recovery
  import opened Raid6Recovery
  import opened Raid6Survival
  import opened Wrappers

  // ----- one row

  function IndexOf(d: seq<nat>, m: nat): (i: nat)
    ensures i <= |d| && (i < |d| ==> d[i] == m)
  {
    if d == [] then 0 else if d[0] == m then 0 else 1 + IndexOf(d[1..], m)
  }

  lemma {:induction false} IndexOfDistinct(d: seq<nat>, i: nat)
    requires i < |d| && forall a, b :: 0 <= a < b < |d| ==> d[a] != d[b]
    ensures IndexOf(d, d[i]) == i
  {
    if i > 0 { IndexOfDistinct(d[1..], i - 1); }
  }

  /** What member `m` of a RAID6 row holds when the row's data is `col`. */
  function Cell6(r: Row, col: seq<byte>, m: nat): byte
    requires r.Valid() && |col| == |r.data|
  {
    if m == r.p then SumTo(col, |col|)
    else if m == r.q then SumTo(Weighted(col, r.weights), |col|)
    else if IndexOf(r.data, m) < |col| then col[IndexOf(r.data, m)] else 0
  }

  /** What member `m` of a RAID4 or 5 row holds. */
  function Cell5(r: Row5, col: seq<byte>, m: nat): byte
    requires |col| == |r.data|
  {
    if m == r.p then SumTo(col, |col|)
    else if IndexOf(r.data, m) < |col| then col[IndexOf(r.data, m)] else 0
  }

  lemma {:induction false} Data6(r: Row, col: seq<byte>, i: nat, n: nat)
    requires RowIn(r, n) && |col| == |r.data| && i < |col|
    ensures Cell6(r, col, r.data[i]) == col[i]
  {
    IndexOfDistinct(r.data, i);
  }

  lemma {:induction false} Data5(r: Row5, col: seq<byte>, i: nat, n: nat)
    requires RowIs5(r, n) && |col| == |r.data| && i < |col|
    ensures Cell5(r, col, r.data[i]) == col[i]
  {
    IndexOfDistinct(r.data, i);
  }

  // ----- the array

  /** Byte `o` of every data chunk of its row. */
  function DataAt(s: Striping, n: nat, bytes: seq<byte>, o: nat): (col: seq<byte>)
    requires Mappable(s.level, s.layout, n) && s.chunk > 0
    ensures |col| == DataCount(s, n)
  {
    DivNonNegative(o, s.chunk);
    seq(DataCount(s, n), i => ByteAt(bytes, (o / s.chunk * DataCount(s, n) + i) * s.chunk + o % s.chunk))
  }

  /** What member `m` holds at byte `o`. */
  function CellAt(s: Striping, n: nat, bytes: seq<byte>, m: nat, o: nat): byte
    requires Mappable(s.level, s.layout, n) && s.chunk > 0
  {
    DivNonNegative(o, s.chunk);
    if s.level == LEVEL_RAID6 then Cell6(RowOf(s.layout, n, o / s.chunk), DataAt(s, n, bytes, o), m)
    else Cell5(RowOf5(EffectiveLayout(s), n, o / s.chunk), DataAt(s, n, bytes, o), m)
  }

  /** The members, in `rows` rows. */
  function Encode(s: Striping, n: nat, bytes: seq<byte>, rows: nat): (truth: Truth)
    requires Mappable(s.level, s.layout, n) && s.chunk > 0
    ensures |truth| == n && forall m :: 0 <= m < n ==> |truth[m]| == rows * s.chunk
    ensures forall m, o :: 0 <= m < n && 0 <= o < rows * s.chunk ==> truth[m][o] == CellAt(s, n, bytes, m, o)
  {
    MulMonotone(0, rows, s.chunk);
    seq(n, m requires 0 <= m < n => seq(rows * s.chunk, o requires 0 <= o => CellAt(s, n, bytes, m, o)))
  }

  /** The members hold the array's bytes where the layout puts them. */
  lemma {:induction false} DataEncoded(s: Striping, n: nat, bytes: seq<byte>, rows: nat, k: nat, w: nat)
    requires Mappable(s.level, s.layout, n) && s.chunk > 0 && k < rows * DataCount(s, n) && w < s.chunk
    ensures ChunkStored(s, Encode(s, n, bytes, rows), bytes, k, w)
  {
    var data, o := DataCount(s, n), RowOffset(s, n, k, w);
    RowOfOffset(s, n, k, w, rows);
    DivModUnique(o, s.chunk, StripeOf(s, n, k), w);
    DivModRecompose(k, data);
    DataMemberInArray(s, n, k);
    var i := NumberOf(s, n, k);
    assert DataAt(s, n, bytes, o)[i] == ByteAt(bytes, k * s.chunk + w);
    MemberHolds(s, n, bytes, o, i);
  }

  lemma {:induction false} MemberHolds(s: Striping, n: nat, bytes: seq<byte>, o: nat, i: nat)
    requires Mappable(s.level, s.layout, n) && s.chunk > 0 && i < DataCount(s, n)
    ensures o / s.chunk >= 0
    ensures s.level == LEVEL_RAID6 ==>
      CellAt(s, n, bytes, RowOf(s.layout, n, o / s.chunk).data[i], o) == DataAt(s, n, bytes, o)[i]
    ensures s.level != LEVEL_RAID6 ==>
      CellAt(s, n, bytes, RowOf5(EffectiveLayout(s), n, o / s.chunk).data[i], o) == DataAt(s, n, bytes, o)[i]
  {
    DivNonNegative(o, s.chunk);
    if s.level == LEVEL_RAID6 {
      RowOfMatches(s.layout, n, o / s.chunk);
      Data6(RowOf(s.layout, n, o / s.chunk), DataAt(s, n, bytes, o), i, n);
    } else {
      RowOf5Is(EffectiveLayout(s), n, o / s.chunk);
      Data5(RowOf5(EffectiveLayout(s), n, o / s.chunk), DataAt(s, n, bytes, o), i, n);
    }
  }

  /** And the parity of every row. */
  lemma {:induction false} ParityEncoded(s: Striping, n: nat, bytes: seq<byte>, rows: nat, o: nat)
    requires Mappable(s.level, s.layout, n) && s.chunk > 0 && o < rows * s.chunk
    ensures ParityStored(s, Encode(s, n, bytes, rows), o)
  {
    var truth, col := Encode(s, n, bytes, rows), DataAt(s, n, bytes, o);
    DivNonNegative(o, s.chunk);
    if s.level == LEVEL_RAID6 {
      var r := RowOf(s.layout, n, o / s.chunk);
      RowOfMatches(s.layout, n, o / s.chunk);
      forall i | 0 <= i < |col| ensures r.Column(All(truth), o)[i] == col[i] {
        MemberHolds(s, n, bytes, o, i);
      }
      assert r.Column(All(truth), o) == col;
    } else {
      var r := RowOf5(EffectiveLayout(s), n, o / s.chunk);
      RowOf5Is(EffectiveLayout(s), n, o / s.chunk);
      forall i | 0 <= i < |col| ensures DataBytes(r, truth, o)[i] == col[i] {
        MemberHolds(s, n, bytes, o, i);
      }
      assert DataBytes(r, truth, o) == col;
    }
  }

  /** Any bytes can be written out over any legal array. */
  lemma {:induction false} EncodeHolds(s: Striping, n: nat, bytes: seq<byte>, rows: nat)
    requires s.raid10.None? && Legal(s, n)
    ensures HoldsParity(s, Encode(s, n, bytes, rows), bytes, rows)
  {
    var truth := Encode(s, n, bytes, rows);
    forall k: nat, w: nat | k < rows * DataCount(s, n) && w < s.chunk ensures ChunkStored(s, truth, bytes, k, w) {
      DataEncoded(s, n, bytes, rows, k, w);
    }
    forall o | 0 <= o < rows * s.chunk ensures ParityStored(s, truth, o) {
      ParityEncoded(s, n, bytes, rows, o);
    }
  }

  // ----- copies

  /** What member `m` of a RAID10 array holds at byte `o`: the chunk its row is a copy of. */
  function CopyByte(g: Raid10, n: nat, chunk: nat, bytes: seq<byte>, m: nat, o: nat): byte
    requires n > 0 && chunk > 0
  {
    if g.near >= 1 && g.far >= 1 && g.stride >= 1 then
      ByteAt(bytes, Locate(g, n, Copy(m, o / chunk)).chunk * chunk + o % chunk)
    else 0
  }

  function EncodeCopies(g: Raid10, n: nat, chunk: nat, bytes: seq<byte>, devChunks: nat): (truth: Truth)
    requires n > 0 && chunk > 0
    ensures |truth| == n && forall m :: 0 <= m < n ==> |truth[m]| == devChunks * chunk
    ensures forall m, o :: 0 <= m < n && 0 <= o < devChunks * chunk ==>
      truth[m][o] == CopyByte(g, n, chunk, bytes, m, o)
  {
    MulMonotone(0, devChunks, chunk);
    seq(n, m requires 0 <= m < n => seq(devChunks * chunk, o requires 0 <= o => CopyByte(g, n, chunk, bytes, m, o)))
  }

  lemma {:induction false} CopyOrigin(g: Raid10, n: nat, devChunks: nat, k: nat, c: Copy)
    requires n > 0 && Fits(g, n, devChunks) && k < ArrayChunks(g, n) && c in Copies(g, n, k)
    ensures c.slot < n && 0 <= c.row < devChunks && g.stride >= 1 && Locate(g, n, c).chunk == k
  {
    NearCopiesMember(g, n, k, g.near, c);
    var i: nat, f: nat :| i < g.near && f < g.far && c == CopyAt(g, n, k, i, f);
    CopyLocated(g, n, devChunks, k, i, f);
  }

  lemma {:induction false} OffsetInMember(row: nat, chunk: nat, w: nat, devChunks: nat)
    requires row < devChunks && w < chunk
    ensures 0 <= row * chunk + w < devChunks * chunk && (row * chunk + w) / chunk == row
    ensures (row * chunk + w) % chunk == w
  {
    DivModUnique(row * chunk + w, chunk, row, w);
    MulMonotone(row + 1, devChunks, chunk);
    assert (row + 1) * chunk == row * chunk + chunk;
    MulMonotone(0, row, chunk);
  }

  lemma {:induction false} CopyEncoded(g: Raid10, n: nat, chunk: nat, bytes: seq<byte>, devChunks: nat, k: nat, w: nat,
                                       c: Copy)
    requires n > 0 && chunk > 0 && Fits(g, n, devChunks) && k < ArrayChunks(g, n) && w < chunk && c in Copies(g, n, k)
    ensures StoredAt(EncodeCopies(g, n, chunk, bytes, devChunks), c.slot, c.row * chunk + w, bytes, k * chunk + w)
  {
    CopyOrigin(g, n, devChunks, k, c);
    OffsetInMember(c.row, chunk, w, devChunks);
    CopyByteIs(g, n, chunk, bytes, c, c.row * chunk + w, k, w);
  }

  lemma {:induction false} CopyByteIs(g: Raid10, n: nat, chunk: nat, bytes: seq<byte>, c: Copy, o: nat, k: nat, w: nat)
    requires n > 0 && chunk > 0 && g.near >= 1 && g.far >= 1 && g.stride >= 1 && o / chunk == c.row && o % chunk == w
    requires Locate(g, n, c).chunk == k
    ensures CopyByte(g, n, chunk, bytes, c.slot, o) == ByteAt(bytes, k * chunk + w)
  {
    assert Copy(c.slot, o / chunk) == c;
  }

  /** Any bytes can be written out in copies over any layout that fits. */
  lemma {:induction false} EncodeCopiesHolds(s: Striping, n: nat, bytes: seq<byte>, devChunks: nat, chunks: nat)
    requires s.raid10.Some? && Legal(s, n) && Fits(s.raid10.value, n, devChunks)
    requires chunks <= ArrayChunks(s.raid10.value, n)
    ensures HoldsRaid10(s, EncodeCopies(s.raid10.value, n, s.chunk, bytes, devChunks), bytes, devChunks, chunks)
  {
    var g := s.raid10.value;
    var truth := EncodeCopies(g, n, s.chunk, bytes, devChunks);
    forall k: nat, w: nat | k < chunks && w < s.chunk ensures CopiesStored(g, s.chunk, truth, bytes, k, w) {
      forall c | c in Copies(g, n, k) ensures StoredAt(truth, c.slot, c.row * s.chunk + w, bytes, k * s.chunk + w) {
        CopyEncoded(g, n, s.chunk, bytes, devChunks, k, w, c);
      }
    }
  }

  // ----- lost members

  /** The members with some of them gone. */
  function Without(truth: Truth, lost: set<nat>): (ms: Members)
    ensures |ms| == |truth| && forall m :: 0 <= m < |ms| ==> ms[m] == if m in lost then None else Some(truth[m])
  {
    seq(|truth|, m requires 0 <= m < |truth| => if m in lost then None else Some(truth[m]))
  }

  lemma {:induction false} LostCount(truth: Truth, lost: set<nat>)
    ensures |AbsentSlots(Without(truth, lost))| <= |lost|
  {
    assert AbsentSlots(Without(truth, lost)) <= lost;
    SubsetSize(AbsentSlots(Without(truth, lost)), lost);
  }

  /** Written out and read back with as many members lost as the level has parity for, every byte
      is what was written: any bytes, any layout, any members lost. */
  lemma {:induction false} LostMembersReadBack(s: Striping, n: nat, bytes: seq<byte>, rows: nat, lost: set<nat>,
      k: nat, w: nat)
    requires s.raid10.None? && Legal(s, n) && k < rows * DataCount(s, n) && w < s.chunk
    requires |lost| <= if s.level == LEVEL_RAID6 then 2 else 1
    requires s.level == LEVEL_RAID6 ==> n <= MemberLimit(s.layout)
    ensures var ms := Without(Encode(s, n, bytes, rows), lost);
      ParityReadable(s, ms, k, w, 1) && ParityByte(s, ms, k, w) == ByteAt(bytes, k * s.chunk + w)
  {
    var truth := Encode(s, n, bytes, rows);
    var ms := Without(truth, lost);
    LostCount(truth, lost);
    EncodeHolds(s, n, bytes, rows);
    assert AllReach(ms, rows * s.chunk);
    ParitySurvives(s, ms, rows, k, w, 1);
    ParityByteExact(s, ms, truth, bytes, rows, k, w);
  }

  /** In copies, every byte reads back as long as one copy of each of the first `n` chunks is left. */
  lemma {:induction false} LostCopiesReadBack(s: Striping, n: nat, bytes: seq<byte>, devChunks: nat, lost: set<nat>,
                                              k: nat, w: nat)
    requires s.raid10.Some? && Legal(s, n) && Fits(s.raid10.value, n, devChunks) && k < ArrayChunks(s.raid10.value, n)
    requires w < s.chunk
    requires SurvivesRaid10(s.raid10.value, Without(EncodeCopies(s.raid10.value, n, s.chunk, bytes, devChunks), lost))
    ensures var ms := Without(EncodeCopies(s.raid10.value, n, s.chunk, bytes, devChunks), lost);
      ChunkReadable(s, ms, k, w, 1) && ChunkByte(s, ms, k, w, 1, 0) == ByteAt(bytes, k * s.chunk + w)
  {
    var truth := EncodeCopies(s.raid10.value, n, s.chunk, bytes, devChunks);
    var ms := Without(truth, lost);
    EncodeCopiesHolds(s, n, bytes, devChunks, ArrayChunks(s.raid10.value, n));
    assert AllReach(ms, devChunks * s.chunk);
    Raid10Survives(s, ms, devChunks, k, w, 1);
    Raid10ByteExact(s, ms, truth, bytes, devChunks, ArrayChunks(s.raid10.value, n), k, w, 1, 0);
  }
}
