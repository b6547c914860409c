/** Reading a chunk of a RAID4, 5, 6 or 10 array through its members, missing ones included. */
module ChunkRead {
  import opened Arithmetic
  import opened GaloisField
  import opened ParityLayout
  import opened Raid10Placement
  import opened Raid5Recovery
  import opened Raid6Recovery
  import opened Raid6Survival
  import opened Wrappers

  /** How an array places its chunks over its members. */
  datatype Striping = Striping(level: int, layout: nat, chunk: nat, raid10: Option<Raid10>)

  /** What every caller of the chunk reader passes. */
  ghost predicate Legal(s: Striping, n: nat) {
    && n > 0 && s.chunk > 0
    && (s.raid10.Some? ==> s.raid10.value.near >= 1 && s.raid10.value.far >= 1)
    && (s.raid10.None? ==> Mappable(s.level, s.layout, n))
  }

  /** The layout a parity level is read with: RAID4 is parity-last whatever it records. */
  function EffectiveLayout(s: Striping): nat {
    if s.level == LEVEL_RAID4 then PARITY_LAST else s.layout
  }

  /** Data chunks in a row. */
  function DataCount(s: Striping, n: nat): nat
    requires n >= ParityCount(s.level)
  {
    n - ParityCount(s.level)
  }

  /** The row of chunk `k`, and its number within the row. */
  function StripeOf(s: Striping, n: nat, k: nat): nat
    requires n > ParityCount(s.level)
  {
    k / DataCount(s, n)
  }

  function NumberOf(s: Striping, n: nat, k: nat): (i: nat)
    requires n > ParityCount(s.level)
    ensures i < DataCount(s, n)
  {
    k % DataCount(s, n)
  }

  /** The data member of chunk `k` of a parity array. */
  function DataMember(s: Striping, n: nat, k: nat): nat
    requires Mappable(s.level, s.layout, n)
  {
    ParityMap(s.level, EffectiveLayout(s), n, StripeOf(s, n, k), NumberOf(s, n, k)).data
  }

  /** Byte `within` of chunk `k`, as an offset into each member of its row. */
  function RowOffset(s: Striping, n: nat, k: nat, within: nat): int
    requires n > ParityCount(s.level)
  {
    StripeOf(s, n, k) * s.chunk + within
  }

  // ----- RAID10

  /** A copy's bytes are there to be read. */
  predicate CopyGood(ms: Members, c: Copy, chunk: nat, within: nat, len: nat) {
    Present(ms, c.slot) && 0 <= c.row * chunk + within && c.row * chunk + within + len <= |ms[c.slot].value|
  }

  /** The first copy that can be read, or the number of copies. */
  function FirstGood(ms: Members, copies: seq<Copy>, chunk: nat, within: nat, len: nat): (i: nat)
    ensures i <= |copies|
    ensures i < |copies| ==> CopyGood(ms, copies[i], chunk, within, len)
  {
    if copies == [] then 0
    else if CopyGood(ms, copies[0], chunk, within, len) then 0
    else 1 + FirstGood(ms, copies[1..], chunk, within, len)
  }

  lemma {:induction false} FirstGoodFinds(ms: Members, copies: seq<Copy>, chunk: nat, within: nat, len: nat, c: Copy)
    requires c in copies && CopyGood(ms, c, chunk, within, len)
    ensures FirstGood(ms, copies, chunk, within, len) < |copies|
  {
    if !CopyGood(ms, copies[0], chunk, within, len) {
      assert c in copies[1..];
      FirstGoodFinds(ms, copies[1..], chunk, within, len, c);
    }
  }

  /** Read one copy, if it is there. */
  method ReadCopy(ms: Members, c: Copy, chunk: nat, within: nat, buf: array<byte>, lo: nat, len: nat) returns (ok: bool)
    requires c.slot < |ms| && lo + len <= buf.Length && 0 <= c.row
    modifies buf
    ensures ok <==> CopyGood(ms, c, chunk, within, len)
    ensures ok ==> forall j :: lo <= j < lo + len ==> buf[j] == Visible(ms, c.slot, c.row * chunk + within + (j - lo))
    ensures SameOutside(buf, lo, len)
  {
    var r := ReadMember(ms, c.slot, c.row * chunk + within, buf, lo, len);
    ok := r.Read?;
  }

  lemma {:induction false} CopiesLegal(g: Raid10, d: nat, c: nat, n: nat)
    requires d > 0
    ensures forall x :: x in NearCopies(g, d, c, n) ==> x.slot < d && x.row >= 0
  {
    forall x | x in NearCopies(g, d, c, n)
      ensures x.slot < d && x.row >= 0
    {
      NearCopiesMember(g, d, c, n, x);
      var i: nat, k: nat :| i < n && k < g.far && x == CopyAt(g, d, c, i, k);
      RowNonNegative(g, d, c, i, k);
    }
  }

  lemma {:induction false} RowNonNegative(g: Raid10, d: nat, c: nat, i: nat, k: nat)
    requires d > 0
    ensures CopyAt(g, d, c, i, k).row >= 0
  {
    DivNonNegative(c * g.near + i, d);
    var row := (c * g.near + i) / d;
    MulMonotone(0, row, g.far);
    MulMonotone(0, k, g.stride);
  }

  /** The primary copy first, then the others in order. */
  method ReadRaid10(g: Raid10, ms: Members, chunk: nat, k: nat, within: nat, buf: array<byte>, lo: nat, len: nat)
    returns (ok: bool)
    requires |ms| > 0 && g.near >= 1 && g.far >= 1 && lo + len <= buf.Length
    modifies buf
    ensures
      var copies := Copies(g, |ms|, k);
      var i := FirstGood(ms, copies, chunk, within, len);
      && (ok <==> i < |copies|)
      && (ok ==> forall j :: lo <= j < lo + len ==>
            buf[j] == Visible(ms, copies[i].slot, copies[i].row * chunk + within + (j - lo)))
    ensures SameOutside(buf, lo, len)
  {
    CopiesLegal(g, |ms|, k, g.near);
    PrimaryFirst(g, |ms|, k);
    ghost var all := Copies(g, |ms|, k);
    assert all[0] in all;
    ok := ReadCopy(ms, Primary(g, |ms|, k), chunk, within, buf, lo, len);
    if ok { return; }
    var copies := ComputeCopies(g, |ms|, k);
    assert FirstGood(ms, copies, chunk, within, len) == 1 + FirstGood(ms, copies[1..], chunk, within, len);
    ok := ReadFirst(ms, copies[1..], chunk, within, buf, lo, len);
  }

  /** The first of these copies that can be read. */
  method ReadFirst(ms: Members, copies: seq<Copy>, chunk: nat, within: nat, buf: array<byte>, lo: nat, len: nat)
    returns (ok: bool)
    requires lo + len <= buf.Length && forall c :: c in copies ==> c.slot < |ms| && c.row >= 0
    modifies buf
    ensures
      var i := FirstGood(ms, copies, chunk, within, len);
      && (ok <==> i < |copies|)
      && (ok ==> forall j :: lo <= j < lo + len ==>
            buf[j] == Visible(ms, copies[i].slot, copies[i].row * chunk + within + (j - lo)))
    ensures SameOutside(buf, lo, len)
  {
    var i := 0;
    while i < |copies|
      invariant 0 <= i <= |copies|
      invariant FirstGood(ms, copies, chunk, within, len) == i + FirstGood(ms, copies[i..], chunk, within, len)
      invariant SameOutside(buf, lo, len)
    {
      assert copies[i] in copies;
      ok := ReadCopy(ms, copies[i], chunk, within, buf, lo, len);
      if ok { return; }
      assert copies[i..][1..] == copies[i + 1..];
      i := i + 1;
    }
    ok := false;
  }

  // ----- RAID4, 5 and 6

  /** Whether the bytes of a chunk whose data member is `dd` can be had: from the member, or
      rebuilt from the rest of its row. */
  ghost predicate ParityReadable(s: Striping, ms: Members, k: nat, within: nat, len: nat)
    requires Mappable(s.level, s.layout, |ms|)
  {
    var n := |ms|;
    var (dd, end) := (DataMember(s, n, k), RowOffset(s, n, k, within) + len);
    if Present(ms, dd) then end <= |ms[dd].value|
    else if s.level == LEVEL_RAID6 then
      AllReach(ms, end) && RowOf(s.layout, n, StripeOf(s, n, k)).Rebuildable(ms, NumberOf(s, n, k))
    else AllReach(ms, end) && OthersPresent(ms, dd)
  }

  /** Byte `within` of a chunk, from its member or rebuilt. */
  ghost function ParityByte(s: Striping, ms: Members, k: nat, within: nat): byte
    requires Mappable(s.level, s.layout, |ms|)
    requires s.level == LEVEL_RAID6 && !Present(ms, DataMember(s, |ms|, k)) ==>
      RowOf(s.layout, |ms|, StripeOf(s, |ms|, k)).Rebuildable(ms, NumberOf(s, |ms|, k))
  {
    var n := |ms|;
    var (dd, o) := (DataMember(s, n, k), RowOffset(s, n, k, within));
    if Present(ms, dd) then Visible(ms, dd, o)
    else if s.level == LEVEL_RAID6 then RowOf(s.layout, n, StripeOf(s, n, k)).Rebuilt(ms, NumberOf(s, n, k), o)
    else OthersSum(ms, o, dd, n)
  }

  lemma {:induction false} DataMemberInArray(s: Striping, n: nat, k: nat)
    requires Mappable(s.level, s.layout, n)
    ensures DataMember(s, n, k) < n
    ensures s.level == LEVEL_RAID6 ==>
      DataMember(s, n, k) == RowOf(s.layout, n, StripeOf(s, n, k)).data[NumberOf(s, n, k)]
    ensures s.level != LEVEL_RAID6 ==>
      DataMember(s, n, k) == RowOf5(EffectiveLayout(s), n, StripeOf(s, n, k)).data[NumberOf(s, n, k)]
  {
    var (stripe, i) := (StripeOf(s, n, k), NumberOf(s, n, k));
    if s.level == LEVEL_RAID6 {
      Raid6ChunkOfMember(s.layout, n, stripe, i);
    } else {
      Raid5ChunkOfMember(EffectiveLayout(s), n, stripe, i);
    }
  }

  method ReadParity(t: Tables, s: Striping, ms: Members, k: nat, within: nat, buf: array<byte>, lo: nat, len: nat)
    returns (ok: bool)
    requires t.Valid() && Mappable(s.level, s.layout, |ms|) && lo + len <= buf.Length
    modifies buf
    ensures ok <==> ParityReadable(s, ms, k, within, len)
    ensures ok ==> forall j :: lo <= j < lo + len ==> buf[j] == ParityByte(s, ms, k, within + (j - lo))
    ensures SameOutside(buf, lo, len)
  {
    var n := |ms|;
    var data := n - ParityCount(s.level);
    var stripe := k / data;
    DataMemberInArray(s, n, k);
    var dd := DataMember(s, n, k);
    var off := stripe * s.chunk + within;
    var r := ReadMember(ms, dd, off, buf, lo, len);
    if !r.Absent? {
      return r.Read?;
    }
    ok := RebuildParity(t, s, ms, k, within, dd, off, buf, lo, len);
  }

  /** Rebuild chunk `x` of RAID6 row `stripe`. */
  method RebuildParity6(t: Tables, layout: nat, ms: Members, stripe: nat, x: nat, off: nat, buf: array<byte>, lo: nat,
                        len: nat)
    returns (ok: bool)
    requires t.Valid() && |ms| >= 3 && Raid6LayoutKnown(layout) && x < |ms| - 2 && lo + len <= buf.Length
    modifies buf
    ensures ok <==> AllReach(ms, off + len) && RowOf(layout, |ms|, stripe).Rebuildable(ms, x)
    ensures ok ==> forall j :: lo <= j < lo + len ==>
      buf[j] == RowOf(layout, |ms|, stripe).Rebuilt(ms, x, off + (j - lo))
    ensures SameOutside(buf, lo, len)
  {
    RowOfMatches(layout, |ms|, stripe);
    ghost var r := RowOf(layout, |ms|, stripe);
    ok := RebuildRaid6(t, layout, ms, stripe, x, off, buf, lo, len, r);
    if ok {
      IsRebuiltAt(r, ms, x, off, buf[lo..lo + len]);
      assert forall j :: lo <= j < lo + len ==> buf[j] == buf[lo..lo + len][j - lo];
    }
  }

  lemma {:induction false} IsRebuiltAt(r: Row, ms: Members, x: nat, off: int, out: seq<byte>)
    requires IsRebuilt(r, ms, x, off, out)
    ensures forall j :: 0 <= j < |out| ==> out[j] == r.Rebuilt(ms, x, off + j)
  {}

  /** The rebuild `ReadParity` falls back to when the data member is missing. */
  method RebuildParity(t: Tables, s: Striping, ms: Members, k: nat, within: nat, dd: nat, off: nat, buf: array<byte>,
                       lo: nat, len: nat)
    returns (ok: bool)
    requires t.Valid() && Mappable(s.level, s.layout, |ms|) && lo + len <= buf.Length
    requires dd == DataMember(s, |ms|, k) < |ms| && !Present(ms, dd) && off == RowOffset(s, |ms|, k, within)
    modifies buf
    ensures ok <==> ParityReadable(s, ms, k, within, len)
    ensures ok ==> forall j :: lo <= j < lo + len ==> buf[j] == ParityByte(s, ms, k, within + (j - lo))
    ensures SameOutside(buf, lo, len)
  {
    if s.level == LEVEL_RAID6 {
      ok := RebuildParity6(t, s.layout, ms, StripeOf(s, |ms|, k), NumberOf(s, |ms|, k), off, buf, lo, len);
    } else {
      ok := RebuildRaid5(ms, dd, off, buf, lo, len);
    }
  }

  // ----- a chunk, whatever the level

  ghost predicate ChunkReadable(s: Striping, ms: Members, k: nat, within: nat, len: nat)
    requires Legal(s, |ms|)
  {
    if s.raid10.Some? then
      var copies := Copies(s.raid10.value, |ms|, k);
      FirstGood(ms, copies, s.chunk, within, len) < |copies|
    else ParityReadable(s, ms, k, within, len)
  }

  /** Byte `within + j` of a chunk, read as part of the `len` bytes from `within`. */
  ghost function ChunkByte(s: Striping, ms: Members, k: nat, within: nat, len: nat, j: nat): byte
    requires Legal(s, |ms|) && ChunkReadable(s, ms, k, within, len)
  {
    if s.raid10.Some? then
      var copies := Copies(s.raid10.value, |ms|, k);
      var c := copies[FirstGood(ms, copies, s.chunk, within, len)];
      Visible(ms, c.slot, c.row * s.chunk + within + j)
    else ParityByte(s, ms, k, within + j)
  }

  method ReadChunk(t: Tables, s: Striping, ms: Members, k: nat, within: nat, buf: array<byte>, lo: nat, len: nat)
    returns (ok: bool)
    requires t.Valid() && Legal(s, |ms|) && lo + len <= buf.Length
    modifies buf
    ensures ok <==> ChunkReadable(s, ms, k, within, len)
    ensures ok ==> forall j :: lo <= j < lo + len ==> buf[j] == ChunkByte(s, ms, k, within, len, j - lo)
    ensures SameOutside(buf, lo, len)
  {
    if s.raid10.Some? {
      ok := ReadRaid10(s.raid10.value, ms, s.chunk, k, within, buf, lo, len);
    } else {
      ok := ReadParity(t, s, ms, k, within, buf, lo, len);
    }
  }

  // ----- the array as it was written

  /** Byte `pos` of the array, for any `pos`. */
  function ByteAt(bytes: seq<byte>, pos: int): byte {
    if 0 <= pos < |bytes| then bytes[pos] else 0
  }

  /** Byte `o` of member `m` is byte `pos` of the array. */
  ghost predicate StoredAt(truth: Truth, m: nat, o: int, bytes: seq<byte>, pos: int) {
    m < |truth| && ByteAt(truth[m], o) == ByteAt(bytes, pos)
  }

  /** Byte `w` of chunk `k` is on the chunk's data member. */
  ghost predicate ChunkStored(s: Striping, truth: Truth, bytes: seq<byte>, k: nat, w: nat)
    requires Mappable(s.level, s.layout, |truth|)
  {
    StoredAt(truth, DataMember(s, |truth|, k), RowOffset(s, |truth|, k, w), bytes, k * s.chunk + w)
  }

  /** P (and Q) of the row member byte `o` is in are the row's syndromes there. */
  ghost predicate ParityStored(s: Striping, truth: Truth, o: int)
    requires Mappable(s.level, s.layout, |truth|) && s.chunk > 0 && o >= 0
  {
    if s.level == LEVEL_RAID6 then RowConsistent(RowOf(s.layout, |truth|, o / s.chunk), truth, o)
    else RowConsistent5(RowOf5(EffectiveLayout(s), |truth|, o / s.chunk), truth, o)
  }

  /** The members hold the array `bytes`, in `rows` rows of data and parity. */
  ghost predicate HoldsParity(s: Striping, truth: Truth, bytes: seq<byte>, rows: nat) {
    && s.raid10.None? && Legal(s, |truth|) && Deep(truth, rows * s.chunk)
    && (forall k: nat, w: nat :: k < rows * DataCount(s, |truth|) && w < s.chunk ==> ChunkStored(s, truth, bytes, k, w))
    && (forall o :: 0 <= o < rows * s.chunk ==> ParityStored(s, truth, o))
  }

  lemma {:induction false} RowOfOffset(s: Striping, n: nat, k: nat, within: nat, rows: nat)
    requires Mappable(s.level, s.layout, n) && s.chunk > 0 && k < rows * DataCount(s, n) && within < s.chunk
    ensures StripeOf(s, n, k) < rows
    ensures 0 <= RowOffset(s, n, k, within) < rows * s.chunk
    ensures RowOffset(s, n, k, within) / s.chunk == StripeOf(s, n, k)
  {
    DivBelow(k, DataCount(s, n), rows);
    MulMonotone(StripeOf(s, n, k) + 1, rows, s.chunk);
    assert (StripeOf(s, n, k) + 1) * s.chunk == StripeOf(s, n, k) * s.chunk + s.chunk;
    DivModUnique(RowOffset(s, n, k, within), s.chunk, StripeOf(s, n, k), within);
  }

  /** A byte of a chunk, read or rebuilt, is the array's byte. */
  lemma {:induction false} ParityByteExact(s: Striping, ms: Members, truth: Truth, bytes: seq<byte>, rows: nat, k: nat,
                                           within: nat)
    requires HoldsParity(s, truth, bytes, rows) && Agrees(ms, truth)
    requires k < rows * DataCount(s, |ms|) && within < s.chunk && ParityReadable(s, ms, k, within, 1)
    ensures ParityByte(s, ms, k, within) == ByteAt(bytes, k * s.chunk + within)
  {
    var n := |ms|;
    var (dd, o) := (DataMember(s, n, k), RowOffset(s, n, k, within));
    RowOfOffset(s, n, k, within, rows);
    DataMemberInArray(s, n, k);
    assert ParityStored(s, truth, o);
    DataByteExact(s, ms, truth, k, within, o);
    assert ChunkStored(s, truth, bytes, k, within);
  }

  lemma {:induction false} PartReadable(s: Striping, ms: Members, k: nat, within: nat, len: nat, j: nat)
    requires Mappable(s.level, s.layout, |ms|) && ParityReadable(s, ms, k, within, len) && j < len
    ensures ParityReadable(s, ms, k, within + j, 1)
  {}

  /** A byte of a piece of a chunk, likewise. */
  lemma {:induction false} ParityPieceByte(s: Striping, ms: Members, truth: Truth, full: seq<byte>, rows: nat, k: nat,
                                           inner: nat, len: nat, j: nat)
    requires s.raid10.None? && HoldsParity(s, truth, full, rows) && Agrees(ms, truth) && k < rows * DataCount(s, |ms|)
    requires inner + len <= s.chunk && j < len && ParityReadable(s, ms, k, inner, len)
    ensures ChunkByte(s, ms, k, inner, len, j) == ByteAt(full, k * s.chunk + (inner + j))
  {
    PartReadable(s, ms, k, inner, len, j);
    ParityByteExact(s, ms, truth, full, rows, k, inner + j);
  }

  lemma {:induction false} DataByteExact(s: Striping, ms: Members, truth: Truth, k: nat, within: nat, o: int)
    requires s.raid10.None? && Legal(s, |truth|) && Agrees(ms, truth) && o == RowOffset(s, |ms|, k, within) >= 0
    requires o / s.chunk == StripeOf(s, |ms|, k) && ParityStored(s, truth, o)
    requires DataMember(s, |ms|, k) < |ms| && ParityReadable(s, ms, k, within, 1)
    ensures ParityByte(s, ms, k, within) == ByteAt(truth[DataMember(s, |ms|, k)], o)
  {
    var n := |ms|;
    DataMemberInArray(s, n, k);
    if !Present(ms, DataMember(s, n, k)) {
      if s.level == LEVEL_RAID6 {
        RebuiltExact(RowOf(s.layout, n, StripeOf(s, n, k)), ms, truth, NumberOf(s, n, k), o);
      } else {
        OthersSumExact(RowOf5(EffectiveLayout(s), n, StripeOf(s, n, k)), ms, truth, DataMember(s, n, k), o);
      }
    }
  }

  /** Byte `w` of every copy of chunk `k` is the array's byte. */
  ghost predicate CopiesStored(g: Raid10, chunk: nat, truth: Truth, bytes: seq<byte>, k: nat, w: nat)
    requires |truth| > 0
  {
    forall c :: c in Copies(g, |truth|, k) ==> StoredAt(truth, c.slot, c.row * chunk + w, bytes, k * chunk + w)
  }

  /** The members, `devChunks` chunks each, hold the array `bytes` in copies. */
  ghost predicate HoldsRaid10(s: Striping, truth: Truth, bytes: seq<byte>, devChunks: nat, chunks: nat) {
    && s.raid10.Some? && Legal(s, |truth|) && Fits(s.raid10.value, |truth|, devChunks)
    && Deep(truth, devChunks * s.chunk) && chunks <= ArrayChunks(s.raid10.value, |truth|)
    && forall k: nat, w: nat :: k < chunks && w < s.chunk ==> CopiesStored(s.raid10.value, s.chunk, truth, bytes, k, w)
  }

  lemma {:induction false} Raid10ByteExact(s: Striping, ms: Members, truth: Truth, bytes: seq<byte>, devChunks: nat,
                                           chunks: nat,
                        k: nat, within: nat, len: nat, j: nat)
    requires HoldsRaid10(s, truth, bytes, devChunks, chunks) && Agrees(ms, truth)
    requires k < chunks && within + len <= s.chunk && j < len && ChunkReadable(s, ms, k, within, len)
    ensures ChunkByte(s, ms, k, within, len, j) == ByteAt(bytes, k * s.chunk + (within + j))
  {
    var copies := Copies(s.raid10.value, |ms|, k);
    var c := copies[FirstGood(ms, copies, s.chunk, within, len)];
    assert CopiesStored(s.raid10.value, s.chunk, truth, bytes, k, within + j);
    assert c in copies;
  }

  // ----- what survives

  /** No more members are missing than the parity of each row can make up for. */
  ghost predicate SurvivesParity(s: Striping, ms: Members) {
    if s.level == LEVEL_RAID6 then |AbsentSlots(ms)| <= 2 && |ms| <= MemberLimit(s.layout)
    else |AbsentSlots(ms)| <= 1
  }

  lemma {:induction false} ParitySurvives(s: Striping, ms: Members, rows: nat, k: nat, within: nat, len: nat)
    requires Mappable(s.level, s.layout, |ms|) && s.chunk > 0 && SurvivesParity(s, ms)
    requires AllReach(ms, rows * s.chunk) && k < rows * DataCount(s, |ms|) && within < s.chunk
    requires within + len <= s.chunk
    ensures ParityReadable(s, ms, k, within, len)
  {
    var n := |ms|;
    RowOfOffset(s, n, k, within, rows);
    MulMonotone(StripeOf(s, n, k) + 1, rows, s.chunk);
    assert (StripeOf(s, n, k) + 1) * s.chunk == StripeOf(s, n, k) * s.chunk + s.chunk;
    assert AllReach(ms, RowOffset(s, n, k, within) + len);
    DataMemberInArray(s, n, k);
    var dd := DataMember(s, n, k);
    if !Present(ms, dd) {
      if s.level == LEVEL_RAID6 {
        TwoMissingRebuildable(s.layout, StripeOf(s, n, k), ms, NumberOf(s, n, k));
      } else {
        forall m | 0 <= m < n && m != dd
          ensures ms[m].Some?
        {
          if ms[m].None? { TwoAbsent(ms, m, dd); }
        }
      }
    }
  }

  ghost function PresentSlots(ms: Members): set<nat> {
    set s: nat | s < |ms| && ms[s].Some?
  }

  /** Every chunk has a copy left, checked on the first chunks only. */
  ghost predicate SurvivesRaid10(g: Raid10, ms: Members) {
    |ms| > 0 && forall c: nat :: c < |ms| ==> Kept(g, |ms|, c, PresentSlots(ms))
  }

  lemma {:induction false} Raid10Survives(s: Striping, ms: Members, devChunks: nat, k: nat, within: nat, len: nat)
    requires s.raid10.Some? && Legal(s, |ms|) && Fits(s.raid10.value, |ms|, devChunks)
    requires SurvivesRaid10(s.raid10.value, ms)
    requires AllReach(ms, devChunks * s.chunk) && k < ArrayChunks(s.raid10.value, |ms|) && within + len <= s.chunk
    ensures ChunkReadable(s, ms, k, within, len)
  {
    var g := s.raid10.value;
    FirstChunksCoverAll(g, |ms|, k, PresentSlots(ms));
    var c :| c in Copies(g, |ms|, k) && c.slot in PresentSlots(ms);
    CopyInMember(g, |ms|, devChunks, k, c);
    CopyReaches(ms, c, s.chunk, devChunks, within, len);
    FirstGoodFinds(ms, Copies(g, |ms|, k), s.chunk, within, len, c);
  }

  lemma {:induction false} CopyReaches(ms: Members, c: Copy, chunk: nat, devChunks: nat, within: nat, len: nat)
    requires Present(ms, c.slot) && AllReach(ms, devChunks * chunk) && 0 <= c.row < devChunks && within + len <= chunk
    ensures CopyGood(ms, c, chunk, within, len)
  {
    MulMonotone(c.row + 1, devChunks, chunk);
    assert (c.row + 1) * chunk == c.row * chunk + chunk;
    assert 0 <= c.row * chunk;
  }

  /** A chunk on a missing member that its row cannot rebuild cannot be read. */
  lemma {:induction false} UnreadableChunk(layout: nat, ms: Members, chunk: nat, stripe: nat, x: nat, k: nat)
    requires |ms| >= 3 && Raid6LayoutKnown(layout) && chunk > 0 && x < |ms| - 2
    requires k / (|ms| - 2) == stripe && k % (|ms| - 2) == x
    requires !Present(ms, RowOf(layout, |ms|, stripe).data[x]) && !RowOf(layout, |ms|, stripe).Rebuildable(ms, x)
    ensures !ChunkReadable(Striping(LEVEL_RAID6, layout, chunk, None), ms, k, 0, 1)
  {
    DataMemberInArray(Striping(LEVEL_RAID6, layout, chunk, None), |ms|, k);
  }
}
