/** The segments of a logical volume, laid one after another. */
module LvmSegments {
  import opened Arithmetic
  import opened LvmVolumes
  import opened Sizes
  import opened Wrappers

  // ----- the metadata

  datatype SegmentKind = StripedKind | ThinKind | ThinPoolKind | MirrorKind | RaidKind | OtherKind

  datatype StripeRef = StripeRef(pv: string, startExtent: nat)

  datatype Segment = Segment(startExtent: nat, extentCount: nat, kind: SegmentKind, stripeSize: nat,
                             stripes: seq<StripeRef>,
                             images: seq<string>, metadata: seq<string>, thinPool: Option<string>,
                             deviceId: Option<nat>,
                             externalOrigin: bool)

  datatype MapError = MissingPv | Refused

  datatype Mapped<+T> = Ok(value: T) | Err(error: MapError)

  /** A resolved volume. */
  datatype Resolved = Resolved(runs: seq<Run>, size: nat)

  /** What each segment is mapped to, and which lack a physical volume that was not given. */
  datatype Judge = Judge(maps: (Segment, Mapping) -> bool, lacks: Segment -> bool) {
    ghost predicate Maps(seg: Segment) {
      exists m: Mapping :: maps(seg, m)
    }
  }

  // ----- laid end to end

  /** Extents of the first `k` segments. */
  function Extents(segs: seq<Segment>, k: nat): nat
    requires k <= |segs|
  {
    if k == 0 then 0 else Extents(segs, k - 1) + segs[k - 1].extentCount
  }

  /** The runs follow the segments, in 64-bit arithmetic. */
  ghost predicate Laid(ext: nat, segs: seq<Segment>, k: nat, runs: seq<Run>)
    requires k <= |segs|
  {
    |runs| == k && forall i :: 0 <= i < k ==> LaidAt(ext, segs, i, runs[i])
  }

  /** A segment follows the extents before it, and its own length fits 64 bits. */
  predicate InPlace(ext: nat, segs: seq<Segment>, i: nat)
    requires i < |segs|
  {
    segs[i].startExtent == Extents(segs, i) % U64 && segs[i].extentCount * ext < U64
  }

  /** A run starts where the extents before its segment end. */
  ghost predicate LaidAt(ext: nat, segs: seq<Segment>, i: nat, r: Run)
    requires i < |segs|
  {
    && InPlace(ext, segs, i) && r.len == segs[i].extentCount * ext
    && r.start == WrappedBytes(Extents(segs, i), ext)
  }

  /** So many extents in bytes, in 64-bit arithmetic. */
  function WrappedBytes(extents: nat, ext: nat): nat {
    extents * ext % U64
  }

  lemma {:induction false} LaidNext(ext: nat, segs: seq<Segment>, k: nat, runs: seq<Run>, next: nat, r: Run)
    requires k < |segs| && Laid(ext, segs, k, runs) && next == Extents(segs, k) % U64 && segs[k].startExtent == next
    requires r.start == WrappedBytes(next, ext) && r.len == segs[k].extentCount * ext < U64
    ensures Laid(ext, segs, k + 1, runs + [r])
  {
    WrapMul(Extents(segs, k), ext);
    assert LaidAt(ext, segs, k, r);
  }

  lemma {:induction false} WrapMul(a: nat, ext: nat)
    ensures WrappedBytes(a % U64, ext) == WrappedBytes(a, ext)
  {
    var q, m := a / U64, a % U64;
    DivModRecompose(a, U64);
    assert a * ext == m * ext + (q * ext) * U64;
    AddMultipleMod(m * ext, q * ext, U64);
  }

  lemma {:induction false} WrapAdd(a: nat, b: nat)
    ensures (a % U64 + b) % U64 == (a + b) % U64
  {
  }

  // ----- resolving

  /** One run for each segment, in order, in 64-bit arithmetic. */
  ghost predicate ResolvedFrom(ext: nat, segs: seq<Segment>, j: Judge, r: Resolved) {
    && Laid(ext, segs, |segs|, r.runs) && r.size == WrappedBytes(Extents(segs, |segs|), ext)
    && AllMapped(segs, |segs|, j, r.runs)
  }

  ghost predicate Resolvable(ext: nat, segs: seq<Segment>, j: Judge) {
    exists r :: ResolvedFrom(ext, segs, j, r)
  }

  /** The first `k` segments are mapped. */
  ghost predicate AllMapped(segs: seq<Segment>, k: nat, j: Judge, runs: seq<Run>)
    requires k <= |segs|
  {
    |runs| == k && forall i: nat :: i < k ==> j.maps(segs[i], runs[i].mapping)
  }

  /** Some segment lacks a physical volume, and those before it can be mapped. */
  ghost predicate SegmentsLack(ext: nat, segs: seq<Segment>, j: Judge) {
    exists k: nat :: k < |segs| && LacksAt(ext, segs, j, k)
  }

  ghost predicate LacksAt(ext: nat, segs: seq<Segment>, j: Judge, k: nat)
    requires k < |segs|
  {
    && (forall i: nat :: i < k ==> InPlace(ext, segs, i) && j.Maps(segs[i]))
    && InPlace(ext, segs, k) && j.lacks(segs[k])
  }

  predicate StartsAt(ext: nat, seg: Segment, next: nat) {
    seg.startExtent == next && seg.extentCount * ext < U64
  }

  /** The run of a segment that starts at extent `next`. */
  ghost predicate RunFor(ext: nat, seg: Segment, next: nat, j: Judge, r: Run) {
    && StartsAt(ext, seg, next) && r.start == WrappedBytes(next, ext) && r.len == seg.extentCount * ext
    && j.maps(seg, r.mapping) && !j.lacks(seg)
  }

  /** The first `k` segments are resolved, and the next starts at extent `next`. */
  ghost predicate Resolving(ext: nat, segs: seq<Segment>, k: nat, runs: seq<Run>, next: nat, j: Judge) {
    && k <= |segs| && next == Extents(segs, k) % U64
    && Laid(ext, segs, k, runs) && Judged(segs, k, j, runs)
  }

  /** The first `k` segments are mapped and none of them lacks a physical volume. */
  ghost predicate Judged(segs: seq<Segment>, k: nat, j: Judge, runs: seq<Run>)
    requires k <= |segs|
  {
    AllMapped(segs, k, j, runs) && forall i: nat :: i < k ==> !j.lacks(segs[i])
  }

  lemma {:induction false} NextExtent(segs: seq<Segment>, k: nat, next: nat)
    requires k < |segs| && next == Extents(segs, k) % U64
    ensures (next + segs[k].extentCount) % U64 == Extents(segs, k + 1) % U64
  {
    WrapAdd(Extents(segs, k), segs[k].extentCount);
  }

  lemma {:induction false} JudgedNext(segs: seq<Segment>, k: nat, j: Judge, runs: seq<Run>, r: Run)
    requires k < |segs| && Judged(segs, k, j, runs) && j.maps(segs[k], r.mapping) && !j.lacks(segs[k])
    ensures Judged(segs, k + 1, j, runs + [r])
  {
  }

  lemma {:induction false} ResolvingNext(ext: nat, segs: seq<Segment>, k: nat, runs: seq<Run>, next: nat, j: Judge,
                                         r: Run)
    requires Resolving(ext, segs, k, runs, next, j) && k < |segs| && RunFor(ext, segs[k], next, j, r)
    ensures Resolving(ext, segs, k + 1, runs + [r], (next + segs[k].extentCount) % U64, j)
  {
    LaidNext(ext, segs, k, runs, next, r);
    NextExtent(segs, k, next);
    JudgedNext(segs, k, j, runs, r);
  }

  lemma {:induction false} ResolvingDone(ext: nat, segs: seq<Segment>, runs: seq<Run>, next: nat, j: Judge)
    requires Resolving(ext, segs, |segs|, runs, next, j)
    ensures ResolvedFrom(ext, segs, j, Resolved(runs, WrappedBytes(next, ext)))
    ensures !SegmentsLack(ext, segs, j)
  {
    WrapMul(Extents(segs, |segs|), ext);
  }

  lemma {:induction false} ResolvedAt(ext: nat, segs: seq<Segment>, j: Judge, r: Resolved, k: nat)
    requires ResolvedFrom(ext, segs, j, r) && k < |segs|
    ensures InPlace(ext, segs, k) && j.Maps(segs[k])
  {
    assert LaidAt(ext, segs, k, r.runs[k]);
  }

  lemma {:induction false} ResolvingAt(ext: nat, segs: seq<Segment>, k: nat, runs: seq<Run>, next: nat, j: Judge,
                                       i: nat)
    requires Resolving(ext, segs, k, runs, next, j) && i < k
    ensures InPlace(ext, segs, i) && j.Maps(segs[i])
  {
    assert LaidAt(ext, segs, i, runs[i]);
  }

  /** A volume whose segment `k` is the first that cannot be mapped does not resolve, and lacks a
      physical volume exactly when that segment does. */
  lemma {:induction false} FailsAt(ext: nat, segs: seq<Segment>, k: nat, runs: seq<Run>, next: nat, j: Judge)
    requires Resolving(ext, segs, k, runs, next, j) && k < |segs|
    requires !(StartsAt(ext, segs[k], next) && j.Maps(segs[k]))
    ensures !Resolvable(ext, segs, j)
    ensures SegmentsLack(ext, segs, j) <==> StartsAt(ext, segs[k], next) && j.lacks(segs[k])
  {
    assert InPlace(ext, segs, k) <==> StartsAt(ext, segs[k], next);
    forall r | ResolvedFrom(ext, segs, j, r) ensures false {
      ResolvedAt(ext, segs, j, r, k);
    }
    if StartsAt(ext, segs[k], next) && j.lacks(segs[k]) {
      forall i: nat | i < k ensures InPlace(ext, segs, i) && j.Maps(segs[i]) {
        ResolvingAt(ext, segs, k, runs, next, j, i);
      }
      assert LacksAt(ext, segs, j, k);
    }
  }

  // ----- tiling

  lemma {:induction false} ExtentsGrow(segs: seq<Segment>, i: nat, k: nat)
    requires i <= k <= |segs|
    ensures Extents(segs, i) <= Extents(segs, k)
  {
    if i < k { ExtentsGrow(segs, i, k - 1); }
  }

  lemma {:induction false} PlainBytes(extents: nat, most: nat, ext: nat)
    requires extents <= most && most * ext < U64
    ensures WrappedBytes(extents, ext) == extents * ext
  {
    MulMonotone(extents, most, ext);
    MulMonotone(0, extents, ext);
    DivModUnique(extents * ext, U64, 0, extents * ext);
  }

  lemma {:induction false} Distribute(a: nat, b: nat, ext: nat)
    ensures (a + b) * ext == a * ext + b * ext
  {
  }

  lemma {:induction false} LaidInit(ext: nat, segs: seq<Segment>, k: nat, runs: seq<Run>)
    requires 0 < k <= |segs| && Laid(ext, segs, k, runs)
    ensures Laid(ext, segs, k - 1, runs[..k - 1]) && LaidAt(ext, segs, k - 1, runs[k - 1])
  {
  }

  function LengthOf(runs: seq<Run>): nat {
    if runs == [] then 0 else LengthOf(runs[..|runs| - 1]) + runs[|runs| - 1].len
  }

  lemma {:induction false} LengthFirst(runs: seq<Run>)
    requires runs != []
    ensures LengthOf(runs) == runs[0].len + LengthOf(runs[1..])
  {
    if |runs| == 1 {
      assert runs[..0] == [] && runs[1..] == [];
    } else {
      LengthFirst(runs[..|runs| - 1]);
      assert runs[1..][..|runs| - 2] == runs[..|runs| - 1][1..];
    }
  }

  lemma {:induction false} TilesLength(runs: seq<Run>, start: nat, end: nat)
    requires Tiles(runs, start, end)
    ensures end == start + LengthOf(runs)
  {
    if runs != [] {
      LengthFirst(runs);
      TilesLength(runs[1..], start + runs[0].len, end);
    }
  }

  lemma {:induction false} LaidLength(ext: nat, segs: seq<Segment>, k: nat, runs: seq<Run>)
    requires k <= |segs| && Laid(ext, segs, k, runs)
    ensures LengthOf(runs) == Extents(segs, k) * ext
    decreases k
  {
    if k > 0 {
      LaidInit(ext, segs, k, runs);
      LaidLength(ext, segs, k - 1, runs[..k - 1]);
      Distribute(Extents(segs, k - 1), segs[k - 1].extentCount, ext);
    }
  }

  predicate StartsAfter(runs: seq<Run>, i: nat)
    requires i < |runs|
  {
    runs[i].start == LengthOf(runs[..i])
  }

  /** Runs that each start at the length of those before them tile. */
  lemma {:induction false} StartsTile(runs: seq<Run>)
    requires forall i: nat :: i < |runs| ==> StartsAfter(runs, i)
    ensures Tiles(runs, 0, LengthOf(runs))
  {
    if runs != [] {
      var k := |runs| - 1;
      var init := runs[..k];
      forall i: nat | i < |init| ensures StartsAfter(init, i) {
        assert StartsAfter(runs, i) && init[..i] == runs[..i];
      }
      assert StartsAfter(runs, k);
      StartsTile(init);
      TilesAppend(init, 0, LengthOf(init), runs[k]);
      assert runs == init + [runs[k]];
    }
  }

  lemma {:induction false} LaidStart(ext: nat, segs: seq<Segment>, runs: seq<Run>, i: nat)
    requires Laid(ext, segs, |segs|, runs) && i < |segs| && Extents(segs, |segs|) * ext < U64
    ensures runs[i].start == LengthOf(runs[..i])
  {
    assert LaidAt(ext, segs, i, runs[i]);
    assert Laid(ext, segs, i, runs[..i]);
    LaidLength(ext, segs, i, runs[..i]);
    ExtentsGrow(segs, i, |segs|);
    PlainBytes(Extents(segs, i), Extents(segs, |segs|), ext);
  }

  /** The runs of an accepted volume tile it from 0 to its size, exactly when its extents fit 64-bit
      byte offsets. Nothing checks that they do: a segment's own length is checked, the sum is not. */
  lemma {:induction false} ResolvedTiles(ext: nat, segs: seq<Segment>, j: Judge, r: Resolved)
    requires ResolvedFrom(ext, segs, j, r)
    ensures Tiles(r.runs, 0, r.size) <==> Extents(segs, |segs|) * ext < U64
  {
    var total := Extents(segs, |segs|);
    if total * ext < U64 {
      forall i: nat | i < |r.runs| ensures StartsAfter(r.runs, i) {
        LaidStart(ext, segs, r.runs, i);
      }
      StartsTile(r.runs);
      LaidLength(ext, segs, |segs|, r.runs);
      PlainBytes(total, total, ext);
    }
    if Tiles(r.runs, 0, r.size) {
      TilesLength(r.runs, 0, r.size);
      LaidLength(ext, segs, |segs|, r.runs);
    }
  }
}
