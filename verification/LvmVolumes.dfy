/** Logical volumes: runs of stripes, of RAID images and of thin blocks, and the bytes they hold. */
module LvmVolumes {
  import opened Arithmetic
  import opened Raid10Placement
  import opened Wrappers

  /** Where a stripe starts: a device and a byte offset on it. */
  datatype Stripe = Stripe(dev: nat, off: nat)

  datatype Mapping =
    | Striped(stripeSize: nat, stripes: seq<Stripe>)
    | Raid(level: int, raid10: Option<Raid10>, layout: nat, chunk: nat, dataOffset: nat, images: seq<Image>)
    | Thin(block: nat, meta: seq<Run>, data: seq<Run>, root: nat)

  /** An image of a RAID segment, or the lack of one whose physical volume was not given. */
  datatype Image = Missing | Image(runs: seq<Run>)

  /** Bytes `start..start + len` of a volume. */
  datatype Run = Run(start: nat, len: nat, mapping: Mapping)

  // ----- runs end to end

  /** Runs one after another from `start` up to `end`. */
  predicate Tiles(runs: seq<Run>, start: nat, end: nat) {
    if runs == [] then start == end
    else runs[0].start == start && Tiles(runs[1..], start + runs[0].len, end)
  }

  lemma {:induction false} TilesBounds(runs: seq<Run>, start: nat, end: nat, i: nat)
    requires Tiles(runs, start, end) && i < |runs|
    ensures start <= runs[i].start && runs[i].start + runs[i].len <= end
  {
    TilesForward(runs[1..], start + runs[0].len, end);
    if i > 0 { TilesBounds(runs[1..], start + runs[0].len, end, i - 1); }
  }

  lemma {:induction false} TilesForward(runs: seq<Run>, start: nat, end: nat)
    requires Tiles(runs, start, end)
    ensures start <= end
  {
    if runs != [] { TilesForward(runs[1..], start + runs[0].len, end); }
  }

  /** Every byte of the volume is in exactly one run. */
  lemma {:induction false} TilesCover(runs: seq<Run>, start: nat, end: nat, pos: nat) returns (i: nat)
    requires Tiles(runs, start, end) && start <= pos < end
    ensures i < |runs| && runs[i].start <= pos < runs[i].start + runs[i].len
    ensures forall j: nat :: j < |runs| && runs[j].start <= pos < runs[j].start + runs[j].len ==> j == i
  {
    if pos < start + runs[0].len {
      i := 0;
      forall j: nat | 0 < j < |runs| ensures pos < runs[j].start {
        TilesBounds(runs[1..], start + runs[0].len, end, j - 1);
      }
    } else {
      var k := TilesCover(runs[1..], start + runs[0].len, end, pos);
      i := k + 1;
      forall j: nat | j < |runs| && runs[j].start <= pos < runs[j].start + runs[j].len ensures j == i {
        assert j > 0 && runs[1..][j - 1] == runs[j];
      }
    }
  }

  lemma {:induction false} TilesAppend(runs: seq<Run>, start: nat, mid: nat, r: Run)
    requires Tiles(runs, start, mid) && r.start == mid
    ensures Tiles(runs + [r], start, mid + r.len)
  {
    if runs != [] {
      TilesAppend(runs[1..], start + runs[0].len, mid, r);
      assert (runs + [r])[1..] == runs[1..] + [r];
    }
  }

  // ----- stripes

  /** A byte of one of the stripes. */
  datatype StripeByte = StripeByte(stripe: int, x: int)

  /** The byte of a stripe that byte `w` of a striped run is on. */
  function PlaceInStripes(n: nat, stripeSize: nat, w: int): StripeByte
    requires n > 0 && (n > 1 ==> stripeSize > 0)
  {
    if n == 1 then StripeByte(0, w)
    else
      var k := w / stripeSize;
      StripeByte(k % n, k / n * stripeSize + w % stripeSize)
  }

  /** The byte of the run that a byte of a stripe holds. */
  function PosOfStripe(n: nat, stripeSize: nat, b: StripeByte): int
    requires n > 0 && (n > 1 ==> stripeSize > 0)
  {
    if n == 1 then b.x
    else (b.x / stripeSize * n + b.stripe) * stripeSize + b.x % stripeSize
  }

  /** Every byte of the run is on one of the stripes, inside its share, and comes back from there. */
  lemma {:induction false} StripeOfPos(n: nat, stripeSize: nat, share: nat, w: nat)
    requires n > 0 && (n > 1 ==> stripeSize > 0 && share % stripeSize == 0) && w < n * share
    ensures var b := PlaceInStripes(n, stripeSize, w);
      0 <= b.stripe < n && 0 <= b.x < share && PosOfStripe(n, stripeSize, b) == w
  {
    if n > 1 {
      var units := share / stripeSize;
      DivModRecompose(share, stripeSize);
      DivModRecompose(w, stripeSize);
      DivNonNegative(w, stripeSize);
      var k, inner := w / stripeSize, w % stripeSize;
      UnitsTotal(n, stripeSize, units, share);
      DivBelow(w, stripeSize, n * units);
      DivModRecompose(k, n);
      DivNonNegative(k, n);
      assert n * units == units * n;
      DivBelow(k, n, units);
      var row := k / n;
      RowRoom(row, units, stripeSize, inner);
      DivModUnique(row * stripeSize + inner, stripeSize, row, inner);
    }
  }

  lemma {:induction false} UnitsTotal(n: nat, stripeSize: nat, units: nat, share: nat)
    requires share == units * stripeSize
    ensures n * share == n * units * stripeSize
  {
  }

  lemma {:induction false} RowRoom(row: nat, units: nat, stripeSize: nat, inner: nat)
    requires row < units && inner < stripeSize
    ensures 0 <= row * stripeSize + inner < units * stripeSize
  {
    MulMonotone(row + 1, units, stripeSize);
    assert (row + 1) * stripeSize == row * stripeSize + stripeSize;
  }

  /** Every byte of every stripe's share is a byte of the run, and goes back there. */
  lemma {:induction false} PosOfStripeByte(n: nat, stripeSize: nat, share: nat, b: StripeByte)
    requires n > 0 && (n > 1 ==> stripeSize > 0 && share % stripeSize == 0) && 0 <= b.stripe < n && 0 <= b.x < share
    ensures 0 <= PosOfStripe(n, stripeSize, b) < n * share
    ensures PlaceInStripes(n, stripeSize, PosOfStripe(n, stripeSize, b)) == b
  {
    if n > 1 {
      var units := share / stripeSize;
      DivModRecompose(share, stripeSize);
      DivModRecompose(b.x, stripeSize);
      DivNonNegative(b.x, stripeSize);
      DivBelow(b.x, stripeSize, units);
      var row, inner := b.x / stripeSize, b.x % stripeSize;
      RowRoom(row, units, n, b.stripe);
      var k := row * n + b.stripe;
      RowRoom(k, units * n, stripeSize, inner);
      UnitsTotal(n, stripeSize, units, share);
      assert units * n * stripeSize == n * units * stripeSize;
      DivModUnique(k * stripeSize + inner, stripeSize, k, inner);
      DivModUnique(k, n, row, b.stripe);
    }
  }

  /** Bytes of one stripe unit follow one another on their stripe. */
  lemma {:induction false} StripeRun(n: nat, stripeSize: nat, w: nat, i: nat)
    requires n > 1 && stripeSize > 0 && w % stripeSize + i < stripeSize
    ensures PlaceInStripes(n, stripeSize, w + i) ==
      var b := PlaceInStripes(n, stripeSize, w); StripeByte(b.stripe, b.x + i)
  {
    DivModRecompose(w, stripeSize);
    DivModUnique(w + i, stripeSize, w / stripeSize, w % stripeSize + i);
  }
}
