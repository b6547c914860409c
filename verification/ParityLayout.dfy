/** Where RAID4, 5 and 6 keep the chunks of a row: the data member of each logical
    chunk, the P member and the Q member, and the weight each chunk has in Q. */
module ParityLayout {
  import opened Wrappers

  const LEVEL_LINEAR: int := -1
  const LEVEL_RAID0: int := 0
  const LEVEL_RAID1: int := 1
  const LEVEL_RAID4: int := 4
  const LEVEL_RAID5: int := 5
  const LEVEL_RAID6: int := 6
  const LEVEL_RAID10: int := 10

  const LEFT_ASYMMETRIC: nat := 0
  const RIGHT_ASYMMETRIC: nat := 1
  const LEFT_SYMMETRIC: nat := 2
  const RIGHT_SYMMETRIC: nat := 3
  const PARITY_FIRST: nat := 4
  const PARITY_LAST: nat := 5
  const ROTATING_ZERO_RESTART: nat := 8
  const ROTATING_N_RESTART: nat := 9
  const ROTATING_N_CONTINUE: nat := 10
  const LEFT_ASYMMETRIC_6: nat := 16
  const RIGHT_ASYMMETRIC_6: nat := 17
  const LEFT_SYMMETRIC_6: nat := 18
  const RIGHT_SYMMETRIC_6: nat := 19
  const PARITY_FIRST_6: nat := 20

  /** The members of one chunk's row: its data member, P and (at RAID6) Q. */
  datatype Place = Place(data: nat, p: nat, q: Option<nat>)

  predicate Raid6LayoutKnown(layout: nat) {
    || LEFT_ASYMMETRIC <= layout <= PARITY_LAST
    || ROTATING_ZERO_RESTART <= layout <= ROTATING_N_CONTINUE
    || LEFT_ASYMMETRIC_6 <= layout <= PARITY_FIRST_6
  }

  /** Layouts whose Q coefficients follow the member number. */
  predicate Ddf(layout: nat) {
    ROTATING_ZERO_RESTART <= layout <= ROTATING_N_CONTINUE
  }

  /** P at `pd`, Q after it (or on member 0 when P is last), data in member order round them. */
  function Asymmetric(n: nat, pd: nat, i: nat): Place
    requires n >= 3
  {
    if pd == n - 1 then Place(i + 1, pd, Some(0))
    else if i >= pd then Place(i + 2, pd, Some(pd + 1))
    else Place(i, pd, Some(pd + 1))
  }

  /** P at `pd`, Q after it, data following on from Q and wrapping. */
  function Symmetric(n: nat, pd: nat, i: nat): Place
    requires n >= 3
  {
    Place((pd + 2 + i) % n, pd, Some((pd + 1) % n))
  }

  /** P at `pd`, Q before it, data following on from P and wrapping. */
  function Continued(n: nat, pd: nat, i: nat): Place
    requires n >= 3
  {
    Place((pd + 1 + i) % n, pd, Some((pd + n - 1) % n))
  }

  /** An asymmetric RAID5 row over the first `n - 1` members, Q on the last. */
  function Asymmetric6(n: nat, pd: nat, i: nat): Place
    requires n >= 3
  {
    Place(if i >= pd then i + 1 else i, pd, Some(n - 1))
  }

  /** A symmetric RAID5 row over the first `n - 1` members, Q on the last. */
  function Symmetric6(n: nat, pd: nat, i: nat): Place
    requires n >= 3
  {
    Place((pd + 1 + i) % (n - 1), pd, Some(n - 1))
  }

  function Raid6Map(layout: nat, n: nat, stripe: nat, i: nat): Place
    requires n >= 3 && Raid6LayoutKnown(layout)
  {
    var data := n - 2;
    if layout == LEFT_ASYMMETRIC then Asymmetric(n, n - 1 - stripe % n, i)
    else if layout == ROTATING_N_RESTART then Asymmetric(n, n - 1 - (stripe + 1) % n, i)
    else if layout == RIGHT_ASYMMETRIC || layout == ROTATING_ZERO_RESTART then Asymmetric(n, stripe % n, i)
    else if layout == LEFT_SYMMETRIC then Symmetric(n, n - 1 - stripe % n, i)
    else if layout == RIGHT_SYMMETRIC then Symmetric(n, stripe % n, i)
    else if layout == PARITY_FIRST then Place(i + 2, 0, Some(1))
    else if layout == PARITY_LAST then Place(i, data, Some(data + 1))
    else if layout == ROTATING_N_CONTINUE then Continued(n, n - 1 - stripe % n, i)
    else if layout == LEFT_ASYMMETRIC_6 then Asymmetric6(n, data - stripe % (n - 1), i)
    else if layout == RIGHT_ASYMMETRIC_6 then Asymmetric6(n, stripe % (n - 1), i)
    else if layout == LEFT_SYMMETRIC_6 then Symmetric6(n, data - stripe % (n - 1), i)
    else if layout == RIGHT_SYMMETRIC_6 then Symmetric6(n, stripe % (n - 1), i)
    else Place(i + 1, 0, Some(n - 1))
  }

  function Raid5Map(layout: nat, n: nat, stripe: nat, i: nat): Place
    requires n >= 2
  {
    var data := n - 1;
    if layout == LEFT_ASYMMETRIC then
      var pd := data - stripe % n;
      Place(if i >= pd then i + 1 else i, pd, None)
    else if layout == RIGHT_ASYMMETRIC then
      var pd := stripe % n;
      Place(if i >= pd then i + 1 else i, pd, None)
    else if layout == LEFT_SYMMETRIC then
      var pd := data - stripe % n;
      Place((pd + 1 + i) % n, pd, None)
    else if layout == RIGHT_SYMMETRIC then
      var pd := stripe % n;
      Place((pd + 1 + i) % n, pd, None)
    else if layout == PARITY_FIRST then Place(i + 1, 0, None)
    else Place(i, data, None)
  }

  /** Members a row gives to parity. */
  function ParityCount(level: int): nat {
    if level == LEVEL_RAID6 then 2 else 1
  }

  /** The layouts the chunk reader is handed: any code below RAID6, a known one at RAID6. */
  predicate Mappable(level: int, layout: nat, n: nat) {
    n > ParityCount(level) && (level == LEVEL_RAID6 ==> Raid6LayoutKnown(layout))
  }

  function ParityMap(level: int, layout: nat, n: nat, stripe: nat, i: nat): Place
    requires Mappable(level, layout, n)
  {
    if level == LEVEL_RAID6 then Raid6Map(layout, n, stripe, i) else Raid5Map(layout, n, stripe, i)
  }

  /** The five shapes a RAID6 row takes. */
  datatype Shape = AsymmetricRow | SymmetricRow | ContinuedRow | Asymmetric6Row | Symmetric6Row

  function ShapeOf(layout: nat): Shape
    requires Raid6LayoutKnown(layout)
  {
    if layout in {LEFT_SYMMETRIC, RIGHT_SYMMETRIC, PARITY_FIRST} then SymmetricRow
    else if layout == ROTATING_N_CONTINUE then ContinuedRow
    else if layout in {LEFT_ASYMMETRIC_6, RIGHT_ASYMMETRIC_6, PARITY_FIRST_6} then Asymmetric6Row
    else if layout in {LEFT_SYMMETRIC_6, RIGHT_SYMMETRIC_6} then Symmetric6Row
    else AsymmetricRow
  }

  function ShapeMap(shape: Shape, n: nat, pd: nat, i: nat): Place
    requires n >= 3
  {
    match shape
    case AsymmetricRow => Asymmetric(n, pd, i)
    case SymmetricRow => Symmetric(n, pd, i)
    case ContinuedRow => Continued(n, pd, i)
    case Asymmetric6Row => Asymmetric6(n, pd, i)
    case Symmetric6Row => Symmetric6(n, pd, i)
  }

  /** Where P may be in a row of this shape. */
  predicate ParityFits(shape: Shape, n: nat, pd: nat) {
    if shape.Asymmetric6Row? || shape.Symmetric6Row? then pd < n - 1 else pd < n
  }

  /** The logical chunk that data member `m` holds: `ShapeMap` undone. */
  function ShapeChunk(shape: Shape, n: nat, pd: nat, m: nat): int {
    match shape
    case AsymmetricRow => if pd == n - 1 then m - 1 else if m < pd then m else m - 2
    case SymmetricRow => if m < pd then m + n - pd - 2 else m - pd - 2
    case ContinuedRow => if m < pd then m + n - pd - 1 else m - pd - 1
    case Asymmetric6Row => if m < pd then m else m - 1
    case Symmetric6Row => if m < pd then m + n - pd - 2 else m - pd - 1
  }

  lemma {:induction false} ModOnce(v: nat, n: nat)
    requires n > 0 && v < 2 * n
    ensures v % n == if v < n then v else v - n
  {
    if v >= n {
      assert v == n * 1 + (v - n);
    }
  }

  lemma {:induction false} ShapeChunkOfMember(shape: Shape, n: nat, pd: nat, i: nat)
    requires n >= 3 && ParityFits(shape, n, pd) && i < n - 2
    ensures
      var r := ShapeMap(shape, n, pd, i);
      && r.p == pd && r.q.Some? && r.q == ShapeMap(shape, n, pd, 0).q
      && r.q.value < n && r.q.value != pd
      && r.data < n && r.data != pd && r.data != r.q.value
      && ShapeChunk(shape, n, pd, r.data) == i
  {
    match shape
    case AsymmetricRow =>
    case SymmetricRow =>
      ModOnce(pd + 1, n);
      ModOnce(pd + 2 + i, n);
    case ContinuedRow =>
      ModOnce(pd + n - 1, n);
      ModOnce(pd + 1 + i, n);
    case Asymmetric6Row =>
    case Symmetric6Row =>
      ModOnce(pd + 1 + i, n - 1);
  }

  lemma {:induction false} ShapeMemberOfChunk(shape: Shape, n: nat, pd: nat, m: nat)
    requires n >= 3 && ParityFits(shape, n, pd) && m < n
    requires m != pd && Some(m) != ShapeMap(shape, n, pd, 0).q
    ensures 0 <= ShapeChunk(shape, n, pd, m) < n - 2
    ensures ShapeMap(shape, n, pd, ShapeChunk(shape, n, pd, m)).data == m
  {
    var i := ShapeChunk(shape, n, pd, m);
    match shape
    case AsymmetricRow =>
    case SymmetricRow =>
      ModOnce(pd + 1, n);
      ModOnce(pd + 2 + i, n);
    case ContinuedRow =>
      ModOnce(pd + n - 1, n);
      ModOnce(pd + 1 + i, n);
    case Asymmetric6Row =>
    case Symmetric6Row =>
      ModOnce(pd + 1 + i, n - 1);
  }

  /** P of RAID6 row `stripe`. */
  function Raid6P(layout: nat, n: nat, stripe: nat): nat
    requires n >= 3 && Raid6LayoutKnown(layout)
  {
    Raid6Map(layout, n, stripe, 0).p
  }

  /** Q of RAID6 row `stripe`. */
  function Raid6Q(layout: nat, n: nat, stripe: nat): nat
    requires n >= 3 && Raid6LayoutKnown(layout)
  {
    Raid6Map(layout, n, stripe, 0).q.value
  }

  function Raid6Chunk(layout: nat, n: nat, stripe: nat, m: nat): int
    requires n >= 3 && Raid6LayoutKnown(layout)
  {
    ShapeChunk(ShapeOf(layout), n, Raid6P(layout, n, stripe), m)
  }

  lemma {:induction false} Raid6IsShape(layout: nat, n: nat, stripe: nat, i: nat)
    requires n >= 3 && Raid6LayoutKnown(layout) && i < n - 2
    ensures ParityFits(ShapeOf(layout), n, Raid6P(layout, n, stripe))
    ensures Raid6Map(layout, n, stripe, i) == ShapeMap(ShapeOf(layout), n, Raid6P(layout, n, stripe), i)
  {
    ModOnce(1, n);
    ModOnce(2 + i, n);
  }

  /** Every chunk is on a data member, distinct from the row's P and Q, and the member
      gives the chunk back: no two chunks share one. */
  lemma {:induction false} Raid6ChunkOfMember(layout: nat, n: nat, stripe: nat, i: nat)
    requires n >= 3 && Raid6LayoutKnown(layout) && i < n - 2
    ensures
      var r := Raid6Map(layout, n, stripe, i);
      var (p, q) := (Raid6P(layout, n, stripe), Raid6Q(layout, n, stripe));
      && r.p == p && r.q == Some(q) && p < n && q < n && p != q
      && r.data < n && r.data != p && r.data != q
      && Raid6Chunk(layout, n, stripe, r.data) == i
  {
    Raid6IsShape(layout, n, stripe, i);
    Raid6IsShape(layout, n, stripe, 0);
    ShapeChunkOfMember(ShapeOf(layout), n, Raid6P(layout, n, stripe), i);
  }

  /** Every member that is neither P nor Q holds a chunk of the row. */
  lemma {:induction false} Raid6MemberOfChunk(layout: nat, n: nat, stripe: nat, m: nat)
    requires n >= 3 && Raid6LayoutKnown(layout) && m < n
    requires m != Raid6P(layout, n, stripe) && m != Raid6Q(layout, n, stripe)
    ensures 0 <= Raid6Chunk(layout, n, stripe, m) < n - 2
    ensures Raid6Map(layout, n, stripe, Raid6Chunk(layout, n, stripe, m)).data == m
  {
    Raid6IsShape(layout, n, stripe, 0);
    ShapeMemberOfChunk(ShapeOf(layout), n, Raid6P(layout, n, stripe), m);
    Raid6IsShape(layout, n, stripe, Raid6Chunk(layout, n, stripe, m));
  }

  /** P of RAID5 row `stripe`. */
  function Raid5P(layout: nat, n: nat, stripe: nat): nat
    requires n >= 2
  {
    Raid5Map(layout, n, stripe, 0).p
  }

  /** The logical chunk of the row that data member `m` holds: `Raid5Map` undone. */
  function Raid5Chunk(layout: nat, n: nat, stripe: nat, m: nat): int
    requires n >= 2
  {
    var pd := Raid5P(layout, n, stripe);
    if layout in {LEFT_SYMMETRIC, RIGHT_SYMMETRIC} then
      if m < pd then m + n - pd - 1 else m - pd - 1
    else
      if m < pd then m else m - 1
  }

  lemma {:induction false} Raid5ChunkOfMember(layout: nat, n: nat, stripe: nat, i: nat)
    requires n >= 2 && i < n - 1
    ensures
      var r := Raid5Map(layout, n, stripe, i);
      && r.p == Raid5P(layout, n, stripe) < n && r.q == None
      && r.data < n && r.data != r.p
      && Raid5Chunk(layout, n, stripe, r.data) == i
  {
    ModOnce(Raid5P(layout, n, stripe) + 1 + i, n);
  }

  lemma {:induction false} Raid5MemberOfChunk(layout: nat, n: nat, stripe: nat, m: nat)
    requires n >= 2 && m < n && m != Raid5P(layout, n, stripe)
    ensures 0 <= Raid5Chunk(layout, n, stripe, m) < n - 1
    ensures Raid5Map(layout, n, stripe, Raid5Chunk(layout, n, stripe, m)).data == m
  {
    ModOnce(Raid5P(layout, n, stripe) + 1 + Raid5Chunk(layout, n, stripe, m), n);
  }

  /** The member Q's coefficients are counted from: the one after Q. */
  function FirstCounted(n: nat, q: nat): nat {
    if q == n - 1 then 0 else q + 1
  }

  /** How many steps round the members `m` is from `d0`. */
  function StepsFrom(n: nat, d0: nat, m: nat): int {
    if m >= d0 then m - d0 else m + n - d0
  }

  /** The place of data member `m` among the data members, counted from the one after Q:
      Q itself comes last of all, so only P can be skipped on the way. */
  function DataRank(n: nat, p: nat, q: nat, m: nat): int {
    var d0 := FirstCounted(n, q);
    var steps := StepsFrom(n, d0, m);
    if StepsFrom(n, d0, p) < steps then steps - 1 else steps
  }

  lemma {:induction false} DataRankInjective(n: nat, p: nat, q: nat, a: nat, b: nat)
    requires p < n && q < n && p != q
    requires a < n && a != p && a != q && b < n && b != p && b != q
    ensures 0 <= DataRank(n, p, q, a) < n - 2
    ensures DataRank(n, p, q, a) == DataRank(n, p, q, b) ==> a == b
  {}

  /** The power of {02} that weighs logical chunk `i` in Q: its member's number in the DDF
      layouts, otherwise its place among the data members. */
  function QExponent(layout: nat, n: nat, stripe: nat, i: nat): int
    requires n >= 3 && Raid6LayoutKnown(layout) && i < n - 2
  {
    var r := Raid6Map(layout, n, stripe, i);
    if Ddf(layout) then r.data else DataRank(n, r.p, r.q.value, r.data)
  }

  /** The walk of the loop, over the row's members alone. */
  method CountDataMembers(n: nat, p: nat, q: nat, m: nat) returns (slot: int)
    requires p < n && q < n && p != q && m < n && m != p && m != q
    ensures slot == DataRank(n, p, q, m)
  {
    var d0 := if q == n - 1 then 0 else q + 1;
    slot := 0;
    var at := d0;
    while at != m
      invariant 0 <= at < n
      invariant StepsFrom(n, d0, at) <= StepsFrom(n, d0, m)
      invariant slot == DataRank(n, p, q, at)
      decreases StepsFrom(n, d0, m) - StepsFrom(n, d0, at)
    {
      if at != p && at != q {
        slot := slot + 1;
      }
      ModOnce(at + 1, n);
      at := (at + 1) % n;
    }
  }

  /** The kernel's count, member by member from the one after Q to the chunk's own. */
  method ComputeQExponent(layout: nat, n: nat, stripe: nat, i: nat) returns (slot: int)
    requires n >= 3 && Raid6LayoutKnown(layout) && i < n - 2
    ensures slot == QExponent(layout, n, stripe, i) && 0 <= slot < if Ddf(layout) then n else n - 2
  {
    Raid6ChunkOfMember(layout, n, stripe, i);
    QExponentInjective(layout, n, stripe, i, i);
    var r := Raid6Map(layout, n, stripe, i);
    if Ddf(layout) {
      return r.data;
    }
    slot := CountDataMembers(n, r.p, r.q.value, r.data);
  }

  /** Two chunks of a row never share a weight; the weights are below the member count, and
      below n - 2 outside the DDF layouts. */
  lemma {:induction false} QExponentInjective(layout: nat, n: nat, stripe: nat, i: nat, j: nat)
    requires n >= 3 && Raid6LayoutKnown(layout) && i < n - 2 && j < n - 2
    ensures 0 <= QExponent(layout, n, stripe, i) < if Ddf(layout) then n else n - 2
    ensures QExponent(layout, n, stripe, i) == QExponent(layout, n, stripe, j) ==> i == j
  {
    Raid6ChunkOfMember(layout, n, stripe, i);
    Raid6ChunkOfMember(layout, n, stripe, j);
    DataRankInjective(n, Raid6P(layout, n, stripe), Raid6Q(layout, n, stripe),
                      Raid6Map(layout, n, stripe, i).data, Raid6Map(layout, n, stripe, j).data);
  }

  /** How far the weights of a row are rotated from the chunk numbers. */
  function Rotation(shape: Shape, n: nat, pd: nat): int {
    match shape
    case AsymmetricRow => if pd >= n - 1 then 0 else n - 2 - pd
    case Symmetric6Row => pd
    case _ => 0
  }

  lemma {:induction false} DataRankRotates(shape: Shape, n: nat, pd: nat, i: nat)
    requires n >= 3 && ParityFits(shape, n, pd) && !shape.ContinuedRow? && i < n - 2
    ensures
      var r := ShapeMap(shape, n, pd, i);
      DataRank(n, pd, r.q.value, r.data) == (i + Rotation(shape, n, pd)) % (n - 2)
  {
    ModOnce(i + Rotation(shape, n, pd), n - 2);
    match shape
    case SymmetricRow =>
      ModOnce(pd + 1, n);
      ModOnce(pd + 2 + i, n);
    case Symmetric6Row => ModOnce(pd + 1 + i, n - 1);
    case _ =>
  }

  /** Outside the DDF layouts Q's weights are the chunk numbers, rotated. */
  lemma {:induction false} QExponentRotates(layout: nat, n: nat, stripe: nat, i: nat)
    requires n >= 3 && Raid6LayoutKnown(layout) && !Ddf(layout) && i < n - 2
    ensures QExponent(layout, n, stripe, i)
         == (i + Rotation(ShapeOf(layout), n, Raid6P(layout, n, stripe))) % (n - 2)
  {
    Raid6IsShape(layout, n, stripe, i);
    ShapeChunkOfMember(ShapeOf(layout), n, Raid6P(layout, n, stripe), i);
    DataRankRotates(ShapeOf(layout), n, Raid6P(layout, n, stripe), i);
  }
}
