/** RAID10: near, far and offset copies. */
module Raid10Placement {
  import opened Arithmetic

  /** A RAID10 layout: `near` copies side by side, `far` further down the members, one chunk
      row apart (`offset`) or one section of `stride` rows apart. */
  datatype Raid10 = Raid10(near: nat, far: nat, offset: bool, stride: nat)

  /** A copy of a chunk: the member it is on and its chunk row there. */
  datatype Copy = Copy(slot: nat, row: int)

  /** A layout over `d` members of `devChunks` chunks each, as assembly accepts it. */
  ghost predicate Fits(g: Raid10, d: nat, devChunks: nat) {
    && g.near >= 1 && g.far >= 1 && g.near * g.far <= d
    && g.stride == devChunks / g.far
  }

  /** The layout a superblock's word records, over members of `devChunks` chunks. */
  function Raid10Of(layout: nat, devChunks: nat): Raid10
    requires (layout / 256) % 256 != 0
  {
    var far := (layout / 256) % 256;
    DivNonNegative(devChunks, far);
    Raid10(layout % 256, far, (layout / 65536) % 2 == 1, devChunks / far)
  }

  /** Chunks of array the layout holds. */
  function ArrayChunks(g: Raid10, d: nat): nat
    requires g.near >= 1
  {
    g.stride * d / g.near
  }

  function Primary(g: Raid10, d: nat, c: nat): Copy
    requires d > 0
  {
    var at := c * g.near;
    var row := at / d;
    Copy(at % d, if g.offset then row * g.far else row)
  }

  /** Near copy `i`, far copy `k` of chunk `c`. */
  function CopyAt(g: Raid10, d: nat, c: nat, i: nat, k: nat): Copy
    requires d > 0
  {
    var at := c * g.near + i;
    var dev, row := at % d, at / d;
    Copy((dev + k * g.near) % d, if g.offset then row * g.far + k else row + k * g.stride)
  }

  /** Every place chunk `c` is kept, far copies of a near copy together. */
  function Copies(g: Raid10, d: nat, c: nat): (s: seq<Copy>)
    requires d > 0
  {
    NearCopies(g, d, c, g.near)
  }

  function NearCopies(g: Raid10, d: nat, c: nat, i: nat): (s: seq<Copy>)
    requires d > 0
    ensures |s| == i * g.far
  {
    if i == 0 then [] else NearCopies(g, d, c, i - 1) + FarCopies(g, d, c, i - 1, g.far)
  }

  function FarCopies(g: Raid10, d: nat, c: nat, i: nat, k: nat): (s: seq<Copy>)
    requires d > 0
    ensures |s| == k
  {
    if k == 0 then [] else FarCopies(g, d, c, i, k - 1) + [CopyAt(g, d, c, i, k - 1)]
  }

  /** The inner loop: the far copies of near copy `i`. */
  method ComputeFarCopies(g: Raid10, d: nat, c: nat, i: nat) returns (out: seq<Copy>)
    requires d > 0
    ensures out == FarCopies(g, d, c, i, g.far)
  {
    var at := c * g.near + i;
    var dev, row := at % d, at / d;
    out := [];
    var k := 0;
    while k < g.far
      invariant 0 <= k <= g.far
      invariant out == FarCopies(g, d, c, i, k)
    {
      var slot := (dev + k * g.near) % d;
      var r := if g.offset then row * g.far + k else row + k * g.stride;
      out := out + [Copy(slot, r)];
      k := k + 1;
    }
  }

  method ComputeCopies(g: Raid10, d: nat, c: nat) returns (out: seq<Copy>)
    requires d > 0
    ensures out == Copies(g, d, c)
  {
    out := [];
    var i := 0;
    while i < g.near
      invariant 0 <= i <= g.near
      invariant out == NearCopies(g, d, c, i)
    {
      var far := ComputeFarCopies(g, d, c, i);
      out := out + far;
      i := i + 1;
    }
  }

  lemma {:induction false} FarCopiesMember(g: Raid10, d: nat, c: nat, i: nat, k: nat, x: Copy)
    requires d > 0
    ensures x in FarCopies(g, d, c, i, k) <==> exists k': nat :: k' < k && x == CopyAt(g, d, c, i, k')
  {
    if k > 0 {
      FarCopiesMember(g, d, c, i, k - 1, x);
      if x == CopyAt(g, d, c, i, k - 1) { assert k - 1 < k; }
      if exists k': nat :: k' < k && x == CopyAt(g, d, c, i, k') {
        var k': nat :| k' < k && x == CopyAt(g, d, c, i, k');
        assert k' < k - 1 || k' == k - 1;
      }
    }
  }

  lemma {:induction false} NearCopiesMember(g: Raid10, d: nat, c: nat, n: nat, x: Copy)
    requires d > 0
    ensures x in NearCopies(g, d, c, n) <==> exists i: nat, k: nat :: i < n && k < g.far && x == CopyAt(g, d, c, i, k)
  {
    if n > 0 {
      NearCopiesMember(g, d, c, n - 1, x);
      FarCopiesMember(g, d, c, n - 1, g.far, x);
    }
  }

  lemma {:induction false} PrimaryFirst(g: Raid10, d: nat, c: nat)
    requires d > 0 && g.near >= 1 && g.far >= 1
    ensures g.near * g.far >= 1 && |Copies(g, d, c)| == g.near * g.far
    ensures Copies(g, d, c)[0] == Primary(g, d, c)
  {
    FirstCopy(g, d, c, g.near);
  }

  lemma {:induction false} FirstCopy(g: Raid10, d: nat, c: nat, n: nat)
    requires d > 0 && n >= 1 && g.far >= 1
    ensures n * g.far >= 1 && NearCopies(g, d, c, n)[0] == Primary(g, d, c)
  {
    if n == 1 {
      FirstFarCopy(g, d, c, g.far);
      assert NearCopies(g, d, c, 0) == [];
    } else {
      FirstCopy(g, d, c, n - 1);
    }
  }

  lemma {:induction false} FirstFarCopy(g: Raid10, d: nat, c: nat, k: nat)
    requires d > 0 && k >= 1
    ensures FarCopies(g, d, c, 0, k)[0] == Primary(g, d, c)
  {
    if k == 1 {
      assert CopyAt(g, d, c, 0, 0) == Primary(g, d, c) by { ModMod(c * g.near, d); }
    } else {
      FirstFarCopy(g, d, c, k - 1);
    }
  }

  lemma {:induction false} ModMod(a: int, d: int)
    requires d > 0
    ensures a % d % d == a % d
  {
    DivModUnique(a % d, d, 0, a % d);
  }

  /** Which near and far copy of which chunk a member's chunk row holds: `CopyAt` undone. */
  datatype Origin = Origin(chunk: int, near: int, far: int)

  function Locate(g: Raid10, d: nat, x: Copy): Origin
    requires d > 0 && g.near >= 1 && g.far >= 1 && g.stride >= 1
  {
    var k := if g.offset then x.row % g.far else x.row / g.stride;
    var row := if g.offset then x.row / g.far else x.row % g.stride;
    var at := row * d + (x.slot - k * g.near) % d;
    Origin(at / g.near, at % g.near, k)
  }

  lemma {:induction false} Unrotate(dev: int, s: int, d: int)
    requires 0 <= dev < d
    ensures ((dev + s) % d - s) % d == dev
  {
    var q := (dev + s) / d;
    DivModRecompose(dev + s, d);
    assert (dev + s) % d - s == dev + (-q) * d;
    AddMultipleMod(dev, -q, d);
    DivModUnique(dev, d, 0, dev);
  }

  /** Near copy `i` of an array chunk is within the rows of one far section. */
  lemma {:induction false} RowsInSection(g: Raid10, d: nat, c: nat, i: nat)
    requires d > 0 && g.near >= 1 && i < g.near && c < ArrayChunks(g, d)
    ensures (c * g.near + i) / d < g.stride
  {
    var n := g.near;
    DivModRecompose(g.stride * d, n);
    assert (c + 1) * n <= ArrayChunks(g, d) * n by { MulMonotone(c + 1, ArrayChunks(g, d), n); }
    assert (c + 1) * n == c * n + n;
    DivBelow(c * n + i, d, g.stride);
  }

  lemma {:induction false} FarRow(g: Raid10, row: nat, k: nat)
    requires g.far >= 1 && k < g.far && row < g.stride
    ensures 0 <= row * g.far + k < g.stride * g.far
    ensures 0 <= row + k * g.stride < g.stride * g.far
    ensures (row * g.far + k) / g.far == row && (row * g.far + k) % g.far == k
    ensures (row + k * g.stride) / g.stride == k && (row + k * g.stride) % g.stride == row
  {
    MulMonotone(row + 1, g.stride, g.far);
    assert (row + 1) * g.far == row * g.far + g.far;
    MulMonotone(k + 1, g.far, g.stride);
    assert (k + 1) * g.stride == k * g.stride + g.stride;
    assert g.far * g.stride == g.stride * g.far;
    DivModUnique(row * g.far + k, g.far, row, k);
    DivModUnique(row + k * g.stride, g.stride, k, row);
  }

  /** Over the whole array every copy of every chunk has a place of its own, inside its
      member: the place gives the chunk and the copy back. */
  lemma {:induction false} CopyLocated(g: Raid10, d: nat, devChunks: nat, c: nat, i: nat, k: nat)
    requires Fits(g, d, devChunks) && d > 0
    requires c < ArrayChunks(g, d) && i < g.near && k < g.far
    ensures g.stride >= 1
    ensures CopyAt(g, d, c, i, k).slot < d && 0 <= CopyAt(g, d, c, i, k).row < devChunks
    ensures Locate(g, d, CopyAt(g, d, c, i, k)) == Origin(c, i, k)
  {
    var at := c * g.near + i;
    var dev, row := at % d, at / d;
    var x := CopyAt(g, d, c, i, k);
    RowsInSection(g, d, c, i);
    FarRow(g, row, k);
    DivModRecompose(devChunks, g.far);
    Unrotate(dev, k * g.near, d);
    assert x.slot == (dev + k * g.near) % d;
    DivModRecompose(at, d);
    DivModUnique(at, g.near, c, i);
  }

  /** Every copy of an array chunk is inside its member. */
  lemma {:induction false} CopyInMember(g: Raid10, d: nat, devChunks: nat, c: nat, x: Copy)
    requires Fits(g, d, devChunks) && d > 0 && c < ArrayChunks(g, d) && x in Copies(g, d, c)
    ensures x.slot < d && 0 <= x.row < devChunks
  {
    NearCopiesMember(g, d, c, g.near, x);
    var i: nat, k: nat :| i < g.near && k < g.far && x == CopyAt(g, d, c, i, k);
    CopyLocated(g, d, devChunks, c, i, k);
  }

  /** The copies of one chunk are on distinct members. */
  lemma {:induction false} CopiesOnDistinctMembers(g: Raid10, d: nat, devChunks: nat, c: nat, i: nat, k: nat, i': nat,
      k': nat)
    requires Fits(g, d, devChunks) && d > 0
    requires i < g.near && k < g.far && i' < g.near && k' < g.far
    requires CopyAt(g, d, c, i, k).slot == CopyAt(g, d, c, i', k').slot
    ensures i == i' && k == k'
  {
    SlotOf(g, d, c, i, k);
    SlotOf(g, d, c, i', k');
    CopyNumber(g, i, k);
    CopyNumber(g, i', k');
    SameRemainder(c * g.near, i + k * g.near, i' + k' * g.near, d);
  }

  lemma {:induction false} SlotOf(g: Raid10, d: nat, c: nat, i: nat, k: nat)
    requires d > 0
    ensures CopyAt(g, d, c, i, k).slot == (c * g.near + (i + k * g.near)) % d
  {
    var at := c * g.near + i;
    DivModRecompose(at, d);
    AddMultipleMod(at % d + k * g.near, at / d, d);
  }

  lemma {:induction false} CopyNumber(g: Raid10, i: nat, k: nat)
    requires i < g.near && k < g.far
    ensures i + k * g.near < g.near * g.far
    ensures (i + k * g.near) % g.near == i && (i + k * g.near) / g.near == k
  {
    MulMonotone(k + 1, g.far, g.near);
    assert (k + 1) * g.near == k * g.near + g.near;
    DivModUnique(i + k * g.near, g.near, k, i);
  }

  lemma {:induction false} SameRemainder(base: int, x: nat, y: nat, d: nat)
    requires x < d && y < d && (base + x) % d == (base + y) % d
    ensures x == y
  {
    Unrotate(x, base, d);
    Unrotate(y, base, d);
  }

  lemma {:induction false} Distribute(a: int, d: int, r: int, n: int)
    ensures (a * d + r) * n == r * n + (a * n) * d
  {
    assert (a * d) * n == (a * n) * d;
  }

  /** The slots of chunk `c + d` are those of chunk `c`. */
  lemma {:induction false} SlotsRepeat(g: Raid10, d: nat, c: nat, i: nat, k: nat)
    requires d > 0
    ensures CopyAt(g, d, c, i, k).slot == CopyAt(g, d, c % d, i, k).slot
  {
    SlotOf(g, d, c, i, k);
    SlotOf(g, d, c % d, i, k);
    DivModRecompose(c, d);
    var q := c / d * g.near;
    Distribute(c / d, d, c % d, g.near);
    AddMultipleMod((c % d) * g.near + (i + k * g.near), q, d);
  }

  ghost predicate Kept(g: Raid10, d: nat, c: nat, present: set<nat>)
    requires d > 0
  {
    exists x :: x in Copies(g, d, c) && x.slot in present
  }

  /** Checking the first `d` chunks covers every chunk. */
  lemma {:induction false} FirstChunksCoverAll(g: Raid10, d: nat, c: nat, present: set<nat>)
    requires d > 0
    requires forall c': nat :: c' < d ==> Kept(g, d, c', present)
    ensures Kept(g, d, c, present)
  {
    assert Kept(g, d, c % d, present);
    var x :| x in Copies(g, d, c % d) && x.slot in present;
    NearCopiesMember(g, d, c % d, g.near, x);
    var i: nat, k: nat :| i < g.near && k < g.far && x == CopyAt(g, d, c % d, i, k);
    SlotsRepeat(g, d, c, i, k);
    NearCopiesMember(g, d, c, g.near, CopyAt(g, d, c, i, k));
    assert CopyAt(g, d, c, i, k) in Copies(g, d, c);
  }
}
