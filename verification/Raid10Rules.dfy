/** RAID10 by its rules: near copies fill a row after the other, and each far copy is as many members
    and rows on from the last as the recorded word says. The rules leave one layout each, and the
    formulas are it. */
module Raid10Rules {
  import opened Arithmetic
  import opened ParityRules
  import opened Raid10Placement

  /** Where near copy `i` and far copy `k` of chunk `c` are: chunk, near and far number in. */
  type Copying = (nat, nat, nat) -> Copy

  /** The word's low byte counts near copies, its second byte far ones, and bit 16 sets far copies one
      row apart. */
  function Near(layout: nat): nat {
    layout % 256
  }

  function Far(layout: nat): nat {
    layout / 256 % 256
  }

  predicate RowApart(layout: nat) {
    layout / 65536 % 2 == 1
  }

  /** The next place of its row, or the first of the next row, rows of near copies `step` rows apart. */
  predicate NextPlace(d: nat, step: nat, x: Copy, y: Copy) {
    y.slot == After(x.slot, d) && y.row == if x.slot == d - 1 then x.row + step else x.row
  }

  /** The next far copy: as many members on as there are near copies, round to the first. */
  predicate NextFar(d: nat, near: nat, step: nat, x: Copy, y: Copy) {
    y.slot == (if x.slot + near < d then x.slot + near else x.slot + near - d) && y.row == x.row + step
  }

  /** Members hold `stride` rows of each far copy. */
  predicate StrideOf(layout: nat, devChunks: nat, stride: nat) {
    stride * Far(layout) <= devChunks < (stride + 1) * Far(layout)
  }

  /** Near copies of consecutive chunks follow one another, `row` rows down at the end of each row, and
      far copies of each are `down` rows apart. */
  ghost predicate Steps(near: nat, far: nat, row: nat, down: nat, d: nat, f: Copying) {
    && f(0, 0, 0) == Copy(0, 0)
    && (forall c: nat, i: nat :: i + 1 < near ==> NextPlace(d, row, f(c, i, 0), f(c, i + 1, 0)))
    && (forall c: nat, i: nat :: i + 1 == near ==> NextPlace(d, row, f(c, i, 0), f(c + 1, 0, 0)))
    && forall c: nat, i: nat, k: nat :: i < near && k + 1 < far ==> NextFar(d, near, down, f(c, i, k), f(c, i, k + 1))
  }

  ghost predicate CopyRules(layout: nat, d: nat, stride: nat, f: Copying) {
    if RowApart(layout) then Steps(Near(layout), Far(layout), Far(layout), 1, d, f)
    else Steps(Near(layout), Far(layout), 1, stride, d, f)
  }

  /** A word assembly takes, over `d` members. */
  predicate WordOk(layout: nat, d: nat) {
    Near(layout) >= 1 && Far(layout) >= 1 && Near(layout) * Far(layout) <= d
  }

  function Placing(layout: nat, d: nat, devChunks: nat): (f: Copying)
    requires WordOk(layout, d) && d > 0
    ensures forall c: nat, i: nat, k: nat :: f(c, i, k) == CopyAt(Raid10Of(layout, devChunks), d, c, i, k)
  {
    (c: nat, i: nat, k: nat) => CopyAt(Raid10Of(layout, devChunks), d, c, i, k)
  }

  // ----- the formulas follow the rules

  lemma {:induction false} WordRead(layout: nat, d: nat, devChunks: nat, stride: nat)
    requires WordOk(layout, d) && StrideOf(layout, devChunks, stride)
    ensures Raid10Of(layout, devChunks) == Raid10(Near(layout), Far(layout), RowApart(layout), stride)
    ensures Near(layout) <= d
  {
    DivModUnique(devChunks, Far(layout), stride, devChunks - stride * Far(layout));
    MulMonotone(1, Far(layout), Near(layout));
  }

  lemma {:induction false} NextAt(at: nat, d: nat)
    requires d > 0
    ensures (at + 1) % d == After(at % d, d) && (at + 1) / d == at / d + if at % d == d - 1 then 1 else 0
  {
    DivModRecompose(at, d);
    if at % d == d - 1 {
      assert at + 1 == (at / d + 1) * d;
      DivModUnique(at + 1, d, at / d + 1, 0);
    } else {
      DivModUnique(at + 1, d, at / d, at % d + 1);
    }
  }

  /** The first far copy of near copy number `at`, counted through all chunks. */
  lemma {:induction false} FirstAt(g: Raid10, d: nat, c: nat, i: nat, at: nat)
    requires d > 0 && at == c * g.near + i
    ensures CopyAt(g, d, c, i, 0) == Copy(at % d, if g.offset then at / d * g.far else at / d)
  {
    DivModRecompose(at, d);
    DivModUnique(at % d, d, 0, at % d);
    assert 0 * g.near == 0 && 0 * g.stride == 0;
  }

  lemma {:induction false} NearNext(g: Raid10, d: nat, c: nat, i: nat, c': nat, i': nat)
    requires d > 0 && c' * g.near + i' == c * g.near + i + 1 && c * g.near >= 0
    ensures NextPlace(d, if g.offset then g.far else 1, CopyAt(g, d, c, i, 0), CopyAt(g, d, c', i', 0))
  {
    var at := c * g.near + i;
    FirstAt(g, d, c, i, at);
    FirstAt(g, d, c', i', at + 1);
    NextAt(at, d);
    if at % d == d - 1 { assert (at / d + 1) * g.far == at / d * g.far + g.far; }
  }

  lemma {:induction false} Onward(here: nat, near: nat, d: nat)
    requires near <= d && d > 0
    ensures (here + near) % d == if here % d + near < d then here % d + near else here % d + near - d
  {
    DivModRecompose(here, d);
    var r := here % d + near;
    if r < d {
      DivModUnique(here + near, d, here / d, r);
    } else {
      assert here + near == (here / d + 1) * d + (r - d);
      DivModUnique(here + near, d, here / d + 1, r - d);
    }
  }

  lemma {:induction false} FarNext(g: Raid10, d: nat, c: nat, i: nat, k: nat)
    requires 0 < d && g.near <= d
    ensures NextFar(d, g.near, if g.offset then 1 else g.stride, CopyAt(g, d, c, i, k), CopyAt(g, d, c, i, k + 1))
  {
    MulMonotone(0, k, g.near);
    MulMonotone(0, c, g.near);
    DivModRecompose(c * g.near + i, d);
    var dev := (c * g.near + i) % d;
    OneMore(k, g.near);
    OneMore(k, g.stride);
    Onward(dev + k * g.near, g.near, d);
  }

  lemma {:induction false} OneMore(k: nat, x: nat)
    ensures (k + 1) * x == k * x + x
  {
  }

  lemma {:induction false} FormulaSteps(g: Raid10, d: nat, f: Copying)
    requires 0 < d && 1 <= g.near <= d
    requires forall c: nat, i: nat, k: nat :: f(c, i, k) == CopyAt(g, d, c, i, k)
    ensures Steps(g.near, g.far, if g.offset then g.far else 1, if g.offset then 1 else g.stride, d, f)
  {
    var row, down := if g.offset then g.far else 1, if g.offset then 1 else g.stride;
    DivModUnique(0, d, 0, 0);
    FirstAt(g, d, 0, 0, 0);
    forall c: nat, i: nat | i + 1 < g.near ensures NextPlace(d, row, f(c, i, 0), f(c, i + 1, 0)) {
      MulMonotone(0, c, g.near);
      NearNext(g, d, c, i, c, i + 1);
    }
    forall c: nat, i: nat | i + 1 == g.near ensures NextPlace(d, row, f(c, i, 0), f(c + 1, 0, 0)) {
      MulMonotone(0, c, g.near);
      OneMore(c, g.near);
      NearNext(g, d, c, i, c + 1, 0);
    }
    forall c: nat, i: nat, k: nat | i < g.near && k + 1 < g.far
      ensures NextFar(d, g.near, down, f(c, i, k), f(c, i, k + 1))
    {
      FarNext(g, d, c, i, k);
    }
  }

  /** Every RAID10 layout follows the rules of its word. */
  lemma {:induction false} Raid10ByRules(layout: nat, d: nat, devChunks: nat, stride: nat)
    requires WordOk(layout, d) && d > 0 && StrideOf(layout, devChunks, stride)
    ensures CopyRules(layout, d, stride, Placing(layout, d, devChunks))
  {
    WordRead(layout, d, devChunks, stride);
    FormulaSteps(Raid10Of(layout, devChunks), d, Placing(layout, d, devChunks));
  }

  // ----- and the rules leave nothing else

  lemma {:induction false} SameNear(near: nat, far: nat, row: nat, down: nat, d: nat, f: Copying, g: Copying, c: nat,
                                    i: nat)
    requires Steps(near, far, row, down, d, f) && Steps(near, far, row, down, d, g) && i < near
    ensures f(c, i, 0) == g(c, i, 0)
    decreases c, i
  {
    if i > 0 {
      SameNear(near, far, row, down, d, f, g, c, i - 1);
      assert NextPlace(d, row, f(c, i - 1, 0), f(c, i - 1 + 1, 0));
      assert NextPlace(d, row, g(c, i - 1, 0), g(c, i - 1 + 1, 0));
    } else if c > 0 {
      SameNear(near, far, row, down, d, f, g, c - 1, near - 1);
      assert NextPlace(d, row, f(c - 1, near - 1, 0), f(c - 1 + 1, 0, 0));
      assert NextPlace(d, row, g(c - 1, near - 1, 0), g(c - 1 + 1, 0, 0));
    }
  }

  lemma {:induction false} SameFar(near: nat, far: nat, row: nat, down: nat, d: nat, f: Copying, g: Copying, c: nat,
                                   i: nat, k: nat)
    requires Steps(near, far, row, down, d, f) && Steps(near, far, row, down, d, g) && i < near && k < far
    ensures f(c, i, k) == g(c, i, k)
  {
    if k == 0 {
      SameNear(near, far, row, down, d, f, g, c, i);
    } else {
      SameFar(near, far, row, down, d, f, g, c, i, k - 1);
      assert NextFar(d, near, down, f(c, i, k - 1), f(c, i, k - 1 + 1));
      assert NextFar(d, near, down, g(c, i, k - 1), g(c, i, k - 1 + 1));
    }
  }

  /** A layout that follows the rules of a word is the one the word names. */
  lemma {:induction false} Raid10Determined(layout: nat, d: nat, devChunks: nat, stride: nat, f: Copying, c: nat,
                                            i: nat, k: nat)
    requires WordOk(layout, d) && d > 0 && StrideOf(layout, devChunks, stride) && CopyRules(layout, d, stride, f)
    requires i < Near(layout) && k < Far(layout)
    ensures f(c, i, k) == CopyAt(Raid10Of(layout, devChunks), d, c, i, k)
  {
    Raid10ByRules(layout, d, devChunks, stride);
    var near, far, g := Near(layout), Far(layout), Placing(layout, d, devChunks);
    if RowApart(layout) {
      SameFar(near, far, far, 1, d, f, g, c, i, k);
    } else {
      SameFar(near, far, 1, stride, d, f, g, c, i, k);
    }
  }

  // ----- what that comes to

  /** With bit 16 clear, far copy `k` is in the member's rows from `k` strides to the next; with it set,
      the far copies of a near copy are in rows one after another. */
  lemma {:induction false} FarCopiesApart(layout: nat, d: nat, devChunks: nat, stride: nat, c: nat, i: nat, k: nat)
    requires WordOk(layout, d) && d > 0 && StrideOf(layout, devChunks, stride)
    requires i < Near(layout) && k < Far(layout) && c < ArrayChunks(Raid10Of(layout, devChunks), d)
    ensures var (x, first) := (Placing(layout, d, devChunks)(c, i, k), Placing(layout, d, devChunks)(c, i, 0));
      if RowApart(layout) then x.row == first.row + k else k * stride <= x.row < (k + 1) * stride
  {
    WordRead(layout, d, devChunks, stride);
    var g := Raid10Of(layout, devChunks);
    RowsInSection(g, d, c, i);
    MulMonotone(0, c, g.near);
    DivNonNegative(c * g.near + i, d);
    assert (k + 1) * stride == k * stride + stride && 0 * stride == 0;
  }

  /** There are as many copies as near times far, in order of near copy and then of far copy. */
  lemma {:induction false} CopiesListed(g: Raid10, d: nat, c: nat, n: nat, i: nat, k: nat)
    requires d > 0 && i < n && k < g.far
    ensures 0 <= i * g.far + k < n * g.far && NearCopies(g, d, c, n)[i * g.far + k] == CopyAt(g, d, c, i, k)
  {
    MulMonotone(0, i, g.far);
    MulMonotone(i + 1, n, g.far);
    assert (i + 1) * g.far == i * g.far + g.far;
    if i < n - 1 {
      CopiesListed(g, d, c, n - 1, i, k);
    } else {
      FarListed(g, d, c, i, g.far, k);
    }
  }

  lemma {:induction false} FarListed(g: Raid10, d: nat, c: nat, i: nat, n: nat, k: nat)
    requires d > 0 && k < n
    ensures FarCopies(g, d, c, i, n)[k] == CopyAt(g, d, c, i, k)
  {
    if k < n - 1 { FarListed(g, d, c, i, n - 1, k); }
  }
}
