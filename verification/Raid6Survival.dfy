/** How many missing members a RAID6 row can do without, and up to how many members in all. */
module Raid6Survival {
  import opened Arithmetic
  import opened ParityLayout
  import opened Raid6Recovery
  import opened Wrappers

  /** The slots with no member. */
  ghost function AbsentSlots(ms: Members): set<nat> {
    set s: nat | s < |ms| && ms[s].None?
  }

  /** Members present among the first `k` slots. */
  function CountPresent(ms: Members, k: nat): nat
    requires k <= |ms|
  {
    if k == 0 then 0 else CountPresent(ms, k - 1) + if ms[k - 1].Some? then 1 else 0
  }

  lemma {:induction false} CountIsComplement(ms: Members, k: nat)
    requires k <= |ms|
    ensures CountPresent(ms, k) + |AbsentSlots(ms[..k])| == k
  {
    if k == 0 {
      assert AbsentSlots(ms[..0]) == {};
    } else {
      CountIsComplement(ms, k - 1);
      var before := AbsentSlots(ms[..k - 1]);
      if ms[k - 1].None? {
        assert AbsentSlots(ms[..k]) == before + {k - 1};
      } else {
        assert AbsentSlots(ms[..k]) == before;
      }
    }
  }

  /** No more than `most` members are missing when at least n - `most` are there. */
  lemma {:induction false} FewAbsent(ms: Members, most: nat)
    requires CountPresent(ms, |ms|) >= |ms| - most
    ensures |AbsentSlots(ms)| <= most
  {
    CountIsComplement(ms, |ms|);
    assert ms[..|ms|] == ms;
  }

  lemma {:induction false} TwoAbsent(ms: Members, a: nat, b: nat)
    requires a != b && a < |ms| && b < |ms| && ms[a].None? && ms[b].None?
    ensures |AbsentSlots(ms)| >= 2
  {
    var s := AbsentSlots(ms);
    assert a in s && b in s - {a};
    assert |s - {a}| >= 1 by { assert |s - {a} - {b}| >= 0; }
  }

  lemma {:induction false} ThreeAbsent(ms: Members, a: nat, b: nat, c: nat)
    requires a != b && a != c && b != c && a < |ms| && b < |ms| && c < |ms|
    requires ms[a].None? && ms[b].None? && ms[c].None?
    ensures |AbsentSlots(ms)| >= 3
  {
    var s := AbsentSlots(ms);
    assert a in s && b in s - {a} && c in s - {a} - {b};
    assert |s - {a} - {b}| >= 1 by { assert |s - {a} - {b} - {c}| >= 0; }
  }

  /** The most members a layout can have and still tell every pair of lost chunks apart: the
      powers of {02} repeat after 255. */
  function MemberLimit(layout: nat): nat {
    if Ddf(layout) then 255 else 257
  }

  lemma {:induction false} WeightsDiffer(layout: nat, n: nat, stripe: nat, i: nat, j: nat)
    requires 3 <= n <= MemberLimit(layout) && Raid6LayoutKnown(layout) && i < n - 2 && j < n - 2 && i != j
    ensures (QExponent(layout, n, stripe, j) - QExponent(layout, n, stripe, i)) % 255 != 0
  {
    QExponentInjective(layout, n, stripe, i, j);
    QExponentInjective(layout, n, stripe, j, i);
  }

  /** With at most two members missing every lost chunk can be rebuilt, up to the limit. */
  lemma {:induction false} TwoMissingRebuildable(layout: nat, stripe: nat, ms: Members, x: nat)
    requires 3 <= |ms| <= MemberLimit(layout) && Raid6LayoutKnown(layout) && x < |ms| - 2
    requires |AbsentSlots(ms)| <= 2 && !Present(ms, RowOf(layout, |ms|, stripe).data[x])
    ensures RowOf(layout, |ms|, stripe).Rebuildable(ms, x)
  {
    var r := RowOf(layout, |ms|, stripe);
    RowOfMatches(layout, |ms|, stripe);
    WeightsOfRow(r, layout, |ms|, stripe);
    WeightsFieldDistinct(r.weights, layout, |ms|, stripe);
    AnyTwoRebuildable(r, ms, x);
  }

  lemma {:induction false} WeightsFieldDistinct(w: seq<int>, layout: nat, n: nat, stripe: nat)
    requires WeightsOf(w, layout, n, stripe) && n <= MemberLimit(layout)
    ensures FieldDistinct(w)
  {
    forall i, j | 0 <= i < |w| && 0 <= j < |w| && i != j
      ensures (w[j] - w[i]) % 255 != 0
    {
      WeightsDiffer(layout, n, stripe, i, j);
    }
  }

  /** No two weights are the same power of {02}. */
  ghost predicate FieldDistinct(w: seq<int>) {
    forall i, j :: 0 <= i < |w| && 0 <= j < |w| && i != j ==> (w[j] - w[i]) % 255 != 0
  }

  lemma {:induction false} AnyTwoRebuildable(r: Row, ms: Members, x: nat)
    requires RowIn(r, |ms|) && FieldDistinct(r.weights)
    requires |AbsentSlots(ms)| <= 2 && x < |r.data| && !Present(ms, r.data[x])
    ensures r.Rebuildable(ms, x)
  {
    var lost := r.Missing(ms, |r.data|);
    MissingAscends(r, ms, |r.data|);
    assert x in lost;
    if |lost| >= 3 {
      ThreeAbsent(ms, r.data[lost[0]], r.data[lost[1]], r.data[lost[2]]);
    } else if |lost| == 2 {
      if !Present(ms, r.p) { ThreeAbsent(ms, r.data[lost[0]], r.data[lost[1]], r.p); }
      if !Present(ms, r.q) { ThreeAbsent(ms, r.data[lost[0]], r.data[lost[1]], r.q); }
    } else if !Present(ms, r.p) && !Present(ms, r.q) {
      ThreeAbsent(ms, r.data[x], r.p, r.q);
    }
  }

  lemma {:induction false} RotationHits(m: nat, rot: int, target: nat)
    requires m > 0 && target < m
    ensures ((target - rot) % m + rot) % m == target
  {
    DivModRecompose(target - rot, m);
    assert (target - rot) % m + rot == target + (-((target - rot) / m)) * m;
    AddMultipleMod(target, -((target - rot) / m), m);
    DivModUnique(target, m, 0, target);
  }

  /** Outside the DDF layouts every weight below n - 2 belongs to some chunk. */
  lemma {:induction false} ChunkOfWeight(layout: nat, n: nat, stripe: nat, target: nat) returns (i: nat)
    requires n >= 3 && Raid6LayoutKnown(layout) && !Ddf(layout) && target < n - 2
    ensures i < n - 2 && QExponent(layout, n, stripe, i) == target
  {
    var rot := Rotation(ShapeOf(layout), n, Raid6P(layout, n, stripe));
    i := (target - rot) % (n - 2);
    QExponentRotates(layout, n, stripe, i);
    RotationHits(n - 2, rot, target);
  }

  /** A DDF row with neither P nor Q on member 0 or 255. */
  lemma {:induction false} DdfRow(layout: nat, n: nat) returns (stripe: nat)
    requires n >= 256 && Ddf(layout)
    ensures stripe < n && Raid6P(layout, n, stripe) !in {0, 255} && Raid6Q(layout, n, stripe) !in {0, 255}
  {
    if layout == ROTATING_ZERO_RESTART {
      stripe := 1;
      ModOnce(1, n);
    } else if layout == ROTATING_N_RESTART {
      stripe := n - 3;
      ModOnce(n - 2, n);
    } else {
      stripe := n - 3;
      ModOnce(n - 3, n);
      ModOnce(n + 1, n);
    }
  }

  /** Past the limit some row has two chunks whose weights are the same power of {02}. */
  lemma {:induction false} WeightsClash(layout: nat, n: nat) returns (stripe: nat, i: nat, j: nat)
    requires n > MemberLimit(layout) && Raid6LayoutKnown(layout)
    ensures stripe < n && i < n - 2 && j < n - 2 && i != j
    ensures (QExponent(layout, n, stripe, j) - QExponent(layout, n, stripe, i)) % 255 == 0
  {
    if Ddf(layout) {
      stripe := DdfRow(layout, n);
      Raid6MemberOfChunk(layout, n, stripe, 0);
      Raid6MemberOfChunk(layout, n, stripe, 255);
      i := Raid6Chunk(layout, n, stripe, 0);
      j := Raid6Chunk(layout, n, stripe, 255);
    } else {
      stripe := 0;
      i := ChunkOfWeight(layout, n, stripe, 0);
      j := ChunkOfWeight(layout, n, stripe, 255);
    }
  }

  /** Members of `size` bytes, all there but `a` and `b`. */
  function AllBut(n: nat, a: nat, b: nat, size: nat): (ms: Members)
    ensures |ms| == n && forall s :: 0 <= s < n ==> (ms[s].None? <==> s == a || s == b)
    ensures forall s :: 0 <= s < n && ms[s].Some? ==> |ms[s].value| == size
  {
    seq(n, s => if s == a || s == b then None else Some(seq(size, _ => 0)))
  }

  lemma {:induction false} AllButAbsent(n: nat, a: nat, b: nat, size: nat)
    requires a < n && b < n && a != b
    ensures |AbsentSlots(AllBut(n, a, b, size))| == 2 && CountPresent(AllBut(n, a, b, size), n) == n - 2
    ensures AllReach(AllBut(n, a, b, size), size)
  {
    var ms := AllBut(n, a, b, size);
    assert AbsentSlots(ms) == {a, b};
    CountIsComplement(ms, n);
    assert ms[..n] == ms;
  }

  /** Past the limit, two missing members can leave a chunk that cannot be rebuilt, although n - 2
      members are there and every one of them holds the whole of its row. */
  lemma {:induction false} TwoMissingNotAlways(layout: nat, n: nat, chunk: nat)
    returns (stripe: nat, x: nat, ms: Members)
    requires n > MemberLimit(layout) && Raid6LayoutKnown(layout)
    ensures stripe < n && |ms| == n && |AbsentSlots(ms)| == 2 && CountPresent(ms, n) == n - 2
    ensures (stripe + 1) * chunk >= 0 && AllReach(ms, (stripe + 1) * chunk)
    ensures forall s :: 0 <= s < n && ms[s].Some? ==> |ms[s].value| == (stripe + 1) * chunk
    ensures x < n - 2 && !Present(ms, RowOf(layout, n, stripe).data[x]) && !RowOf(layout, n, stripe).Rebuildable(ms, x)
  {
    var i, j;
    stripe, i, j := WeightsClash(layout, n);
    var r := RowOf(layout, n, stripe);
    RowOfMatches(layout, n, stripe);
    WeightsOfRow(r, layout, n, stripe);
    x := i;
    MulMonotone(0, stripe + 1, chunk);
    ms := AllBut(n, r.data[i], r.data[j], (stripe + 1) * chunk);
    AllButAbsent(n, r.data[i], r.data[j], (stripe + 1) * chunk);
    ClashIsHopeless(r, ms, i, j);
  }

  lemma {:induction false} ClashIsHopeless(r: Row, ms: Members, i: nat, j: nat)
    requires RowIn(r, |ms|) && i < |r.data| && j < |r.data| && i != j && (r.weights[j] - r.weights[i]) % 255 == 0
    requires !Present(ms, r.data[i]) && !Present(ms, r.data[j])
    ensures !r.Rebuildable(ms, i)
  {
    var lost := r.Missing(ms, |r.data|);
    MissingAscends(r, ms, |r.data|);
    assert i in lost && j in lost;
    if |lost| == 2 {
      assert (lost[0] == i && lost[1] == j) || (lost[0] == j && lost[1] == i);
    }
  }

  /** RAID6's promise -- any two members may be missing -- holds exactly up to the limit. */
  lemma {:induction false} AnyTwoMembersExactly(layout: nat, n: nat)
    requires n >= 3 && Raid6LayoutKnown(layout)
    ensures n <= MemberLimit(layout) <==>
      forall stripe: nat, ms: Members, x: nat ::
        |ms| == n && |AbsentSlots(ms)| <= 2 && x < n - 2 && !Present(ms, RowOf(layout, n, stripe).data[x])
        ==> RowOf(layout, n, stripe).Rebuildable(ms, x)
  {
    if n <= MemberLimit(layout) {
      forall stripe: nat, ms: Members, x: nat |
        |ms| == n && |AbsentSlots(ms)| <= 2 && x < n - 2 && !Present(ms, RowOf(layout, n, stripe).data[x])
        ensures RowOf(layout, n, stripe).Rebuildable(ms, x)
      {
        TwoMissingRebuildable(layout, stripe, ms, x);
      }
    } else {
      var stripe, x, ms := TwoMissingNotAlways(layout, n, 1);
    }
  }
}
