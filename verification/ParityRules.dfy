/** The RAID4, 5 and 6 layouts by their rules: how parity moves from row to row, where Q stands from
    P, and how the data chunks follow one another. The rules leave one layout each, and the formulas
    are it. Layouts are named by the numbers superblocks record. */
module ParityRules {
  import opened Arithmetic
  import opened ParityLayout
  import opened Wrappers

  /** The RAID6 layouts that are read. */
  const KNOWN: set<nat> := {0, 1, 2, 3, 4, 5, 8, 9, 10, 16, 17, 18, 19, 20}

  /** Where the chunks of each row are, row and chunk number in. */
  type Layout = (nat, nat) -> Place

  // ----- steps round the members

  /** The next of the first `n` members, round to member 0. */
  function After(m: int, n: int): int {
    if m == n - 1 then 0 else m + 1
  }

  /** The one before, round to the last. */
  function Prior(m: int, n: int): int {
    if m == 0 then n - 1 else m - 1
  }

  // ----- the rules

  /** P of every row, from P of row 0 and its move: the members it goes round are the first `n`. */
  ghost predicate Descends(f: Layout, n: int, first: int) {
    f(0, 0).p == first && forall s: nat :: f(s + 1, 0).p == Prior(f(s, 0).p, n)
  }

  ghost predicate Ascends(f: Layout, n: int, first: int) {
    f(0, 0).p == first && forall s: nat :: f(s + 1, 0).p == After(f(s, 0).p, n)
  }

  ghost predicate Stays(f: Layout, at: int) {
    forall s: nat :: f(s, 0).p == at
  }

  /** Data chunks in order of member. */
  ghost predicate AscendingData(f: Layout, data: int) {
    forall s: nat, i: nat, j: nat :: i < j < data ==> f(s, i).data < f(s, j).data
  }

  /** Data chunks on one member after the next of the first `n`, from the one after Q, or after P. */
  ghost predicate FollowQ(f: Layout, n: int, data: int) {
    forall s: nat :: f(s, 0).q.Some? && f(s, 0).data == After(f(s, 0).q.value, n) && Follow(f, n, data, s)
  }

  ghost predicate FollowP(f: Layout, n: int, data: int) {
    forall s: nat :: f(s, 0).data == After(f(s, 0).p, n) && Follow(f, n, data, s)
  }

  ghost predicate Follow(f: Layout, n: int, data: int, s: nat) {
    forall i: nat :: i + 1 < data ==> f(s, i + 1).data == After(f(s, i).data, n)
  }

  /** Each row has one P and one Q or none, and every chunk its own member, neither of them. */
  ghost predicate RowsApart(f: Layout, n: int, data: int) {
    forall s: nat, i: nat :: i < data ==>
      && f(s, i).p == f(s, 0).p && f(s, i).q == f(s, 0).q
      && 0 <= f(s, i).data < n && f(s, i).data != f(s, i).p && Some(f(s, i).data) != f(s, i).q
  }

  /** Where Q stands. */
  ghost predicate QIs(f: Layout, at: nat -> int) {
    forall s: nat :: f(s, 0).q.Some? && f(s, 0).q.value == at(f(s, 0).p)
  }

  /** P of a RAID5 layout: 0 and 2 go left from the last member, 1 and 3 go right from the first, 4
      keeps it on the first, and any other number, RAID4's included, on the last. */
  ghost predicate Raid5Parity(layout: nat, n: nat, f: Layout) {
    if layout == 0 || layout == 2 then Descends(f, n, n - 1)
    else if layout == 1 || layout == 3 then Ascends(f, n, 0)
    else Stays(f, if layout == 4 then 0 else n - 1)
  }

  /** Layouts 2 and 3 go on from P, the others are in order of member. */
  ghost predicate Raid5Rules(layout: nat, n: nat, f: Layout) {
    && RowsApart(f, n, n - 1) && (forall s: nat :: f(s, 0).q.None?) && Raid5Parity(layout, n, f)
    && (if layout == 2 || layout == 3 then FollowP(f, n, n - 1) else AscendingData(f, n - 1))
  }

  /** P of a RAID6 layout. Those from 16 on are RAID5's over all members but the last. */
  ghost predicate Raid6Parity(layout: nat, n: nat, f: Layout) {
    if layout == 0 || layout == 2 || layout == 10 then Descends(f, n, n - 1)
    else if layout == 9 then Descends(f, n, n - 2)
    else if layout == 1 || layout == 3 || layout == 8 then Ascends(f, n, 0)
    else if layout == 16 || layout == 18 then Descends(f, n - 1, n - 2)
    else if layout == 17 || layout == 19 then Ascends(f, n - 1, 0)
    else Stays(f, if layout == 5 then n - 2 else 0)
  }

  /** Q is on the last member from 16 on, before P in 10 and after it in the others. */
  ghost predicate Raid6Second(layout: nat, n: nat, f: Layout) {
    if layout >= 16 then QIs(f, p => n - 1)
    else if layout == 10 then QIs(f, p => Prior(p, n))
    else QIs(f, p => After(p, n))
  }

  /** Chunks go on from Q in 2 and 3, from P in 10, from P round all but the last in 18 and 19, and are
      in order of member in the others. */
  ghost predicate Raid6Rules(layout: nat, n: nat, f: Layout) {
    && RowsApart(f, n, n - 2) && Raid6Parity(layout, n, f) && Raid6Second(layout, n, f)
    && (if layout == 2 || layout == 3 then FollowQ(f, n, n - 2)
        else if layout == 10 then FollowP(f, n, n - 2)
        else if layout == 18 || layout == 19 then FollowP(f, n - 1, n - 2)
        else AscendingData(f, n - 2))
  }

  // ----- the formulas follow the rules

  lemma {:induction false} NextRow(s: nat, n: nat)
    requires n > 0
    ensures (s + 1) % n == After(s % n, n)
  {
    DivModRecompose(s, n);
    if s % n == n - 1 {
      assert s + 1 == (s / n + 1) * n;
      DivModUnique(s + 1, n, s / n + 1, 0);
    } else {
      DivModUnique(s + 1, n, s / n, s % n + 1);
    }
  }

  lemma {:induction false} MovesLeft(f: Layout, w: nat, k: nat)
    requires k < w && forall s: nat :: f(s, 0).p == w - 1 - (s + k) % w
    ensures Descends(f, w, w - 1 - k)
  {
    DivModUnique(k, w, 0, k);
    assert f(0, 0).p == w - 1 - (0 + k) % w;
    forall s: nat ensures f(s + 1, 0).p == Prior(f(s, 0).p, w) {
      assert f(s + 1, 0).p == w - 1 - (s + 1 + k) % w;
      NextRow(s + k, w);
    }
  }

  lemma {:induction false} MovesRight(f: Layout, w: nat)
    requires w > 0 && forall s: nat :: f(s, 0).p == s % w
    ensures Ascends(f, w, 0)
  {
    DivModUnique(0, w, 0, 0);
    assert f(0, 0).p == 0 % w;
    forall s: nat ensures f(s + 1, 0).p == After(f(s, 0).p, w) {
      assert f(s + 1, 0).p == (s + 1) % w;
      NextRow(s, w);
    }
  }

  /** Chunks go on round the first `w` members, from the one after `from`. */
  lemma {:induction false} GoesOn(f: Layout, w: nat, data: nat, s: nat, from: nat)
    requires 0 < data <= w && from < w
    requires forall i: nat :: i < data ==> f(s, i).data == (from + 1 + i) % w
    ensures f(s, 0).data == After(from, w) && Follow(f, w, data, s)
  {
    forall i: nat | i < data ensures f(s, i).data == if from + 1 + i < w then from + 1 + i else from + 1 + i - w {
      ModOnce(from + 1 + i, w);
    }
  }

  function Raid5Layout(layout: nat, n: nat): (f: Layout)
    requires n >= 2
    ensures forall s: nat, i: nat :: f(s, i) == Raid5Map(layout, n, s, i)
  {
    (s: nat, i: nat) => Raid5Map(layout, n, s, i)
  }

  function Raid6Layout(layout: nat, n: nat): (f: Layout)
    requires n >= 3 && Raid6LayoutKnown(layout)
    ensures forall s: nat, i: nat :: f(s, i) == Raid6Map(layout, n, s, i)
  {
    (s: nat, i: nat) => Raid6Map(layout, n, s, i)
  }

  lemma {:induction false} Raid5Apart(layout: nat, n: nat)
    requires n >= 2
    ensures RowsApart(Raid5Layout(layout, n), n, n - 1)
  {
    var f := Raid5Layout(layout, n);
    forall s: nat, i: nat | i < n - 1
      ensures f(s, i).p == f(s, 0).p && f(s, i).q == f(s, 0).q
      ensures f(s, i).data < n && f(s, i).data != f(s, i).p && Some(f(s, i).data) != f(s, i).q
    {
      Raid5ChunkOfMember(layout, n, s, i);
      Raid5ChunkOfMember(layout, n, s, 0);
    }
  }

  lemma {:induction false} Raid5ParityMoves(layout: nat, n: nat)
    requires n >= 2
    ensures Raid5Parity(layout, n, Raid5Layout(layout, n))
  {
    var f := Raid5Layout(layout, n);
    if layout == 0 || layout == 2 {
      MovesLeft(f, n, 0);
    } else if layout == 1 || layout == 3 {
      MovesRight(f, n);
    }
  }

  lemma {:induction false} Raid5GoesOn(layout: nat, n: nat)
    requires n >= 2 && (layout == 2 || layout == 3)
    ensures FollowP(Raid5Layout(layout, n), n, n - 1)
  {
    var f := Raid5Layout(layout, n);
    forall s: nat ensures f(s, 0).data == After(f(s, 0).p, n) && Follow(f, n, n - 1, s) {
      Raid5ChunkOfMember(layout, n, s, 0);
      GoesOn(f, n, n - 1, s, f(s, 0).p);
    }
  }

  /** Every RAID4 and RAID5 layout follows its rules. */
  lemma {:induction false} Raid5ByRules(layout: nat, n: nat)
    requires n >= 2
    ensures Raid5Rules(layout, n, Raid5Layout(layout, n))
  {
    Raid5Apart(layout, n);
    Raid5ParityMoves(layout, n);
    if layout == 2 || layout == 3 { Raid5GoesOn(layout, n); }
  }

  lemma {:induction false} Raid6Apart(layout: nat, n: nat)
    requires n >= 3 && Raid6LayoutKnown(layout)
    ensures RowsApart(Raid6Layout(layout, n), n, n - 2)
  {
    var f := Raid6Layout(layout, n);
    forall s: nat, i: nat | i < n - 2
      ensures f(s, i).p == f(s, 0).p && f(s, i).q == f(s, 0).q
      ensures f(s, i).data < n && f(s, i).data != f(s, i).p && Some(f(s, i).data) != f(s, i).q
    {
      Raid6ChunkOfMember(layout, n, s, i);
      Raid6ChunkOfMember(layout, n, s, 0);
    }
  }

  lemma {:induction false} Raid6ParityMoves(layout: nat, n: nat)
    requires n >= 3 && Raid6LayoutKnown(layout)
    ensures Raid6Parity(layout, n, Raid6Layout(layout, n))
  {
    var f := Raid6Layout(layout, n);
    if layout in {0, 2, 10} {
      MovesLeft(f, n, 0);
    } else if layout == 9 {
      MovesLeft(f, n, 1);
    } else if layout in {1, 3, 8} {
      MovesRight(f, n);
    } else if layout in {16, 18} {
      MovesLeft(f, n - 1, 0);
    } else if layout in {17, 19} {
      MovesRight(f, n - 1);
    }
  }

  lemma {:induction false} Raid6SecondStands(layout: nat, n: nat)
    requires n >= 3 && Raid6LayoutKnown(layout)
    ensures Raid6Second(layout, n, Raid6Layout(layout, n))
  {
    var f := Raid6Layout(layout, n);
    forall s: nat
      ensures f(s, 0).q.Some?
      ensures f(s, 0).q.value ==
        if layout >= 16 then n - 1 else if layout == 10 then Prior(f(s, 0).p, n) else After(f(s, 0).p, n)
    {
      Raid6ChunkOfMember(layout, n, s, 0);
      ModOnce(f(s, 0).p + 1, n);
      ModOnce(f(s, 0).p + n - 1, n);
    }
  }

  lemma {:induction false} Raid6GoesOnFromQ(layout: nat, n: nat)
    requires n >= 3 && (layout == 2 || layout == 3)
    ensures FollowQ(Raid6Layout(layout, n), n, n - 2)
  {
    var f := Raid6Layout(layout, n);
    forall s: nat ensures f(s, 0).q.Some? && f(s, 0).data == After(f(s, 0).q.value, n) && Follow(f, n, n - 2, s) {
      Raid6ChunkOfMember(layout, n, s, 0);
      var pd, qd := f(s, 0).p, f(s, 0).q.value;
      ModOnce(pd + 1, n);
      forall i: nat | i < n - 2 ensures f(s, i).data == (qd + 1 + i) % n {
        ModOnce(pd + 2 + i, n);
        ModOnce(qd + 1 + i, n);
      }
      GoesOn(f, n, n - 2, s, qd);
    }
  }

  lemma {:induction false} Raid6GoesOnFromP(layout: nat, n: nat)
    requires n >= 3 && layout in {10, 18, 19}
    ensures FollowP(Raid6Layout(layout, n), if layout == 10 then n else n - 1, n - 2)
  {
    var f, w := Raid6Layout(layout, n), if layout == 10 then n else n - 1;
    forall s: nat ensures f(s, 0).data == After(f(s, 0).p, w) && Follow(f, w, n - 2, s) {
      Raid6IsShape(layout, n, s, 0);
      GoesOn(f, w, n - 2, s, f(s, 0).p);
    }
  }

  /** Every RAID6 layout that is known follows its rules. */
  lemma {:induction false} Raid6ByRules(layout: nat, n: nat)
    requires n >= 3 && layout in KNOWN
    ensures Raid6LayoutKnown(layout) && Raid6Rules(layout, n, Raid6Layout(layout, n))
  {
    Raid6Apart(layout, n);
    Raid6ParityMoves(layout, n);
    Raid6SecondStands(layout, n);
    if layout == 2 || layout == 3 {
      Raid6GoesOnFromQ(layout, n);
    } else if layout in {10, 18, 19} {
      Raid6GoesOnFromP(layout, n);
    } else {
      Raid6InOrder(layout, n);
    }
  }

  lemma {:induction false} Raid6InOrder(layout: nat, n: nat)
    requires n >= 3 && Raid6LayoutKnown(layout) && layout !in {2, 3, 10, 18, 19}
    ensures AscendingData(Raid6Layout(layout, n), n - 2)
  {
  }

  // ----- and the rules leave nothing else

  lemma {:induction false} SameDescent(f: Layout, g: Layout, n: int, first: int, s: nat)
    requires Descends(f, n, first) && Descends(g, n, first)
    ensures f(s, 0).p == g(s, 0).p
  {
    if s > 0 {
      SameDescent(f, g, n, first, s - 1);
      assert f(s - 1 + 1, 0).p == Prior(f(s - 1, 0).p, n) && g(s - 1 + 1, 0).p == Prior(g(s - 1, 0).p, n);
    }
  }

  lemma {:induction false} SameAscent(f: Layout, g: Layout, n: int, first: int, s: nat)
    requires Ascends(f, n, first) && Ascends(g, n, first)
    ensures f(s, 0).p == g(s, 0).p
  {
    if s > 0 {
      SameAscent(f, g, n, first, s - 1);
      assert f(s - 1 + 1, 0).p == After(f(s - 1, 0).p, n) && g(s - 1 + 1, 0).p == After(g(s - 1, 0).p, n);
    }
  }

  lemma {:induction false} SameFollow(f: Layout, g: Layout, n: int, data: int, s: nat, i: nat)
    requires Follow(f, n, data, s) && Follow(g, n, data, s) && f(s, 0).data == g(s, 0).data && i < data
    ensures f(s, i).data == g(s, i).data
  {
    if i > 0 {
      SameFollow(f, g, n, data, s, i - 1);
      assert f(s, i - 1 + 1).data == After(f(s, i - 1).data, n) && g(s, i - 1 + 1).data == After(g(s, i - 1).data, n);
    }
  }

  /** A member's place among those that are not `p` or `q`. */
  function Rank(p: int, q: int, m: int): int {
    m - (if p < m then 1 else 0) - if q < m then 1 else 0
  }

  /** In order of member, each chunk is at least as far along as its number. */
  lemma {:induction false} RankAtLeast(f: Layout, n: int, data: int, s: nat, p: int, q: int, i: nat)
    requires AscendingData(f, data) && i < data && p != q && 0 <= p && 0 <= q
    requires forall j: nat :: j < data ==> 0 <= f(s, j).data < n && f(s, j).data != p && f(s, j).data != q
    ensures Rank(p, q, f(s, i).data) >= i
  {
    if i > 0 {
      RankAtLeast(f, n, data, s, p, q, i - 1);
      assert f(s, i - 1).data < f(s, i).data;
    }
  }

  /** And no further, for there are no more members. */
  lemma {:induction false} RankAtMost(f: Layout, n: int, data: int, s: nat, p: int, q: int, i: nat)
    requires AscendingData(f, data) && i < data && p != q && 0 <= p < n
    requires (0 <= q < n && data == n - 2) || (q == n && data == n - 1)
    requires forall j: nat :: j < data ==> 0 <= f(s, j).data < n && f(s, j).data != p && f(s, j).data != q
    ensures Rank(p, q, f(s, i).data) <= i
    decreases data - i
  {
    if i + 1 < data {
      RankAtMost(f, n, data, s, p, q, i + 1);
      assert f(s, i).data < f(s, i + 1).data;
    }
  }

  lemma {:induction false} SameOrder(f: Layout, g: Layout, n: int, data: int, s: nat, i: nat)
    requires AscendingData(f, data) && AscendingData(g, data) && i < data
    requires RowsApart(f, n, data) && RowsApart(g, n, data)
    requires f(s, 0).p == g(s, 0).p < n && f(s, 0).q == g(s, 0).q
    requires match f(s, 0).q case None => data == n - 1 case Some(q) => data == n - 2 && q < n && q != f(s, 0).p
    ensures f(s, i).data == g(s, i).data
  {
    var p, q := f(s, 0).p, if f(s, 0).q.Some? then f(s, 0).q.value else n;
    RankAtLeast(f, n, data, s, p, q, i);
    RankAtMost(f, n, data, s, p, q, i);
    RankAtLeast(g, n, data, s, p, q, i);
    RankAtMost(g, n, data, s, p, q, i);
  }

  lemma {:induction false} SameRaid5Parity(layout: nat, n: nat, f: Layout, g: Layout, s: nat)
    requires Raid5Parity(layout, n, f) && Raid5Parity(layout, n, g)
    ensures f(s, 0).p == g(s, 0).p
  {
    if layout == 0 || layout == 2 {
      SameDescent(f, g, n, n - 1, s);
    } else if layout == 1 || layout == 3 {
      SameAscent(f, g, n, 0, s);
    }
  }

  /** A layout that follows the RAID4 and RAID5 rules of a number is the one the number names. */
  lemma {:induction false} Raid5Determined(layout: nat, n: nat, f: Layout, s: nat, i: nat)
    requires n >= 2 && i < n - 1 && Raid5Rules(layout, n, f)
    ensures f(s, i) == Raid5Map(layout, n, s, i)
  {
    var g := Raid5Layout(layout, n);
    Raid5ByRules(layout, n);
    SameRaid5Parity(layout, n, f, g, s);
    Raid5ChunkOfMember(layout, n, s, 0);
    if layout == 2 || layout == 3 {
      SameFollow(f, g, n, n - 1, s, i);
    } else {
      SameOrder(f, g, n, n - 1, s, i);
    }
  }

  lemma {:induction false} SameRaid6Parity(layout: nat, n: nat, f: Layout, g: Layout, s: nat)
    requires Raid6Parity(layout, n, f) && Raid6Parity(layout, n, g)
    ensures f(s, 0).p == g(s, 0).p
  {
    if layout == 0 || layout == 2 || layout == 10 {
      SameDescent(f, g, n, n - 1, s);
    } else if layout == 9 {
      SameDescent(f, g, n, n - 2, s);
    } else if layout == 1 || layout == 3 || layout == 8 {
      SameAscent(f, g, n, 0, s);
    } else if layout == 16 || layout == 18 {
      SameDescent(f, g, n - 1, n - 2, s);
    } else if layout == 17 || layout == 19 {
      SameAscent(f, g, n - 1, 0, s);
    }
  }

  /** A layout that follows the RAID6 rules of a known number is the one the number names. */
  lemma {:induction false} Raid6Determined(layout: nat, n: nat, f: Layout, s: nat, i: nat)
    requires n >= 3 && i < n - 2 && layout in KNOWN && Raid6Rules(layout, n, f)
    ensures Raid6LayoutKnown(layout) && f(s, i) == Raid6Map(layout, n, s, i)
  {
    var g := Raid6Layout(layout, n);
    Raid6ByRules(layout, n);
    SameRaid6Parity(layout, n, f, g, s);
    assert f(s, 0).q == g(s, 0).q;
    Raid6ChunkOfMember(layout, n, s, 0);
    if layout == 2 || layout == 3 {
      SameFollow(f, g, n, n - 2, s, i);
    } else if layout == 10 {
      SameFollow(f, g, n, n - 2, s, i);
    } else if layout == 18 || layout == 19 {
      SameFollow(f, g, n - 1, n - 2, s, i);
    } else {
      SameOrder(f, g, n, n - 2, s, i);
    }
  }

  // ----- the weights of Q

  /** The next member that is not P. */
  function Skipping(p: int, m: int, n: int): int {
    if After(m, n) == p then After(p, n) else After(m, n)
  }

  /** In layouts 8, 9 and 10 a chunk's weight in Q is its member's number. In the others weights count
      data members off, from 0 at the first after Q. */
  lemma {:induction false} WeightsCountOff(layout: nat, n: nat, s: nat, i: nat, j: nat)
    requires n >= 3 && layout in KNOWN && i < n - 2 && j < n - 2
    ensures Raid6LayoutKnown(layout)
    ensures layout in {8, 9, 10} ==> QExponent(layout, n, s, i) == Raid6Map(layout, n, s, i).data
    ensures layout !in {8, 9, 10} ==>
      var (r, t) := (Raid6Map(layout, n, s, i), Raid6Map(layout, n, s, j));
      && (r.data == Skipping(r.p, r.q.value, n) ==> QExponent(layout, n, s, i) == 0)
      && (t.data == Skipping(r.p, r.data, n) ==> QExponent(layout, n, s, j) == QExponent(layout, n, s, i) + 1)
  {
    Raid6ChunkOfMember(layout, n, s, i);
    Raid6ChunkOfMember(layout, n, s, j);
    var r, t := Raid6Map(layout, n, s, i), Raid6Map(layout, n, s, j);
    RanksCountOff(n, r.p, r.q.value, r.data, t.data);
  }

  lemma {:induction false} RanksCountOff(n: nat, p: nat, q: nat, a: nat, b: nat)
    requires p < n && q < n && p != q && a < n && b < n && a != p && a != q && b != p && b != q
    ensures a == Skipping(p, q, n) ==> DataRank(n, p, q, a) == 0
    ensures b == Skipping(p, a, n) ==> DataRank(n, p, q, b) == DataRank(n, p, q, a) + 1
  {
  }
}
