/** Inclusive sector ranges, and which of them share a sector. */
module Spans {
  datatype Span = Span(first: int, last: int) {
    predicate Forward() {
      first <= last
    }

    predicate Has(sector: int) {
      first <= sector <= last
    }
  }

  predicate Overlap(a: Span, b: Span) {
    a.first <= b.last && b.first <= a.last
  }

  /** Spans overlap when they share a sector. */
  lemma {:induction false} OverlapShares(a: Span, b: Span)
    requires a.Forward() && b.Forward()
    ensures Overlap(a, b) <==> exists s: int :: a.Has(s) && b.Has(s)
  {
    if Overlap(a, b) {
      var s := if a.first < b.first then b.first else a.first;
      assert a.Has(s) && b.Has(s);
    }
  }

  predicate PairwiseDisjoint(spans: seq<Span>) {
    forall i, j :: 0 <= i < j < |spans| ==> !Overlap(spans[i], spans[j])
  }

  predicate AllForward(spans: seq<Span>) {
    forall i :: 0 <= i < |spans| ==> spans[i].Forward()
  }

  /** Span `i` shares a sector with another one of the list. */
  predicate OverlapsAnother(spans: seq<Span>, i: int)
    requires 0 <= i < |spans|
  {
    exists j :: 0 <= j < |spans| && j != i && Overlap(spans[i], spans[j])
  }

  // ----- the one-pass sweep

  /** `order` names each index below `n` once. */
  predicate Indices(order: seq<nat>, n: nat) {
    && |order| == n
    && (forall k :: 0 <= k < n ==> order[k] < n)
    && (forall j, k :: 0 <= j < k < n ==> order[j] != order[k])
    && (forall i: nat :: i < n ==> i in order)
  }

  predicate ByFirst(spans: seq<Span>, order: seq<nat>)
    requires forall k :: 0 <= k < |order| ==> order[k] < |spans|
  {
    forall j, k :: 0 <= j < k < |order| ==> spans[order[j]].first <= spans[order[k]].first
  }

  /** Where `i` goes among indices already in order of their spans' starts. */
  method InsertionPoint(spans: seq<Span>, order: seq<nat>, i: nat) returns (p: nat)
    requires i < |spans| && (forall k :: 0 <= k < |order| ==> order[k] < |spans|) && ByFirst(spans, order)
    ensures p <= |order|
    ensures forall k :: 0 <= k < p ==> spans[order[k]].first <= spans[i].first
    ensures forall k :: p <= k < |order| ==> spans[i].first < spans[order[k]].first
  {
    p := |order|;
    while p > 0 && spans[i].first < spans[order[p - 1]].first
      invariant p <= |order|
      invariant forall k :: p <= k < |order| ==> spans[i].first < spans[order[k]].first
    {
      p := p - 1;
    }
  }

  lemma {:induction false} InsertKeepsIndices(order: seq<nat>, p: nat)
    requires Indices(order, |order|) && p <= |order|
    ensures Indices(order[..p] + [|order|] + order[p..], |order| + 1)
  {
    var n := |order|;
    var s := order[..p] + [n] + order[p..];
    forall i: nat | i < n + 1
      ensures i in s
    {
      if i < n {
        assert i in order;
        var k :| 0 <= k < n && order[k] == i;
        assert s[if k < p then k else k + 1] == i;
      } else {
        assert s[p] == i;
      }
    }
  }

  /** The indices of `spans` in order of their starts. */
  method OrderByFirst(spans: seq<Span>) returns (order: seq<nat>)
    ensures Indices(order, |spans|) && ByFirst(spans, order)
  {
    order := [];
    for i := 0 to |spans|
      invariant Indices(order, i) && ByFirst(spans, order)
    {
      var p := InsertionPoint(spans, order, i);
      InsertKeepsIndices(order, p);
      order := order[..p] + [i] + order[p..];
    }
  }

  /** Span `i` shares a sector with another of the first `k` in order. */
  predicate HitWithin(spans: seq<Span>, order: seq<nat>, k: nat, i: nat)
    requires Indices(order, |spans|) && k <= |spans| && i < |spans|
  {
    exists b :: 0 <= b < k && order[b] != i && Overlap(spans[i], spans[order[b]])
  }

  /** `best` is one of the first `k` spans in order, and none of them ends later. */
  ghost predicate EndsLast(spans: seq<Span>, order: seq<nat>, k: nat, best: nat)
    requires Indices(order, |spans|) && k <= |spans|
  {
    && best < |spans|
    && (exists c :: 0 <= c < k && order[c] == best)
    && (forall b :: 0 <= b < k ==> spans[order[b]].last <= spans[best].last)
  }

  lemma {:induction false} EndsLastStep(spans: seq<Span>, order: seq<nat>, k: nat, best: nat)
    requires Indices(order, |spans|) && k < |spans| && EndsLast(spans, order, k, best)
    ensures EndsLast(spans, order, k + 1, if spans[best].last >= spans[order[k]].last then best else order[k])
  {
    var c :| 0 <= c < k && order[c] == best;
    assert 0 <= c < k + 1 && order[c] == best;
  }

  /** Of the spans visited so far, `best` ends last and the flags are exact. */
  ghost predicate Swept(spans: seq<Span>, order: seq<nat>, k: nat, best: nat, flags: seq<bool>)
    requires Indices(order, |spans|) && k <= |spans|
  {
    && |flags| == |spans|
    && EndsLast(spans, order, k, best)
    && (forall a :: 0 <= a < k ==> (flags[order[a]] <==> HitWithin(spans, order, k, order[a])))
    && (forall a :: k <= a < |order| ==> !flags[order[a]])
  }

  /** Whoever overlaps the next span was either flagged already or ends last. */
  lemma {:induction false} NextHits(spans: seq<Span>, order: seq<nat>, k: nat, best: nat, b: nat)
    requires Indices(order, |spans|) && ByFirst(spans, order) && AllForward(spans) && 0 < k < |spans|
    requires EndsLast(spans, order, k, best)
    requires b < k && Overlap(spans[order[b]], spans[order[k]])
    ensures spans[order[k]].first <= spans[best].last
    ensures order[b] != best ==> HitWithin(spans, order, k, order[b])
  {
    var c :| 0 <= c < k && order[c] == best;
    assert spans[order[b]].Forward() && spans[best].Forward();
    assert spans[order[b]].first <= spans[order[k]].first && spans[order[c]].first <= spans[order[k]].first;
    assert Overlap(spans[order[b]], spans[order[c]]);
  }

  /** Visiting the next span flags exactly it and the span ending last, or nothing. */
  lemma {:induction false} SweepStep(spans: seq<Span>, order: seq<nat>, k: nat, best: nat, flags: seq<bool>,
                                     next: seq<bool>)
    requires Indices(order, |spans|) && ByFirst(spans, order) && AllForward(spans) && 0 < k < |spans|
    requires Swept(spans, order, k, best, flags)
    requires next == if spans[order[k]].first <= spans[best].last then flags[order[k] := true][best := true] else flags
    ensures |next| == |spans|
    ensures forall a :: 0 <= a < k + 1 ==> (next[order[a]] <==> HitWithin(spans, order, k + 1, order[a]))
    ensures forall a :: k + 1 <= a < |order| ==> !next[order[a]]
  {
    var i := order[k];
    var c :| 0 <= c < k && order[c] == best;
    assert spans[best].Forward() && spans[i].Forward() && spans[order[c]].first <= spans[i].first;
    var hit := spans[i].first <= spans[best].last;
    assert hit ==> Overlap(spans[i], spans[order[c]]) && Overlap(spans[order[c]], spans[order[k]]);
    forall a | 0 <= a < k + 1
      ensures next[order[a]] <==> HitWithin(spans, order, k + 1, order[a])
    {
      SweepFlag(spans, order, k, best, flags, hit, a);
    }
  }

  /** One span's flag after the next span is visited. */
  lemma {:induction false} SweepFlag(spans: seq<Span>, order: seq<nat>, k: nat, best: nat, flags: seq<bool>, hit: bool,
                                     a: nat)
    requires Indices(order, |spans|) && ByFirst(spans, order) && AllForward(spans) && 0 < k < |spans| && a <= k
    requires Swept(spans, order, k, best, flags) && hit == (spans[order[k]].first <= spans[best].last)
    requires hit ==> Overlap(spans[order[k]], spans[best]) && Overlap(spans[best], spans[order[k]])
    ensures HitWithin(spans, order, k + 1, order[a])
       <==> (if a == k || order[a] == best then hit || (a < k && flags[order[a]]) else flags[order[a]])
  {
    var c :| 0 <= c < k && order[c] == best;
    if HitWithin(spans, order, k + 1, order[a]) {
      var b :| 0 <= b < k + 1 && order[b] != order[a] && Overlap(spans[order[a]], spans[order[b]]);
      if b == k {
        NextHits(spans, order, k, best, a);
      } else if a == k {
        NextHits(spans, order, k, best, b);
      }
    }
    if a == k && hit {
      assert order[c] != order[k];
    }
    if a < k && order[a] == best && hit {
      assert order[k] != order[a] && Overlap(spans[order[a]], spans[order[k]]);
    }
  }

  /** One step of the sweep: the `k`-th span in order. */
  method Visit(spans: seq<Span>, order: seq<nat>, k: nat, best: nat, flags: seq<bool>)
    returns (best': nat, flags': seq<bool>)
    requires Indices(order, |spans|) && ByFirst(spans, order) && 0 < k < |spans| && best < |spans| && |flags| == |spans|
    requires AllForward(spans) ==> Swept(spans, order, k, best, flags)
    ensures best' < |spans| && |flags'| == |spans|
    ensures AllForward(spans) ==> Swept(spans, order, k + 1, best', flags')
  {
    var i := order[k];
    flags' := if spans[i].first <= spans[best].last then flags[i := true][best := true] else flags;
    best' := if spans[best].last >= spans[i].last then best else i;
    if AllForward(spans) {
      SweepStep(spans, order, k, best, flags, flags');
      EndsLastStep(spans, order, k, best);
    }
  }

  /** Which spans share a sector with another: one sort, one pass carrying the latest end. */
  method MarkOverlaps(spans: seq<Span>) returns (flags: seq<bool>)
    ensures |flags| == |spans|
    ensures AllForward(spans) ==> forall i :: 0 <= i < |spans| ==> (flags[i] <==> OverlapsAnother(spans, i))
  {
    flags := seq(|spans|, _ => false);
    var order := OrderByFirst(spans);
    if |spans| == 0 { return; }
    var best: nat := order[0];
    var k: nat := 1;
    FirstVisited(spans, order, flags);
    while k < |spans|
      invariant 0 < k <= |spans| && |flags| == |spans| && best < |spans|
      invariant AllForward(spans) ==> Swept(spans, order, k, best, flags)
    {
      best, flags := Visit(spans, order, k, best, flags);
      k := k + 1;
    }
    if AllForward(spans) {
      SweptAll(spans, order, best, flags);
    }
  }

  lemma {:induction false} FirstVisited(spans: seq<Span>, order: seq<nat>, flags: seq<bool>)
    requires Indices(order, |spans|) && |spans| > 0 && |flags| == |spans| && forall i :: 0 <= i < |flags| ==> !flags[i]
    ensures Swept(spans, order, 1, order[0], flags)
  {
    var c := 0;
    assert 0 <= c < 1 && order[c] == order[0];
  }

  lemma {:induction false} SweptAll(spans: seq<Span>, order: seq<nat>, best: nat, flags: seq<bool>)
    requires Indices(order, |spans|) && Swept(spans, order, |spans|, best, flags)
    ensures forall i :: 0 <= i < |spans| ==> (flags[i] <==> OverlapsAnother(spans, i))
  {
    forall i: nat | i < |spans|
      ensures flags[i] <==> OverlapsAnother(spans, i)
    {
      assert i in order;
      var a :| 0 <= a < |order| && order[a] == i;
      if OverlapsAnother(spans, i) {
        var j: nat :| j < |spans| && j != i && Overlap(spans[i], spans[j]);
        assert j in order;
        var b :| 0 <= b < |order| && order[b] == j;
        assert HitWithin(spans, order, |spans|, i);
      }
    }
  }

  /** No span is flagged exactly when the spans are pairwise disjoint. */
  lemma {:induction false} NoneOverlapIsDisjoint(spans: seq<Span>)
    ensures (forall i :: 0 <= i < |spans| ==> !OverlapsAnother(spans, i)) <==> PairwiseDisjoint(spans)
  {
    if forall i :: 0 <= i < |spans| ==> !OverlapsAnother(spans, i) {
      forall i, j | 0 <= i < j < |spans|
        ensures !Overlap(spans[i], spans[j])
      {
        assert !OverlapsAnother(spans, i);
      }
    }
    if PairwiseDisjoint(spans) {
      forall i | 0 <= i < |spans|
        ensures !OverlapsAnother(spans, i)
      {
        forall j | 0 <= j < |spans| && j != i
          ensures !Overlap(spans[i], spans[j])
        {
          assert !Overlap(spans[if i < j then i else j], spans[if i < j then j else i]);
        }
      }
    }
  }

  // ----- sorting whole spans, and the neighbour test

  predicate NotAfter(a: Span, b: Span) {
    a.first < b.first || (a.first == b.first && a.last <= b.last)
  }

  predicate Ordered(spans: seq<Span>) {
    forall i, j :: 0 <= i < j < |spans| ==> NotAfter(spans[i], spans[j])
  }

  /** Putting a span in the middle rather than at the end changes neither what is there nor
      whether it is disjoint. */
  lemma {:induction false} InsertKeepsDisjoint(spans: seq<Span>, p: nat, x: Span)
    requires p <= |spans|
    ensures PairwiseDisjoint(spans[..p] + [x] + spans[p..]) <==> PairwiseDisjoint(spans + [x])
    ensures multiset(spans[..p] + [x] + spans[p..]) == multiset(spans + [x])
  {
    var s, t := spans[..p] + [x] + spans[p..], spans + [x];
    assert spans == spans[..p] + spans[p..];
    var n := |spans|;
    if PairwiseDisjoint(s) {
      forall i, j | 0 <= i < j < |t|
        ensures !Overlap(t[i], t[j])
      {
        var a, b := if i < p then i else i + 1, if j == n then p else if j < p then j else j + 1;
        assert t[i] == s[a] && t[j] == s[b];
        assert !Overlap(s[if a < b then a else b], s[if a < b then b else a]);
      }
    }
    if PairwiseDisjoint(t) {
      forall i, j | 0 <= i < j < |s|
        ensures !Overlap(s[i], s[j])
      {
        var a := if i < p then i else if i == p then n else i - 1;
        var b := if j < p then j else if j == p then n else j - 1;
        assert s[i] == t[a] && s[j] == t[b];
        assert !Overlap(t[if a < b then a else b], t[if a < b then b else a]);
      }
    }
  }

  method InsertSpan(sorted: seq<Span>, x: Span) returns (p: nat)
    requires Ordered(sorted)
    ensures p <= |sorted| && Ordered(sorted[..p] + [x] + sorted[p..])
  {
    p := |sorted|;
    while p > 0 && !NotAfter(sorted[p - 1], x)
      invariant p <= |sorted|
      invariant forall k :: p <= k < |sorted| ==> NotAfter(x, sorted[k])
    {
      p := p - 1;
    }
  }

  /** One step of an insertion sort. */
  method AddSpan(spans: seq<Span>, i: nat, sorted: seq<Span>) returns (next: seq<Span>)
    requires i < |spans| && Ordered(sorted) && multiset(sorted) == multiset(spans[..i])
    requires PairwiseDisjoint(sorted) <==> PairwiseDisjoint(spans[..i])
    ensures Ordered(next) && multiset(next) == multiset(spans[..i + 1])
    ensures PairwiseDisjoint(next) <==> PairwiseDisjoint(spans[..i + 1])
  {
    var p := InsertSpan(sorted, spans[i]);
    SortStep(spans, i, sorted, p);
    next := sorted[..p] + [spans[i]] + sorted[p..];
  }

  method SortSpans(spans: seq<Span>) returns (sorted: seq<Span>)
    ensures Ordered(sorted) && multiset(sorted) == multiset(spans)
    ensures PairwiseDisjoint(sorted) <==> PairwiseDisjoint(spans)
  {
    sorted := [];
    var i: nat := 0;
    while i < |spans|
      invariant i <= |spans| && Ordered(sorted) && multiset(sorted) == multiset(spans[..i])
      invariant PairwiseDisjoint(sorted) <==> PairwiseDisjoint(spans[..i])
    {
      sorted := AddSpan(spans, i, sorted);
      i := i + 1;
    }
    assert spans[..|spans|] == spans;
  }

  lemma {:induction false} SortStep(spans: seq<Span>, i: nat, sorted: seq<Span>, p: nat)
    requires i < |spans| && p <= |sorted|
    requires multiset(sorted) == multiset(spans[..i])
    requires PairwiseDisjoint(sorted) <==> PairwiseDisjoint(spans[..i])
    ensures multiset(sorted[..p] + [spans[i]] + sorted[p..]) == multiset(spans[..i + 1])
    ensures PairwiseDisjoint(sorted[..p] + [spans[i]] + sorted[p..]) <==> PairwiseDisjoint(spans[..i + 1])
  {
    InsertKeepsDisjoint(sorted, p, spans[i]);
    assert spans[..i + 1] == spans[..i] + [spans[i]];
    DisjointByMembers(sorted, spans[..i], spans[i]);
  }

  /** Adding a span to either of two lists of the same spans leaves both disjoint or neither. */
  lemma {:induction false} DisjointByMembers(s: seq<Span>, t: seq<Span>, x: Span)
    requires multiset(s) == multiset(t) && (PairwiseDisjoint(s) <==> PairwiseDisjoint(t))
    ensures PairwiseDisjoint(s + [x]) <==> PairwiseDisjoint(t + [x])
  {
    DisjointExtend(s, x);
    DisjointExtend(t, x);
    assert forall y :: y in s <==> y in multiset(s);
    assert forall y :: y in t <==> y in multiset(t);
  }

  lemma {:induction false} DisjointExtend(s: seq<Span>, x: Span)
    ensures PairwiseDisjoint(s + [x]) <==> PairwiseDisjoint(s) && forall y :: y in s ==> !Overlap(y, x)
  {
    var t := s + [x];
    if PairwiseDisjoint(t) {
      forall i, j | 0 <= i < j < |s| ensures !Overlap(s[i], s[j]) {
        assert !Overlap(t[i], t[j]);
      }
      forall y | y in s ensures !Overlap(y, x) {
        var i :| 0 <= i < |s| && s[i] == y;
        assert !Overlap(t[i], t[|s|]);
      }
    }
  }

  /** In order of their starts, comparing neighbours is comparing all pairs. */
  lemma {:induction false} NeighboursSuffice(spans: seq<Span>)
    requires Ordered(spans) && AllForward(spans)
    ensures (forall i :: 0 <= i < |spans| - 1 ==> spans[i].last < spans[i + 1].first) <==> PairwiseDisjoint(spans)
  {
    if forall i :: 0 <= i < |spans| - 1 ==> spans[i].last < spans[i + 1].first {
      forall i, j | 0 <= i < j < |spans|
        ensures !Overlap(spans[i], spans[j])
      {
        assert spans[i].last < spans[i + 1].first;
        assert i + 1 < j ==> NotAfter(spans[i + 1], spans[j]);
      }
    }
    if PairwiseDisjoint(spans) {
      forall i | 0 <= i < |spans| - 1
        ensures spans[i].last < spans[i + 1].first
      {
        assert !Overlap(spans[i], spans[i + 1]) && NotAfter(spans[i], spans[i + 1]) && spans[i + 1].Forward();
      }
    }
  }

  /** The writer's neighbour comparison on a sorted copy. */
  method AnyNeighboursOverlap(spans: seq<Span>) returns (clash: bool)
    ensures AllForward(spans) ==> (clash <==> !PairwiseDisjoint(spans))
  {
    var sorted := SortSpans(spans);
    if AllForward(spans) {
      SameMembersForward(spans, sorted);
      NeighboursSuffice(sorted);
    }
    clash := false;
    var i: nat := 0;
    while i + 1 < |sorted|
      invariant |sorted| > 0 ==> i < |sorted|
      invariant clash <==> exists k :: 0 <= k < i && k + 1 < |sorted| && sorted[k].last >= sorted[k + 1].first
    {
      if sorted[i + 1].first <= sorted[i].last { clash := true; }
      i := i + 1;
    }
  }

  lemma {:induction false} SameMembersForward(s: seq<Span>, t: seq<Span>)
    requires multiset(s) == multiset(t) && AllForward(s)
    ensures AllForward(t)
  {
    forall i | 0 <= i < |t| ensures t[i].Forward() {
      assert t[i] in multiset(t);
      assert t[i] in s;
    }
  }
}
