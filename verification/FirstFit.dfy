/** First-fit placement at 1 MiB alignment. */
module FirstFit {
  import opened PartitionTable
  import opened GptGeometry
  import opened Sizes
  import opened Spans
  import opened Wrappers

  const ALIGNMENT: int := 2048

  /** The next multiple of the alignment. */
  function AlignUp(value: int): (r: int)
    ensures r % ALIGNMENT == 0 && value <= r < value + ALIGNMENT
  {
    if value % ALIGNMENT == 0 then value else value + (ALIGNMENT - value % ALIGNMENT)
  }

  lemma {:induction false} AlignUpLeast(value: int, m: int)
    requires m % ALIGNMENT == 0 && value <= m
    ensures AlignUp(value) <= m
  {
  }

  function SaturatingEnd(start: int, length: int): int {
    var sum := if start + length >= U64 then U64 - 1 else start + length;
    if sum == 0 then 0 else sum - 1
  }

  /** A partition of `length` sectors can be placed at `start`. */
  predicate Fits(occupied: seq<Span>, start: int, length: int, usable: Span) {
    && start % ALIGNMENT == 0
    && usable.first <= start && start + length - 1 <= usable.last
    && forall i :: 0 <= i < |occupied| ==> !Overlap(occupied[i], Span(start, start + length - 1))
  }

  /** Sector ranges of real bytes. */
  predicate SectorRanges(occupied: seq<Span>) {
    forall i :: 0 <= i < |occupied| ==> 0 <= occupied[i].first <= occupied[i].last <= MAX_LBA
  }

  /** Where the search stands after `k` of the occupied spans: none of them reaches the
      cursor, and nothing fits before it. */
  ghost predicate Searched(sorted: seq<Span>, k: nat, cursor: int, length: int, usable: Span) {
    && k <= |sorted|
    && cursor % ALIGNMENT == 0 && usable.first <= cursor
    && (forall i :: 0 <= i < k ==> sorted[i].last < cursor)
    && (forall c: int :: c < cursor ==> !Fits(sorted, c, length, usable))
  }

  lemma {:induction false} PassSpan(sorted: seq<Span>, k: nat, cursor: int, length: int, usable: Span)
    requires Searched(sorted, k, cursor, length, usable) && k < |sorted| && length > 0
    requires sorted[k].Forward()
    requires cursor + length - 1 >= sorted[k].first || cursor + length - 1 > usable.last
    ensures var next := AlignUp(sorted[k].last + 1);
      Searched(sorted, k + 1, if cursor < next then next else cursor, length, usable)
  {
    var next := AlignUp(sorted[k].last + 1);
    forall c: int | c < (if cursor < next then next else cursor)
      ensures !Fits(sorted, c, length, usable)
    {
      if cursor <= c && Fits(sorted, c, length, usable) {
        if sorted[k].last + 1 <= c { AlignUpLeast(sorted[k].last + 1, c); }
        assert Overlap(sorted[k], Span(c, c + length - 1));
      }
    }
  }

  lemma {:induction false} GapFits(sorted: seq<Span>, k: nat, cursor: int, length: int, usable: Span)
    requires Searched(sorted, k, cursor, length, usable) && length > 0 && Ordered(sorted)
    requires k < |sorted| ==> cursor + length - 1 < sorted[k].first
    requires cursor + length - 1 <= usable.last
    ensures Fits(sorted, cursor, length, usable)
  {
    forall i | 0 <= i < |sorted|
      ensures !Overlap(sorted[i], Span(cursor, cursor + length - 1))
    {
      assert k < i ==> NotAfter(sorted[k], sorted[i]);
    }
  }

  /** The least start that fits, or an error when there is none. */
  method FindFree(occupied: seq<Span>, length: int, usable: Span) returns (r: Result<int>)
    requires SectorRanges(occupied) && 0 < length && 0 <= usable.first && usable.last <= MAX_LBA
    ensures r.Ok? ==> Fits(occupied, r.value, length, usable)
    ensures r.Ok? ==> forall c: int :: Fits(occupied, c, length, usable) ==> r.value <= c
    ensures r.Err? ==> r.error == Invalid && forall c: int :: !Fits(occupied, c, length, usable)
  {
    var sorted := SortSpans(occupied);
    SameFits(occupied, sorted, length, usable);
    var cursor := AlignUp(usable.first);
    forall c: int | c < cursor ensures !Fits(sorted, c, length, usable) {
      if usable.first <= c && c % ALIGNMENT == 0 { AlignUpLeast(usable.first, c); }
    }
    var k: nat := 0;
    while k < |sorted|
      invariant Searched(sorted, k, cursor, length, usable)
    {
      var wanted := SaturatingEnd(cursor, length);
      if wanted < sorted[k].first && wanted <= usable.last {
        GapFits(sorted, k, cursor, length, usable);
        return Ok(cursor);
      }
      PassSpan(sorted, k, cursor, length, usable);
      var past := AlignUp(sorted[k].last + 1);
      cursor := if cursor < past then past else cursor;
      k := k + 1;
    }
    if SaturatingEnd(cursor, length) <= usable.last {
      GapFits(sorted, k, cursor, length, usable);
      r := Ok(cursor);
    } else {
      forall c: int ensures !Fits(sorted, c, length, usable) {
        assert c < cursor || cursor <= c;
      }
      r := Err(Invalid);
    }
  }

  lemma {:induction false} SameFits(s: seq<Span>, t: seq<Span>, length: int, usable: Span)
    requires multiset(s) == multiset(t) && SectorRanges(s)
    ensures SectorRanges(t)
    ensures forall c: int :: Fits(s, c, length, usable) <==> Fits(t, c, length, usable)
  {
    assert forall x :: x in s <==> x in multiset(s);
    assert forall x :: x in t <==> x in multiset(t);
    forall i | 0 <= i < |t| ensures t[i] in s { assert t[i] in multiset(t); }
    forall i | 0 <= i < |s| ensures s[i] in t { assert s[i] in multiset(s); }
  }
}
