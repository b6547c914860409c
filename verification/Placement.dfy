/** Choosing where a new or resized partition goes. */
module Placement {
  import opened Editing
  import opened FirstFit
  import opened GptGeometry
  import opened MbrTable
  import opened MbrWriter
  import opened PartitionTable
  import opened Sizes
  import opened Spans
  import opened Wrappers

  /** Every partition but `skip` has sectors that can be named. */
  predicate SpansKnown(parts: seq<Partition>, skip: Option<nat>) {
    forall j: nat :: j < |parts| && skip != Some(j) ==> SectorSpan(parts[j]).Some?
  }

  /** A partition of `length` sectors at `start` would be aligned, in the usable range, and clear
      of every partition but `skip` and of every reserved range. */
  predicate FitsAmong(parts: seq<Partition>, skip: Option<nat>, t: Target, start: int, length: int)
    requires SpansKnown(parts, skip)
  {
    && start % ALIGNMENT == 0
    && t.Usable().first <= start && start + length - 1 <= t.Usable().last
    && (forall j: nat :: j < |parts| && skip != Some(j) ==>
          !Overlap(SectorSpan(parts[j]).value, Span(start, start + length - 1)))
    && (forall k :: 0 <= k < |ClaimsOf(t.Reserved())| ==>
          !Overlap(ClaimsOf(t.Reserved())[k], Span(start, start + length - 1)))
  }

  /** These are the ranges of all partitions but `skip`, and the reserved ones. */
  ghost predicate OccupiedIs(spans: seq<Span>, parts: seq<Partition>, skip: Option<nat>, claims: seq<Span>)
    requires SpansKnown(parts, skip)
  {
    && (forall j: nat :: j < |parts| && skip != Some(j) ==> SectorSpan(parts[j]).value in spans)
    && (forall k :: 0 <= k < |claims| ==> claims[k] in spans)
    && (forall i :: 0 <= i < |spans| ==> spans[i] in claims || FromPart(spans[i], parts, skip))
  }

  ghost predicate FromPart(s: Span, parts: seq<Partition>, skip: Option<nat>) {
    exists j: nat :: j < |parts| && skip != Some(j) && SectorSpan(parts[j]) == Some(s)
  }

  /** The ranges a new or resized partition must stay out of, unless one cannot be named. */
  method OccupiedSpans(parts: seq<Partition>, skip: Option<nat>, t: Target) returns (r: Option<seq<Span>>)
    ensures r.Some? <==> SpansKnown(parts, skip)
    ensures r.Some? ==> OccupiedIs(r.value, parts, skip, ClaimsOf(t.Reserved()))
  {
    var spans: seq<Span> := [];
    var j: nat := 0;
    while j < |parts|
      invariant j <= |parts| && SpansKnown(parts[..j], skip) && OccupiedIs(spans, parts[..j], skip, [])
    {
      var prev, next := parts[..j], parts[..j + 1];
      assert next == prev + [parts[j]];
      if skip != Some(j) {
        if SectorSpan(parts[j]).None? { return None; }
        OccupyNext(spans, parts, j, skip);
        spans := spans + [SectorSpan(parts[j]).value];
      } else {
        OccupySkip(spans, parts, j, skip);
      }
      j := j + 1;
    }
    assert parts[..j] == parts;
    OccupyClaims(spans, parts, skip, ClaimsOf(t.Reserved()));
    r := Some(spans + ClaimsOf(t.Reserved()));
  }

  lemma {:induction false} OccupyNext(spans: seq<Span>, parts: seq<Partition>, j: nat, skip: Option<nat>)
    requires j < |parts| && SpansKnown(parts[..j], skip) && OccupiedIs(spans, parts[..j], skip, [])
    requires skip != Some(j) && SectorSpan(parts[j]).Some?
    ensures SpansKnown(parts[..j + 1], skip)
    ensures OccupiedIs(spans + [SectorSpan(parts[j]).value], parts[..j + 1], skip, [])
  {
    var prev, next, more := parts[..j], parts[..j + 1], spans + [SectorSpan(parts[j]).value];
    assert forall k :: 0 <= k < j ==> next[k] == prev[k];
    assert next[j] == parts[j];
    assert more[|spans|] == SectorSpan(parts[j]).value;
    forall i | 0 <= i < |more| ensures FromPart(more[i], next, skip) {
      if i < |spans| {
        assert FromPart(spans[i], prev, skip);
        var k: nat :| k < |prev| && skip != Some(k) && SectorSpan(prev[k]) == Some(spans[i]);
        assert next[k] == prev[k];
      } else {
        assert SectorSpan(next[j]) == Some(more[i]);
      }
    }
  }

  lemma {:induction false} OccupySkip(spans: seq<Span>, parts: seq<Partition>, j: nat, skip: Option<nat>)
    requires j < |parts| && SpansKnown(parts[..j], skip) && OccupiedIs(spans, parts[..j], skip, []) && skip == Some(j)
    ensures SpansKnown(parts[..j + 1], skip) && OccupiedIs(spans, parts[..j + 1], skip, [])
  {
    var prev, next := parts[..j], parts[..j + 1];
    assert forall k :: 0 <= k < j ==> next[k] == prev[k];
    forall i | 0 <= i < |spans| ensures FromPart(spans[i], next, skip) {
      assert FromPart(spans[i], prev, skip);
      var k: nat :| k < |prev| && skip != Some(k) && SectorSpan(prev[k]) == Some(spans[i]);
      assert next[k] == prev[k];
    }
  }

  lemma {:induction false} OccupyClaims(spans: seq<Span>, parts: seq<Partition>, skip: Option<nat>, claims: seq<Span>)
    requires SpansKnown(parts, skip) && OccupiedIs(spans, parts, skip, [])
    ensures OccupiedIs(spans + claims, parts, skip, claims)
  {
    var all := spans + claims;
    forall k | 0 <= k < |claims| ensures claims[k] in all { assert all[|spans| + k] == claims[k]; }
    forall i | 0 <= i < |all| ensures all[i] in claims || FromPart(all[i], parts, skip) {
      if i < |spans| { assert all[i] == spans[i] && FromPart(spans[i], parts, skip); }
    }
  }

  /** Staying out of the occupied ranges is staying out of each of them. */
  lemma {:induction false} FitsIsAmong(spans: seq<Span>, parts: seq<Partition>, skip: Option<nat>, t: Target,
                                       length: int)
    requires SpansKnown(parts, skip) && OccupiedIs(spans, parts, skip, ClaimsOf(t.Reserved()))
    ensures forall c: int :: Fits(spans, c, length, t.Usable()) <==> FitsAmong(parts, skip, t, c, length)
  {
    forall c: int ensures Fits(spans, c, length, t.Usable()) <==> FitsAmong(parts, skip, t, c, length) {
      ClearIsAmong(spans, parts, skip, ClaimsOf(t.Reserved()), Span(c, c + length - 1));
    }
  }

  lemma {:induction false} ClearIsAmong(spans: seq<Span>, parts: seq<Partition>, skip: Option<nat>, claims: seq<Span>,
                                        s: Span)
    requires SpansKnown(parts, skip) && OccupiedIs(spans, parts, skip, claims)
    ensures (forall i :: 0 <= i < |spans| ==> !Overlap(spans[i], s)) <==>
      && (forall j: nat :: j < |parts| && skip != Some(j) ==> !Overlap(SectorSpan(parts[j]).value, s))
      && (forall k :: 0 <= k < |claims| ==> !Overlap(claims[k], s))
  {
    if (forall j: nat :: j < |parts| && skip != Some(j) ==> !Overlap(SectorSpan(parts[j]).value, s))
       && (forall k :: 0 <= k < |claims| ==> !Overlap(claims[k], s)) {
      forall i | 0 <= i < |spans| ensures !Overlap(spans[i], s) {
        if spans[i] !in claims {
          var j: nat :| j < |parts| && skip != Some(j) && SectorSpan(parts[j]) == Some(spans[i]);
        }
      }
    }
  }

  lemma {:induction false} OccupiedRanges(spans: seq<Span>, parts: seq<Partition>, skip: Option<nat>,
                                          reserved: seq<ReservedEntry>)
    requires SpansKnown(parts, skip) && OccupiedIs(spans, parts, skip, ClaimsOf(reserved))
    ensures SectorRanges(spans)
  {
    forall i | 0 <= i < |spans| ensures 0 <= spans[i].first <= spans[i].last <= MAX_LBA {
      if spans[i] in ClaimsOf(reserved) {
        ClaimInRange(reserved, spans[i]);
      } else {
        var j: nat :| j < |parts| && skip != Some(j) && SectorSpan(parts[j]) == Some(spans[i]);
      }
    }
  }

  lemma {:induction false} ClaimInRange(reserved: seq<ReservedEntry>, s: Span)
    requires s in ClaimsOf(reserved)
    ensures 0 <= s.first <= s.last <= MAX_LBA
  {
    var k := |reserved| - 1;
    if s in ClaimsOf(reserved[..k]) { ClaimInRange(reserved[..k], s); }
  }

  /** Where a caller's hint, in bytes, asks for the partition to start. */
  function HintStart(hint: u64, usable: Span): int {
    var sectors := (hint + SECTOR - 1) / SECTOR;
    AlignUp(if sectors < usable.first then usable.first else sectors)
  }

  /** Sector `c` is a mebibyte's, at the hint's byte or past it, and usable. */
  predicate StartsFor(hint: u64, usable: Span, c: int) {
    c % 2048 == 0 && c * 512 >= hint && c >= usable.first
  }

  /** The first such sector. */
  ghost predicate LeastStart(hint: u64, usable: Span, start: int) {
    StartsFor(hint, usable, start) && forall c: int :: StartsFor(hint, usable, c) ==> start <= c
  }

  /** That is where a hint asks for, and there is only one. */
  lemma {:induction false} HintStartLeast(hint: u64, usable: Span)
    ensures forall c: int :: LeastStart(hint, usable, c) <==> c == HintStart(hint, usable)
  {
    var start := HintStart(hint, usable);
    var from := if (hint + SECTOR - 1) / SECTOR < usable.first then usable.first else (hint + SECTOR - 1) / SECTOR;
    assert StartsFor(hint, usable, start);
    forall c: int | StartsFor(hint, usable, c) ensures start <= c {
      AlignUpLeast(from, c);
    }
  }

  /** Whether a span is clear of every one of a list. */
  method AllClear(spans: seq<Span>, s: Span) returns (clear: bool)
    ensures clear <==> forall i :: 0 <= i < |spans| ==> !Overlap(spans[i], s)
  {
    var i: nat := 0;
    while i < |spans|
      invariant i <= |spans| && forall k :: 0 <= k < i ==> !Overlap(spans[k], s)
    {
      if s.first <= spans[i].last && s.last >= spans[i].first { return false; }
      i := i + 1;
    }
    clear := true;
  }

  /** There is room at the first place for a hint. */
  ghost predicate HintFits(parts: seq<Partition>, t: Target, hint: u64, length: int)
    requires SpansKnown(parts, None)
  {
    exists c: int :: LeastStart(hint, t.Usable(), c) && FitsAmong(parts, None, t, c, length)
  }

  /** The start of a new partition: the hint's, or the least there is. */
  method PlaceNew(parts: seq<Partition>, t: Target, hint: Option<u64>, length: int) returns (r: Result<int>)
    requires length > 0
    ensures r.Ok? ==> SpansKnown(parts, None) && FitsAmong(parts, None, t, r.value, length)
    ensures hint.Some? ==>
      (r.Ok? <==> SpansKnown(parts, None) && HintFits(parts, t, hint.value, length))
    ensures r.Ok? && hint.Some? ==> LeastStart(hint.value, t.Usable(), r.value)
    ensures r.Ok? && hint.None? ==> forall c: int :: FitsAmong(parts, None, t, c, length) ==> r.value <= c
    ensures r.Err? && hint.None? && SpansKnown(parts, None) ==> forall c: int :: !FitsAmong(parts, None, t, c, length)
  {
    var usable := t.Usable();
    UsableBounds(t);
    if hint.Some? { HintStartLeast(hint.value, usable); }
    var occupied := OccupiedSpans(parts, None, t);
    if occupied.None? { return Err(Invalid); }
    FitsIsAmong(occupied.value, parts, None, t, length);
    if hint.None? {
      OccupiedRanges(occupied.value, parts, None, t.Reserved());
      r := FindFree(occupied.value, length, usable);
    } else {
      var start := HintStart(hint.value, usable);
      if start + length - 1 > usable.last { return Err(Invalid); }
      var clear := AllClear(occupied.value, Span(start, start + length - 1));
      r := if clear then Ok(start) else Err(Invalid);
      assert clear <==> Fits(occupied.value, start, length, usable);
      assert LeastStart(hint.value, usable, start);
    }
  }
}
