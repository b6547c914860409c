/** A written GPT probes as what was written. */
module GptRoundTrip {
  import opened Bytes
  import opened GptEntries
  import opened GptGeometry
  import opened GptTable
  import opened PartitionTable
  import opened Probing
  import opened Slots
  import opened Spans
  import opened Wrappers

  /** Partitions a table with this usable range takes, and the slots they go to. */
  ghost predicate Planned(parts: seq<Partition>, slots: seq<nat>, n: nat, usable: Span) {
    && Placeable(parts, slots, n) && n <= MAX_ENTRIES && Distinct(slots)
    && (forall j :: 0 <= j < |parts| ==> ValidEntry(parts[j], usable))
    && (forall i, j :: 0 <= i < j < |parts| ==> !Overlap(SectorSpan(parts[i]).value, SectorSpan(parts[j]).value))
  }

  // ----- the entries

  /** The partition in a used slot, or none. */
  lemma {:induction false} SlotCases(parts: seq<Partition>, slots: seq<nat>, n: nat, size: nat, tails: Tails,
                                     usable: Span, deviceSize: u64, i: nat)
    returns (j: nat)
    requires Planned(parts, slots, n, usable) && size >= STANDARD_BYTES && i < n
    ensures Shows(NewEntries(parts, slots, n, size, tails)[i], i, deviceSize, SlotTable(parts, slots, n, deviceSize)[i])
    ensures var e := NewEntries(parts, slots, n, size, tails)[i];
      !IsUnused(e) ==>
        && j < |parts| && slots[j] == i && SpanOf(e) == SectorSpan(parts[j]).value
        && Uuid(e) == parts[j].uuid.value && Tail(e) == TailFor(tails, parts[j].uuid.value, size - STANDARD_BYTES)
  {
    j := 0;
    if i in slots {
      j :| 0 <= j < |slots| && slots[j] == i;
      EntryOfPart(parts, slots, n, size, tails, j);
      SlotOfPart(parts, slots, n, deviceSize, j);
      PartReadBack(parts[j], usable, size, tails, i, deviceSize);
    } else {
      EntryOfNone(parts, slots, n, size, tails, i);
      SlotOfNone(parts, slots, n, deviceSize, i);
      assert Zeros(size)[..16] == Zeros(16);
    }
  }

  /** Used entries are inside the usable range and share no sector. */
  ghost predicate Clear(entries: seq<Image>, usable: Span) {
    && (forall i :: 0 <= i < |entries| && !IsUnused(entries[i]) ==>
          && SpanOf(entries[i]).Forward()
          && usable.first <= SpanOf(entries[i]).first && SpanOf(entries[i]).last <= usable.last)
    && (forall i, j :: 0 <= i < j < |entries| && !IsUnused(entries[i]) && !IsUnused(entries[j]) ==>
          !Overlap(SpanOf(entries[i]), SpanOf(entries[j])))
  }

  lemma {:induction false} UsedInside(parts: seq<Partition>, slots: seq<nat>, n: nat, size: nat, tails: Tails,
                                      usable: Span, i: nat)
    requires Planned(parts, slots, n, usable) && size >= STANDARD_BYTES && i < n
    requires !IsUnused(NewEntries(parts, slots, n, size, tails)[i])
    ensures var s := SpanOf(NewEntries(parts, slots, n, size, tails)[i]);
      s.Forward() && usable.first <= s.first && s.last <= usable.last
  {
    var a := SlotCases(parts, slots, n, size, tails, usable, 0, i);
    AlignedSpan(parts[a]);
  }

  lemma {:induction false} UsedApart(parts: seq<Partition>, slots: seq<nat>, n: nat, size: nat, tails: Tails,
                                     usable: Span, i: nat, j: nat)
    requires Planned(parts, slots, n, usable) && size >= STANDARD_BYTES && i < j < n
    requires !IsUnused(NewEntries(parts, slots, n, size, tails)[i])
    requires !IsUnused(NewEntries(parts, slots, n, size, tails)[j])
    ensures !Overlap(SpanOf(NewEntries(parts, slots, n, size, tails)[i]),
                     SpanOf(NewEntries(parts, slots, n, size, tails)[j]))
  {
    var a := SlotCases(parts, slots, n, size, tails, usable, 0, i);
    var b := SlotCases(parts, slots, n, size, tails, usable, 0, j);
    assert !Overlap(SectorSpan(parts[if a < b then a else b]).value, SectorSpan(parts[if a < b then b else a]).value);
  }

  lemma {:induction false} NewEntriesClear(parts: seq<Partition>, slots: seq<nat>, n: nat, size: nat, tails: Tails,
                                           usable: Span)
    requires Planned(parts, slots, n, usable) && size >= STANDARD_BYTES
    ensures Clear(NewEntries(parts, slots, n, size, tails), usable)
  {
    var entries := NewEntries(parts, slots, n, size, tails);
    forall i | 0 <= i < n && !IsUnused(entries[i])
      ensures SpanOf(entries[i]).Forward() && usable.first <= SpanOf(entries[i]).first
      ensures SpanOf(entries[i]).last <= usable.last
    {
      UsedInside(parts, slots, n, size, tails, usable, i);
    }
    forall i, j | 0 <= i < j < n && !IsUnused(entries[i]) && !IsUnused(entries[j])
      ensures !Overlap(SpanOf(entries[i]), SpanOf(entries[j]))
    {
      UsedApart(parts, slots, n, size, tails, usable, i, j);
    }
  }

  lemma {:induction false} ListedSpanFrom(entries: seq<Image>, s: Span)
    requires s in ListedSpans(entries)
    ensures exists i :: 0 <= i < |entries| && !IsUnused(entries[i]) && SpanOf(entries[i]) == s
  {
    var k := |entries| - 1;
    if s in ListedSpans(entries[..k]) {
      ListedSpanFrom(entries[..k], s);
      var i :| 0 <= i < k && !IsUnused(entries[..k][i]) && SpanOf(entries[..k][i]) == s;
      assert entries[i] == entries[..k][i];
    }
  }

  lemma {:induction false} ClearSpansInside(entries: seq<Image>, usable: Span, s: Span)
    requires Clear(entries, usable) && s in ListedSpans(entries)
    ensures s.Forward() && usable.first <= s.first && s.last <= usable.last
  {
    ListedSpanFrom(entries, s);
  }

  lemma {:induction false} ClearSpans(entries: seq<Image>, usable: Span)
    requires Clear(entries, usable)
    ensures PairwiseDisjoint(ListedSpans(entries))
  {
    if entries != [] {
      var k := |entries| - 1;
      ClearPrefix(entries, usable);
      ClearSpans(entries[..k], usable);
      if IsUnused(entries[k]) {
        assert ListedSpans(entries) == ListedSpans(entries[..k]);
      } else {
        forall y | y in ListedSpans(entries[..k]) ensures !Overlap(y, SpanOf(entries[k])) {
          LastClear(entries, usable, y);
        }
        DisjointExtend(ListedSpans(entries[..k]), SpanOf(entries[k]));
      }
    }
  }

  lemma {:induction false} LastClear(entries: seq<Image>, usable: Span, y: Span)
    requires Clear(entries, usable) && entries != [] && !IsUnused(entries[|entries| - 1])
    requires y in ListedSpans(entries[..|entries| - 1])
    ensures !Overlap(y, SpanOf(entries[|entries| - 1]))
  {
    var k := |entries| - 1;
    ListedSpanFrom(entries[..k], y);
    var i :| 0 <= i < k && !IsUnused(entries[..k][i]) && SpanOf(entries[..k][i]) == y;
    assert entries[i] == entries[..k][i];
  }

  lemma {:induction false} ClearPrefix(entries: seq<Image>, usable: Span)
    requires Clear(entries, usable) && entries != []
    ensures Clear(entries[..|entries| - 1], usable)
  {
    assert forall i :: 0 <= i < |entries| - 1 ==> entries[..|entries| - 1][i] == entries[i];
  }

  lemma {:induction false} ListedUnmarked(entries: EntryList, deviceSize: u64, p: Partition)
    requires NoneBad(entries) && p in Listed(entries, deviceSize)
    ensures p.issues == NO_ISSUES
  {
    var k := |entries| - 1;
    if p in Listed(entries[..k], deviceSize) { ListedUnmarked(entries[..k], deviceSize, p); }
  }

  /** Clear entries break no rule. */
  lemma {:induction false} ClearEntriesRead(entries: EntryList, usable: Span, deviceSize: u64)
    requires NoneBad(entries) && Clear(entries, usable)
    ensures EntriesRead(entries, usable, deviceSize) == Ok(Listed(entries, deviceSize))
  {
    var parts, spans := Listed(entries, deviceSize), ListedSpans(entries);
    ListedTogether(entries, deviceSize);
    ClearSpans(entries, usable);
    NoneOverlapIsDisjoint(spans);
    var marked := WithIssues(parts, spans, usable);
    forall i | 0 <= i < |parts| ensures marked[i] == parts[i] {
      ClearSpansInside(entries, usable, spans[i]);
      ListedUnmarked(entries, deviceSize, parts[i]);
    }
    assert marked == parts;
  }

  /** The entries of a planned table read back as its partitions, in slot order. */
  lemma {:induction false} EntriesReadBack(parts: seq<Partition>, slots: seq<nat>, n: nat, size: nat, tails: Tails,
                                           usable: Span, deviceSize: u64)
    requires Planned(parts, slots, n, usable) && size >= STANDARD_BYTES
    ensures EntriesRead(NewEntries(parts, slots, n, size, tails), usable, deviceSize)
      == Ok(Present(SlotTable(parts, slots, n, deviceSize)))
  {
    var entries, table := NewEntries(parts, slots, n, size, tails), SlotTable(parts, slots, n, deviceSize);
    forall i | 0 <= i < n ensures Shows(entries[i], i, deviceSize, table[i]) {
      var _ := SlotCases(parts, slots, n, size, tails, usable, deviceSize, i);
    }
    ListedIsPresent(entries, deviceSize, table);
    NewEntriesClear(parts, slots, n, size, tails, usable);
    ClearEntriesRead(entries, usable, deviceSize);
  }

  function UuidsOf(parts: seq<Partition>): set<Guid>
    requires forall j :: 0 <= j < |parts| ==> parts[j].uuid.Some?
  {
    set j | 0 <= j < |parts| :: parts[j].uuid.value
  }

  /** The tails of the written table. */
  function TailsOf(parts: seq<Partition>, tails: Tails, room: nat): Tails
    requires forall j :: 0 <= j < |parts| ==> parts[j].uuid.Some?
  {
    map u | u in UuidsOf(parts) :: TailFor(tails, u, room)
  }

  lemma {:induction false} TailOfSlot(parts: seq<Partition>, slots: seq<nat>, n: nat, size: nat, tails: Tails,
                                      usable: Span, i: nat)
    requires Planned(parts, slots, n, usable) && size >= STANDARD_BYTES && i < n
    ensures var e, found := NewEntries(parts, slots, n, size, tails)[i], TailsOf(parts, tails, size - STANDARD_BYTES);
      !IsUnused(e) ==> Uuid(e) in found && found[Uuid(e)] == Tail(e)
  {
    var j := SlotCases(parts, slots, n, size, tails, usable, 0, i);
  }

  lemma {:induction false} SlotOfUuid(parts: seq<Partition>, slots: seq<nat>, n: nat, size: nat, tails: Tails,
                                      usable: Span, u: Guid) returns (i: nat)
    requires Planned(parts, slots, n, usable) && size >= STANDARD_BYTES && u in UuidsOf(parts)
    ensures i < n && !IsUnused(NewEntries(parts, slots, n, size, tails)[i])
    ensures Uuid(NewEntries(parts, slots, n, size, tails)[i]) == u
  {
    var j: nat :| j < |parts| && parts[j].uuid.value == u;
    i := slots[j];
    EntryOfPart(parts, slots, n, size, tails, j);
    PartReadBack(parts[j], usable, size, tails, i, 0);
  }

  /** Every tail reads back under its own UUID, cut or padded to the room there is. */
  lemma {:induction false} TailsReadBack(parts: seq<Partition>, slots: seq<nat>, n: nat, size: nat, tails: Tails,
                                         usable: Span)
    requires Planned(parts, slots, n, usable) && size >= STANDARD_BYTES
    ensures TailsAre(NewEntries(parts, slots, n, size, tails), TailsOf(parts, tails, size - STANDARD_BYTES))
  {
    var entries, found := NewEntries(parts, slots, n, size, tails), TailsOf(parts, tails, size - STANDARD_BYTES);
    forall i | 0 <= i < |entries| && !IsUnused(entries[i])
      ensures Uuid(entries[i]) in found && found[Uuid(entries[i])] == Tail(entries[i])
    {
      TailOfSlot(parts, slots, n, size, tails, usable, i);
    }
    forall u | u in found ensures exists i :: 0 <= i < |entries| && !IsUnused(entries[i]) && Uuid(entries[i]) == u {
      var i := SlotOfUuid(parts, slots, n, size, tails, usable, u);
    }
  }

  /** There is only one map of tails. */
  lemma {:induction false} TailsUnique(entries: seq<Image>, a: Tails, b: Tails)
    requires TailsAre(entries, a) && TailsAre(entries, b)
    ensures a == b
  {
    forall u ensures u in a <==> u in b {
      if u in a { var i :| 0 <= i < |entries| && !IsUnused(entries[i]) && Uuid(entries[i]) == u; }
      if u in b { var i :| 0 <= i < |entries| && !IsUnused(entries[i]) && Uuid(entries[i]) == u; }
    }
    forall u | u in a ensures a[u] == b[u] {
      var i :| 0 <= i < |entries| && !IsUnused(entries[i]) && Uuid(entries[i]) == u;
    }
  }

  /** So the tails collected from the written entries are exactly those. */
  lemma {:induction false} TailsReloaded(parts: seq<Partition>, slots: seq<nat>, n: nat, size: nat, tails: Tails,
                                         usable: Span, loaded: Tails)
    requires Planned(parts, slots, n, usable) && size >= STANDARD_BYTES
    requires TailsAre(NewEntries(parts, slots, n, size, tails), loaded)
    ensures loaded == TailsOf(parts, tails, size - STANDARD_BYTES)
  {
    TailsReadBack(parts, slots, n, size, tails, usable);
    TailsUnique(NewEntries(parts, slots, n, size, tails), loaded, TailsOf(parts, tails, size - STANDARD_BYTES));
  }
}
