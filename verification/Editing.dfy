/** What a set of partitions on a disk must satisfy, and how each edit keeps it. */
module Editing {
  import opened FirstFit
  import GptEntries
  import opened GptGeometry
  import opened GptTable
  import opened GptWriter
  import opened MbrTable
  import opened MbrWriter
  import opened PartitionTable
  import opened Sizes
  import opened Slots
  import opened Spans
  import opened Wrappers

  const MEBIBYTE: int := 0x10_0000
  const GPT_FIRST_USABLE: int := 34

  /** The part of a partition set that editing does not change. */
  datatype Target = Target(kind: TableKind, size: u64, geometry: Geometry, reserved: seq<ReservedEntry>) {
    /** Where partitions may go. An inverted range is nowhere. */
    function Usable(): Span {
      var total := size / SECTOR;
      match kind
      case Gpt =>
        (match geometry.UsableRange(total)
         case Ok(range) => range
         case Err(_) => Span(GPT_FIRST_USABLE, GPT_FIRST_USABLE - 1))
      case Mbr =>
        if total < 2 then Span(1, 0)
        else Span(1, if total - 1 < MBR_LBA_MAX then total - 1 else MBR_LBA_MAX)
    }

    function SlotCount(): nat {
      if kind == Gpt then geometry.numEntries else ENTRY_COUNT
    }

    /** Entries that hold slots of an MBR besides the partitions. */
    function Reserved(): seq<ReservedEntry> {
      if kind == Mbr then reserved else []
    }
  }

  /** On an MBR disk partitions may use every sector but the first that 32 bits can name. */
  lemma {:induction false} UsableMbr(t: Target, c: int)
    requires t.kind == Mbr
    ensures t.Usable().first <= c <= t.Usable().last <==> 1 <= c <= 0xFFFF_FFFF && (c + 1) * 512 <= t.size
  {
  }

  lemma {:induction false} UsableBounds(t: Target)
    ensures 0 <= t.Usable().first && t.Usable().last <= MAX_LBA
    ensures t.Usable().first <= t.Usable().last ==> (t.Usable().last + 1) * SECTOR <= t.size && 1 <= t.Usable().first
  {
    if t.kind == Gpt && t.geometry.UsableRange(t.size / SECTOR).Ok? {
      ByteRegions(t.geometry, t.size);
    }
  }

  // ----- the invariant

  /** A partition placed by this editor: whole mebibytes of the usable range. */
  predicate WellPlaced(p: Partition, usable: Span) {
    && p.length > 0 && p.start % MEBIBYTE == 0 && p.length % MEBIBYTE == 0
    && SectorSpan(p).Some? && usable.first <= SectorSpan(p).value.first && SectorSpan(p).value.last <= usable.last
  }

  predicate KindFits(p: Partition, kind: TableKind) {
    if kind == Gpt then p.kind.GptKind? && p.uuid.Some? else p.kind.MbrKind?
  }

  /** Recorded slots exist, differ, and are not reserved. */
  predicate SlotsFree(slots: seq<Option<nat>>, n: nat, reserved: seq<nat>) {
    && ClaimsOk(reserved, n)
    && (forall i :: 0 <= i < |slots| && slots[i].Some? ==> slots[i].value < n && slots[i].value !in reserved)
    && (forall i, j :: 0 <= i < j < |slots| && slots[i].Some? && slots[j].Some? ==> slots[i].value != slots[j].value)
  }

  predicate AllWellPlaced(parts: seq<Partition>, t: Target) {
    forall i :: 0 <= i < |parts| ==> WellPlaced(parts[i], t.Usable()) && KindFits(parts[i], t.kind)
  }

  /** No two partitions, nor a partition and a reserved range, share a sector. */
  predicate Apart(parts: seq<Partition>, claims: seq<Span>)
    requires forall i :: 0 <= i < |parts| ==> SectorSpan(parts[i]).Some?
  {
    && (forall i, j :: 0 <= i < j < |parts| ==> !Overlap(SectorSpan(parts[i]).value, SectorSpan(parts[j]).value))
    && (forall i, k :: 0 <= i < |parts| && 0 <= k < |claims| ==> !Overlap(claims[k], SectorSpan(parts[i]).value))
  }

  /** What every run of edits keeps. */
  predicate Sound(parts: seq<Partition>, t: Target) {
    && AllWellPlaced(parts, t)
    && Apart(parts, ClaimsOf(t.Reserved()))
    && |parts| + |t.Reserved()| <= t.SlotCount()
    && SlotsFree(SlotsOf(parts), t.SlotCount(), ReservedSlots(t.Reserved()))
  }

  lemma {:induction false} EmptySound(t: Target)
    requires t.reserved == []
    ensures Sound([], t)
  {
  }

  // ----- the writers take what is sound

  lemma {:induction false} FreeSlotsClaim(slots: seq<Option<nat>>, n: nat, reserved: seq<nat>)
    requires SlotsFree(slots, n, reserved)
    ensures ClaimsOk(Claims(slots, reserved), n)
    ensures forall s :: s in Claims(slots, reserved) ==>
      s in reserved || exists i :: 0 <= i < |slots| && slots[i] == Some(s)
  {
    if slots != [] {
      var k := |slots| - 1;
      var init, claims := slots[..k], Claims(slots[..k], reserved);
      FreeSlotsClaim(init, n, reserved);
      forall s | s in Claims(slots, reserved)
        ensures s in reserved || exists i :: 0 <= i < |slots| && slots[i] == Some(s)
      {
        if s in claims && s !in reserved {
          var i :| 0 <= i < |init| && init[i] == Some(s);
          assert slots[i] == Some(s);
        } else if s !in reserved {
          assert slots[k] == Some(s);
        }
      }
      if slots[k].Some? {
        assert slots[k].value !in claims;
        ExtendClaims(claims, slots[k].value, n);
      }
    }
  }

  lemma {:induction false} ExtendClaims(claims: seq<nat>, s: nat, n: nat)
    requires ClaimsOk(claims, n) && s < n && s !in claims
    ensures ClaimsOk(claims + [s], n)
  {
  }

  lemma {:induction false} SoundAssignable(parts: seq<Partition>, t: Target)
    requires Sound(parts, t)
    ensures Assignable(SlotsOf(parts), t.SlotCount(), ReservedSlots(t.Reserved()))
  {
    FreeSlotsClaim(SlotsOf(parts), t.SlotCount(), ReservedSlots(t.Reserved()));
  }

  lemma {:induction false} WellPlacedSectors(p: Partition, usable: Span)
    requires WellPlaced(p, usable)
    ensures SectorAligned(p) && SectorSpan(p) == Some(Span(p.start / SECTOR, p.start / SECTOR + p.length / SECTOR - 1))
    ensures p.start / SECTOR < (p.start + p.length) / SECTOR
    ensures p.start + p.length == (SectorSpan(p).value.last + 1) * SECTOR
  {
    AlignMebibyte(p.start);
    AlignMebibyte(p.length);
    AlignedSpan(p);
  }

  lemma {:induction false} AlignMebibyte(n: int)
    requires n % MEBIBYTE == 0
    ensures n % SECTOR == 0 && n == n / SECTOR * SECTOR && (n / SECTOR) % ALIGNMENT == 0
  {
  }

  /** A sound GPT set that is not empty is one the GPT writer accepts, unless a partition has the
      type that means unused. */
  lemma {:induction false} SoundGptAccepted(parts: seq<Partition>, t: Target)
    requires Sound(parts, t) && t.kind == Gpt && parts != []
    requires forall i :: 0 <= i < |parts| ==> parts[i].kind.typeGuid != GptEntries.UNUSED
    ensures GptAccepts(t.size / SECTOR, parts, t.geometry)
  {
    SoundAssignable(parts, t);
    assert WellPlaced(parts[0], t.Usable());
    WellPlacedSectors(parts[0], t.Usable());
    assert t.geometry.UsableRange(t.size / SECTOR).Ok?;
    forall p | p in parts ensures ValidEntry(p, t.Usable()) && p.uuid.Some? {
      WellPlacedSectors(p, t.Usable());
    }
    assert ReservedSlots(t.Reserved()) == [];
  }

  /** A sound MBR set that is not empty is one the MBR writer accepts. */
  lemma {:induction false} SoundMbrAccepted(parts: seq<Partition>, t: Target)
    requires Sound(parts, t) && t.kind == Mbr && parts != []
    requires PairwiseDisjoint(ClaimsOf(t.reserved))
    ensures Accepts(t.size, parts, t.reserved)
  {
    SoundAssignable(parts, t);
    UsableBounds(t);
    assert WellPlaced(parts[0], t.Usable());
    WellPlacedSectors(parts[0], t.Usable());
    forall p | p in parts ensures ValidPartition(p, t.size) {
      WellPlacedSectors(p, t.Usable());
    }
    JoinDisjoint(PartSpans(parts), ClaimsOf(t.reserved));
  }

  lemma {:induction false} JoinDisjoint(a: seq<Span>, b: seq<Span>)
    requires PairwiseDisjoint(a) && PairwiseDisjoint(b)
    requires forall i, k :: 0 <= i < |a| && 0 <= k < |b| ==> !Overlap(b[k], a[i])
    ensures PairwiseDisjoint(a + b)
  {
    var s := a + b;
    forall i, j | 0 <= i < j < |s| ensures !Overlap(s[i], s[j]) {
      if i < |a| <= j { assert !Overlap(b[j - |a|], a[i]); }
    }
  }

  // ----- each edit keeps it

  /** A new partition clear of everything. */
  lemma {:induction false} AddSound(parts: seq<Partition>, t: Target, p: Partition)
    requires Sound(parts, t) && WellPlaced(p, t.Usable()) && KindFits(p, t.kind) && p.slot == None
    requires |parts| + |t.Reserved()| < t.SlotCount()
    requires forall i :: 0 <= i < |parts| ==> !Overlap(SectorSpan(parts[i]).value, SectorSpan(p).value)
    requires forall k :: 0 <= k < |ClaimsOf(t.Reserved())| ==> !Overlap(ClaimsOf(t.Reserved())[k], SectorSpan(p).value)
    ensures Sound(parts + [p], t)
  {
    var all := parts + [p];
    assert AllWellPlaced(all, t);
    assert SlotsOf(all) == SlotsOf(parts) + [None];
    AddNoSlot(SlotsOf(parts), t.SlotCount(), ReservedSlots(t.Reserved()));
  }

  lemma {:induction false} AddNoSlot(slots: seq<Option<nat>>, n: nat, reserved: seq<nat>)
    requires SlotsFree(slots, n, reserved)
    ensures SlotsFree(slots + [None], n, reserved)
  {
  }

  function Without<T>(s: seq<T>, i: nat): (r: seq<T>)
    requires i < |s|
    ensures |r| == |s| - 1 && forall k :: 0 <= k < |r| ==> r[k] == s[if k < i then k else k + 1]
  {
    s[..i] + s[i + 1..]
  }

  lemma {:induction false} RemoveSound(parts: seq<Partition>, t: Target, i: nat)
    requires Sound(parts, t) && i < |parts|
    ensures Sound(Without(parts, i), t)
  {
    var rest := Without(parts, i);
    assert AllWellPlaced(rest, t);
    RemoveApart(parts, ClaimsOf(t.Reserved()), i);
    assert SlotsOf(rest) == Without(SlotsOf(parts), i);
    RemoveSlot(SlotsOf(parts), t.SlotCount(), ReservedSlots(t.Reserved()), i);
  }

  lemma {:induction false} RemoveApart(parts: seq<Partition>, claims: seq<Span>, i: nat)
    requires (forall j :: 0 <= j < |parts| ==> SectorSpan(parts[j]).Some?) && Apart(parts, claims) && i < |parts|
    ensures (forall j :: 0 <= j < |Without(parts, i)| ==> SectorSpan(Without(parts, i)[j]).Some?)
    ensures Apart(Without(parts, i), claims)
  {
  }

  lemma {:induction false} RemoveSlot(slots: seq<Option<nat>>, n: nat, reserved: seq<nat>, i: nat)
    requires SlotsFree(slots, n, reserved) && i < |slots|
    ensures SlotsFree(Without(slots, i), n, reserved)
  {
  }

  /** A partition given another length, still clear of the others. */
  lemma {:induction false} ResizeSound(parts: seq<Partition>, t: Target, i: nat, p: Partition)
    requires Sound(parts, t) && i < |parts| && WellPlaced(p, t.Usable()) && KindFits(p, t.kind)
    requires p.slot == parts[i].slot
    requires forall j :: 0 <= j < |parts| && j != i ==> !Overlap(SectorSpan(parts[j]).value, SectorSpan(p).value)
    requires forall k :: 0 <= k < |ClaimsOf(t.Reserved())| ==> !Overlap(ClaimsOf(t.Reserved())[k], SectorSpan(p).value)
    ensures Sound(parts[i := p], t)
  {
    var all := parts[i := p];
    assert AllWellPlaced(all, t);
    assert SlotsOf(all) == SlotsOf(parts);
  }

  /** Lists that differ only in slots and in the rules reported broken. */
  predicate SamePlaces(a: seq<Partition>, b: seq<Partition>) {
    |a| == |b| && forall i :: 0 <= i < |a| ==> b[i] == a[i].(slot := b[i].slot, issues := b[i].issues)
  }

  lemma {:induction false} SamePlacesSound(a: seq<Partition>, b: seq<Partition>, t: Target)
    requires Sound(a, t) && SamePlaces(a, b)
    requires SlotsFree(SlotsOf(b), t.SlotCount(), ReservedSlots(t.Reserved()))
    ensures Sound(b, t)
  {
    assert forall i :: 0 <= i < |b| ==> SectorSpan(b[i]) == SectorSpan(a[i]);
    assert AllWellPlaced(b, t);
  }

  lemma {:induction false} SamePlacesOverlap(a: seq<Partition>, b: seq<Partition>, i: nat)
    requires SamePlaces(a, b) && i < |a| && SectorSpan(a[i]).Some?
    ensures SectorSpan(b[i]) == SectorSpan(a[i]) && (OverlapsOther(b, i) <==> OverlapsOther(a, i))
  {
    assert forall j :: 0 <= j < |a| ==> SectorSpan(b[j]) == SectorSpan(a[j]);
  }

  /** The partitions with the slots they were written to. */
  function WithSlots(parts: seq<Partition>, slots: seq<nat>): (r: seq<Partition>)
    requires |parts| == |slots| && forall i :: 0 <= i < |slots| ==> slots[i] < 0x1_0000_0000
    ensures |r| == |parts| && forall i :: 0 <= i < |r| ==> r[i] == parts[i].(slot := Some(slots[i]))
  {
    seq(|parts|, i requires 0 <= i < |parts| => parts[i].(slot := Some(slots[i])))
  }

  lemma {:induction false} CommitSound(parts: seq<Partition>, t: Target, slots: seq<nat>)
    requires Sound(parts, t) && Assigned(SlotsOf(parts), t.SlotCount(), ReservedSlots(t.Reserved()), slots)
    ensures Sound(WithSlots(parts, slots), t)
  {
    var done := WithSlots(parts, slots);
    AssignedFree(SlotsOf(parts), SlotsOf(done), t.SlotCount(), ReservedSlots(t.Reserved()), slots);
    SamePlacesSound(parts, done, t);
  }

  lemma {:induction false} AssignedFree(slots: seq<Option<nat>>, done: seq<Option<nat>>, n: nat, reserved: seq<nat>,
                                        out: seq<nat>)
    requires SlotsFree(slots, n, reserved) && Assigned(slots, n, reserved, out)
    requires |done| == |slots| && forall i :: 0 <= i < |done| ==> done[i] == Some(out[i])
    ensures SlotsFree(done, n, reserved)
  {
  }

  // ----- exact issues

  /** Partition `i` shares a sector with another whose sectors can be named. */
  predicate OverlapsOther(parts: seq<Partition>, i: nat)
    requires i < |parts| && SectorSpan(parts[i]).Some?
  {
    exists j :: 0 <= j < |parts| && j != i && SectorSpan(parts[j]).Some?
      && Overlap(SectorSpan(parts[i]).value, SectorSpan(parts[j]).value)
  }

  /** The range a GPT's rules are about: what its header states, or what a new table would. */
  function StatedRange(t: Target): Span {
    if t.geometry.declared.Some? then t.geometry.declared.value else t.Usable()
  }

  /** Every partition reports exactly the rules it breaks. */
  predicate Exact(parts: seq<Partition>, t: Target) {
    forall i :: 0 <= i < |parts| ==>
      && RangeExact(parts[i], t)
      && parts[i].issues.overlaps == OverlapsOther(parts, i)
  }

  predicate RangeExact(p: Partition, t: Target) {
    && SectorSpan(p).Some? && p.start % SECTOR == 0
    && p.issues.(overlaps := false) == RangeIssues(SectorSpan(p).value, StatedRange(t))
  }

  lemma {:induction false} UsableIsStated(t: Target)
    requires t.kind == Gpt && t.Usable().first <= t.Usable().last
    ensures StatedRange(t) == t.Usable()
  {
  }

  lemma {:induction false} AddExact(parts: seq<Partition>, t: Target, p: Partition)
    requires Exact(parts, t) && t.kind == Gpt && WellPlaced(p, t.Usable()) && p.issues == NO_ISSUES
    requires forall i :: 0 <= i < |parts| ==> !Overlap(SectorSpan(parts[i]).value, SectorSpan(p).value)
    ensures Exact(parts + [p], t)
  {
    var all := parts + [p];
    WellPlacedSectors(p, t.Usable());
    UsableIsStated(t);
    forall i | 0 <= i < |all|
      ensures RangeExact(all[i], t) && all[i].issues.overlaps == OverlapsOther(all, i)
    {
      if i < |parts| {
        assert RangeExact(parts[i], t);
        if OverlapsOther(parts, i) {
          var j :|
            && 0 <= j < |parts| && j != i && SectorSpan(parts[j]).Some?
            && Overlap(SectorSpan(parts[i]).value, SectorSpan(parts[j]).value);
          assert all[j] == parts[j];
        }
      } else {
        assert forall j :: 0 <= j < |parts| ==> all[j] == parts[j];
      }
    }
  }

  /** The overlap flags as the list now stands. */
  function Refreshed(parts: seq<Partition>): (r: seq<Partition>)
    ensures |r| == |parts| && forall i :: 0 <= i < |r| ==> r[i] == RefreshedAt(parts, i)
  {
    seq(|parts|, i requires 0 <= i < |parts| => RefreshedAt(parts, i))
  }

  function RefreshedAt(parts: seq<Partition>, i: nat): Partition
    requires i < |parts|
  {
    if SectorSpan(parts[i]).None? then parts[i]
    else parts[i].(issues := parts[i].issues.(overlaps := OverlapsOther(parts, i)))
  }

  lemma {:induction false} RefreshedExact(parts: seq<Partition>, t: Target)
    requires forall i :: 0 <= i < |parts| ==> RangeExact(parts[i], t)
    ensures Exact(Refreshed(parts), t)
  {
    var done := Refreshed(parts);
    forall i | 0 <= i < |done|
      ensures RangeExact(done[i], t) && done[i].issues.overlaps == OverlapsOther(done, i)
    {
      assert RangeExact(parts[i], t);
      SamePlacesOverlap(parts, done, i);
    }
  }

  lemma {:induction false} RefreshedSound(parts: seq<Partition>, t: Target)
    requires Sound(parts, t)
    ensures Sound(Refreshed(parts), t)
  {
    assert SlotsOf(Refreshed(parts)) == SlotsOf(parts);
    SamePlacesSound(parts, Refreshed(parts), t);
  }

  lemma {:induction false} CommitExact(parts: seq<Partition>, t: Target, slots: seq<nat>)
    requires Exact(parts, t) && |parts| == |slots| && forall i :: 0 <= i < |slots| ==> slots[i] < 0x1_0000_0000
    ensures Exact(WithSlots(parts, slots), t)
  {
    var done := WithSlots(parts, slots);
    forall i | 0 <= i < |done|
      ensures RangeExact(done[i], t) && done[i].issues.overlaps == OverlapsOther(done, i)
    {
      assert RangeExact(parts[i], t);
      SamePlacesOverlap(parts, done, i);
    }
  }
}
