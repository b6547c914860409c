/** LBA 0 of a GPT disk: a protective MBR, or a hybrid one that is kept. */
module HybridMbr {
  import opened Bytes
  import opened MbrTable
  import opened MbrWriter
  import opened PartitionTable
  import opened Probing
  import opened Sizes
  import opened Wrappers

  /** A CHS address in the 255 by 63 geometry, or all ones past its end. */
  function ChsForLba(lba: nat): (r: seq<byte>)
    ensures |r| == 3
  {
    var cylinder, within := lba / (255 * 63), lba % (255 * 63);
    if cylinder > 1023 then [0xFF, 0xFF, 0xFF]
    else [within / 63, within % 63 + 1 + 64 * (cylinder / 256), cylinder % 256]
  }

  /** The `0xEE` entry over a whole disk of `total` sectors. */
  function Protective(total: nat): Entry
    requires total > 0
  {
    var count := if total - 1 < MBR_LBA_MAX then total - 1 else MBR_LBA_MAX;
    EntryBytes(0, [0, 2, 0], GPT_PROTECTIVE, ChsForLba(count), ToLE(1, 4), ToLE(count, 4))
  }

  /** A mirror of one of the partitions. */
  predicate Mirrors(e: Entry, parts: seq<Partition>) {
    exists i :: 0 <= i < |parts| && parts[i].start == Start(e) * SECTOR && parts[i].length == Count(e) * SECTOR
  }

  /** A volume entry that mirrors nothing any more. */
  predicate Stale(e: Entry, parts: seq<Partition>) {
    EntryRole(e[4]) == Volume && Count(e) != 0 && !Mirrors(e, parts)
  }

  datatype Kept = Kept(table: Entries, marker: Option<nat>)

  /** The entries kept of LBA 0, and where its first marker was. */
  function KeepEntries(lba0: seq<ReservedEntry>, rebuild: bool, parts: seq<Partition>): (r: Kept)
    requires SlotsFit(lba0)
    ensures |r.table| == ENTRY_COUNT && (r.marker.Some? ==> r.marker.value < ENTRY_COUNT)
  {
    if lba0 == [] then Kept(NO_ENTRIES, None)
    else
      var k := |lba0| - 1;
      var before, e := KeepEntries(lba0[..k], rebuild, parts), lba0[k];
      if e.bytes[4] == GPT_PROTECTIVE then
        if before.marker.Some? then before
        else Kept(if rebuild then before.table else before.table[e.slot := e.bytes], Some(e.slot))
      else if Stale(e.bytes, parts) then before
      else Kept(before.table[e.slot := e.bytes], before.marker)
  }

  /** The first slot with nothing in it. */
  function FreeSlot(table: Entries, i: nat): (r: Option<nat>)
    requires |table| == ENTRY_COUNT && i <= ENTRY_COUNT
    ensures r.Some? ==> i <= r.value < ENTRY_COUNT && table[r.value][4] == EMPTY
    ensures r.None? ==> forall k :: i <= k < ENTRY_COUNT ==> table[k][4] != EMPTY
    decreases ENTRY_COUNT - i
  {
    if i == ENTRY_COUNT then None else if table[i][4] == EMPTY then Some(i) else FreeSlot(table, i + 1)
  }

  /** The table of LBA 0 for a GPT commit: kept entries, and a marker. */
  function HybridTable(current: Entries, lba0: seq<ReservedEntry>, protective: Entry,
                       parts: seq<Partition>): (r: Result<Entries>)
    requires |current| == ENTRY_COUNT
    ensures r.Ok? ==> |r.value| == ENTRY_COUNT
  {
    if !SlotsFit(lba0) then Err(Invalid)
    else
      var rebuild := IsProtective(current);
      var kept := KeepEntries(lba0, rebuild, parts);
      if !rebuild && kept.marker.Some? then Ok(kept.table)
      else
        var slot := if kept.marker.Some? then kept.marker else FreeSlot(kept.table, 0);
        if slot.None? then Err(Invalid) else Ok(kept.table[slot.value := protective])
  }

  function SectorWith(boot: seq<byte>, table: Entries): (r: Sector)
    requires |boot| == TABLE_START && |table| == ENTRY_COUNT
  {
    boot + table[0] + table[1] + table[2] + table[3] + [0x55, 0xAA]
  }

  lemma {:induction false} SectorWithParts(boot: seq<byte>, table: Entries)
    requires |boot| == TABLE_START && |table| == ENTRY_COUNT
    ensures var r := SectorWith(boot, table);
      r[..TABLE_START] == boot && TableOf(r) == table && r[510..] == [0x55, 0xAA]
  {
    var r := SectorWith(boot, table);
    assert EntryAt(r, 0) == table[0];
    assert EntryAt(r, 1) == table[1];
    assert EntryAt(r, 2) == table[2];
    assert EntryAt(r, 3) == table[3];
  }

  /** LBA 0 to write over `current`: bare when nothing was found there, and otherwise with the
      boot code and the entries that still hold. */
  function NewLba0(current: Sector, lba0: seq<ReservedEntry>, total: nat, parts: seq<Partition>): Result<Sector>
    requires total > 0
  {
    if lba0 == [] then Ok(SectorWith(Zeros(TABLE_START), NO_ENTRIES[0 := Protective(total)]))
    else
      match HybridTable(TableOf(current), lba0, Protective(total), parts)
      case Err(e) => Err(e)
      case Ok(table) => Ok(SectorWith(current[..TABLE_START], table))
  }

  // ----- a hybrid LBA 0 written back with nothing edited

  /** Every entry that is not empty. */
  function FoundEntries(table: Entries): seq<ReservedEntry> {
    if table == [] then []
    else
      var k := |table| - 1;
      FoundEntries(table[..k]) + if table[k][4] == EMPTY then [] else [ReservedEntry(k, table[k])]
  }

  /** The same of a sector, if it is signed. */
  function FoundAt(sector: Sector): seq<ReservedEntry> {
    if sector[510..] == [0x55, 0xAA] then FoundEntries(TableOf(sector)) else []
  }

  /** At most one marker, no stale mirror, and nothing in the empty slots. */
  predicate Settled(table: Entries, parts: seq<Partition>) {
    && (forall i, j :: 0 <= i < j < |table| ==> !(table[i][4] == GPT_PROTECTIVE && table[j][4] == GPT_PROTECTIVE))
    && (forall i :: 0 <= i < |table| ==> (table[i][4] == EMPTY ==> table[i] == Zeros(16)))
    && (forall i :: 0 <= i < |table| ==> (table[i][4] != EMPTY ==> !Stale(table[i], parts)))
  }

  // ----- exactly what is kept

  predicate IsMarker(e: Entry) {
    e[4] == GPT_PROTECTIVE
  }

  /** What is kept in slot `i` of a table that was found. */
  function KeptAt(table: Entries, rebuild: bool, parts: seq<Partition>, i: nat): Entry
    requires i < |table|
  {
    if table[i][4] == EMPTY || Stale(table[i], parts) then Zeros(16)
    else if IsMarker(table[i]) && (rebuild || HasGptMarker(table[..i])) then Zeros(16)
    else table[i]
  }

  lemma {:induction false} MarkerNext(table: Entries)
    requires table != []
    ensures HasGptMarker(table) <==> HasGptMarker(table[..|table| - 1]) || IsMarker(table[|table| - 1])
  {
    var k := |table| - 1;
    if HasGptMarker(table[..k]) {
      var i :| 0 <= i < k && table[..k][i][4] == GPT_PROTECTIVE;
      assert table[i][4] == GPT_PROTECTIVE;
    }
    if i :| 0 <= i < k && table[i][4] == GPT_PROTECTIVE { assert table[..k][i][4] == GPT_PROTECTIVE; }
  }

  /** The first marker of a table. */
  ghost predicate FirstMarker(table: Entries, i: nat) {
    i < |table| && IsMarker(table[i]) && !HasGptMarker(table[..i])
  }

  /** Keeping what was found in a table, slot by slot. */
  ghost predicate Keeps(table: Entries, rebuild: bool, parts: seq<Partition>, kept: Kept) {
    && |kept.table| == ENTRY_COUNT
    && (forall i: nat :: i < |table| ==> kept.table[i] == KeptAt(table, rebuild, parts, i))
    && (forall i :: |table| <= i < ENTRY_COUNT ==> kept.table[i] == Zeros(16))
    && (kept.marker.Some? <==> HasGptMarker(table)) && (kept.marker.Some? ==> FirstMarker(table, kept.marker.value))
  }

  lemma {:induction false} FoundKeeps(table: Entries, rebuild: bool, parts: seq<Partition>)
    ensures SlotsFit(FoundEntries(table))
    ensures Keeps(table, rebuild, parts, KeepEntries(FoundEntries(table), rebuild, parts))
  {
    if table != [] {
      var k := |table| - 1;
      var init, found := table[..k], FoundEntries(table[..k]);
      FoundKeeps(init, rebuild, parts);
      var kept := KeepEntries(found, rebuild, parts);
      MarkerNext(table);
      if table[k][4] == EMPTY {
        assert FoundEntries(table) == found;
        KeepsEmpty(table, rebuild, parts, kept);
      } else {
        var e := ReservedEntry(k, table[k]);
        assert FoundEntries(table) == found + [e] && (found + [e])[..|found|] == found;
        KeepsNext(table, rebuild, parts, kept, KeepEntries(found + [e], rebuild, parts));
      }
    }
  }

  lemma {:induction false} KeptSame(table: Entries, rebuild: bool, parts: seq<Partition>, i: nat)
    requires i < |table| - 1
    ensures KeptAt(table[..|table| - 1], rebuild, parts, i) == KeptAt(table, rebuild, parts, i)
    ensures FirstMarker(table[..|table| - 1], i) ==> FirstMarker(table, i)
  {
    assert table[..|table| - 1][..i] == table[..i];
  }

  lemma {:induction false} KeepsEmpty(table: Entries, rebuild: bool, parts: seq<Partition>, kept: Kept)
    requires table != [] && table[|table| - 1][4] == EMPTY && Keeps(table[..|table| - 1], rebuild, parts, kept)
    ensures Keeps(table, rebuild, parts, kept)
  {
    MarkerNext(table);
    forall i: nat | i < |table| - 1
      ensures kept.table[i] == KeptAt(table, rebuild, parts, i)
      ensures FirstMarker(table[..|table| - 1], i) ==> FirstMarker(table, i)
    {
      KeptSame(table, rebuild, parts, i);
    }
  }

  lemma {:induction false} KeepsNext(table: Entries, rebuild: bool, parts: seq<Partition>, kept: Kept, next: Kept)
    requires table != [] && table[|table| - 1][4] != EMPTY && Keeps(table[..|table| - 1], rebuild, parts, kept)
    requires var (k, e) := (|table| - 1, table[|table| - 1]);
      next == if IsMarker(e) then
                if kept.marker.Some? then kept
                else Kept(if rebuild then kept.table else kept.table[k := e], Some(k))
              else if Stale(e, parts) then kept
              else Kept(kept.table[k := e], kept.marker)
    ensures Keeps(table, rebuild, parts, next)
  {
    MarkerNext(table);
    forall i: nat | i < |table| - 1
      ensures kept.table[i] == KeptAt(table, rebuild, parts, i)
      ensures FirstMarker(table[..|table| - 1], i) ==> FirstMarker(table, i)
    {
      KeptSame(table, rebuild, parts, i);
    }
  }

  /** A marker that stands alone is the one a commit would write. */
  predicate MarkerMade(table: Entries, total: nat)
    requires |table| == ENTRY_COUNT && total > 0
  {
    IsProtective(table) ==> forall i :: 0 <= i < ENTRY_COUNT && IsMarker(table[i]) ==> table[i] == Protective(total)
  }

  /** LBA 0 written over itself comes out as it was: it has a marker, nothing stale and nothing in its
      empty slots, and a marker that stands alone is the one that would be written. */
  ghost predicate Stable(table: Entries, total: nat, parts: seq<Partition>)
    requires |table| == ENTRY_COUNT && total > 0
  {
    HasGptMarker(table) && Settled(table, parts) && MarkerMade(table, total)
  }

  /** A table whose slots are kept as they are is settled. */
  lemma {:induction false} KeptIsSettled(table: Entries, parts: seq<Partition>)
    ensures (forall i: nat :: i < |table| ==> KeptAt(table, false, parts, i) == table[i]) <==> Settled(table, parts)
  {
    assert Zeros(16)[4] == EMPTY;
    if forall i: nat :: i < |table| ==> KeptAt(table, false, parts, i) == table[i] {
      forall i, j | 0 <= i < j < |table| ensures !(IsMarker(table[i]) && IsMarker(table[j])) {
        assert KeptAt(table, false, parts, j) == table[j] && table[..j][i] == table[i];
      }
      forall i | 0 <= i < |table|
        ensures table[i][4] == EMPTY ==> table[i] == Zeros(16)
        ensures table[i][4] != EMPTY ==> !Stale(table[i], parts)
      {
        assert KeptAt(table, false, parts, i) == table[i];
      }
    }
    if Settled(table, parts) {
      forall i: nat | i < |table| ensures KeptAt(table, false, parts, i) == table[i] {
        assert forall k :: 0 <= k < i ==> table[..i][k] == table[k];
      }
    }
  }

  lemma {:induction false} MarkerFound(table: Entries)
    ensures HasGptMarker(table) ==> FoundEntries(table) != []
    ensures FoundEntries(table) == [] ==> forall i :: 0 <= i < |table| ==> table[i][4] == EMPTY
  {
    if table != [] {
      MarkerNext(table);
      MarkerFound(table[..|table| - 1]);
    }
  }

  /** A protective table is rebuilt as it was exactly when it is stable. */
  lemma {:induction false} ProtectiveAgain(table: Entries, total: nat, parts: seq<Partition>)
    requires |table| == ENTRY_COUNT && total > 0 && IsProtective(table)
    ensures HybridTable(table, FoundEntries(table), Protective(total), parts) == Ok(table) <==>
      Stable(table, total, parts)
  {
    var m :| 0 <= m < ENTRY_COUNT && table[m][4] == GPT_PROTECTIVE
      && forall j :: 0 <= j < ENTRY_COUNT && j != m ==> table[j][4] == EMPTY;
    FoundKeeps(table, true, parts);
    var kept := KeepEntries(FoundEntries(table), true, parts);
    assert HasGptMarker(table) && kept.marker == Some(m);
    forall i: nat | i < ENTRY_COUNT ensures kept.table[i] == Zeros(16) {
      assert kept.table[i] == KeptAt(table, true, parts, i);
    }
    LoneMarker(table, m, kept.table, Protective(total), parts);
  }

  lemma {:induction false} LoneMarker(table: Entries, m: nat, blank: Entries, marker: Entry, parts: seq<Partition>)
    requires |table| == |blank| == ENTRY_COUNT && m < ENTRY_COUNT && IsMarker(table[m])
    requires forall i :: 0 <= i < ENTRY_COUNT && i != m ==> table[i][4] == EMPTY
    requires forall i :: 0 <= i < ENTRY_COUNT ==> blank[i] == Zeros(16)
    ensures blank[m := marker] == table <==> Settled(table, parts) && table[m] == marker
  {
    var made := blank[m := marker];
    assert made == table <==> forall i :: 0 <= i < ENTRY_COUNT ==> made[i] == table[i];
  }

  /** So is a hybrid one. */
  lemma {:induction false} HybridAgain(table: Entries, total: nat, parts: seq<Partition>)
    requires |table| == ENTRY_COUNT && total > 0 && !IsProtective(table)
    ensures HybridTable(table, FoundEntries(table), Protective(total), parts) == Ok(table) <==>
      Stable(table, total, parts)
  {
    FoundKeeps(table, false, parts);
    KeptIsSettled(table, parts);
    var kept := KeepEntries(FoundEntries(table), false, parts);
    if HasGptMarker(table) {
      assert kept.table == table <==> forall i: nat :: i < ENTRY_COUNT ==> kept.table[i] == table[i];
    } else if FreeSlot(kept.table, 0).Some? {
      var slot := FreeSlot(kept.table, 0).value;
      var made := kept.table[slot := Protective(total)];
      assert IsMarker(made[slot]) && !IsMarker(table[slot]);
    }
  }

  /** LBA 0 written over itself with nothing edited comes out as it was, exactly when it is stable and
      signed. */
  lemma {:induction false} Lba0Again(current: Sector, total: nat, parts: seq<Partition>)
    requires total > 0
    ensures NewLba0(current, FoundEntries(TableOf(current)), total, parts) == Ok(current) <==>
      current[510..] == [0x55, 0xAA] && Stable(TableOf(current), total, parts)
  {
    var table := TableOf(current);
    MarkerFound(table);
    if FoundEntries(table) == [] {
      SectorWithParts(Zeros(TABLE_START), NO_ENTRIES[0 := Protective(total)]);
      assert NO_ENTRIES[0 := Protective(total)][0] != table[0];
    } else {
      if IsProtective(table) { ProtectiveAgain(table, total, parts); } else { HybridAgain(table, total, parts); }
      match HybridTable(table, FoundEntries(table), Protective(total), parts)
      case Err(_) =>
      case Ok(made) =>
        SectorWithParts(current[..TABLE_START], made);
        SectorParts(current, SectorWith(current[..TABLE_START], made));
    }
  }

  /** What a commit puts in LBA 0 is signed, marked and settled. */
  lemma {:induction false} WrittenLba0(current: Sector, found: Entries, total: nat, parts: seq<Partition>)
    requires total > 0 && |found| == ENTRY_COUNT && NewLba0(current, FoundEntries(found), total, parts).Ok?
    ensures var made := NewLba0(current, FoundEntries(found), total, parts).value;
      made[510..] == [0x55, 0xAA] && HasGptMarker(TableOf(made)) && Settled(TableOf(made), parts)
  {
    if FoundEntries(found) == [] {
      BareSettled(Protective(total), parts);
      SectorWithParts(Zeros(TABLE_START), NO_ENTRIES[0 := Protective(total)]);
    } else {
      var table := HybridTable(TableOf(current), FoundEntries(found), Protective(total), parts).value;
      SectorWithParts(current[..TABLE_START], table);
      WrittenTable(TableOf(current), found, total, parts);
    }
  }

  lemma {:induction false} BareSigned(current: Sector, total: nat, parts: seq<Partition>)
    requires total > 0
    ensures NewLba0(current, [], total, parts).Ok? && NewLba0(current, [], total, parts).value[510..] == [0x55, 0xAA]
  {
    SectorWithParts(Zeros(TABLE_START), NO_ENTRIES[0 := Protective(total)]);
  }

  /** LBA 0 written over itself, signed or not, comes out as it was exactly when it is signed and stable. */
  lemma {:induction false} SectorKept(current: Sector, total: nat, parts: seq<Partition>)
    requires total > 0
    ensures NewLba0(current, FoundAt(current), total, parts) == Ok(current) <==>
      current[510..] == [0x55, 0xAA] && Stable(TableOf(current), total, parts)
  {
    if current[510..] == [0x55, 0xAA] {
      Lba0Again(current, total, parts);
    } else {
      BareSigned(current, total, parts);
    }
  }

  lemma {:induction false} BareSettled(marker: Entry, parts: seq<Partition>)
    requires IsMarker(marker)
    ensures HasGptMarker(NO_ENTRIES[0 := marker]) && Settled(NO_ENTRIES[0 := marker], parts)
  {
    assert Zeros(16)[4] == EMPTY;
    assert forall i :: 0 <= i < ENTRY_COUNT ==> NO_ENTRIES[i] == Zeros(16);
    MarkedSettled(NO_ENTRIES, 0, marker, parts);
  }

  lemma {:induction false} WrittenTable(current: Entries, found: Entries, total: nat, parts: seq<Partition>)
    requires |current| == |found| == ENTRY_COUNT && total > 0
    requires HybridTable(current, FoundEntries(found), Protective(total), parts).Ok?
    ensures var made := HybridTable(current, FoundEntries(found), Protective(total), parts).value;
      HasGptMarker(made) && Settled(made, parts)
  {
    var rebuild := IsProtective(current);
    FoundKeeps(found, rebuild, parts);
    var kept := KeepEntries(FoundEntries(found), rebuild, parts);
    KeptSettled(found, rebuild, parts, kept);
    if !rebuild && kept.marker.Some? {
      assert kept.table[kept.marker.value] == KeptAt(found, rebuild, parts, kept.marker.value);
      assert IsMarker(kept.table[kept.marker.value]);
    } else {
      var slot := if kept.marker.Some? then kept.marker.value else FreeSlot(kept.table, 0).value;
      MarkedSettled(kept.table, slot, Protective(total), parts);
    }
  }

  /** A settled table without a marker is settled with one. */
  lemma {:induction false} MarkedSettled(table: Entries, slot: nat, marker: Entry, parts: seq<Partition>)
    requires |table| == ENTRY_COUNT && slot < ENTRY_COUNT && IsMarker(marker) && Settled(table, parts)
    requires forall i :: 0 <= i < ENTRY_COUNT ==> !IsMarker(table[i])
    ensures HasGptMarker(table[slot := marker]) && Settled(table[slot := marker], parts)
  {
    assert IsMarker(table[slot := marker][slot]);
  }

  /** Kept entries are settled, and none of them is a marker if it is to be made anew. */
  lemma {:induction false} KeptSettled(found: Entries, rebuild: bool, parts: seq<Partition>, kept: Kept)
    requires |found| == ENTRY_COUNT && Keeps(found, rebuild, parts, kept)
    ensures Settled(kept.table, parts)
    ensures rebuild || kept.marker.None? ==> forall i :: 0 <= i < ENTRY_COUNT ==> !IsMarker(kept.table[i])
  {
    assert Zeros(16)[4] == EMPTY;
    forall i: nat | i < ENTRY_COUNT ensures kept.table[i] == KeptAt(found, rebuild, parts, i) {
    }
    forall i, j | 0 <= i < j < ENTRY_COUNT ensures !(IsMarker(kept.table[i]) && IsMarker(kept.table[j])) {
      assert kept.table[i] == KeptAt(found, rebuild, parts, i) && kept.table[j] == KeptAt(found, rebuild, parts, j);
      assert found[..j][i] == found[i];
    }
  }

  /** A commit that drops the last mirror beside a marker keeps the marker as it was, and the next one
      makes it anew: the second differs from the first if the marker is not the one it makes. */
  lemma {:induction false} LoneMarkerKept(marker: Entry, mirror: Entry, total: nat, parts: seq<Partition>)
    requires total > 0 && IsMarker(marker) && marker != Protective(total) && mirror[4] != EMPTY && Stale(mirror, parts)
    ensures var (found, left) := ([marker, mirror, Zeros(16), Zeros(16)], [marker, Zeros(16), Zeros(16), Zeros(16)]);
      && HybridTable(found, FoundEntries(found), Protective(total), parts) == Ok(left) && !MarkerMade(left, total)
      && HybridTable(left, FoundEntries(left), Protective(total), parts) != Ok(left)
  {
    var found: Entries := [marker, mirror, Zeros(16), Zeros(16)];
    var left: Entries := [marker, Zeros(16), Zeros(16), Zeros(16)];
    assert Zeros(16)[4] == EMPTY;
    FoundKeeps(found, false, parts);
    assert IsMarker(found[0]) && found[1][4] != EMPTY && !IsProtective(found);
    var kept := KeepEntries(FoundEntries(found), false, parts).table;
    forall i: nat | i < ENTRY_COUNT ensures kept[i] == left[i] {
      assert kept[i] == KeptAt(found, false, parts, i);
      assert found[..0] == [];
    }
    assert kept == left;
    assert IsMarker(left[0]) && IsProtective(left);
    ProtectiveAgain(left, total, parts);
  }

  /** A commit onto a hybrid disk whose mirrors all still hold keeps LBA 0 byte for byte. */
  lemma {:induction false} HybridKept(current: Sector, total: nat, parts: seq<Partition>)
    requires total > 0 && HasGptMarker(TableOf(current)) && !IsProtective(TableOf(current))
    requires Settled(TableOf(current), parts) && current[510..] == [0x55, 0xAA]
    ensures NewLba0(current, FoundEntries(TableOf(current)), total, parts) == Ok(current)
  {
    Lba0Again(current, total, parts);
  }
}
