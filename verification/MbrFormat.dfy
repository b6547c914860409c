/** The MBR byte by byte: where the fields of an entry are, read and written, at their own offsets. */
module MbrFormat {
  import opened Bytes
  import opened HybridMbr
  import opened MbrTable
  import opened MbrWriter
  import opened PartitionTable
  import Probing
  import opened Sizes
  import opened Wrappers

  // ----- reading

  /** Entry `i` is the sixteen bytes from 446 + 16 i. */
  lemma {:induction false} EntryPlace(sector: Sector, i: nat)
    requires i < 4
    ensures TableOf(sector)[i] == sector[446 + 16 * i..462 + 16 * i]
  {
  }

  /** The start is the number at byte 8 of an entry and the count the one at byte 12, in sectors of 512
      bytes; byte 4 is the type, and the top bit of byte 0 says it is active. */
  lemma {:induction false} EntryParsed(e: Entry, slot: u32, deviceSize: u64)
    ensures var p := PartitionOf(e, slot, deviceSize);
      && p.start == Num4(e, 8) * 512 && p.length == Num4(e, 12) * 512 && p.kind == MbrKind(e[4], e[0] >= 0x80)
      && p.name == None && p.uuid == None && p.slot == Some(slot) && p.issues == NO_ISSUES
    ensures IsVolume(e) <==> e[4] !in {0, 5, 0xF, 0x85, 0xEE} && Num4(e, 12) != 0
  {
    NumRead(e, 8, 4);
    NumRead(e, 12, 4);
  }

  /** The sectors a kept entry claims: those its numbers say, unless it is a marker or has none. */
  lemma {:induction false} ClaimParsed(r: ReservedEntry)
    ensures r.Claim().None? <==> r.bytes[4] == 0xEE || Num4(r.bytes, 12) == 0
    ensures r.Claim().Some? ==>
      r.Claim().value.first == Num4(r.bytes, 8) && r.Claim().value.last + 1 == Num4(r.bytes, 8) + Num4(r.bytes, 12)
  {
    NumRead(r.bytes, 8, 4);
    NumRead(r.bytes, 12, 4);
  }

  // ----- writing

  /** The entry was of the same sectors. */
  predicate SameSectors(prior: Entry, p: Partition) {
    prior[4] != 0 && Num4(prior, 8) * 512 == p.start && Num4(prior, 12) * 512 == p.length
  }

  /** A written entry has the partition's start, count, type and activity, and the CHS bytes of the entry
      that was there if that was of the same sectors, and otherwise none. */
  lemma {:induction false} EntryWritten(prior: Entry, p: Partition, total: int)
    requires ValidPartition(p, total)
    ensures var e := EntryFor(prior, p);
      && e[0] == (if p.kind.active then 0x80 else 0) && e[4] == p.kind.typeByte
      && Num4(e, 8) * 512 == p.start && Num4(e, 12) * 512 == p.length
      && e[1..4] == (if SameSectors(prior, p) then prior[1..4] else [0, 0, 0])
      && e[5..8] == (if SameSectors(prior, p) then prior[5..8] else [0, 0, 0])
  {
    var e := EntryFor(prior, p);
    EntryReadBack(prior, p);
    NumRead(e, 8, 4);
    NumRead(e, 12, 4);
    NumRead(prior, 8, 4);
    NumRead(prior, 12, 4);
    SameNumber(prior[8..12], p.start / SECTOR);
    SameNumber(prior[12..16], p.length / SECTOR);
    var start, count := ToLE(p.start / SECTOR, 4), ToLE(p.length / SECTOR, 4);
    var same := prior[4] != EMPTY && prior[8..12] == start && prior[12..16] == count;
    ChsBytes(if p.kind.active then STATUS_ACTIVE else 0, if same then prior[1..4] else Zeros(3), p.kind.typeByte,
             if same then prior[5..8] else Zeros(3), start, count);
    assert Zeros(3) == [0, 0, 0];
  }

  lemma {:induction false} ChsBytes(status: byte, firstChs: seq<byte>, typeByte: byte, lastChs: seq<byte>,
                                    start: seq<byte>, count: seq<byte>)
    requires |firstChs| == |lastChs| == 3 && |start| == |count| == 4
    ensures var e := EntryBytes(status, firstChs, typeByte, lastChs, start, count);
      e[1..4] == firstChs && e[5..8] == lastChs
  {
  }

  lemma {:induction false} SameNumber(s: seq<byte>, n: nat)
    requires |s| == 4 && n < 0x1_0000_0000
    ensures s == ToLE(n, 4) <==> FromLE(s) == n
  {
    Widths();
    ToFromLE(n, 4);
    FromToLE(s);
  }

  // ----- the protective marker

  /** The address of a sector by cylinder, head and sector, 255 heads of 63 sectors to a cylinder: byte 0 is
      the head, the low six bits of byte 1 the sector from 1 on, and the rest the cylinder. */
  predicate Addresses(r: seq<byte>, lba: int)
    requires |r| == 3
  {
    var head: int, middle: int, low: int := r[0], r[1], r[2];
    var sector, cylinder := middle % 64, middle / 64 * 256 + low;
    head < 255 && 1 <= sector <= 63 && cylinder < 1024 && (cylinder * 255 + head) * 63 + sector - 1 == lba
  }

  /** Addresses reach 1024 cylinders, and past them are all ones. */
  lemma {:induction false} ChsAddress(lba: nat)
    ensures lba < 1024 * 255 * 63 ==> Addresses(ChsForLba(lba), lba)
    ensures lba >= 1024 * 255 * 63 ==> ChsForLba(lba) == [0xFF, 0xFF, 0xFF]
  {
    var cylinder, within := lba / (255 * 63), lba % (255 * 63);
    assert lba == cylinder * (255 * 63) + within;
  }

  /** The marker of a disk of `total` sectors starts at sector 1 and reaches the last one, or as far as 32
      bits do. */
  lemma {:induction false} MarkerWritten(total: nat)
    requires total > 0
    ensures var e, last := Protective(total), if total - 1 < 0xFFFF_FFFF then total - 1 else 0xFFFF_FFFF;
      && e[0] == 0 && e[4] == 0xEE && Num4(e, 8) == 1 && Num4(e, 12) == last
      && e[1..4] == [0, 2, 0] && e[5..8] == ChsForLba(last)
  {
    var e, last := Protective(total), if total - 1 < 0xFFFF_FFFF then total - 1 else 0xFFFF_FFFF;
    Widths();
    ToFromLE(1, 4);
    ToFromLE(last, 4);
    NumRead(e, 8, 4);
    NumRead(e, 12, 4);
    ChsBytes(0, [0, 2, 0], GPT_PROTECTIVE, ChsForLba(last), ToLE(1, 4), ToLE(last, 4));
  }

  /** Over a disk that had nothing in LBA 0: no boot code, the marker in the first entry, and the signature. */
  lemma {:induction false} BareWritten(current: Sector, total: nat, parts: seq<Partition>)
    requires total > 0
    ensures var r := NewLba0(current, [], total, parts);
      && r.Ok? && r.value[..446] == Zeros(446) && r.value[446..462] == Protective(total)
      && r.value[462..510] == Zeros(48) && r.value[510..] == [0x55, 0xAA]
  {
  }

  /** Over one that had something, the boot code stays; an entry found there that is no marker stays in its slot
      if it still holds, and is gone if it does not. */
  lemma {:induction false} FoundWritten(current: Sector, found: Entries, total: nat, parts: seq<Partition>, i: nat)
    requires total > 0 && |found| == 4 && FoundEntries(found) != [] && i < 4 && found[i][4] !in {0, 0xEE}
    requires NewLba0(current, FoundEntries(found), total, parts).Ok?
    ensures var made := NewLba0(current, FoundEntries(found), total, parts).value;
      && made[..446] == current[..446] && made[510..] == [0x55, 0xAA]
      && (Held(found[i], parts) ==> TableOf(made)[i] == found[i])
      && (!Held(found[i], parts) ==> TableOf(made)[i] in {Zeros(16), Protective(total)})
  {
    var table := HybridTable(TableOf(current), FoundEntries(found), Protective(total), parts).value;
    SectorWithParts(current[..TABLE_START], table);
    FoundInTable(TableOf(current), found, Protective(total), parts, i);
  }

  lemma {:induction false} FoundInTable(current: Entries, found: Entries, protective: Entry, parts: seq<Partition>,
                                        i: nat)
    requires |current| == |found| == 4 && i < 4 && found[i][4] !in {0, 0xEE}
    requires HybridTable(current, FoundEntries(found), protective, parts).Ok?
    ensures var table := HybridTable(current, FoundEntries(found), protective, parts).value;
      && (Held(found[i], parts) ==> table[i] == found[i])
      && (!Held(found[i], parts) ==> table[i] in {Zeros(16), protective})
  {
    var rebuild := Probing.IsProtective(current);
    FoundKeeps(found, rebuild, parts);
    HeldIsNotStale(found[i], parts);
    var kept := KeepEntries(FoundEntries(found), rebuild, parts);
    assert kept.table[i] == KeptAt(found, rebuild, parts, i);
  }

  /** An entry that still holds: no volume, or one with the range of a partition. */
  ghost predicate Held(e: Entry, parts: seq<Partition>) {
    || e[4] in {5, 0xF, 0x85} || Num4(e, 12) == 0
    || exists i :: 0 <= i < |parts| && parts[i].start == Num4(e, 8) * 512 && parts[i].length == Num4(e, 12) * 512
  }

  lemma {:induction false} HeldIsNotStale(e: Entry, parts: seq<Partition>)
    requires e[4] !in {0, 0xEE}
    ensures Held(e, parts) <==> !Stale(e, parts)
  {
    NumRead(e, 8, 4);
    NumRead(e, 12, 4);
  }
}
