/** What a probe answers, told by the bytes it decides on: the GPT signature, the boot signature and
    the types of the four MBR entries; and what "the backup describes the same table" comes to. */
module ProbeRules {
  import opened GptEntries
  import opened GptGeometry
  import opened GptHeader
  import opened MbrTable
  import opened PartitionTable
  import opened Probing
  import opened Sizes
  import opened Spans
  import opened Wrappers

  // ----- when two lists are of the same partitions

  /** What two copies of a table must agree on about a partition. */
  datatype Key = Key(start: u64, length: u64, uuid: Option<Guid>, kind: Kind, slot: Option<u32>, name: Option<string>)

  function KeyOf(p: Partition): Key {
    Key(p.start, p.length, p.uuid, p.kind, p.slot, p.name)
  }

  function Keys(parts: seq<Partition>): (r: seq<Key>)
    ensures |r| == |parts| && forall i :: 0 <= i < |r| ==> r[i] == KeyOf(parts[i])
  {
    seq(|parts|, i requires 0 <= i < |parts| => KeyOf(parts[i]))
  }

  lemma {:induction false} KeysAppend(parts: seq<Partition>, p: Partition)
    ensures Keys(parts + [p]) == Keys(parts) + [KeyOf(p)]
  {
  }

  lemma {:induction false} KeysSplit(parts: seq<Partition>)
    requires parts != []
    ensures Keys(parts) == Keys(parts[..|parts| - 1]) + [KeyOf(parts[|parts| - 1])]
  {
  }

  lemma {:induction false} InitSame(a: seq<Partition>, b: seq<Partition>)
    requires Keys(a) == Keys(b) && a != []
    ensures |b| == |a| && KeyOf(a[|a| - 1]) == KeyOf(b[|b| - 1]) && Keys(a[..|a| - 1]) == Keys(b[..|b| - 1])
  {
    var k := |a| - 1;
    assert Keys(a)[k] == Keys(b)[k];
    assert Keys(a[..k]) == Keys(a)[..k] && Keys(b[..k]) == Keys(b)[..k];
  }

  lemma {:induction false} InsertSame(a: seq<Partition>, p: Partition, b: seq<Partition>, q: Partition)
    requires Keys(a) == Keys(b) && KeyOf(p) == KeyOf(q)
    ensures Keys(InsertByStart(a, p)) == Keys(InsertByStart(b, q))
  {
    if a == [] || a[|a| - 1].start <= p.start {
      assert a != [] ==> KeyOf(a[|a| - 1]) == Keys(a)[|a| - 1] == Keys(b)[|b| - 1];
      KeysAppend(a, p);
      KeysAppend(b, q);
    } else {
      var k := |a| - 1;
      InitSame(a, b);
      InsertSame(a[..k], p, b[..k], q);
      KeysAppend(InsertByStart(a[..k], p), a[k]);
      KeysAppend(InsertByStart(b[..k], q), b[k]);
    }
  }

  lemma {:induction false} SortSame(a: seq<Partition>, b: seq<Partition>)
    requires Keys(a) == Keys(b)
    ensures Keys(SortedByStart(a)) == Keys(SortedByStart(b))
  {
    if a != [] {
      var k := |a| - 1;
      InitSame(a, b);
      SortSame(a[..k], b[..k]);
      InsertSame(SortedByStart(a[..k]), a[k], SortedByStart(b[..k]), b[k]);
    }
  }

  lemma {:induction false} InsertKeepsKeys(sorted: seq<Partition>, p: Partition)
    ensures multiset(Keys(InsertByStart(sorted, p))) == multiset(Keys(sorted)) + multiset{KeyOf(p)}
  {
    if sorted == [] || sorted[|sorted| - 1].start <= p.start {
      KeysAppend(sorted, p);
    } else {
      var k := |sorted| - 1;
      InsertKeepsKeys(sorted[..k], p);
      KeysAppend(InsertByStart(sorted[..k], p), sorted[k]);
      KeysSplit(sorted);
    }
  }

  lemma {:induction false} SortKeepsKeys(parts: seq<Partition>)
    ensures multiset(Keys(SortedByStart(parts))) == multiset(Keys(parts))
  {
    if parts != [] {
      var k := |parts| - 1;
      SortKeepsKeys(parts[..k]);
      InsertKeepsKeys(SortedByStart(parts[..k]), parts[k]);
      KeysSplit(parts);
    }
  }

  /** Each is in a later slot than the one before. */
  ghost predicate InSlotOrder(keys: seq<Key>) {
    && (forall i :: 0 <= i < |keys| ==> keys[i].slot.Some?)
    && forall i, j :: 0 <= i < j < |keys| ==> keys[i].slot.value < keys[j].slot.value
  }

  lemma {:induction false} SameMembers(a: seq<Key>, b: seq<Key>)
    requires multiset(a) == multiset(b)
    ensures |a| == |b| && forall x :: x in a <==> x in b
  {
    assert |multiset(a)| == |a| && |multiset(b)| == |b|;
    forall x ensures x in a <==> x in b { assert x in multiset(a) <==> x in multiset(b); }
  }

  lemma {:induction false} SameLast(a: seq<Key>, b: seq<Key>)
    requires InSlotOrder(a) && InSlotOrder(b) && a != [] && |a| == |b| && forall x :: x in a <==> x in b
    ensures a[|a| - 1] == b[|b| - 1]
  {
    var k := |a| - 1;
    assert a[k] in b && b[k] in a;
    var i :| 0 <= i < |b| && b[i] == a[k];
    var j :| 0 <= j < |a| && a[j] == b[k];
  }

  lemma {:induction false} Rest(a: seq<Key>)
    requires a != []
    ensures a == a[..|a| - 1] + [a[|a| - 1]] && multiset(a[..|a| - 1]) == multiset(a) - multiset{a[|a| - 1]}
    ensures InSlotOrder(a) ==> InSlotOrder(a[..|a| - 1])
  {
    assert a == a[..|a| - 1] + [a[|a| - 1]];
  }

  lemma {:induction false} RestSame(a: seq<Key>, b: seq<Key>)
    requires a != [] && |a| == |b| && multiset(a) == multiset(b) && a[|a| - 1] == b[|b| - 1]
    requires InSlotOrder(a) && InSlotOrder(b)
    ensures multiset(a[..|a| - 1]) == multiset(b[..|b| - 1])
    ensures InSlotOrder(a[..|a| - 1]) && InSlotOrder(b[..|b| - 1])
    ensures a[..|a| - 1] == b[..|b| - 1] ==> a == b
  {
    Rest(a);
    Rest(b);
  }

  /** In order of slot, the same partitions are the same list. */
  lemma {:induction false} OrderedSame(a: seq<Key>, b: seq<Key>)
    requires InSlotOrder(a) && InSlotOrder(b) && multiset(a) == multiset(b)
    ensures a == b
  {
    SameMembers(a, b);
    if a != [] {
      var k := |a| - 1;
      SameLast(a, b);
      RestSame(a, b);
      OrderedSame(a[..k], b[..k]);
    }
  }

  /** So the two copies agree exactly when they list the same partitions. */
  lemma {:induction false} AgreeIsSame(x: seq<Partition>, y: seq<Partition>)
    requires InSlotOrder(Keys(x)) && InSlotOrder(Keys(y))
    ensures |x| == |y| && AllSame(SortedByStart(x), SortedByStart(y)) <==> multiset(Keys(x)) == multiset(Keys(y))
    ensures multiset(Keys(x)) == multiset(Keys(y)) <==> Keys(x) == Keys(y)
  {
    var a, b := SortedByStart(x), SortedByStart(y);
    SortKeepsKeys(x);
    SortKeepsKeys(y);
    if multiset(Keys(x)) == multiset(Keys(y)) {
      OrderedSame(Keys(x), Keys(y));
      SortSame(x, y);
      forall i | 0 <= i < |a| ensures SamePartition(a[i], b[i]) { assert Keys(a)[i] == Keys(b)[i]; }
    }
    if |x| == |y| && AllSame(a, b) {
      forall i | 0 <= i < |a| ensures Keys(a)[i] == Keys(b)[i] { assert SamePartition(a[i], b[i]); }
      assert Keys(a) == Keys(b);
    }
  }

  // ----- lists read off a disk are in order of slot

  lemma {:induction false} ListedSlots(entries: EntryList, size: u64, i: nat, j: nat)
    requires NoneBad(entries) && i <= j < |Listed(entries, size)|
    ensures Listed(entries, size)[i].slot.Some? && Listed(entries, size)[j].slot.Some?
    ensures Listed(entries, size)[j].slot.value < |entries|
    ensures i < j ==> Listed(entries, size)[i].slot.value < Listed(entries, size)[j].slot.value
  {
    var k := |entries| - 1;
    var init := Listed(entries[..k], size);
    if j < |init| {
      ListedSlots(entries[..k], size, i, j);
    } else if i < j {
      ListedSlots(entries[..k], size, i, i);
    }
  }

  lemma {:induction false} ReadInOrder(disk: Disk, lba: nat, crc: Crc)
    requires ParseCopy(disk, lba, crc).Ok?
    ensures InSlotOrder(Keys(ParseCopy(disk, lba, crc).value))
  {
    var h := ParseHeader(disk[lba * SECTOR..lba * SECTOR + SECTOR], crc).value;
    EntriesInOrder(ReadEntries(disk, h, crc).value, UsableOf(h), |disk|);
  }

  lemma {:induction false} EntriesInOrder(entries: EntryList, usable: Span, size: u64)
    requires EntriesRead(entries, usable, size).Ok?
    ensures InSlotOrder(Keys(EntriesRead(entries, usable, size).value))
  {
    ListedTogether(entries, size);
    var parts, listed := EntriesRead(entries, usable, size).value, Listed(entries, size);
    forall i: nat, j: nat | i <= j < |parts|
      ensures parts[i].slot.Some? && parts[j].slot.Some? && (i < j ==> parts[i].slot.value < parts[j].slot.value)
    {
      ListedSlots(entries, size, i, j);
    }
  }

  // ----- a GPT

  /** Sector 1 starts with the eight characters "EFI PART". */
  predicate SaysGpt(disk: Disk) {
    |disk| >= 1024 && disk[512..520] == [0x45, 0x46, 0x49, 0x20, 0x50, 0x41, 0x52, 0x54]
  }

  /** The backup can be read and lists the same partitions. */
  ghost predicate BackupSame(disk: Disk, crc: Crc, parts: seq<Partition>) {
    ParseBackup(disk, crc).Ok? && multiset(Keys(ParseBackup(disk, crc).value)) == multiset(Keys(parts))
  }

  lemma {:induction false} SignatureRead(disk: Disk)
    ensures SaysGpt(disk) <==> |disk| >= 2 * SECTOR && disk[SECTOR..2 * SECTOR][..8] == SIGNATURE
  {
    if |disk| >= 1024 { assert disk[512..1024][..8] == disk[512..520]; }
  }

  /** A primary copy that can be read is the answer. Consulting the backup, the answer says whether the
      backup lists the same partitions: range, UUID, type, slot and name. */
  lemma {:induction false} PrimaryRead(disk: Disk, crc: Crc, parts: seq<Partition>)
    requires SaysGpt(disk) && ParseCopy(disk, 1, crc) == Ok(parts)
    ensures Probe(disk, false, crc) == Ok(Probed(Gpt, parts, Primary))
    ensures BackupSame(disk, crc, parts) ==> Probe(disk, true, crc) == Ok(Probed(Gpt, parts, Primary))
    ensures !BackupSame(disk, crc, parts) ==> Probe(disk, true, crc) == Ok(Probed(Gpt, parts, PrimaryBackupStale))
  {
    SignatureRead(disk);
    ReadInOrder(disk, 1, crc);
    if ParseBackup(disk, crc).Ok? {
      ReadInOrder(disk, |disk| / SECTOR - 1, crc);
      AgreeIsSame(parts, ParseBackup(disk, crc).value);
    }
    assert BackupAgrees(disk, parts, crc) <==> BackupSame(disk, crc, parts);
  }

  /** One that cannot is an error, unless the backup is consulted and can. */
  lemma {:induction false} PrimaryLost(disk: Disk, crc: Crc, why: Error)
    requires SaysGpt(disk) && ParseCopy(disk, 1, crc) == Err(why)
    ensures Probe(disk, false, crc) == Err(why)
    ensures match ParseBackup(disk, crc)
            case Ok(parts) => Probe(disk, true, crc) == Ok(Probed(Gpt, parts, RecoveredFromBackup))
            case Err(_) => Probe(disk, true, crc) == Err(why)
  {
    SignatureRead(disk);
  }

  // ----- an MBR

  /** Sector 0 ends with 55 AA. */
  predicate Signed(disk: Disk) {
    |disk| >= 512 && disk[510] == 0x55 && disk[511] == 0xAA
  }

  /** The type of MBR entry `i`: byte 4 of the sixteen from byte 446 on. */
  function TypeAt(disk: Disk, i: nat): byte
    requires |disk| >= 512 && i < 4
  {
    disk[446 + 16 * i + 4]
  }

  lemma {:induction false} TypeRead(disk: Disk, i: nat)
    requires |disk| >= 512 && i < 4
    ensures TableOf(disk[0..0 + SECTOR])[i][4] == TypeAt(disk, i)
  {
  }

  ghost predicate AnyMarker(disk: Disk)
    requires |disk| >= 512
  {
    exists i: nat :: i < 4 && TypeAt(disk, i) == 0xEE
  }

  /** One entry is a marker and the others are empty. */
  ghost predicate MarkerAlone(disk: Disk)
    requires |disk| >= 512
  {
    exists i: nat :: i < 4 && TypeAt(disk, i) == 0xEE && forall j: nat :: j < 4 && j != i ==> TypeAt(disk, j) == 0
  }

  lemma {:induction false} MarkersRead(disk: Disk)
    requires |disk| >= 512
    ensures HasGptMarker(TableOf(disk[0..0 + SECTOR])) <==> AnyMarker(disk)
    ensures IsProtective(TableOf(disk[0..0 + SECTOR])) <==> MarkerAlone(disk)
    ensures disk[0..0 + SECTOR][510..512] == [0x55, 0xAA] <==> Signed(disk)
  {
    var table := TableOf(disk[0..0 + SECTOR]);
    forall i: nat | i < 4 ensures table[i][4] == TypeAt(disk, i) { TypeRead(disk, i); }
    assert disk[0..0 + SECTOR][510..512] == disk[510..512] == [disk[510], disk[511]];
    if AnyMarker(disk) {
      var i: nat :| i < 4 && TypeAt(disk, i) == 0xEE;
      assert table[i][4] == GPT_PROTECTIVE;
    }
    if MarkerAlone(disk) {
      var i: nat :| i < 4 && TypeAt(disk, i) == 0xEE && forall j: nat :: j < 4 && j != i ==> TypeAt(disk, j) == 0;
      assert table[i][4] == GPT_PROTECTIVE;
    }
  }

  /** Without a GPT signature: nothing if sector 0 is not signed; a refusal if it is marked and a GPT is
      where a disk of 4096-byte sectors has it; the backup, or an error, if a marker is all there is;
      and otherwise the volumes of the four entries, markers beside them or not. */
  lemma {:induction false} NoGptSignature(disk: Disk, consult: bool, crc: Crc)
    requires |disk| >= 512 && !SaysGpt(disk)
    ensures !Signed(disk) ==> Probe(disk, consult, crc) == Err(NoPartitionTable)
    ensures Signed(disk) && AnyMarker(disk) && LooksLike4Kn(disk, crc) ==>
      Probe(disk, consult, crc) == Err(UnsupportedSectorSize)
    ensures Signed(disk) && !(AnyMarker(disk) && LooksLike4Kn(disk, crc)) && MarkerAlone(disk) ==>
      match ParseBackup(disk, crc)
      case Ok(parts) =>
        Probe(disk, consult, crc) == if consult then Ok(Probed(Gpt, parts, RecoveredFromBackup)) else Err(Corrupt)
      case Err(_) => Probe(disk, consult, crc) == Err(Corrupt)
    ensures Signed(disk) && !(AnyMarker(disk) && LooksLike4Kn(disk, crc)) && !MarkerAlone(disk) ==>
      Probe(disk, consult, crc) == Ok(Probed(Mbr, VolumesOf(TableOf(disk[..512]), |disk|), FromMbr))
  {
    SignatureRead(disk);
    MarkersRead(disk);
    assert disk[0..0 + SECTOR] == disk[..512];
  }
}
