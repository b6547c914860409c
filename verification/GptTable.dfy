/** The entries a GPT is written with, and what they read back as. */
module GptTable {
  import opened Bytes
  import opened GptEntries
  import opened GptGeometry
  import opened PartitionTable
  import opened Slots
  import opened Spans
  import opened Utf16
  import opened Wrappers

  /** Each partition's vendor bytes, under its UUID. */
  type Tails = map<Guid, seq<byte>>

  // ----- one partition

  /** A partition the writer takes into a table with this usable range. */
  predicate ValidEntry(p: Partition, usable: Span) {
    && p.kind.GptKind? && p.length != 0 && SectorAligned(p) && SectorSpan(p).Some?
    && !RangeIssues(SectorSpan(p).value, usable).beforeFirst && !RangeIssues(SectorSpan(p).value, usable).pastLast
    && p.kind.typeGuid != UNUSED
  }

  /** A tail cut or zero-padded to the room an entry has for it. */
  function TailFor(tails: Tails, uuid: Guid, room: nat): (r: seq<byte>)
    ensures |r| == room
  {
    if uuid !in tails then Zeros(room)
    else if |tails[uuid]| >= room then tails[uuid][..room]
    else tails[uuid] + Zeros(room - |tails[uuid]|)
  }

  /** Each byte of it is the tail's, or zero past its end or without one. */
  lemma {:induction false} TailByte(tails: Tails, uuid: Guid, room: nat, i: nat)
    requires i < room
    ensures TailFor(tails, uuid, room)[i] == if uuid in tails && i < |tails[uuid]| then tails[uuid][i] else 0
  {
  }

  function EntryFor(p: Partition, size: nat, tails: Tails): (r: Image)
    requires p.kind.GptKind? && SectorSpan(p).Some? && p.uuid.Some? && size >= STANDARD_BYTES
    ensures |r| == size
  {
    var span := SectorSpan(p).value;
    EntryImage(p.kind.typeGuid, p.uuid.value, span.first, span.last, p.kind.attributes,
               NameField(Encode(StoredName(p.name))),
               TailFor(tails, p.uuid.value, size - STANDARD_BYTES))
  }

  /** A partition as a reader of a device of this size will report it. */
  function AsRead(p: Partition, slot: u32, deviceSize: u64): Partition {
    Partition(p.start, p.length, p.kind, NonEmpty(CutAtNul(StoredName(p.name))), p.uuid, Some(slot), NO_ISSUES,
              AvailableOnDevice(p.start, p.length, deviceSize))
  }

  /** A written entry reads back as its partition, its tail under its UUID. */
  lemma {:induction false} PartReadBack(p: Partition, usable: Span, size: nat, tails: Tails, slot: u32, deviceSize: u64)
    requires ValidEntry(p, usable) && p.uuid.Some? && size >= STANDARD_BYTES
    ensures var e := EntryFor(p, size, tails);
      && !IsUnused(e) && !IsBad(e) && SpanOf(e) == SectorSpan(p).value
      && PartOf(e, slot, deviceSize) == AsRead(p, slot, deviceSize)
      && Uuid(e) == p.uuid.value && Tail(e) == TailFor(tails, p.uuid.value, size - STANDARD_BYTES)
  {
    var span := SectorSpan(p).value;
    EntryReadBack(p.kind.typeGuid, p.uuid.value, span.first, span.last, p.kind.attributes,
                  NameField(Encode(StoredName(p.name))),
                  TailFor(tails, p.uuid.value, size - STANDARD_BYTES));
    NameReadBack(p.name);
    AlignedSpan(p);
  }

  // ----- the whole array

  /** Partitions and the slots they go to. */
  predicate Placeable(parts: seq<Partition>, slots: seq<nat>, n: nat) {
    && |parts| == |slots|
    && forall j :: 0 <= j < |parts| ==>
         slots[j] < n && parts[j].kind.GptKind? && SectorSpan(parts[j]).Some? && parts[j].uuid.Some?
  }

  /** The entry of each partition. */
  function Images(parts: seq<Partition>, slots: seq<nat>, n: nat, size: nat, tails: Tails): (r: seq<Image>)
    requires Placeable(parts, slots, n) && size >= STANDARD_BYTES
    ensures |r| == |parts| && Uniform(r, size) && forall j :: 0 <= j < |parts| ==>
      r[j] == EntryFor(parts[j], size, tails)
  {
    seq(|parts|, j requires 0 <= j < |parts| => EntryFor(parts[j], size, tails))
  }

  function Blank(n: nat, size: nat): (r: seq<Image>)
    requires size >= STANDARD_BYTES
    ensures |r| == n && Uniform(r, size) && forall i :: 0 <= i < n ==> r[i] == Zeros(size)
  {
    seq(n, _ => Zeros(size))
  }

  /** The entries of the table: each partition's in its slot, and zeros. */
  function NewEntries(parts: seq<Partition>, slots: seq<nat>, n: nat, size: nat, tails: Tails): (r: seq<Image>)
    requires Placeable(parts, slots, n) && size >= STANDARD_BYTES
    ensures |r| == n && Uniform(r, size)
  {
    PlacedUniform(Blank(n, size), slots, Images(parts, slots, n, size, tails), size);
    Placed(Blank(n, size), slots, Images(parts, slots, n, size, tails))
  }

  lemma {:induction false} PlacedUniform(base: seq<Image>, slots: seq<nat>, vals: seq<Image>, size: nat)
    requires |slots| == |vals| && (forall j :: 0 <= j < |slots| ==> slots[j] < |base|) && Uniform(base, size)
    requires Uniform(vals, size)
    ensures Uniform(Placed(base, slots, vals), size)
  {
    if slots != [] { PlacedUniform(base, slots[..|slots| - 1], vals[..|slots| - 1], size); }
  }

  lemma {:induction false} EntryOfPart(parts: seq<Partition>, slots: seq<nat>, n: nat, size: nat, tails: Tails, j: nat)
    requires Placeable(parts, slots, n) && size >= STANDARD_BYTES && j < |parts| && Distinct(slots)
    ensures NewEntries(parts, slots, n, size, tails)[slots[j]] == EntryFor(parts[j], size, tails)
  {
    PlacedAt(Blank(n, size), slots, Images(parts, slots, n, size, tails), j);
  }

  lemma {:induction false} EntryOfNone(parts: seq<Partition>, slots: seq<nat>, n: nat, size: nat, tails: Tails, i: nat)
    requires Placeable(parts, slots, n) && size >= STANDARD_BYTES && i < n && i !in slots
    ensures NewEntries(parts, slots, n, size, tails)[i] == Zeros(size)
  {
    PlacedElse(Blank(n, size), slots, Images(parts, slots, n, size, tails), i);
  }

  method BuildEntry(p: Partition, size: nat, tails: Tails) returns (e: Image)
    requires p.kind.GptKind? && SectorSpan(p).Some? && p.uuid.Some? && size >= STANDARD_BYTES
    ensures e == EntryFor(p, size, tails)
  {
    var units := NameUnits(p.name);
    var span := SectorSpan(p).value;
    e := EntryImage(p.kind.typeGuid, p.uuid.value, span.first, span.last, p.kind.attributes, NameField(units),
                    TailFor(tails, p.uuid.value, size - STANDARD_BYTES));
  }

  lemma {:induction false} ZeroEntries(n: nat, size: nat)
    requires size >= STANDARD_BYTES
    ensures Flatten(Blank(n, size)) == Zeros(Offset(n, size))
  {
    var entries := Blank(n, size);
    UniformOffsets(entries, size);
    if n > 0 {
      ZeroEntries(n - 1, size);
      assert entries[1..] == Blank(n - 1, size);
      assert n * size == size + (n - 1) * size;
      assert Flatten(entries) == Zeros(size) + Zeros(Offset(n - 1, size));
    }
  }

  /** Where entry `i` of this size starts. */
  function Offset(i: nat, size: nat): nat {
    i * size
  }

  /** The array once the first `k` entries are in it. */
  ghost function ArrayWith(base: seq<Image>, slots: seq<nat>, vals: seq<Image>, k: nat): seq<byte>
    requires |slots| == |vals| && (forall j :: 0 <= j < |slots| ==> slots[j] < |base|) && k <= |slots|
  {
    Flatten(Placed(base, slots[..k], vals[..k]))
  }

  lemma {:induction false} StoreNext(base: seq<Image>, slots: seq<nat>, vals: seq<Image>, size: nat, k: nat)
    requires |slots| == |vals| && (forall j :: 0 <= j < |slots| ==> slots[j] < |base|) && k < |slots|
    requires Uniform(base, size) && Uniform(vals, size)
    ensures Offset(slots[k], size) + size <= |ArrayWith(base, slots, vals, k)|
    ensures Put(ArrayWith(base, slots, vals, k), Offset(slots[k], size), vals[k]) == ArrayWith(base, slots, vals, k + 1)
  {
    PlacedUniform(base, slots[..k], vals[..k], size);
    PlacedNext(base, slots, vals, k);
    PutEntryAt(Placed(base, slots[..k], vals[..k]), size, slots[k], vals[k]);
  }

  /** Fill a zeroed array with each partition's entry in its slot. */
  method BuildArray(parts: seq<Partition>, slots: seq<nat>, n: nat, size: nat, tails: Tails) returns (data: seq<byte>)
    requires Placeable(parts, slots, n) && size >= STANDARD_BYTES
    ensures data == Flatten(NewEntries(parts, slots, n, size, tails))
  {
    data := Zeros(Offset(n, size));
    ghost var base, vals := Blank(n, size), Images(parts, slots, n, size, tails);
    ZeroEntries(n, size);
    var k: nat := 0;
    while k < |parts|
      invariant k <= |parts| && data == ArrayWith(base, slots, vals, k)
    {
      var e := BuildEntry(parts[k], size, tails);
      StoreNext(base, slots, vals, size, k);
      data := Put(data, Offset(slots[k], size), e);
      k := k + 1;
    }
    assert vals[..k] == vals && slots[..k] == slots;
  }

  // ----- reading the array back

  /** What each slot of the table holds, as a reader will report it. */
  function SlotTable(parts: seq<Partition>, slots: seq<nat>, n: nat, deviceSize: u64): (r: seq<Option<Partition>>)
    requires |parts| == |slots| && (forall j :: 0 <= j < |slots| ==> slots[j] < n) && n <= MAX_ENTRIES
    ensures |r| == n
  {
    Placed(seq(n, _ => None), slots, Reports(parts, slots, n, deviceSize))
  }

  function Reports(parts: seq<Partition>, slots: seq<nat>, n: nat, deviceSize: u64): (r: seq<Option<Partition>>)
    requires |parts| == |slots| && (forall j :: 0 <= j < |slots| ==> slots[j] < n) && n <= MAX_ENTRIES
    ensures |r| == |parts| && forall j :: 0 <= j < |r| ==> r[j] == Some(AsRead(parts[j], slots[j], deviceSize))
  {
    seq(|parts|, j requires 0 <= j < |parts| => Some(AsRead(parts[j], slots[j], deviceSize)))
  }

  lemma {:induction false} SlotOfPart(parts: seq<Partition>, slots: seq<nat>, n: nat, deviceSize: u64, j: nat)
    requires |parts| == |slots| && (forall j :: 0 <= j < |slots| ==> slots[j] < n) && n <= MAX_ENTRIES
    requires j < |parts| && Distinct(slots)
    ensures SlotTable(parts, slots, n, deviceSize)[slots[j]] == Some(AsRead(parts[j], slots[j], deviceSize))
  {
    PlacedAt(seq(n, _ => None), slots, Reports(parts, slots, n, deviceSize), j);
  }

  lemma {:induction false} SlotOfNone(parts: seq<Partition>, slots: seq<nat>, n: nat, deviceSize: u64, i: nat)
    requires |parts| == |slots| && (forall j :: 0 <= j < |slots| ==> slots[j] < n) && n <= MAX_ENTRIES
    requires i < n && i !in slots
    ensures SlotTable(parts, slots, n, deviceSize)[i] == None
  {
    PlacedElse(seq(n, _ => None), slots, Reports(parts, slots, n, deviceSize), i);
  }

  /** The partitions of a table, in slot order. */
  function Present(table: seq<Option<Partition>>): seq<Partition> {
    if table == [] then []
    else Present(table[..|table| - 1]) + if table[|table| - 1].Some? then [table[|table| - 1].value] else []
  }

  /** An entry holds what a slot of the table says. */
  predicate Shows(e: Image, slot: u32, deviceSize: u64, t: Option<Partition>) {
    !IsBad(e) && t == if IsUnused(e) then None else Some(PartOf(e, slot, deviceSize))
  }

  lemma {:induction false} ListedIsPresent(entries: EntryList, deviceSize: u64, table: seq<Option<Partition>>)
    requires |entries| == |table| && forall i :: 0 <= i < |entries| ==> Shows(entries[i], i, deviceSize, table[i])
    ensures NoneBad(entries) && Listed(entries, deviceSize) == Present(table)
  {
    if entries != [] {
      var k := |entries| - 1;
      ListedIsPresent(entries[..k], deviceSize, table[..k]);
      assert Shows(entries[k], k, deviceSize, table[k]);
    }
  }
}
