/** GPT partition entries: how one is laid out, and how an array of them is read. */
module GptEntries {
  import opened Arithmetic
  import opened Bytes
  import opened PartitionTable
  import opened Sizes
  import opened Spans
  import opened Utf16
  import opened Wrappers

  const STANDARD_BYTES: nat := 128
  const UNUSED: Guid := Zeros(16)

  /** The bytes of one entry: the standard part and whatever the table's entry size adds. */
  type Image = e: seq<byte> | |e| >= 128 witness Zeros(128)

  // ----- one entry

  function EntryFields(typeGuid: Guid, uuid: Guid, first: u64, last: u64, attributes: u64, name: seq<byte>,
                       tail: seq<byte>): seq<seq<byte>> {
    [typeGuid, uuid, ToLE(first, 8), ToLE(last, 8), ToLE(attributes, 8), name, tail]
  }

  function EntryImage(typeGuid: Guid, uuid: Guid, first: u64, last: u64, attributes: u64, name: seq<byte>,
                      tail: seq<byte>): (r: Image)
    requires |name| == NAME_BYTES
    ensures |r| == STANDARD_BYTES + |tail|
  {
    var fields := EntryFields(typeGuid, uuid, first, last, attributes, name, tail);
    EntryOffsets(typeGuid, uuid, first, last, attributes, name, tail);
    FlattenLength(fields, [0, 16, 32, 40, 48, 56, 128, 128 + |tail|], 0);
    Flatten(fields)
  }

  lemma {:induction false} EntryOffsets(typeGuid: Guid, uuid: Guid, first: u64, last: u64, attributes: u64,
                                        name: seq<byte>, tail: seq<byte>)
    requires |name| == NAME_BYTES
    ensures Offsets(EntryFields(typeGuid, uuid, first, last, attributes, name, tail),
                    [0, 16, 32, 40, 48, 56, 128, 128 + |tail|], 0)
  {
  }

  function TypeGuid(e: Image): Guid { e[..16] }
  function Uuid(e: Image): Guid { e[16..32] }
  function FirstLba(e: Image): u64 { Widths(); FromLE(e[32..40]) }
  function LastLba(e: Image): u64 { Widths(); FromLE(e[40..48]) }
  function Attributes(e: Image): u64 { Widths(); FromLE(e[48..56]) }
  function Name(e: Image): Option<string> { ReadName(e[56..128]) }
  function Tail(e: Image): seq<byte> { e[128..] }

  lemma {:induction false} EntrySlice(typeGuid: Guid, uuid: Guid, first: u64, last: u64, attributes: u64,
                                      name: seq<byte>, tail: seq<byte>, i: nat)
    requires |name| == NAME_BYTES && i < 7
    ensures var at := [0, 16, 32, 40, 48, 56, 128, 128 + |tail|];
      EntryImage(typeGuid, uuid, first, last, attributes, name, tail)[at[i]..at[i + 1]]
      == EntryFields(typeGuid, uuid, first, last, attributes, name, tail)[i]
  {
    EntryOffsets(typeGuid, uuid, first, last, attributes, name, tail);
    FieldAt(EntryFields(typeGuid, uuid, first, last, attributes, name, tail),
            [0, 16, 32, 40, 48, 56, 128, 128 + |tail|], i);
  }

  /** Every field of a stored entry reads back. */
  lemma {:induction false} EntryReadBack(typeGuid: Guid, uuid: Guid, first: u64, last: u64, attributes: u64,
                                         name: seq<byte>, tail: seq<byte>)
    requires |name| == NAME_BYTES
    ensures var e := EntryImage(typeGuid, uuid, first, last, attributes, name, tail);
      && TypeGuid(e) == typeGuid && Uuid(e) == uuid
      && FirstLba(e) == first && LastLba(e) == last && Attributes(e) == attributes
      && e[56..128] == name && Tail(e) == tail
  {
    Widths();
    ToFromLE(first, 8);
    ToFromLE(last, 8);
    ToFromLE(attributes, 8);
    EntrySlice(typeGuid, uuid, first, last, attributes, name, tail, 0);
    EntrySlice(typeGuid, uuid, first, last, attributes, name, tail, 1);
    EntrySlice(typeGuid, uuid, first, last, attributes, name, tail, 2);
    EntrySlice(typeGuid, uuid, first, last, attributes, name, tail, 3);
    EntrySlice(typeGuid, uuid, first, last, attributes, name, tail, 4);
    EntrySlice(typeGuid, uuid, first, last, attributes, name, tail, 5);
    EntrySlice(typeGuid, uuid, first, last, attributes, name, tail, 6);
  }

  // ----- reading an array

  predicate IsUnused(e: Image) {
    TypeGuid(e) == UNUSED
  }

  /** An entry whose range runs backwards or does not fit a 64-bit byte range. */
  predicate IsBad(e: Image) {
    && !IsUnused(e)
    && (LastLba(e) < FirstLba(e) || FirstLba(e) * SECTOR >= U64 || (LastLba(e) - FirstLba(e) + 1) * SECTOR >= U64)
  }

  function SpanOf(e: Image): Span {
    Span(FirstLba(e), LastLba(e))
  }

  /** The partition an entry describes, before the table's rules are applied. */
  function PartOf(e: Image, slot: u32, deviceSize: u64): Partition
    requires !IsUnused(e) && !IsBad(e)
  {
    var start, length := FirstLba(e) * SECTOR, (LastLba(e) - FirstLba(e) + 1) * SECTOR;
    Partition(start, length, GptKind(TypeGuid(e), Attributes(e)), Name(e), Some(Uuid(e)), Some(slot), NO_ISSUES,
              AvailableOnDevice(start, length, deviceSize))
  }

  predicate NoneBad(entries: seq<Image>) {
    forall i :: 0 <= i < |entries| ==> !IsBad(entries[i])
  }

  type EntryList = s: seq<Image> | |s| <= 0x1_0000

  function Listed(entries: EntryList, deviceSize: u64): (r: seq<Partition>)
    requires NoneBad(entries)
  {
    if entries == [] then []
    else
      var k := |entries| - 1;
      Listed(entries[..k], deviceSize) + if IsUnused(entries[k]) then [] else [PartOf(entries[k], k, deviceSize)]
  }

  function ListedSpans(entries: seq<Image>): seq<Span> {
    if entries == [] then []
    else
      var k := |entries| - 1;
      ListedSpans(entries[..k]) + if IsUnused(entries[k]) then [] else [SpanOf(entries[k])]
  }

  lemma {:induction false} ListedTogether(entries: EntryList, deviceSize: u64)
    requires NoneBad(entries)
    ensures |Listed(entries, deviceSize)| == |ListedSpans(entries)|
    ensures AllForward(ListedSpans(entries))
  {
    if entries != [] { ListedTogether(entries[..|entries| - 1], deviceSize); }
  }

  /** The rules each listed partition breaks: the usable range's, and overlapping another. */
  function WithIssues(parts: seq<Partition>, spans: seq<Span>, usable: Span): (r: seq<Partition>)
    requires |parts| == |spans|
    ensures |r| == |parts|
    ensures forall i :: 0 <= i < |r| ==>
      r[i] == parts[i].(issues := RangeIssues(spans[i], usable).(overlaps := OverlapsAnother(spans, i)))
  {
    seq(|parts|, i requires 0 <= i < |parts| =>
      parts[i].(issues := RangeIssues(spans[i], usable).(overlaps := OverlapsAnother(spans, i))))
  }

  /** The entries of an array. */
  function Cut(data: seq<byte>, n: nat, size: nat): (r: seq<Image>)
    requires |data| == n * size && size >= STANDARD_BYTES
    ensures |r| == n && forall i: nat :: i < n ==> r[i] == CutOne(data, n, size, i)
  {
    seq(n, i requires 0 <= i < n => CutOne(data, n, size, i))
  }

  function CutOne(data: seq<byte>, n: nat, size: nat, i: nat): (r: Image)
    requires |data| == n * size && size >= STANDARD_BYTES && i < n
    ensures |r| == size
  {
    SliceBounds(n, size, i);
    data[i * size..(i + 1) * size]
  }

  lemma {:induction false} SliceBounds(n: nat, size: nat, i: nat)
    requires i < n
    ensures 0 <= i * size && (i + 1) * size == i * size + size && (i + 1) * size <= n * size
  {
    MulMonotone(i + 1, n, size);
  }

  /** An array of whole entries cuts back into them. */
  lemma {:induction false} CutFlatten(entries: seq<Image>, size: nat)
    requires size >= STANDARD_BYTES && Uniform(entries, size)
    ensures |Flatten(entries)| == |entries| * size
    ensures Cut(Flatten(entries), |entries|, size) == entries
  {
    UniformOffsets(entries, size);
    var data, n := Flatten(entries), |entries|;
    forall i: nat | i < n ensures CutOne(data, n, size, i) == entries[i] {
      EntryAtMultiple(entries, size, i);
    }
  }

  lemma {:induction false} ListedNext(entries: EntryList, deviceSize: u64, i: nat)
    requires i < |entries| && NoneBad(entries[..i])
    ensures NoneBad(entries[..i + 1]) <==> !IsBad(entries[i])
    ensures !IsBad(entries[i]) ==>
      Listed(entries[..i + 1], deviceSize)
      == Listed(entries[..i], deviceSize) + if IsUnused(entries[i]) then [] else [PartOf(entries[i], i, deviceSize)]
    ensures ListedSpans(entries[..i + 1])
      == ListedSpans(entries[..i]) + if IsUnused(entries[i]) then [] else [SpanOf(entries[i])]
  {
    var next := entries[..i + 1];
    assert next[..i] == entries[..i] && next[i] == entries[i] && |next| == i + 1;
    assert forall k :: 0 <= k < i ==> next[k] == entries[..i][k];
  }

  /** The entries one by one: the partitions and their spans, or an error. */
  method ScanEntries(entries: EntryList, deviceSize: u64) returns (ok: bool, parts: seq<Partition>, spans: seq<Span>)
    ensures ok <==> NoneBad(entries)
    ensures ok ==> parts == Listed(entries, deviceSize) && spans == ListedSpans(entries)
  {
    parts, spans, ok := [], [], true;
    var i: nat := 0;
    while i < |entries|
      invariant i <= |entries| && ok && NoneBad(entries[..i])
      invariant parts == Listed(entries[..i], deviceSize) && spans == ListedSpans(entries[..i])
    {
      var e := entries[i];
      ListedNext(entries, deviceSize, i);
      if !IsUnused(e) {
        if IsBad(e) { return false, parts, spans; }
        parts := parts + [PartOf(e, i, deviceSize)];
        spans := spans + [SpanOf(e)];
      }
      i := i + 1;
    }
    assert entries[..i] == entries;
  }

  /** The partitions the entries describe, each with the rules it breaks. */
  method ParseEntries(entries: EntryList, usable: Span, deviceSize: u64) returns (r: Result<seq<Partition>>)
    ensures r == EntriesRead(entries, usable, deviceSize)
  {
    var ok, parts, spans := ScanEntries(entries, deviceSize);
    if !ok { return Err(Corrupt); }
    ListedTogether(entries, deviceSize);
    var flags := MarkOverlaps(spans);
    r := Ok(seq(|parts|, i requires 0 <= i < |parts| => parts[i].(issues := RangeIssues(spans[i],
        usable).(overlaps := flags[i]))));
    assert r.value == WithIssues(parts, spans, usable);
  }

  /** What reading these entries gives. */
  function EntriesRead(entries: EntryList, usable: Span, deviceSize: u64): Result<seq<Partition>> {
    if !NoneBad(entries) then Err(Corrupt)
    else
      ListedTogether(entries, deviceSize);
      Ok(WithIssues(Listed(entries, deviceSize), ListedSpans(entries), usable))
  }
}
