/** The GPT header: its layout, its checksum, and reading it. */
module GptHeader {
  import opened Bytes
  import opened GptGeometry
  import opened PartitionTable
  import opened Sizes

  const SIGNATURE: seq<byte> := [0x45, 0x46, 0x49, 0x20, 0x50, 0x41, 0x52, 0x54]
  const REVISION: nat := 0x0001_0000
  const HEADER_SIZE: nat := 92

  /** A checksum of bytes. */
  type Crc = seq<byte> -> u32

  datatype Header = Header(myLba: u64, alternateLba: u64, firstUsable: u64, lastUsable: u64, diskGuid: Guid,
                           entryLba: u64,
                           numEntries: u32, entrySize: u32, entriesCrc: u32)

  // ----- writing

  /** The fourteen fields, the header's own checksum being `crcField`. */
  function HeaderFields(h: Header, crcField: seq<byte>): seq<seq<byte>> {
    [SIGNATURE, ToLE(REVISION, 4), ToLE(HEADER_SIZE, 4), crcField, Zeros(4), ToLE(h.myLba, 8), ToLE(h.alternateLba, 8),
     ToLE(h.firstUsable, 8), ToLE(h.lastUsable, 8), h.diskGuid, ToLE(h.entryLba, 8), ToLE(h.numEntries,
         4), ToLE(h.entrySize, 4),
     ToLE(h.entriesCrc, 4)]
  }

  const OFFSETS: seq<nat> := [0, 8, 12, 16, 20, 24, 32, 40, 48, 56, 72, 80, 84, 88, 92]

  lemma {:induction false} HeaderOffsets(h: Header, crcField: seq<byte>)
    requires |crcField| == 4
    ensures Offsets(HeaderFields(h, crcField), OFFSETS, 0) && |Flatten(HeaderFields(h, crcField))| == HEADER_SIZE
  {
    FlattenLength(HeaderFields(h, crcField), OFFSETS, 0);
  }

  /** The checksum is taken with its own four bytes zero. */
  function HeaderCrc32(h: Header, crc: Crc): u32 {
    crc(Flatten(HeaderFields(h, Zeros(4))))
  }

  /** The header's sector. */
  function HeaderSector(h: Header, crc: Crc): (r: seq<byte>)
    ensures |r| == SECTOR
  {
    HeaderOffsets(h, ToLE(HeaderCrc32(h, crc), 4));
    Flatten(HeaderFields(h, ToLE(HeaderCrc32(h, crc), 4))) + Zeros(SECTOR - HEADER_SIZE)
  }

  /** Fill a zeroed sector field by field. */
  method StoreFields(fields: seq<seq<byte>>, at: seq<nat>) returns (sector: seq<byte>)
    requires Offsets(fields, at, 0) && |Flatten(fields)| <= SECTOR
    ensures sector == Flatten(fields) + Zeros(SECTOR - |Flatten(fields)|)
  {
    sector := Zeros(SECTOR);
    var i: nat := 0;
    while i < |fields|
      invariant i <= |fields| && at[i] == |Flatten(fields[..i])| <= SECTOR
      invariant sector == Flatten(fields[..i]) + Zeros(SECTOR - at[i])
    {
      StoreNext(fields, at, i);
      sector := Put(sector, at[i], fields[i]);
      i := i + 1;
    }
    assert fields[..i] == fields;
  }

  lemma {:induction false} StoreNext(fields: seq<seq<byte>>, at: seq<nat>, i: nat)
    requires Offsets(fields, at, 0) && i < |fields| && at[i] == |Flatten(fields[..i])| && |Flatten(fields)| <= SECTOR
    ensures at[i + 1] == |Flatten(fields[..i + 1])| <= SECTOR
    ensures Put(Flatten(fields[..i]) + Zeros(SECTOR - at[i]), at[i], fields[i])
      == Flatten(fields[..i + 1]) + Zeros(SECTOR - at[i + 1])
  {
    FieldAt(fields, at, i);
    assert fields[..i + 1] == fields[..i] + [fields[i]];
    FlattenAppend(fields[..i], [fields[i]]);
    assert Flatten([fields[i]]) == fields[i] + Flatten([]) == fields[i];
    PutNext(Flatten(fields[..i]), fields[i], SECTOR - at[i]);
  }

  /** The header's sector, its checksum stored last. */
  method BuildHeader(h: Header, crc: Crc) returns (sector: seq<byte>)
    ensures sector == HeaderSector(h, crc)
  {
    var fields := HeaderFields(h, Zeros(4));
    HeaderOffsets(h, Zeros(4));
    sector := StoreFields(fields, OFFSETS);
    var check := crc(sector[..HEADER_SIZE]);
    assert sector[..HEADER_SIZE] == Flatten(fields);
    PutField(fields, OFFSETS, 3, ToLE(check, 4));
    PutBefore(Flatten(fields), Zeros(SECTOR - HEADER_SIZE), 16, ToLE(check, 4));
    sector := Put(sector, 16, ToLE(check, 4));
    assert fields[3 := ToLE(check, 4)] == HeaderFields(h, ToLE(check, 4));
  }

  lemma {:induction false} PutBefore(a: seq<byte>, b: seq<byte>, at: nat, bytes: seq<byte>)
    requires at + |bytes| <= |a|
    ensures Put(a + b, at, bytes) == Put(a, at, bytes) + b
  {
  }

  // ----- reading

  predicate EntrySizeOk(size: int) {
    ENTRY_SIZE <= size <= MAX_ENTRY_SIZE && size % ENTRY_SIZE == 0 && IsPowerOfTwo(size / ENTRY_SIZE)
  }

  function Field(sector: seq<byte>, at: nat, w: nat): (r: nat)
    requires at + w <= |sector|
    ensures r < Pow256(w)
  {
    FromLE(sector[at..at + w])
  }

  /** The header a sector holds. */
  function ParseHeader(sector: seq<byte>, crc: Crc): Result<Header> {
    Widths();
    if |sector| < SECTOR || sector[..8] != SIGNATURE then Err(Corrupt)
    else
      var size := Field(sector, 12, 4);
      if !(HEADER_SIZE <= size <= |sector|) then Err(Corrupt)
      else if crc(Put(sector[..size], 16, Zeros(4))) != Field(sector, 16, 4) then Err(HeaderCrc)
      else if Field(sector, 8, 4) / 0x1_0000 != 1 then Err(Corrupt)
      else
        var h := Header(Field(sector, 24, 8), Field(sector, 32, 8), Field(sector, 40, 8), Field(sector, 48, 8),
                        sector[56..72],
                        Field(sector, 72, 8), Field(sector, 80, 4), Field(sector, 84, 4), Field(sector, 88, 4));
        if !EntrySizeOk(h.entrySize) || h.numEntries > MAX_ENTRIES then Err(Corrupt) else Ok(h)
  }

  lemma {:induction false} HeaderSlice(h: Header, crc: Crc, i: nat)
    requires i < 14
    ensures HeaderSector(h, crc)[OFFSETS[i]..OFFSETS[i + 1]] == HeaderFields(h, ToLE(HeaderCrc32(h, crc), 4))[i]
  {
    var fields := HeaderFields(h, ToLE(HeaderCrc32(h, crc), 4));
    HeaderOffsets(h, ToLE(HeaderCrc32(h, crc), 4));
    FieldAt(fields, OFFSETS, i);
  }

  /** The checksum found is the checksum stored. */
  lemma {:induction false} HeaderChecks(h: Header, crc: Crc)
    ensures crc(Put(HeaderSector(h, crc)[..HEADER_SIZE], 16, Zeros(4))) == HeaderCrc32(h, crc)
  {
    var check := ToLE(HeaderCrc32(h, crc), 4);
    var fields := HeaderFields(h, check);
    HeaderOffsets(h, check);
    assert HeaderSector(h, crc)[..HEADER_SIZE] == Flatten(fields);
    PutField(fields, OFFSETS, 3, Zeros(4));
    assert fields[3 := Zeros(4)] == HeaderFields(h, Zeros(4));
  }

  lemma {:induction false} HeaderNumber(h: Header, crc: Crc, i: nat, n: nat, w: nat)
    requires i < 14 && OFFSETS[i] + w == OFFSETS[i + 1] && n < Pow256(w)
    requires HeaderFields(h, ToLE(HeaderCrc32(h, crc), 4))[i] == ToLE(n, w)
    ensures Field(HeaderSector(h, crc), OFFSETS[i], w) == n
  {
    HeaderSlice(h, crc, i);
    ToFromLE(n, w);
  }

  lemma {:induction false} HeaderPlaces(h: Header, crc: Crc)
    ensures var s := HeaderSector(h, crc);
      && Field(s, 24, 8) == h.myLba && Field(s, 32, 8) == h.alternateLba
      && Field(s, 40, 8) == h.firstUsable && Field(s, 48, 8) == h.lastUsable && Field(s, 72, 8) == h.entryLba
  {
    Widths();
    HeaderNumber(h, crc, 5, h.myLba, 8);
    HeaderNumber(h, crc, 6, h.alternateLba, 8);
    HeaderNumber(h, crc, 7, h.firstUsable, 8);
    HeaderNumber(h, crc, 8, h.lastUsable, 8);
    HeaderNumber(h, crc, 10, h.entryLba, 8);
  }

  lemma {:induction false} HeaderCounts(h: Header, crc: Crc)
    ensures var s := HeaderSector(h, crc);
      && Field(s, 8, 4) == REVISION && Field(s, 12, 4) == HEADER_SIZE && Field(s, 16, 4) == HeaderCrc32(h, crc)
      && Field(s, 80, 4) == h.numEntries && Field(s, 84, 4) == h.entrySize && Field(s, 88, 4) == h.entriesCrc
  {
    Widths();
    HeaderNumber(h, crc, 1, REVISION, 4);
    HeaderNumber(h, crc, 2, HEADER_SIZE, 4);
    HeaderNumber(h, crc, 3, HeaderCrc32(h, crc), 4);
    HeaderNumber(h, crc, 11, h.numEntries, 4);
    HeaderNumber(h, crc, 12, h.entrySize, 4);
    HeaderNumber(h, crc, 13, h.entriesCrc, 4);
  }

  /** A written header parses to what was written, for every checksum function. */
  lemma {:induction false} HeaderReadBack(h: Header, crc: Crc)
    requires EntrySizeOk(h.entrySize) && h.numEntries <= MAX_ENTRIES
    ensures ParseHeader(HeaderSector(h, crc), crc) == Ok(h)
  {
    HeaderSlice(h, crc, 0);
    HeaderSlice(h, crc, 9);
    HeaderPlaces(h, crc);
    HeaderCounts(h, crc);
    HeaderChecks(h, crc);
  }
}
