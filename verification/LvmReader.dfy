/** Reading a logical volume: run after run, piece after piece, through images and pools. */
module LvmReader {
  import opened GaloisField
  import opened LvmPieces
  import opened LvmReading
  import opened LvmVolumes
  import opened Raid6Recovery
  import opened Wrappers

  /** The end of the last run. */
  function EndOf(runs: seq<Run>): nat {
    if runs == [] then 0 else runs[|runs| - 1].start + runs[|runs| - 1].len
  }

  lemma {:induction false} TilesEnd(runs: seq<Run>, start: nat, end: nat)
    requires Tiles(runs, start, end) && runs != []
    ensures EndOf(runs) == end
  {
    if |runs| > 1 { TilesEnd(runs[1..], start + runs[0].len, end); }
  }

  /** The run that byte `pos` is in. */
  method FindRun(runs: seq<Run>, pos: nat, ghost size: nat) returns (i: nat)
    requires Tiles(runs, 0, size) && pos < size
    ensures i < |runs| && runs[i].start <= pos < runs[i].start + runs[i].len
  {
    ghost var at := TilesCover(runs, 0, size, pos);
    i := 0;
    while i < |runs| && !(runs[i].start <= pos < runs[i].start + runs[i].len)
      invariant i <= at
      decreases |runs| - i
    {
      i := i + 1;
    }
  }

  /** Read `len` bytes of the volume at `offset` into the buffer: exactly the volume's bytes. */
  method ReadRuns(t: Tables, devs: Devices, runs: seq<Run>, decode: NodeDecoder, offset: nat, buf: array<byte>,
                  lo: nat, len: nat,
                  ghost bytes: seq<byte>)
    requires t.Valid() && VolumeHolds(devs, runs, bytes, decode) && offset + len <= |bytes| && lo + len <= buf.Length
    modifies buf
    ensures Filled(buf, lo, len, bytes, offset) && SameOutside(buf, lo, len)
    decreases runs, 2
  {
    var done: nat := 0;
    while done < len
      invariant done <= len && Filled(buf, lo, done, bytes, offset) && SameOutside(buf, lo, done)
    {
      var take := ReadPiece(t, devs, runs, decode, offset + done, len - done, buf, lo + done, bytes);
      done := done + take;
    }
  }

  /** The next bytes of the volume, from the run they are in. */
  method ReadPiece(t: Tables, devs: Devices, runs: seq<Run>, decode: NodeDecoder, pos: nat, left: nat,
                   buf: array<byte>, lo: nat, ghost bytes: seq<byte>)
    returns (take: nat)
    requires t.Valid() && VolumeHolds(devs, runs, bytes, decode) && pos < |bytes| && left > 0 && lo + left <= buf.Length
    modifies buf
    ensures 0 < take <= left && Filled(buf, lo, take, bytes, pos) && SameOutside(buf, lo, take)
    decreases runs, 1
  {
    var i := LocateRun(devs, runs, decode, pos, bytes);
    take := ReadNext(t, devs, runs[i], decode, pos, left, buf, lo, bytes);
  }

  /** The run that byte `pos` is in, and what it holds. */
  method LocateRun(devs: Devices, runs: seq<Run>, decode: NodeDecoder, pos: nat, ghost bytes: seq<byte>)
    returns (i: nat)
    requires VolumeHolds(devs, runs, bytes, decode) && pos < |bytes|
    ensures i < |runs| && RunAt(devs, runs[i], decode, pos, bytes)
  {
    i := FindRun(runs, pos, |bytes|);
  }

  /** Byte `pos` of the volume is in this run, which holds its part of the volume's bytes. */
  ghost predicate RunAt(devs: Devices, r: Run, decode: NodeDecoder, pos: nat, bytes: seq<byte>) {
    && r.start <= pos < r.start + r.len <= |bytes|
    && RunHolds(devs, r, bytes[r.start..r.start + r.len], decode)
  }

  /** The next bytes of the volume, up to the end of a run or sooner. */
  method ReadNext(t: Tables, devs: Devices, r: Run, decode: NodeDecoder, pos: nat, left: nat, buf: array<byte>, lo: nat,
                  ghost bytes: seq<byte>) returns (take: nat)
    requires t.Valid() && RunAt(devs, r, decode, pos, bytes) && lo + left <= buf.Length && left > 0
    modifies buf
    ensures 0 < take <= left && Filled(buf, lo, take, bytes, pos) && SameOutside(buf, lo, take)
    decreases r, 3
  {
    var room := r.start + r.len - pos;
    var want := if room < left then room else left;
    take := ReadRun(t, devs, r, decode, pos - r.start, want, buf, lo, bytes[r.start..r.start + r.len]);
    FilledFromSlice(buf, lo, take, bytes, r.start, r.len, pos);
  }

  lemma {:induction false} FilledFromSlice(buf: array<byte>, lo: nat, take: nat, bytes: seq<byte>, start: nat,
                                           len: nat, pos: nat)
    requires start <= pos && start + len <= |bytes| && Filled(buf, lo, take, bytes[start..start + len], pos - start)
    ensures Filled(buf, lo, take, bytes, pos)
  {
    var slice := bytes[start..start + len];
    forall j | lo <= j < lo + take ensures buf[j] == bytes[pos + (j - lo)] {
      assert slice[pos - start + (j - lo)] == bytes[pos + (j - lo)];
    }
  }

  /** The next piece of a run. */
  method ReadRun(t: Tables, devs: Devices, r: Run, decode: NodeDecoder, within: nat, want: nat, buf: array<byte>,
                 lo: nat, ghost slice: seq<byte>)
    returns (take: nat)
    requires t.Valid() && RunHolds(devs, r, slice, decode)
    requires 0 < want && within + want <= |slice| && lo + want <= buf.Length
    modifies buf
    ensures 0 < take <= want && Filled(buf, lo, take, slice, within) && SameOutside(buf, lo, take)
    decreases r, 2
  {
    match r.mapping
    case Striped(stripeSize, stripes) =>
      take := ReadStripes(devs, stripeSize, stripes, within, want, buf, lo, slice);
    case Raid(_, _, _, _, dataOffset, images) =>
      ghost var truth: Truth :| |truth| == |images| && ImagesHold(r.mapping, truth, slice)
        && forall i :: 0 <= i < |images| && images[i].Image? ==>
             ImageHolds(devs, images[i].runs, dataOffset, truth[i], decode);
      var ms := LoadImages(t, devs, images, dataOffset, decode, truth);
      EnoughByMarks(r.mapping, Marks(images), ms);
      take := ReadRaid(t, r.mapping, ms, within, want, buf, lo, truth, slice);
    case Thin(block, meta, data, root) =>
      ghost var metaBytes: seq<byte>, dataBytes: seq<byte> :|
        && VolumeHolds(devs, meta, metaBytes, decode) && VolumeHolds(devs, data, dataBytes, decode)
        && ThinHolds(block, root, MetadataOf(metaBytes, decode), dataBytes, slice);
      var m := LoadVolume(t, devs, meta, decode, metaBytes);
      var d := LoadVolume(t, devs, data, decode, dataBytes);
      take := ReadThin(block, root, MetadataOf(m, decode), d, within, want, buf, lo, slice);
  }

  /** A whole volume, from which a nested read is answered. */
  method LoadVolume(t: Tables, devs: Devices, runs: seq<Run>, decode: NodeDecoder, ghost bytes: seq<byte>)
    returns (out: seq<byte>)
    requires t.Valid() && VolumeHolds(devs, runs, bytes, decode)
    ensures out == bytes
    decreases runs, 3
  {
    if runs != [] { TilesEnd(runs, 0, |bytes|); }
    var buf := new byte[EndOf(runs)];
    ReadRuns(t, devs, runs, decode, 0, buf, 0, buf.Length, bytes);
    out := buf[..];
  }

  /** The data of every image that is there. */
  method LoadImages(t: Tables, devs: Devices, images: seq<Image>, dataOffset: nat, decode: NodeDecoder,
                    ghost truth: Truth) returns (ms: Members)
    requires t.Valid() && |truth| == |images|
    requires forall i :: 0 <= i < |images| && images[i].Image? ==>
      ImageHolds(devs, images[i].runs, dataOffset, truth[i], decode)
    ensures Agrees(ms, truth) && forall i :: 0 <= i < |images| ==> ms[i].Some? == images[i].Image?
    decreases images, 4
  {
    ms := [];
    var i: nat := 0;
    while i < |images|
      invariant i <= |images| && |ms| == i
      invariant forall k :: 0 <= k < i ==> ms[k].Some? == images[k].Image? && (ms[k].Some? ==> ms[k].value == truth[k])
    {
      if images[i].Image? {
        ghost var bytes: seq<byte> :| VolumeHolds(devs, images[i].runs, bytes,
                                                  decode) && dataOffset <= |bytes| && truth[i] == bytes[dataOffset..];
        var all := LoadVolume(t, devs, images[i].runs, decode, bytes);
        ms := ms + [Some(all[dataOffset..])];
      } else {
        ms := ms + [None];
      }
      i := i + 1;
    }
  }

  /** An opened logical volume: its devices, its runs and its size. */
  datatype LogicalVolume = LogicalVolume(devices: Devices, runs: seq<Run>, size: nat)

  /** Read `buf` at `offset` of the volume: exactly the volume's bytes there. */
  method ReadAt(lv: LogicalVolume, decode: NodeDecoder, offset: nat, buf: array<byte>, ghost bytes: seq<byte>)
    returns (inBounds: bool)
    requires VolumeHolds(lv.devices, lv.runs, bytes, decode) && lv.size == |bytes|
    modifies buf
    ensures inBounds <==> offset + buf.Length <= lv.size
    ensures buf[..] == if inBounds then bytes[offset..offset + buf.Length] else old(buf[..])
  {
    inBounds := offset + buf.Length <= lv.size;
    if inBounds {
      var t := BuildTables();
      ReadRuns(t, lv.devices, lv.runs, decode, offset, buf, 0, buf.Length, bytes);
    }
  }
}
