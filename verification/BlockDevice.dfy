/** A block device: its bytes, read and written in range or not at all. */
module BlockDevice {
  import opened Bytes
  import opened PartitionTable
  import opened Sizes

  class Device {
    var bytes: seq<byte>
    const writable: bool

    ghost predicate Valid()
      reads this
    {
      |bytes| < U64
    }

    method ReadAt(at: nat, len: nat) returns (r: Result<seq<byte>>)
      ensures r == if at + len <= |bytes| then Ok(bytes[at..at + len]) else Err(OutOfBounds)
    {
      r := if at + len <= |bytes| then Ok(bytes[at..at + len]) else Err(OutOfBounds);
    }

    method WriteAt(at: nat, data: seq<byte>) returns (ok: bool)
      requires writable
      modifies this
      ensures ok <==> at + |data| <= |old(bytes)|
      ensures bytes == if ok then Put(old(bytes), at, data) else old(bytes)
    {
      ok := at + |data| <= |bytes|;
      if ok { bytes := Put(bytes, at, data); }
    }
  }
}
