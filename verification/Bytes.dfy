/** Bytes at fixed offsets: little-endian numbers, and fields laid end to end. */
module Bytes {
  import opened PartitionTable

  // ----- little-endian numbers

  function Pow256(w: nat): (r: nat)
    ensures r > 0
  {
    if w == 0 then 1 else 256 * Pow256(w - 1)
  }

  lemma {:induction false} Widths()
    ensures Pow256(2) == 0x1_0000 && Pow256(4) == 0x1_0000_0000 && Pow256(8) == 0x1_0000_0000_0000_0000
  {
    assert Pow256(2) == 256 * Pow256(1);
    assert Pow256(4) == 256 * Pow256(3) && Pow256(3) == 256 * Pow256(2);
    assert Pow256(6) == 256 * Pow256(5) && Pow256(5) == 256 * Pow256(4);
    assert Pow256(8) == 256 * Pow256(7) && Pow256(7) == 256 * Pow256(6);
  }

  /** The low `w` bytes of `n`, least significant first. */
  function ToLE(n: nat, w: nat): (r: seq<byte>)
    ensures |r| == w
    decreases w, n
  {
    if w == 0 then [] else [n % 256] + ToLE(n / 256, w - 1)
  }

  function FromLE(s: seq<byte>): (r: nat)
    ensures r < Pow256(|s|)
  {
    if s == [] then 0 else s[0] + 256 * FromLE(s[1..])
  }

  /** The number at an offset, low byte first, in two, four or eight bytes. */
  function Num2(s: seq<byte>, at: nat): int
    requires at + 2 <= |s|
  {
    var low: int, high: int := s[at], s[at + 1];
    low + 0x100 * high
  }

  function Num4(s: seq<byte>, at: nat): int
    requires at + 4 <= |s|
  {
    Num2(s, at) + 0x1_0000 * Num2(s, at + 2)
  }

  function Num8(s: seq<byte>, at: nat): int
    requires at + 8 <= |s|
  {
    Num4(s, at) + 0x1_0000_0000 * Num4(s, at + 4)
  }

  /** Numbers are read low byte first. */
  lemma {:induction false} NumRead(s: seq<byte>, at: nat, w: nat)
    requires at + w <= |s| && w in {2, 4, 8}
    ensures FromLE(s[at..at + w]) == if w == 2 then Num2(s, at) else if w == 4 then Num4(s, at) else Num8(s, at)
    decreases w
  {
    var t := s[at..at + w];
    TwoBytes(t);
    assert t[0] == s[at] && t[1] == s[at + 1];
    if w == 4 {
      NumRead(s, at + 2, 2);
      assert t[2..] == s[at + 2..at + 4];
    } else if w == 8 {
      TwoBytes(t[2..]);
      NumRead(s, at + 4, 4);
      assert t[2..][0] == s[at + 2] && t[2..][1] == s[at + 3] && t[2..][2..] == s[at + 4..at + 8];
    }
  }

  lemma {:induction false} TwoBytes(t: seq<byte>)
    requires |t| >= 2
    ensures FromLE(t) == t[0] + 0x100 * t[1] + 0x1_0000 * FromLE(t[2..])
  {
    assert FromLE(t[1..]) == t[1] + 256 * FromLE(t[1..][1..]);
    assert t[1..][1..] == t[2..];
  }

  lemma {:induction false} ToFromLE(n: nat, w: nat)
    requires n < Pow256(w)
    ensures FromLE(ToLE(n, w)) == n
    decreases w
  {
    if w > 0 {
      ToFromLE(n / 256, w - 1);
      assert ToLE(n, w)[1..] == ToLE(n / 256, w - 1);
    }
  }

  lemma {:induction false} LowByte(b: byte, high: nat)
    ensures (b + 256 * high) % 256 == b && (b + 256 * high) / 256 == high
  {
  }

  lemma {:induction false} FromToLE(s: seq<byte>)
    ensures ToLE(FromLE(s), |s|) == s
  {
    if s != [] {
      FromToLE(s[1..]);
      LowByte(s[0], FromLE(s[1..]));
      assert s == [s[0]] + s[1..];
    }
  }

  // ----- fields

  function Flatten(fields: seq<seq<byte>>): seq<byte> {
    if fields == [] then [] else fields[0] + Flatten(fields[1..])
  }

  /** Each field starts where the one before it ends. */
  predicate Offsets(fields: seq<seq<byte>>, at: seq<nat>, start: nat) {
    && |at| == |fields| + 1 && at[0] == start
    && forall k :: 0 <= k < |fields| ==> at[k + 1] == at[k] + |fields[k]|
  }

  lemma {:induction false} FlattenLength(fields: seq<seq<byte>>, at: seq<nat>, start: nat)
    requires Offsets(fields, at, start)
    ensures at[|fields|] == start + |Flatten(fields)|
  {
    if fields != [] { FlattenLength(fields[1..], at[1..], at[1]); }
  }

  /** Field `i` is what is at its offset. */
  lemma {:induction false} FieldAt(fields: seq<seq<byte>>, at: seq<nat>, i: nat)
    requires Offsets(fields, at, 0) && i < |fields|
    ensures at[i] <= at[i + 1] <= |Flatten(fields)| && Flatten(fields)[at[i]..at[i + 1]] == fields[i]
  {
    FlattenLength(fields[..i], at[..i + 1], 0);
    FlattenAround(fields, i);
    assert at[i + 1] == at[i] + |fields[i]|;
  }

  // ----- stores into a buffer

  /** `bytes` copied over what was at `at`. */
  function Put(s: seq<byte>, at: nat, bytes: seq<byte>): (r: seq<byte>)
    requires at + |bytes| <= |s|
    ensures |r| == |s|
  {
    s[..at] + bytes + s[at + |bytes|..]
  }

  function Zeros(n: nat): (r: seq<byte>)
    ensures |r| == n && forall i :: 0 <= i < n ==> r[i] == 0
  {
    seq(n, _ => 0)
  }

  lemma {:induction false} PutSlice(s: seq<byte>, at: nat, bytes: seq<byte>)
    requires at + |bytes| <= |s|
    ensures Put(s, at, bytes)[at..at + |bytes|] == bytes
  {
  }

  /** A store leaves what is apart from it alone. */
  lemma {:induction false} PutApart(s: seq<byte>, at: nat, bytes: seq<byte>, lo: nat, hi: nat)
    requires at + |bytes| <= |s| && lo <= hi <= |s| && (hi <= at || at + |bytes| <= lo)
    ensures Put(s, at, bytes)[lo..hi] == s[lo..hi]
  {
  }

  /** A store right after what is filled so far. */
  lemma {:induction false} PutNext(filled: seq<byte>, bytes: seq<byte>, room: nat)
    requires |bytes| <= room
    ensures Put(filled + Zeros(room), |filled|, bytes) == filled + bytes + Zeros(room - |bytes|)
  {
  }

  lemma {:induction false} FlattenAppend(a: seq<seq<byte>>, b: seq<seq<byte>>)
    ensures Flatten(a + b) == Flatten(a) + Flatten(b)
  {
    if a == [] {
      assert a + b == b;
    } else {
      FlattenAppend(a[1..], b);
      assert (a + b)[1..] == a[1..] + b;
      Associative(a[0], Flatten(a[1..]), Flatten(b));
    }
  }

  lemma {:induction false} Associative(a: seq<byte>, b: seq<byte>, c: seq<byte>)
    ensures (a + b) + c == a + (b + c)
  {
  }

  lemma {:induction false} FlattenAround(fields: seq<seq<byte>>, i: nat)
    requires i < |fields|
    ensures Flatten(fields) == Flatten(fields[..i]) + (fields[i] + Flatten(fields[i + 1..]))
  {
    FlattenAppend(fields[..i], fields[i..]);
    assert fields == fields[..i] + fields[i..];
    assert fields[i..][1..] == fields[i + 1..];
  }

  lemma {:induction false} PutMiddle(a: seq<byte>, f: seq<byte>, b: seq<byte>, bytes: seq<byte>)
    requires |bytes| == |f|
    ensures Put(a + (f + b), |a|, bytes) == a + (bytes + b)
  {
  }

  /** Storing over a whole field replaces that field. */
  lemma {:induction false} PutField(fields: seq<seq<byte>>, at: seq<nat>, i: nat, bytes: seq<byte>)
    requires Offsets(fields, at, 0) && i < |fields| && |bytes| == |fields[i]|
    ensures at[i] + |bytes| <= |Flatten(fields)|
    ensures Put(Flatten(fields), at[i], bytes) == Flatten(fields[i := bytes])
  {
    FlattenLength(fields[..i], at[..i + 1], 0);
    FlattenAround(fields, i);
    FlattenAround(fields[i := bytes], i);
    assert fields[i := bytes][..i] == fields[..i] && fields[i := bytes][i + 1..] == fields[i + 1..];
    PutMiddle(Flatten(fields[..i]), fields[i], Flatten(fields[i + 1..]), bytes);
  }

  // ----- arrays of entries of one size

  predicate Uniform(entries: seq<seq<byte>>, size: nat) {
    forall i :: 0 <= i < |entries| ==> |entries[i]| == size
  }

  function Multiples(n: nat, size: nat): (at: seq<nat>)
    ensures |at| == n + 1 && forall k :: 0 <= k <= n ==> at[k] == k * size
  {
    seq(n + 1, k requires 0 <= k => k * size)
  }

  lemma {:induction false} UniformOffsets(entries: seq<seq<byte>>, size: nat)
    requires Uniform(entries, size)
    ensures Offsets(entries, Multiples(|entries|, size), 0)
    ensures |Flatten(entries)| == |entries| * size
  {
    var at := Multiples(|entries|, size);
    forall k | 0 <= k < |entries| ensures at[k + 1] == at[k] + |entries[k]| {
      assert (k + 1) * size == k * size + size;
    }
    FlattenLength(entries, at, 0);
  }

  lemma {:induction false} EntryAtMultiple(entries: seq<seq<byte>>, size: nat, i: nat)
    requires Uniform(entries, size) && i < |entries|
    ensures i * size <= (i + 1) * size <= |Flatten(entries)| && Flatten(entries)[i * size..(i + 1) * size] == entries[i]
  {
    UniformOffsets(entries, size);
    FieldAt(entries, Multiples(|entries|, size), i);
  }

  lemma {:induction false} PutEntryAt(entries: seq<seq<byte>>, size: nat, i: nat, bytes: seq<byte>)
    requires Uniform(entries, size) && i < |entries| && |bytes| == size
    ensures i * size + size <= |Flatten(entries)|
    ensures Put(Flatten(entries), i * size, bytes) == Flatten(entries[i := bytes])
  {
    UniformOffsets(entries, size);
    PutField(entries, Multiples(|entries|, size), i, bytes);
  }
}
