/** RAID4 and RAID5: a missing chunk is the exclusive or of the rest of its row. */
module Raid5Recovery {
  import opened GaloisField
  import opened ParityLayout
  import opened Raid6Recovery
  import opened Wrappers

  // ----- sums over sets of members

  /** The sum of the bytes of `col` at the positions in `s`. */
  ghost function SumOver(col: seq<byte>, s: set<nat>): byte
    requires forall m :: m in s ==> m < |col|
    decreases |s|
  {
    if s == {} then 0
    else
      var m :| m in s;
      Add(SumOver(col, s - {m}), col[m])
  }

  lemma {:induction false} SumOverTake(col: seq<byte>, s: set<nat>, x: nat)
    requires forall m :: m in s ==> m < |col|
    requires x in s
    ensures SumOver(col, s) == Add(SumOver(col, s - {x}), col[x])
    decreases |s|
  {
    var m :| m in s && SumOver(col, s) == Add(SumOver(col, s - {m}), col[m]);
    if m != x {
      SumOverTake(col, s - {m}, x);
      SumOverTake(col, s - {x}, m);
      assert s - {m} - {x} == s - {x} - {m};
      var rest := SumOver(col, s - {m} - {x});
      AddAssoc(rest, col[x], col[m]);
      AddComm(col[x], col[m]);
      AddAssoc(rest, col[m], col[x]);
    }
  }

  ghost function FirstSlots(n: nat): (r: set<nat>)
    ensures forall s: nat :: s in r <==> s < n
  {
    if n == 0 then {} else FirstSlots(n - 1) + {n - 1}
  }

  lemma {:induction false} SumOverFirst(col: seq<byte>, n: nat)
    requires n <= |col|
    ensures SumOver(col, FirstSlots(n)) == SumTo(col, n)
  {
    if n > 0 {
      SumOverFirst(col, n - 1);
      SumOverTake(col, FirstSlots(n), n - 1);
      assert FirstSlots(n) - {n - 1} == FirstSlots(n - 1);
    } else {
      assert FirstSlots(0) == {};
    }
  }

  ghost function Slots(data: seq<nat>, k: nat): set<nat>
    requires k <= |data|
  {
    set i | 0 <= i < k :: data[i]
  }

  /** A row's sum, member by member, whatever the order of the members. */
  lemma {:induction false} SumOverRow(col: seq<byte>, data: seq<nat>, row: seq<byte>, k: nat)
    requires k <= |data| == |row|
    requires forall i :: 0 <= i < |data| ==> data[i] < |col| && row[i] == col[data[i]]
    requires forall i, j :: 0 <= i < j < |data| ==> data[i] != data[j]
    ensures SumOver(col, Slots(data, k)) == SumTo(row, k)
  {
    if k > 0 {
      SumOverRow(col, data, row, k - 1);
      assert data[k - 1] in Slots(data, k);
      SumOverTake(col, Slots(data, k), data[k - 1]);
      assert Slots(data, k) - {data[k - 1]} == Slots(data, k - 1);
    } else {
      assert Slots(data, 0) == {};
    }
  }

  // ----- rows

  /** A RAID5 row: the members of its data chunks, and P. */
  datatype Row5 = Row5(data: seq<nat>, p: nat)

  function RowOf5(layout: nat, n: nat, stripe: nat): (r: Row5)
    requires n >= 2
    ensures |r.data| == n - 1
  {
    Row5(seq(n - 1, i requires 0 <= i < n - 1 => Raid5Map(layout, n, stripe, i).data), Raid5P(layout, n, stripe))
  }

  /** The row's members are all `n` of them, each once. */
  ghost predicate RowIs5(r: Row5, n: nat) {
    && r.p < n
    && (forall i :: 0 <= i < |r.data| ==> r.data[i] < n && r.data[i] != r.p)
    && (forall i, j :: 0 <= i < j < |r.data| ==> r.data[i] != r.data[j])
    && (forall m: nat :: m < n && m != r.p ==> m in r.data)
  }

  lemma {:induction false} RowOf5Is(layout: nat, n: nat, stripe: nat)
    requires n >= 2
    ensures RowIs5(RowOf5(layout, n, stripe), n)
  {
    var r := RowOf5(layout, n, stripe);
    Raid5ChunkOfMember(layout, n, stripe, 0);
    forall i | 0 <= i < n - 1
      ensures r.data[i] < n && r.data[i] != r.p && Raid5Chunk(layout, n, stripe, r.data[i]) == i
    {
      Raid5ChunkOfMember(layout, n, stripe, i);
    }
    forall m: nat | m < n && m != r.p
      ensures m in r.data
    {
      Raid5MemberOfChunk(layout, n, stripe, m);
      assert r.data[Raid5Chunk(layout, n, stripe, m)] == m;
    }
  }

  /** Byte `o` of every member. */
  ghost function Bytes(truth: Truth, o: int): (col: seq<byte>)
    requires 0 <= o && Deep(truth, o + 1)
    ensures |col| == |truth| && forall s :: 0 <= s < |truth| ==> col[s] == truth[s][o]
  {
    seq(|truth|, s requires 0 <= s < |truth| => truth[s][o])
  }

  /** Byte `o` of every data chunk of the row. */
  ghost function DataBytes(r: Row5, truth: Truth, o: int): (row: seq<byte>)
    requires 0 <= o && Deep(truth, o + 1) && RowIs5(r, |truth|)
    ensures |row| == |r.data| && forall i :: 0 <= i < |row| ==> row[i] == truth[r.data[i]][o]
  {
    seq(|r.data|, i requires 0 <= i < |r.data| => truth[r.data[i]][o])
  }

  /** At byte `o`, P is the exclusive or of the data. */
  ghost predicate RowConsistent5(r: Row5, truth: Truth, o: int) {
    && RowIs5(r, |truth|) && 0 <= o && Deep(truth, o + 1)
    && truth[r.p][o] == SumTo(DataBytes(r, truth, o), |r.data|)
  }

  /** A consistent row adds up to nothing. */
  lemma {:induction false} RowAddsUp(r: Row5, truth: Truth, o: int)
    requires RowConsistent5(r, truth, o)
    ensures SumTo(Bytes(truth, o), |truth|) == 0
  {
    var (col, row) := (Bytes(truth, o), DataBytes(r, truth, o));
    SumOverFirst(col, |truth|);
    SumOverTake(col, FirstSlots(|truth|), r.p);
    SumOverRow(col, r.data, row, |r.data|);
    assert FirstSlots(|truth|) - {r.p} == Slots(r.data, |r.data|) by {
      forall m: nat
        ensures m in FirstSlots(|truth|) - {r.p} <==> m in Slots(r.data, |r.data|)
      {
        if m < |truth| && m != r.p {
          assert m in r.data;
        }
      }
    }
    AddUnit(col[r.p]);
  }

  // ----- rebuilding

  /** The exclusive or of byte `o` of the first `k` members but `skip`. */
  function OthersSum(ms: Members, o: int, skip: nat, k: nat): byte {
    if k == 0 then 0
    else if k - 1 == skip then OthersSum(ms, o, skip, k - 1)
    else Add(OthersSum(ms, o, skip, k - 1), Visible(ms, k - 1, o))
  }

  ghost predicate OthersPresent(ms: Members, skip: nat) {
    forall s :: 0 <= s < |ms| && s != skip ==> ms[s].Some?
  }

  lemma {:induction false} OthersAreRest(ms: Members, truth: Truth, o: int, skip: nat, k: nat)
    requires Agrees(ms, truth) && OthersPresent(ms, skip) && 0 <= o && Deep(truth, o + 1) && skip < k <= |ms|
    ensures Add(OthersSum(ms, o, skip, k), truth[skip][o]) == SumTo(Bytes(truth, o), k)
  {
    var col := Bytes(truth, o);
    if k - 1 == skip {
      BeforeSkip(ms, truth, o, skip, skip);
    } else {
      OthersAreRest(ms, truth, o, skip, k - 1);
      var before := OthersSum(ms, o, skip, k - 1);
      AddAssoc(before, col[k - 1], col[skip]);
      AddComm(col[k - 1], col[skip]);
      AddAssoc(before, col[skip], col[k - 1]);
    }
  }

  lemma {:induction false} BeforeSkip(ms: Members, truth: Truth, o: int, skip: nat, k: nat)
    requires Agrees(ms, truth) && OthersPresent(ms, skip) && 0 <= o && Deep(truth, o + 1) && k <= skip < |ms|
    ensures OthersSum(ms, o, skip, k) == SumTo(Bytes(truth, o), k)
  {
    if k > 0 { BeforeSkip(ms, truth, o, skip, k - 1); }
  }

  /** A byte rebuilt from the rest of the row is the byte that was lost. */
  lemma {:induction false} OthersSumExact(r: Row5, ms: Members, truth: Truth, skip: nat, o: int)
    requires Agrees(ms, truth) && RowConsistent5(r, truth, o) && skip < |ms| && OthersPresent(ms, skip)
    ensures OthersSum(ms, o, skip, |ms|) == truth[skip][o]
  {
    RowAddsUp(r, truth, o);
    OthersAreRest(ms, truth, o, skip, |ms|);
    AddIsZero(OthersSum(ms, o, skip, |ms|), truth[skip][o]);
  }

  /** Add a member's bytes into `lo..` of the buffer. */
  method XorInto(buf: array<byte>, lo: nat, tmp: array<byte>)
    requires buf != tmp && lo + tmp.Length <= buf.Length
    modifies buf
    ensures forall j :: lo <= j < lo + tmp.Length ==> buf[j] == Add(old(buf[j]), tmp[j - lo])
    ensures SameOutside(buf, lo, tmp.Length)
  {
    var k := 0;
    while k < tmp.Length
      invariant 0 <= k <= tmp.Length
      invariant forall j :: lo <= j < lo + k ==> buf[j] == Add(old(buf[j]), tmp[j - lo])
      invariant forall j :: lo + k <= j < lo + tmp.Length ==> buf[j] == old(buf[j])
      invariant SameOutside(buf, lo, tmp.Length)
    {
      buf[lo + k] := Add(buf[lo + k], tmp[k]);
      k := k + 1;
    }
  }

  /** Rebuild the bytes of missing member `dd` from every other member, in place. */
  method RebuildRaid5(ms: Members, dd: nat, off: nat, buf: array<byte>, lo: nat, len: nat) returns (ok: bool)
    requires dd < |ms| && ms[dd].None? && lo + len <= buf.Length
    modifies buf
    ensures ok <==> AllReach(ms, off + len) && OthersPresent(ms, dd)
    ensures ok ==> forall j :: lo <= j < lo + len ==> buf[j] == OthersSum(ms, off + (j - lo), dd, |ms|)
    ensures SameOutside(buf, lo, len)
  {
    forall j | lo <= j < lo + len {
      buf[j] := 0;
    }
    var tmp := new byte[len];
    var slot := 0;
    while slot < |ms|
      invariant 0 <= slot <= |ms| && fresh(tmp) && tmp.Length == len
      invariant forall s :: 0 <= s < slot && s != dd ==> ms[s].Some? && off + len <= |ms[s].value|
      invariant forall j :: lo <= j < lo + len ==> buf[j] == OthersSum(ms, off + (j - lo), dd, slot)
      invariant SameOutside(buf, lo, len)
    {
      if slot != dd {
        var got := ReadMember(ms, slot, off, tmp, 0, len);
        if !got.Read? {
          return false;
        }
        XorInto(buf, lo, tmp);
      }
      slot := slot + 1;
    }
    ok := true;
  }
}
