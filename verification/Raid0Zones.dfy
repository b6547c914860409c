/** RAID0 over members of different sizes: zones, each striped over the members that reach
    that far. */
module Raid0Zones {
  import opened Arithmetic

  /** A run of array bytes striped over `slots`, from byte `devStart` of each. */
  datatype Zone = Zone(start: int, len: int, devStart: int, slots: seq<nat>)

  /** A byte of a member's data area. */
  datatype MemberByte = MemberByte(slot: nat, off: int)

  // ----- building the zones

  predicate Ascending(s: seq<nat>) {
    forall i, j :: 0 <= i < j < |s| ==> s[i] < s[j]
  }

  /** `v` put in its place in an ascending sequence, once. */
  function InsertDistinct(s: seq<nat>, v: nat): (r: seq<nat>)
    requires Ascending(s)
    ensures forall x :: x in r <==> x in s || x == v
  {
    if s == [] then [v]
    else if v < s[0] then [v] + s
    else if v == s[0] then s
    else
      assert forall x :: x in s <==> x == s[0] || x in s[1..];
      [s[0]] + InsertDistinct(s[1..], v)
  }

  lemma {:induction false} InsertDistinctAscending(s: seq<nat>, v: nat)
    requires Ascending(s)
    ensures Ascending(InsertDistinct(s, v))
  {
    if s != [] && v > s[0] {
      var t := InsertDistinct(s[1..], v);
      InsertDistinctAscending(s[1..], v);
      forall k | 0 <= k < |t| ensures s[0] < t[k] {
        assert t[k] in t;
        if t[k] != v {
          var i :| 0 <= i < |s[1..]| && s[1..][i] == t[k];
        }
      }
    }
  }

  /** The positive sizes, ascending and without repeats. */
  function Ends(sizes: seq<nat>): (r: seq<nat>)
    ensures Ascending(r) && forall x :: x in r <==> x in sizes && x > 0
  {
    if sizes == [] then []
    else
      var t := Ends(sizes[1..]);
      assert forall x :: x in sizes <==> x == sizes[0] || x in sizes[1..];
      if sizes[0] > 0 then InsertDistinctAscending(t, sizes[0]); InsertDistinct(t, sizes[0]) else t
  }

  /** The slots of the first `n` members that reach `end`, in slot order. */
  function Reaching(sizes: seq<nat>, end: nat, n: nat): (r: seq<nat>)
    requires n <= |sizes|
    ensures forall s: nat :: s in r <==> s < n && sizes[s] >= end
    ensures Ascending(r)
  {
    if n == 0 then []
    else
      var t := Reaching(sizes, end, n - 1);
      assert forall i :: 0 <= i < |t| ==> t[i] in t;
      if sizes[n - 1] >= end then t + [n - 1] else t
  }

  method BuildZones(sizes: seq<nat>, ghost chunk: nat) returns (zones: seq<Zone>)
    requires chunk > 0 && forall s :: 0 <= s < |sizes| ==> sizes[s] % chunk == 0
    ensures Chain(zones, sizes, chunk, 0, 0) && |zones| == |Ends(sizes)|
  {
    var ends := Ends(sizes);
    zones := [];
    var start, prev := 0, 0;
    var i := 0;
    while i < |ends|
      invariant Built(zones, sizes, chunk, i, start, prev)
    {
      var end := ends[i];
      var slots := Reaching(sizes, end, |sizes|);
      var len := (end - prev) * |slots|;
      BuiltNext(zones, sizes, chunk, i, start, prev);
      zones := zones + [Zone(start, len, prev, slots)];
      start := start + len;
      prev := end;
      i := i + 1;
    }
    LastEnd(sizes);
    ChainCloses(zones, sizes, chunk, 0, 0, start, prev);
  }

  /** The first `i` zones, and where the next starts on the array and on its members. */
  ghost predicate Built(zones: seq<Zone>, sizes: seq<nat>, chunk: nat, i: int, start: int, prev: int) {
    && chunk > 0 && 0 <= i <= |Ends(sizes)| && |zones| == i && start % chunk == 0 && prev == Before(Ends(sizes), i)
    && ChainTo(zones, sizes, chunk, 0, 0, start, prev)
  }

  lemma {:induction false} BuiltNext(zones: seq<Zone>, sizes: seq<nat>, chunk: nat, i: nat, start: int, prev: int)
    requires forall s :: 0 <= s < |sizes| ==> chunk > 0 && sizes[s] % chunk == 0
    requires Built(zones, sizes, chunk, i, start, prev) && i < |Ends(sizes)|
    ensures var z := ZoneTo(sizes, start, prev, Ends(sizes)[i]);
      Built(zones + [z], sizes, chunk, i + 1, start + z.len, Ends(sizes)[i])
  {
    NextZoneFits(sizes, chunk, i, start);
    ChainExtend(zones, sizes, chunk, 0, 0, ZoneTo(sizes, start, prev, Ends(sizes)[i]));
  }

  /** Two members have room, and not the same. */
  predicate Uneven(sizes: seq<nat>) {
    exists i, k :: 0 <= i < |sizes| && 0 <= k < |sizes| && 0 < sizes[i] < sizes[k]
  }

  /** There is more than one zone exactly when the members are uneven. */
  lemma {:induction false} SeveralZones(sizes: seq<nat>)
    ensures |Ends(sizes)| > 1 <==> Uneven(sizes)
  {
    var ends := Ends(sizes);
    if |ends| > 1 {
      assert ends[0] in ends && ends[1] in ends;
      var i :| 0 <= i < |sizes| && sizes[i] == ends[0];
      var k :| 0 <= k < |sizes| && sizes[k] == ends[1];
    }
    if Uneven(sizes) {
      var i, k :| 0 <= i < |sizes| && 0 <= k < |sizes| && 0 < sizes[i] < sizes[k];
      assert sizes[i] in ends && sizes[k] in ends;
    }
  }

  lemma {:induction false} LastEnd(sizes: seq<nat>)
    ensures forall s :: 0 <= s < |sizes| ==> sizes[s] <= Before(Ends(sizes), |Ends(sizes)|)
  {
    forall s | 0 <= s < |sizes|
      ensures sizes[s] <= Before(Ends(sizes), |Ends(sizes)|)
    {
      if sizes[s] > 0 { assert sizes[s] in Ends(sizes); }
    }
  }

  function Depth(z: Zone): int
    requires z.slots != []
  {
    z.len / |z.slots|
  }

  /** What one zone promises: it starts at array byte `start` and member byte `prev`, is as
      deep as the next larger member, and spans exactly the members that reach its end. */
  ghost predicate ZoneFits(z: Zone, sizes: seq<nat>, chunk: nat, start: int, prev: int) {
    && chunk > 0 && z.slots != [] && Ascending(z.slots)
    && z.start == start && z.devStart == prev && start % chunk == 0 && prev % chunk == 0
    && Depth(z) > 0 && Depth(z) % chunk == 0 && z.len == Depth(z) * |z.slots|
    && (forall s: nat :: s in z.slots <==> s < |sizes| && sizes[s] >= prev + Depth(z))
    && (forall s :: 0 <= s < |sizes| ==> sizes[s] <= prev || sizes[s] >= prev + Depth(z))
  }

  /** The zones lead from array byte `start` and member byte `prev` to the end of every member. */
  ghost predicate Chain(zones: seq<Zone>, sizes: seq<nat>, chunk: nat, start: int, prev: int) {
    if zones == [] then forall s :: 0 <= s < |sizes| ==> sizes[s] <= prev
    else
      && ZoneFits(zones[0], sizes, chunk, start, prev)
      && Chain(zones[1..], sizes, chunk, start + zones[0].len, prev + Depth(zones[0]))
  }

  /** The zones lead from (`start`, `prev`) to (`start'`, `prev'`). */
  ghost predicate ChainTo(zones: seq<Zone>, sizes: seq<nat>, chunk: nat, start: int, prev: int, start': int,
                          prev': int) {
    if zones == [] then start == start' && prev == prev'
    else
      && ZoneFits(zones[0], sizes, chunk, start, prev)
      && ChainTo(zones[1..], sizes, chunk, start + zones[0].len, prev + Depth(zones[0]), start', prev')
  }

  lemma {:induction false} ChainExtend(zones: seq<Zone>, sizes: seq<nat>, chunk: nat, start: int, prev: int, z: Zone)
    requires ChainTo(zones, sizes, chunk, start, prev, z.start, z.devStart)
    requires ZoneFits(z, sizes, chunk, z.start, z.devStart)
    ensures ChainTo(zones + [z], sizes, chunk, start, prev, z.start + z.len, z.devStart + Depth(z))
  {
    if zones != [] {
      ChainExtend(zones[1..], sizes, chunk, start + zones[0].len, prev + Depth(zones[0]), z);
      assert (zones + [z])[1..] == zones[1..] + [z];
    }
  }

  lemma {:induction false} ChainCloses(zones: seq<Zone>, sizes: seq<nat>, chunk: nat, start: int, prev: int,
                                       start': int, prev': int)
    requires ChainTo(zones, sizes, chunk, start, prev, start', prev')
    requires forall s :: 0 <= s < |sizes| ==> sizes[s] <= prev'
    ensures Chain(zones, sizes, chunk, start, prev)
  {
    if zones != [] {
      ChainCloses(zones[1..], sizes, chunk, start + zones[0].len, prev + Depth(zones[0]), start', prev');
    }
  }

  lemma {:induction false} EndIsSize(sizes: seq<nat>, i: nat) returns (s: nat)
    requires i < |Ends(sizes)|
    ensures s < |sizes| && sizes[s] == Ends(sizes)[i] > 0
  {
    assert Ends(sizes)[i] in Ends(sizes);
    s :| 0 <= s < |sizes| && sizes[s] == Ends(sizes)[i];
  }

  /** The end before end `i`, or the start of the members. */
  function Before(ends: seq<nat>, i: nat): nat
    requires i <= |ends|
  {
    if i == 0 then 0 else ends[i - 1]
  }

  lemma {:induction false} NoSizeBetween(sizes: seq<nat>, i: nat, t: nat)
    requires i < |Ends(sizes)| && t < |sizes|
    ensures Before(Ends(sizes), i) < Ends(sizes)[i]
    ensures sizes[t] <= Before(Ends(sizes), i) || sizes[t] >= Ends(sizes)[i]
  {
    var ends := Ends(sizes);
    var s := EndIsSize(sizes, i);
    if sizes[t] > 0 {
      assert sizes[t] in ends;
      var k :| 0 <= k < |ends| && ends[k] == sizes[t];
      assert k < i || k >= i;
    }
  }

  function ZoneTo(sizes: seq<nat>, start: int, prev: int, end: nat): Zone {
    var slots := Reaching(sizes, end, |sizes|);
    Zone(start, (end - prev) * |slots|, prev, slots)
  }

  lemma {:induction false} ZoneToFits(sizes: seq<nat>, chunk: nat, start: int, prev: int, end: nat, s: nat)
    requires chunk > 0 && start % chunk == 0 && prev % chunk == 0 && end % chunk == 0
    requires 0 <= prev < end && s < |sizes| && sizes[s] >= end
    requires forall t :: 0 <= t < |sizes| ==> sizes[t] <= prev || sizes[t] >= end
    ensures
      var z := ZoneTo(sizes, start, prev, end);
      && ZoneFits(z, sizes, chunk, start, prev) && Depth(z) == end - prev
      && (start + z.len) % chunk == 0
  {
    var slots := Reaching(sizes, end, |sizes|);
    assert s in slots;
    DivModUnique((end - prev) * |slots|, |slots|, end - prev, 0);
    SubMultiples(end, prev, chunk);
    MultipleOf(end - prev, |slots|, start, chunk);
  }

  lemma {:induction false} NextZoneFits(sizes: seq<nat>, chunk: nat, i: nat, start: int)
    requires chunk > 0 && forall s :: 0 <= s < |sizes| ==> sizes[s] % chunk == 0
    requires i < |Ends(sizes)| && start % chunk == 0
    ensures
      var (prev, end) := (Before(Ends(sizes), i), Ends(sizes)[i]);
      var z := ZoneTo(sizes, start, prev, end);
      && ZoneFits(z, sizes, chunk, start, prev) && Depth(z) == end - prev
      && (start + z.len) % chunk == 0
  {
    var s := EndIsSize(sizes, i);
    if i > 0 { var s' := EndIsSize(sizes, i - 1); }
    forall t: nat | t < |sizes|
      ensures sizes[t] <= Before(Ends(sizes), i) || sizes[t] >= Ends(sizes)[i]
    {
      NoSizeBetween(sizes, i, t);
    }
    NoSizeBetween(sizes, i, s);
    ZoneToFits(sizes, chunk, start, Before(Ends(sizes), i), Ends(sizes)[i], s);
  }

  lemma {:induction false} SubMultiples(a: int, b: int, m: int)
    requires m > 0 && a % m == 0 && b % m == 0
    ensures (a - b) % m == 0
  {
    DivModRecompose(a, m);
    DivModRecompose(b, m);
    assert a - b == (a / m - b / m) * m;
    DivModUnique(a - b, m, a / m - b / m, 0);
  }

  lemma {:induction false} MultipleOf(a: int, k: int, start: int, m: int)
    requires m > 0 && start % m == 0
    ensures a % m == 0 ==> (start + a * k) % m == 0
  {
    if a % m == 0 {
      DivModRecompose(a, m);
      DivModRecompose(start, m);
      assert a * k == (a / m * k) * m;
      assert start + a * k == (start / m + a / m * k) * m;
      DivModUnique(start + a * k, m, start / m + a / m * k, 0);
    }
  }

  // ----- placing bytes

  function IndexOf(slots: seq<nat>, s: nat): (i: nat)
    requires s in slots
    ensures i < |slots| && slots[i] == s
  {
    if slots[0] == s then 0 else 1 + IndexOf(slots[1..], s)
  }

  lemma {:induction false} IndexOfAt(slots: seq<nat>, i: nat)
    requires Ascending(slots) && i < |slots|
    ensures IndexOf(slots, slots[i]) == i
  {}

  /** The member byte that array byte `pos` of the zone is. */
  function ZonePlace(z: Zone, chunk: nat, original: bool, pos: int): MemberByte
    requires chunk > 0 && z.slots != []
  {
    var k := |z.slots|;
    var within := pos - z.start;
    var (c, inner) := (within / chunk, within % chunk);
    var pick := if original then pos / chunk else c;
    MemberByte(z.slots[pick % k], z.devStart + (c / k) * chunk + inner)
  }

  /** Which chunk of a row slot number 0 of the zone takes the place of. */
  function Shift(z: Zone, chunk: nat, original: bool): int
    requires chunk > 0
  {
    if original then z.start / chunk else 0
  }

  /** The array byte a member byte of the zone is: `ZonePlace` undone. */
  function ZonePos(z: Zone, chunk: nat, original: bool, m: MemberByte): int
    requires chunk > 0 && m.slot in z.slots
  {
    var k := |z.slots|;
    var deep := m.off - z.devStart;
    var c := deep / chunk * k + (IndexOf(z.slots, m.slot) - Shift(z, chunk, original)) % k;
    z.start + c * chunk + deep % chunk
  }

  lemma {:induction false} RotateBack(c: int, s: int, k: int)
    requires k > 0
    ensures ((s + c) % k - s) % k == c % k
    ensures (s + (c - s) % k) % k == c % k
  {
    DivModRecompose(s + c, k);
    assert (s + c) % k - s == c + (-((s + c) / k)) * k;
    AddMultipleMod(c, -((s + c) / k), k);
    DivModRecompose(c - s, k);
    assert s + (c - s) % k == c + (-((c - s) / k)) * k;
    AddMultipleMod(c, -((c - s) / k), k);
  }

  /** The chunk of the zone that byte `within` of it is in, and the row of that chunk. */
  lemma {:induction false} ChunkInZone(within: int, depth: int, k: int, chunk: int)
    requires chunk > 0 && k > 0 && depth % chunk == 0 && 0 <= within < depth * k
    ensures 0 <= within / chunk / k * chunk + within % chunk < depth
  {
    var c := within / chunk;
    DivModRecompose(depth, chunk);
    DivModRecompose(within, chunk);
    DivNonNegative(within, chunk);
    DivNonNegative(c, k);
    var rows := depth / chunk;
    assert depth * k == rows * k * chunk;
    if c >= rows * k { MulMonotone(rows * k, c, chunk); }
    DivModRecompose(c, k);
    if c / k >= rows { MulMonotone(rows, c / k, k); }
    MulMonotone(c / k + 1, rows, chunk);
    assert (c / k + 1) * chunk == c / k * chunk + chunk;
  }

  lemma {:induction false} PlacePick(z: Zone, chunk: nat, original: bool, pos: int)
    requires chunk > 0 && z.start % chunk == 0
    ensures (if original then pos / chunk else (pos - z.start) / chunk)
         == Shift(z, chunk, original) + (pos - z.start) / chunk
  {
    DivModRecompose(z.start, chunk);
    AddMultipleMod(pos - z.start, z.start / chunk, chunk);
  }

  lemma {:induction false} ZonePosOfPlace(z: Zone, sizes: seq<nat>, chunk: nat, original: bool, pos: int)
    requires ZoneFits(z, sizes, chunk, z.start, z.devStart) && z.start <= pos < z.start + z.len
    ensures
      var m := ZonePlace(z, chunk, original, pos);
      && m.slot in z.slots && z.devStart <= m.off < z.devStart + Depth(z)
      && ZonePos(z, chunk, original, m) == pos
  {
    var k := |z.slots|;
    var within := pos - z.start;
    var (c, inner) := (within / chunk, within % chunk);
    var m := ZonePlace(z, chunk, original, pos);
    var s := Shift(z, chunk, original);
    ChunkInZone(within, Depth(z), k, chunk);
    PlacePick(z, chunk, original, pos);
    IndexOfAt(z.slots, (s + c) % k);
    RotateBack(c, s, k);
    DivModUnique(m.off - z.devStart, chunk, c / k, inner);
    DivModRecompose(c, k);
    DivModRecompose(within, chunk);
  }

  lemma {:induction false} ZonePlaceOfPos(z: Zone, sizes: seq<nat>, chunk: nat, original: bool, m: MemberByte)
    requires ZoneFits(z, sizes, chunk, z.start, z.devStart)
    requires m.slot in z.slots && z.devStart <= m.off < z.devStart + Depth(z)
    ensures
      var pos := ZonePos(z, chunk, original, m);
      && z.start <= pos < z.start + z.len
      && ZonePlace(z, chunk, original, pos) == m
  {
    var k := |z.slots|;
    var deep := m.off - z.devStart;
    var r := deep / chunk;
    var s := Shift(z, chunk, original);
    var idx := IndexOf(z.slots, m.slot);
    var c := r * k + (idx - s) % k;
    var pos := ZonePos(z, chunk, original, m);
    RowInZone(deep, Depth(z), k, chunk, (idx - s) % k);
    DivModUnique(c, k, r, (idx - s) % k);
    DivModRecompose(deep, chunk);
    DivModUnique(pos - z.start, chunk, c, deep % chunk);
    PlacePick(z, chunk, original, pos);
    RotateBack(idx, s, k);
    DivModUnique(idx, k, 0, idx);
    AddMultipleMod(s + (idx - s) % k, r, k);
    assert s + c == s + (idx - s) % k + r * k;
  }

  lemma {:induction false} RowInZone(deep: int, depth: int, k: int, chunk: int, t: int)
    requires chunk > 0 && k > 0 && depth % chunk == 0 && 0 <= deep < depth && 0 <= t < k
    ensures 0 <= (deep / chunk * k + t) * chunk + deep % chunk < depth * k
  {
    var r, rows := deep / chunk, depth / chunk;
    DivModRecompose(depth, chunk);
    DivModRecompose(deep, chunk);
    if r >= rows { MulMonotone(rows, r, chunk); }
    MulMonotone(r + 1, rows, k);
    assert (r + 1) * k == r * k + k;
    var c := r * k + t;
    assert 0 <= r * k;
    MulMonotone(c + 1, rows * k, chunk);
    assert (c + 1) * chunk == c * chunk + chunk;
    assert depth * k == rows * k * chunk;
  }

  // ----- the whole array

  function TotalLen(zones: seq<Zone>): int {
    if zones == [] then 0 else zones[0].len + TotalLen(zones[1..])
  }

  predicate InZone(z: Zone, pos: int) {
    z.start <= pos < z.start + z.len
  }

  /** The first zone holding array byte `pos`, or the number of zones. */
  function FindZone(zones: seq<Zone>, pos: int): (i: nat)
    ensures i <= |zones| && (i < |zones| ==> InZone(zones[i], pos))
  {
    if zones == [] then 0 else if InZone(zones[0], pos) then 0 else 1 + FindZone(zones[1..], pos)
  }

  /** The member byte that array byte `pos` is. */
  function Place(zones: seq<Zone>, chunk: nat, original: bool, pos: int): MemberByte
    requires chunk > 0 && FindZone(zones, pos) < |zones| && zones[FindZone(zones, pos)].slots != []
  {
    ZonePlace(zones[FindZone(zones, pos)], chunk, original, pos)
  }

  /** The first zone that reaches past member byte `off`. */
  function ZoneAtDepth(zones: seq<Zone>, off: int): (i: nat)
    requires forall z :: z in zones ==> z.slots != []
    ensures i <= |zones|
  {
    if zones == [] then 0
    else
      assert zones[0] in zones;
      if off < zones[0].devStart + Depth(zones[0]) then 0 else 1 + ZoneAtDepth(zones[1..], off)
  }

  /** A byte of a member's usable data. */
  predicate Usable(sizes: seq<nat>, m: MemberByte) {
    m.slot < |sizes| && 0 <= m.off < sizes[m.slot]
  }

  function Sum(sizes: seq<nat>): nat {
    if sizes == [] then 0 else sizes[0] + Sum(sizes[1..])
  }

  lemma {:induction false} ChainSlots(zones: seq<Zone>, sizes: seq<nat>, chunk: nat, start: int, prev: int)
    requires Chain(zones, sizes, chunk, start, prev)
    ensures TotalLen(zones) >= 0 && forall z :: z in zones ==> z.slots != []
  {
    if zones != [] {
      ChainSlots(zones[1..], sizes, chunk, start + zones[0].len, prev + Depth(zones[0]));
      LenPositive(zones[0], sizes, chunk);
    }
  }

  lemma {:induction false} LenPositive(z: Zone, sizes: seq<nat>, chunk: nat)
    requires ZoneFits(z, sizes, chunk, z.start, z.devStart)
    ensures z.len > 0
  {
    MulMonotone(1, Depth(z), |z.slots|);
  }

  /** Zones tile the array: each array byte is in one, and that zone's place for it undoes. */
  lemma {:induction false} ChainPlace(zones: seq<Zone>, sizes: seq<nat>, chunk: nat, original: bool, start: int,
                                      prev: int, pos: int)
    requires Chain(zones, sizes, chunk, start, prev) && start <= pos < start + TotalLen(zones)
    ensures forall z :: z in zones ==> z.slots != []
    ensures
      var i := FindZone(zones, pos);
      && i < |zones| && ZoneFits(zones[i], sizes, chunk, zones[i].start, zones[i].devStart)
      && var m := ZonePlace(zones[i], chunk, original, pos);
      && m.slot < |sizes| && prev <= m.off < sizes[m.slot]
      && ZoneAtDepth(zones, m.off) == i
      && m.slot in zones[i].slots && ZonePos(zones[i], chunk, original, m) == pos
  {
    ChainSlots(zones, sizes, chunk, start, prev);
    if InZone(zones[0], pos) {
      ZonePosOfPlace(zones[0], sizes, chunk, original, pos);
    } else {
      ChainPlace(zones[1..], sizes, chunk, original, start + zones[0].len, prev + Depth(zones[0]), pos);
    }
  }

  /** Every usable member byte is some array byte. */
  lemma {:induction false} ChainPos(zones: seq<Zone>, sizes: seq<nat>, chunk: nat, original: bool, start: int,
                                    prev: int, m: MemberByte)
    requires Chain(zones, sizes, chunk, start, prev)
    requires m.slot < |sizes| && prev <= m.off < sizes[m.slot]
    ensures forall z :: z in zones ==> z.slots != []
    ensures
      var i := ZoneAtDepth(zones, m.off);
      && i < |zones| && chunk > 0 && m.slot in zones[i].slots
      && var pos := ZonePos(zones[i], chunk, original, m);
      && start <= pos < start + TotalLen(zones) && FindZone(zones, pos) == i
      && ZonePlace(zones[i], chunk, original, pos) == m
  {
    ChainSlots(zones, sizes, chunk, start, prev);
    var z := zones[0];
    LenPositive(z, sizes, chunk);
    ChainSlots(zones[1..], sizes, chunk, start + z.len, prev + Depth(z));
    if m.off < z.devStart + Depth(z) {
      ZonePlaceOfPos(z, sizes, chunk, original, m);
    } else {
      ChainPos(zones[1..], sizes, chunk, original, start + z.len, prev + Depth(z), m);
    }
  }

  /** What the members hold past byte `prev`. */
  function SumPast(sizes: seq<nat>, prev: int): int {
    if sizes == [] then 0
    else (if sizes[0] > prev then sizes[0] - prev else 0) + SumPast(sizes[1..], prev)
  }

  function CountReaching(sizes: seq<nat>, end: int): int {
    if sizes == [] then 0 else (if sizes[0] >= end then 1 else 0) + CountReaching(sizes[1..], end)
  }

  lemma {:induction false} SumPastZone(sizes: seq<nat>, prev: int, end: int)
    requires prev < end && forall s :: 0 <= s < |sizes| ==> sizes[s] <= prev || sizes[s] >= end
    ensures SumPast(sizes, prev) == (end - prev) * CountReaching(sizes, end) + SumPast(sizes, end)
  {
    if sizes != [] {
      SumPastZone(sizes[1..], prev, end);
      var rest := CountReaching(sizes[1..], end);
      assert (end - prev) * (1 + rest) == (end - prev) + (end - prev) * rest;
    }
  }

  lemma {:induction false} SumPastNone(sizes: seq<nat>, prev: int)
    requires forall s :: 0 <= s < |sizes| ==> sizes[s] <= prev
    ensures SumPast(sizes, prev) == 0
  {
    if sizes != [] { SumPastNone(sizes[1..], prev); }
  }

  lemma {:induction false} CountIsReaching(sizes: seq<nat>, end: nat, n: nat)
    requires n <= |sizes|
    ensures |Reaching(sizes, end, n)| == CountReaching(sizes[..n], end)
  {
    if n == 0 {
      assert sizes[..n] == [];
    } else {
      CountIsReaching(sizes, end, n - 1);
      CountAppend(sizes[..n - 1], sizes[n - 1], end);
      assert sizes[..n - 1] + [sizes[n - 1]] == sizes[..n];
    }
  }

  lemma {:induction false} CountAppend(sizes: seq<nat>, v: nat, end: int)
    ensures CountReaching(sizes + [v], end) == CountReaching(sizes, end) + (if v >= end then 1 else 0)
  {
    if sizes != [] {
      CountAppend(sizes[1..], v, end);
      assert (sizes + [v])[1..] == sizes[1..] + [v];
    }
  }

  lemma {:induction false} SameMembersSameLength(a: seq<nat>, b: seq<nat>)
    requires Ascending(a) && Ascending(b) && forall x: nat :: x in a <==> x in b
    ensures a == b
  {
    assert forall i :: 0 <= i < |a| ==> a[i] in a;
    assert forall i :: 0 <= i < |b| ==> b[i] in b;
    if a != [] && b != [] {
      assert a[0] == b[0];
      assert forall x: nat :: x in a[1..] <==> x in a && x != a[0];
      assert forall x: nat :: x in b[1..] <==> x in b && x != b[0];
      SameMembersSameLength(a[1..], b[1..]);
    }
  }

  /** The zones hold exactly what the members hold: no byte is lost or counted twice. */
  lemma {:induction false} ChainConserves(zones: seq<Zone>, sizes: seq<nat>, chunk: nat, start: int, prev: int)
    requires Chain(zones, sizes, chunk, start, prev) && prev >= 0
    ensures TotalLen(zones) == SumPast(sizes, prev)
  {
    if zones == [] {
      SumPastNone(sizes, prev);
    } else {
      var z := zones[0];
      var end := prev + Depth(z);
      ChainConserves(zones[1..], sizes, chunk, start + z.len, end);
      SumPastZone(sizes, prev, end);
      SameMembersSameLength(z.slots, Reaching(sizes, end, |sizes|));
      CountIsReaching(sizes, end, |sizes|);
      assert sizes[..|sizes|] == sizes;
    }
  }

  lemma {:induction false} SumPastZero(sizes: seq<nat>)
    ensures SumPast(sizes, 0) == Sum(sizes)
  {
    if sizes != [] { SumPastZero(sizes[1..]); }
  }

  /** From the start, the zones hold the sum of the members' usable sizes. */
  lemma {:induction false} ZonesHoldAll(zones: seq<Zone>, sizes: seq<nat>, chunk: nat)
    requires Chain(zones, sizes, chunk, 0, 0)
    ensures TotalLen(zones) == Sum(sizes)
  {
    ChainConserves(zones, sizes, chunk, 0, 0);
    SumPastZero(sizes);
  }
}
