/** Which table slot each partition is written into. */
module Slots {
  import opened Arithmetic
  import opened PartitionTable
  import opened Wrappers

  /** How many of these partitions have a slot already. */
  function Recorded(slots: seq<Option<nat>>): nat {
    if slots == [] then 0 else Recorded(slots[..|slots| - 1]) + if slots[|slots| - 1].Some? then 1 else 0
  }

  predicate Distinct(s: seq<nat>) {
    forall i, j :: 0 <= i < j < |s| ==> s[i] != s[j]
  }

  /** The slots spoken for before any is handed out: reserved ones and recorded ones. */
  function Claims(slots: seq<Option<nat>>, reserved: seq<nat>): seq<nat> {
    if slots == [] then reserved
    else Claims(slots[..|slots| - 1], reserved) + if slots[|slots| - 1].Some? then [slots[|slots| - 1].value] else []
  }

  /** No claim clashes or is past the end, and there is a slot for everyone. */
  predicate Assignable(slots: seq<Option<nat>>, n: nat, reserved: seq<nat>) {
    var claims := Claims(slots, reserved);
    && (forall i :: 0 <= i < |claims| ==> claims[i] < n)
    && Distinct(claims)
    && |slots| + |reserved| <= n
  }

  /** Each partition keeps its recorded slot; each without one has, in order, the lowest slot
      that no claim and no earlier partition took. */
  ghost predicate Assigned(slots: seq<Option<nat>>, n: nat, reserved: seq<nat>, out: seq<nat>) {
    && |out| == |slots|
    && (forall i :: 0 <= i < |out| ==> out[i] < n && out[i] !in reserved)
    && Distinct(out)
    && (forall i :: 0 <= i < |out| && slots[i].Some? ==> out[i] == slots[i].value)
    && (forall i :: 0 <= i < |out| && slots[i].None? ==> LowestFree(slots, reserved, out, i))
  }

  /** Every slot below the one partition `i` got was claimed or went to an earlier partition. */
  ghost predicate LowestFree(slots: seq<Option<nat>>, reserved: seq<nat>, out: seq<nat>, i: nat)
    requires i < |out| <= |slots|
  {
    && out[i] !in Claims(slots, reserved)
    && (forall s: nat :: s < out[i] ==> s in Claims(slots, reserved) || s in out[..i])
  }

  // ----- claims

  predicate ClaimsOk(claims: seq<nat>, n: nat) {
    (forall i :: 0 <= i < |claims| ==> claims[i] < n) && Distinct(claims)
  }

  /** Exactly these slots are taken. */
  ghost predicate TakenIs(taken: seq<bool>, who: seq<nat>) {
    forall s: nat :: s < |taken| ==> (taken[s] <==> s in who)
  }

  lemma {:induction false} ClaimOne(taken: seq<bool>, claims: seq<nat>, slot: nat)
    requires ClaimsOk(claims, |taken|) && TakenIs(taken, claims)
    ensures ClaimsOk(claims + [slot], |taken|) <==> slot < |taken| && !taken[slot]
    ensures slot < |taken| ==> TakenIs(taken[slot := true], claims + [slot])
  {
    var all := claims + [slot];
    if slot < |taken| && taken[slot] {
      var i :| 0 <= i < |claims| && claims[i] == slot;
      assert all[i] == all[|claims|];
    }
    assert all[|claims|] == slot;
  }

  lemma {:induction false} ClaimsGrow(slots: seq<Option<nat>>, k: nat, reserved: seq<nat>)
    requires k <= |slots|
    ensures Claims(slots[..k], reserved) <= Claims(slots, reserved)
    decreases |slots| - k
  {
    if k < |slots| {
      ClaimsGrow(slots, k + 1, reserved);
      assert slots[..k + 1][..k] == slots[..k];
    } else {
      assert slots[..k] == slots;
    }
  }

  lemma {:induction false} ClaimsOkPrefix(a: seq<nat>, b: seq<nat>, n: nat)
    requires a <= b && ClaimsOk(b, n)
    ensures ClaimsOk(a, n)
  {
    assert forall i :: 0 <= i < |a| ==> a[i] == b[i];
  }

  lemma {:induction false} ClaimsCount(slots: seq<Option<nat>>, reserved: seq<nat>)
    ensures |Claims(slots, reserved)| == |reserved| + Recorded(slots)
  {
    if slots != [] { ClaimsCount(slots[..|slots| - 1], reserved); }
  }

  /** Every claim is a reserved slot or a recorded one. */
  lemma {:induction false} ClaimsMembers(slots: seq<Option<nat>>, reserved: seq<nat>, i: nat)
    requires i < |slots| && slots[i].Some?
    ensures slots[i].value in Claims(slots, reserved)
    ensures Distinct(Claims(slots, reserved)) ==> slots[i].value !in reserved
  {
    var init := slots[..|slots| - 1];
    if i < |slots| - 1 {
      ClaimsMembers(init, reserved, i);
      ClaimsGrow(slots, |slots| - 1, reserved);
    } else {
      ClaimsGrow(init, 0, reserved);
      assert init[..0] == [];
      var c := Claims(slots, reserved);
      assert reserved <= Claims(init, reserved) && c[|c| - 1] == slots[i].value;
      if Distinct(c) {
        forall k | 0 <= k < |reserved| ensures reserved[k] != slots[i].value {
          assert c[k] == reserved[k];
        }
      }
    }
  }

  lemma {:induction false} RecordedDiffer(slots: seq<Option<nat>>, reserved: seq<nat>, i: nat, j: nat)
    requires i < j < |slots| && slots[i].Some? && slots[j].Some? && Distinct(Claims(slots, reserved))
    ensures slots[i].value != slots[j].value
  {
    var init, c := slots[..|slots| - 1], Claims(slots, reserved);
    if j < |slots| - 1 {
      ClaimsGrow(slots, |slots| - 1, reserved);
      RecordedDiffer(init, reserved, i, j);
    } else {
      ClaimsMembers(init, reserved, i);
      var d := Claims(init, reserved);
      var k :| 0 <= k < |d| && d[k] == slots[i].value;
      assert c[k] != c[|c| - 1];
    }
  }

  /** Mark a claimed slot as taken, unless it is past the end or taken already. */
  method Seat(taken: seq<bool>, slot: nat, ghost claims: seq<nat>) returns (r: Option<seq<bool>>)
    requires ClaimsOk(claims, |taken|) && TakenIs(taken, claims)
    ensures r.Some? <==> ClaimsOk(claims + [slot], |taken|)
    ensures r.Some? ==> |r.value| == |taken| && TakenIs(r.value, claims + [slot])
  {
    ClaimOne(taken, claims, slot);
    r := if slot < |taken| && !taken[slot] then Some(taken[slot := true]) else None;
  }

  method SeatReserved(n: nat, reserved: seq<nat>) returns (r: Option<seq<bool>>)
    ensures r.Some? <==> ClaimsOk(reserved, n)
    ensures r.Some? ==> |r.value| == n && TakenIs(r.value, reserved)
  {
    var taken := seq(n, _ => false);
    var k: nat := 0;
    while k < |reserved|
      invariant k <= |reserved| && |taken| == n && ClaimsOk(reserved[..k], n) && TakenIs(taken, reserved[..k])
    {
      r := Seat(taken, reserved[k], reserved[..k]);
      assert reserved[..k] + [reserved[k]] == reserved[..k + 1];
      if r.None? {
        if ClaimsOk(reserved, n) { ClaimsOkPrefix(reserved[..k + 1], reserved, n); }
        return;
      }
      taken := r.value;
      k := k + 1;
    }
    assert reserved[..k] == reserved;
    r := Some(taken);
  }

  method SeatRecorded(slots: seq<Option<nat>>, n: nat, reserved: seq<nat>) returns (r: Option<seq<bool>>)
    ensures r.Some? <==> ClaimsOk(Claims(slots, reserved), n)
    ensures r.Some? ==> |r.value| == n && TakenIs(r.value, Claims(slots, reserved))
  {
    r := SeatReserved(n, reserved);
    if r.None? {
      ClaimsGrow(slots, 0, reserved);
      assert slots[..0] == [];
      if ClaimsOk(Claims(slots, reserved), n) { ClaimsOkPrefix(reserved, Claims(slots, reserved), n); }
      return;
    }
    var k: nat := 0;
    while k < |slots|
      invariant k <= |slots| && r.Some? && |r.value| == n
      invariant ClaimsOk(Claims(slots[..k], reserved), n) && TakenIs(r.value, Claims(slots[..k], reserved))
    {
      assert slots[..k + 1][..k] == slots[..k];
      if slots[k].Some? {
        r := Seat(r.value, slots[k].value, Claims(slots[..k], reserved));
        if r.None? {
          ClaimsGrow(slots, k + 1, reserved);
          if ClaimsOk(Claims(slots, reserved), n) {
            ClaimsOkPrefix(Claims(slots[..k + 1], reserved), Claims(slots, reserved), n);
          }
          return;
        }
      }
      k := k + 1;
    }
    assert slots[..k] == slots;
  }

  // ----- room

  /** Distinct numbers below `n` are at most `n`, and fewer if one is missing. */
  lemma {:induction false} DistinctBelow(s: seq<nat>, n: nat)
    requires ClaimsOk(s, n)
    ensures |s| <= n
    ensures (forall k: nat :: k < n ==> k in s) ==> |s| == n
  {
    var members := set i | 0 <= i < |s| :: s[i];
    DistinctSet(s);
    assert members <= Below(n);
    SubsetSize(members, Below(n));
    if forall k: nat :: k < n ==> k in s {
      forall k | k in Below(n) ensures k in members {
        assert k in s;
      }
      assert members == Below(n);
    }
  }

  lemma {:induction false} DistinctSet(s: seq<nat>)
    requires Distinct(s)
    ensures |set i | 0 <= i < |s| :: s[i]| == |s|
  {
    if s != [] {
      var init := s[..|s| - 1];
      DistinctSet(init);
      var a, b := set i | 0 <= i < |s| :: s[i], set i | 0 <= i < |init| :: init[i];
      assert a == b + {s[|s| - 1]} by {
        forall x | x in a ensures x in b + {s[|s| - 1]} {
          var i :| 0 <= i < |s| && s[i] == x;
          assert i < |s| - 1 ==> init[i] == x;
        }
        forall x | x in b ensures x in a {
          var i :| 0 <= i < |init| && init[i] == x;
          assert s[i] == x;
        }
      }
      assert s[|s| - 1] !in b;
    }
  }

  function Below(n: nat): (r: set<nat>)
    ensures |r| == n && forall k: int :: k in r <==> 0 <= k < n
  {
    if n == 0 then {} else Below(n - 1) + {n - 1}
  }

  lemma {:induction false} RecordedRest(slots: seq<Option<nat>>, k: nat)
    requires k <= |slots|
    ensures Recorded(slots[..k]) <= Recorded(slots) <= Recorded(slots[..k]) + |slots| - k
    ensures k < |slots| && slots[k].None? ==> Recorded(slots) <= Recorded(slots[..k]) + |slots| - k - 1
    decreases |slots| - k
  {
    if k < |slots| {
      RecordedRest(slots, k + 1);
      assert slots[..k + 1][..k] == slots[..k];
    } else {
      assert slots[..k] == slots;
    }
  }

  // ----- handing out the free slots

  /** The slots handed out to the first partitions that had none. */
  function Given(slots: seq<Option<nat>>, out: seq<nat>): seq<nat>
    requires |out| <= |slots|
  {
    if out == [] then []
    else Given(slots, out[..|out| - 1]) + if slots[|out| - 1].None? then [out[|out| - 1]] else []
  }

  lemma {:induction false} GivenMembers(slots: seq<Option<nat>>, out: seq<nat>, s: nat)
    requires |out| <= |slots| && s in Given(slots, out)
    ensures s in out
  {
    var init := out[..|out| - 1];
    if s in Given(slots, init) { GivenMembers(slots, init, s); }
  }

  lemma {:induction false} GivenHas(slots: seq<Option<nat>>, out: seq<nat>, i: nat)
    requires i < |out| <= |slots| && slots[i].None?
    ensures out[i] in Given(slots, out)
  {
    if i < |out| - 1 { GivenHas(slots, out[..|out| - 1], i); }
  }

  lemma {:induction false} GivenCount(slots: seq<Option<nat>>, out: seq<nat>)
    requires |out| <= |slots|
    ensures |Given(slots, out)| == |out| - Recorded(slots[..|out|])
  {
    if out != [] {
      GivenCount(slots, out[..|out| - 1]);
      assert slots[..|out|][..|out| - 1] == slots[..|out| - 1];
    }
  }

  /** The first partitions are placed, and what is taken is their slots and every claim. */
  ghost predicate Placing(slots: seq<Option<nat>>, reserved: seq<nat>, taken: seq<bool>, next: nat, out: seq<nat>) {
    && |out| <= |slots|
    && ClaimsOk(Claims(slots, reserved) + Given(slots, out), |taken|)
    && TakenIs(taken, Claims(slots, reserved) + Given(slots, out))
    && next <= |taken| && (forall s :: 0 <= s < next ==> taken[s])
    && (forall i :: 0 <= i < |out| && slots[i].Some? ==> out[i] == slots[i].value)
    && (forall i :: 0 <= i < |out| && slots[i].None? ==> LowestFree(slots, reserved, out, i))
  }

  lemma {:induction false} PlaceRecorded(slots: seq<Option<nat>>, reserved: seq<nat>, taken: seq<bool>, next: nat,
                                         out: seq<nat>)
    requires Placing(slots, reserved, taken, next, out) && |out| < |slots| && slots[|out|].Some?
    ensures Placing(slots, reserved, taken, next, out + [slots[|out|].value])
  {
    var more := out + [slots[|out|].value];
    assert more[..|out|] == out;
    assert Given(slots, more) == Given(slots, out);
    forall i | 0 <= i < |more| && slots[i].None?
      ensures LowestFree(slots, reserved, more, i)
    {
      assert LowestFree(slots, reserved, out, i) && more[..i] == out[..i];
    }
  }

  lemma {:induction false} PlaceFree(slots: seq<Option<nat>>, reserved: seq<nat>, taken: seq<bool>, next: nat,
                                     out: seq<nat>)
    requires Placing(slots, reserved, taken, next, out) && |out| < |slots| && slots[|out|].None?
    requires next < |taken| && !taken[next]
    ensures Placing(slots, reserved, taken[next := true], next, out + [next])
  {
    var more, claims := out + [next], Claims(slots, reserved);
    assert more[..|out|] == out;
    assert claims + Given(slots, more) == claims + Given(slots, out) + [next];
    ClaimOne(taken, claims + Given(slots, out), next);
    forall i | 0 <= i < |more| && slots[i].None?
      ensures LowestFree(slots, reserved, more, i)
    {
      if i < |out| {
        assert LowestFree(slots, reserved, out, i) && more[..i] == out[..i];
      } else {
        forall s: nat | s < next ensures s in claims || s in more[..i] {
          assert taken[s];
          if s !in claims { GivenMembers(slots, out, s); }
        }
      }
    }
  }

  /** With every slot taken there are more entries than slots. */
  lemma {:induction false} NoRoom(slots: seq<Option<nat>>, reserved: seq<nat>, taken: seq<bool>, out: seq<nat>)
    requires Placing(slots, reserved, taken, |taken|, out) && |out| < |slots| && slots[|out|].None?
    ensures |slots| + |reserved| > |taken|
  {
    var all := Claims(slots, reserved) + Given(slots, out);
    forall k: nat | k < |taken| ensures k in all { assert taken[k]; }
    DistinctBelow(all, |taken|);
    ClaimsCount(slots, reserved);
    GivenCount(slots, out);
    RecordedRest(slots, |out|);
  }

  lemma {:induction false} PlacedIsAssigned(slots: seq<Option<nat>>, reserved: seq<nat>, taken: seq<bool>, next: nat,
                                            out: seq<nat>)
    requires Placing(slots, reserved, taken, next, out) && |out| == |slots|
    ensures Assigned(slots, |taken|, reserved, out) && Assignable(slots, |taken|, reserved)
  {
    var claims, given := Claims(slots, reserved), Given(slots, out);
    var all := claims + given;
    ClaimsOkPrefix(claims, all, |taken|);
    DistinctBelow(all, |taken|);
    ClaimsCount(slots, reserved);
    GivenCount(slots, out);
    assert slots[..|out|] == slots;
    ClaimsGrow(slots, 0, reserved);
    assert slots[..0] == [];
    forall i | 0 <= i < |out|
      ensures out[i] < |taken| && out[i] !in reserved
    {
      OneInRange(slots, reserved, taken, next, out, i);
    }
    forall i, j | 0 <= i < j < |out|
      ensures out[i] != out[j]
    {
      TwoDiffer(slots, reserved, taken, next, out, i, j);
    }
  }

  lemma {:induction false} OneInRange(slots: seq<Option<nat>>, reserved: seq<nat>, taken: seq<bool>, next: nat,
                                      out: seq<nat>, i: nat)
    requires Placing(slots, reserved, taken, next, out) && i < |out|
    requires reserved <= Claims(slots, reserved) && Distinct(Claims(slots, reserved))
    ensures out[i] < |taken| && out[i] !in reserved
  {
    var claims := Claims(slots, reserved);
    var all := claims + Given(slots, out);
    if slots[i].Some? {
      ClaimsMembers(slots, reserved, i);
    } else {
      GivenHas(slots, out, i);
      assert LowestFree(slots, reserved, out, i);
      forall k | 0 <= k < |reserved| ensures reserved[k] in claims { assert claims[k] == reserved[k]; }
    }
    assert out[i] in all;
  }

  lemma {:induction false} TwoDiffer(slots: seq<Option<nat>>, reserved: seq<nat>, taken: seq<bool>, next: nat,
                                     out: seq<nat>, i: nat, j: nat)
    requires Placing(slots, reserved, taken, next, out) && i < j < |out| && Distinct(Claims(slots, reserved))
    ensures out[i] != out[j]
  {
    var claims, given := Claims(slots, reserved), Given(slots, out);
    if slots[i].Some? && slots[j].Some? {
      RecordedDiffer(slots, reserved, i, j);
    } else if slots[i].Some? {
      ClaimsMembers(slots, reserved, i);
      assert LowestFree(slots, reserved, out, j);
    } else if slots[j].Some? {
      ClaimsMembers(slots, reserved, j);
      assert LowestFree(slots, reserved, out, i);
    } else {
      GivenSuffix(claims, given);
      GivenDiffer(slots, out, i, j);
    }
  }

  lemma {:induction false} GivenSuffix(claims: seq<nat>, given: seq<nat>)
    requires Distinct(claims + given)
    ensures Distinct(given)
  {
    var all := claims + given;
    assert forall k :: 0 <= k < |given| ==> given[k] == all[|claims| + k];
  }

  lemma {:induction false} GivenDiffer(slots: seq<Option<nat>>, out: seq<nat>, i: nat, j: nat)
    requires i < j < |out| <= |slots| && slots[i].None? && slots[j].None? && Distinct(Given(slots, out))
    ensures out[i] != out[j]
  {
    var init, g := out[..|out| - 1], Given(slots, out);
    var d := Given(slots, init);
    assert forall k :: 0 <= k < |d| ==> d[k] == g[k];
    if j < |out| - 1 {
      GivenDiffer(slots, init, i, j);
    } else {
      GivenHas(slots, init, i);
      var k :| 0 <= k < |d| && d[k] == out[i];
      assert g[k] != g[|g| - 1];
    }
  }

  /** The next slot nobody has. */
  method NextFree(taken: seq<bool>, from: nat) returns (next: nat)
    requires from <= |taken| && forall s :: 0 <= s < from ==> taken[s]
    ensures next <= |taken| && (forall s :: 0 <= s < next ==> taken[s]) && (next < |taken| ==> !taken[next])
  {
    next := from;
    while next < |taken| && taken[next]
      invariant next <= |taken| && forall s :: 0 <= s < next ==> taken[s]
    {
      next := next + 1;
    }
  }

  /** Assign every partition a slot. */
  method AssignSlots(slots: seq<Option<nat>>, n: nat, reserved: seq<nat>) returns (r: Result<seq<nat>>)
    ensures r.Ok? <==> Assignable(slots, n, reserved)
    ensures r.Ok? ==> Assigned(slots, n, reserved, r.value)
    ensures r.Err? ==> r.error == Invalid
  {
    var seated := SeatRecorded(slots, n, reserved);
    if seated.None? { return Err(Invalid); }
    var taken := seated.value;
    var next, out: seq<nat> := 0, [];
    assert Claims(slots, reserved) + Given(slots, out) == Claims(slots, reserved);
    while |out| < |slots|
      invariant |taken| == n && Placing(slots, reserved, taken, next, out)
      decreases |slots| - |out|
    {
      if slots[|out|].Some? {
        PlaceRecorded(slots, reserved, taken, next, out);
        out := out + [slots[|out|].value];
      } else {
        next := NextFree(taken, next);
        if next == |taken| {
          NoRoom(slots, reserved, taken, out);
          return Err(Invalid);
        }
        PlaceFree(slots, reserved, taken, next, out);
        taken := taken[next := true];
        out := out + [next];
      }
    }
    PlacedIsAssigned(slots, reserved, taken, next, out);
    r := Ok(out);
  }

  // ----- what an assignment means over time

  /** There is only one assignment. */
  lemma {:induction false} AssignedUnique(slots: seq<Option<nat>>, n: nat, reserved: seq<nat>, a: seq<nat>,
                                          b: seq<nat>, k: nat)
    requires Assigned(slots, n, reserved, a) && Assigned(slots, n, reserved, b) && k <= |slots|
    ensures a[..k] == b[..k]
  {
    if k > 0 {
      AssignedUnique(slots, n, reserved, a, b, k - 1);
      var i := k - 1;
      if slots[i].None? {
        assert LowestFree(slots, reserved, a, i) && LowestFree(slots, reserved, b, i);
        if a[i] < b[i] { EarlierTaken(slots, reserved, a, b, i); }
        if b[i] < a[i] { EarlierTaken(slots, reserved, b, a, i); }
      }
      assert a[..k] == a[..i] + [a[i]] && b[..k] == b[..i] + [b[i]];
    }
  }

  lemma {:induction false} EarlierTaken(slots: seq<Option<nat>>, reserved: seq<nat>, a: seq<nat>, b: seq<nat>, i: nat)
    requires i < |a| == |b| == |slots| && Distinct(a) && a[..i] == b[..i]
    requires LowestFree(slots, reserved, a, i) && LowestFree(slots, reserved, b, i)
    ensures a[i] >= b[i]
  {
    forall k | 0 <= k < i
      ensures a[..i][k] != a[i]
    {
      assert a[k] != a[i];
    }
    assert a[i] !in a[..i];
  }

  /** Once every partition has its slot, writing again moves none of them. */
  lemma {:induction false} RecordedStay(slots: seq<nat>, n: nat, reserved: seq<nat>, out: seq<nat>)
    requires Assigned(seq(|slots|, i requires 0 <= i < |slots| => Some(slots[i])), n, reserved, out)
    ensures out == slots
  {
  }

  // ----- putting things in slots

  /** The list with each value stored in its slot, in order. */
  function Placed<T>(base: seq<T>, slots: seq<nat>, vals: seq<T>): (r: seq<T>)
    requires |slots| == |vals| && forall j :: 0 <= j < |slots| ==> slots[j] < |base|
    ensures |r| == |base|
  {
    if slots == [] then base
    else
      var k := |slots| - 1;
      Placed(base, slots[..k], vals[..k])[slots[k] := vals[k]]
  }

  /** In different slots, every value stays. */
  lemma {:induction false} PlacedAt<T>(base: seq<T>, slots: seq<nat>, vals: seq<T>, j: nat)
    requires |slots| == |vals| && (forall j :: 0 <= j < |slots| ==> slots[j] < |base|) && j < |slots| && Distinct(slots)
    ensures Placed(base, slots, vals)[slots[j]] == vals[j]
  {
    var k := |slots| - 1;
    if j < k { PlacedAt(base, slots[..k], vals[..k], j); }
  }

  /** Other slots are as they were. */
  lemma {:induction false} PlacedElse<T>(base: seq<T>, slots: seq<nat>, vals: seq<T>, i: nat)
    requires |slots| == |vals| && (forall j :: 0 <= j < |slots| ==> slots[j] < |base|) && i < |base| && i !in slots
    ensures Placed(base, slots, vals)[i] == base[i]
  {
    if slots != [] {
      var k := |slots| - 1;
      assert slots[k] in slots;
      PlacedElse(base, slots[..k], vals[..k], i);
    }
  }

  lemma {:induction false} PlacedNext<T>(base: seq<T>, slots: seq<nat>, vals: seq<T>, k: nat)
    requires |slots| == |vals| && (forall j :: 0 <= j < |slots| ==> slots[j] < |base|) && k < |slots|
    ensures Placed(base, slots[..k + 1], vals[..k + 1]) == Placed(base, slots[..k], vals[..k])[slots[k] := vals[k]]
  {
    assert slots[..k + 1][..k] == slots[..k] && vals[..k + 1][..k] == vals[..k];
  }
}
