/** A RAID6 row with members missing: what the row still holds, and how a lost data chunk is
    rebuilt from it through P, Q or both. */
module Raid6Recovery {
  import opened GaloisField
  import opened ParityLayout
  import opened Wrappers

  /** Each member's data area, or `None` for a member that is missing. */
  type Members = seq<Option<seq<byte>>>

  // ----- sums over a row

  /** The sum of the first `k` bytes of a row. */
  function SumTo(s: seq<byte>, k: nat): byte
    requires k <= |s|
  {
    if k == 0 then 0 else Add(SumTo(s, k - 1), s[k - 1])
  }

  /** A row with each byte multiplied by its power of {02}. */
  function Weighted(s: seq<byte>, w: seq<int>): (r: seq<byte>)
    requires |s| == |w|
    ensures |r| == |s| && forall i :: 0 <= i < |s| ==> r[i] == Times(PowZ(w[i]), s[i])
  {
    seq(|s|, i requires 0 <= i < |s| => Times(PowZ(w[i]), s[i]))
  }

  /** Two rows added byte by byte. */
  function AddRows(s: seq<byte>, t: seq<byte>): (r: seq<byte>)
    requires |s| == |t|
    ensures |r| == |s| && forall i :: 0 <= i < |s| ==> r[i] == Add(s[i], t[i])
  {
    seq(|s|, i requires 0 <= i < |s| => Add(s[i], t[i]))
  }

  lemma {:induction false} SumOfAddedRows(s: seq<byte>, t: seq<byte>, k: nat)
    requires |s| == |t| && k <= |s|
    ensures SumTo(AddRows(s, t), k) == Add(SumTo(s, k), SumTo(t, k))
  {
    if k == 0 {
      AddUnit(0);
    } else {
      SumOfAddedRows(s, t, k - 1);
      AddInterchange(SumTo(s, k - 1), SumTo(t, k - 1), s[k - 1], t[k - 1]);
    }
  }

  lemma {:induction false} WeightedAddedRows(s: seq<byte>, t: seq<byte>, w: seq<int>)
    requires |s| == |t| == |w|
    ensures Weighted(AddRows(s, t), w) == AddRows(Weighted(s, w), Weighted(t, w))
  {
    forall i | 0 <= i < |s|
      ensures Times(PowZ(w[i]), Add(s[i], t[i])) == Add(Times(PowZ(w[i]), s[i]), Times(PowZ(w[i]), t[i]))
    {
      TimesLowAdd(PowZ(w[i]), s[i], t[i], 8);
    }
  }

  lemma {:induction false} SumOfZeros(s: seq<byte>, k: nat)
    requires k <= |s| && forall i :: 0 <= i < k ==> s[i] == 0
    ensures SumTo(s, k) == 0
  {
    if k > 0 {
      SumOfZeros(s, k - 1);
      AddUnit(0);
    }
  }

  lemma {:induction false} SumOfOne(s: seq<byte>, x: nat, k: nat)
    requires x < k <= |s| && forall i :: 0 <= i < k && i != x ==> s[i] == 0
    ensures SumTo(s, k) == s[x]
  {
    AddUnit(s[x]);
    AddUnit(SumTo(s, k - 1));
    if x == k - 1 {
      SumOfZeros(s, k - 1);
    } else {
      SumOfOne(s, x, k - 1);
    }
  }

  lemma {:induction false} SumOfTwo(s: seq<byte>, a: nat, b: nat, k: nat)
    requires a < b < k <= |s| && forall i :: 0 <= i < k && i != a && i != b ==> s[i] == 0
    ensures SumTo(s, k) == Add(s[a], s[b])
  {
    if b == k - 1 {
      SumOfOne(s, a, k - 1);
    } else {
      SumOfTwo(s, a, b, k - 1);
      AddUnit(Add(s[a], s[b]));
    }
  }

  // ----- solving for lost bytes

  /** Q' = {02}^ex Dx, solved for Dx. */
  lemma {:induction false} SolveThroughQ(ex: int, dx: byte)
    ensures Times(PowZ(-ex), Times(PowZ(ex), dx)) == dx
  {
    TimesAssoc(PowZ(-ex), PowZ(ex), dx);
    PowZAdd(-ex, ex);
    OneTimes(dx);
  }

  /** P' = Dx + Dy and Q' = {02}^ex Dx + {02}^ey Dy, solved for Dx; the rest of P' is Dy. */
  lemma {:induction false} SolvePair(ex: int, ey: int, dx: byte, dy: byte, inv: byte)
    requires Times(Add(PowZ(ey - ex), 1), inv) == 1
    ensures
      var rp := Add(dx, dy);
      var rq := Add(Times(PowZ(ex), dx), Times(PowZ(ey), dy));
      Add(Times(Times(PowZ(ey - ex), inv), rp), Times(Times(PowZ(-ex), inv), rq)) == dx && Add(rp, dx) == dy
  {
    AddComm(dx, dy);
    AddAssoc(dy, dx, dx);
    AddUnit(dx);
    AddUnit(dy);
    var g := PowZ(ey - ex);
    var rp := Add(dx, dy);
    var rq := Add(Times(PowZ(ex), dx), Times(PowZ(ey), dy));
    QScaled(ex, ey, dx, dy);
    PScaled(g, dx, dy);
    ScaleOut(inv, g, rp);
    ScaleOut(inv, PowZ(-ex), rq);
    var u := Times(g, rp);
    var v := Times(PowZ(-ex), rq);
    TimesLowAdd(inv, u, v, 8);
    SumCancels(Times(g, dx), Times(g, dy), dx);
    assert Add(u, v) == Add(Times(g, dx), dx);
    LowTimesAdd(g, 1, dx, 8);
    OneTimes(dx);
    TimesAssoc(inv, Add(g, 1), dx);
    TimesComm(inv, Add(g, 1));
  }

  lemma {:induction false} ScaleOut(inv: byte, c: byte, r: byte)
    ensures Times(Times(c, inv), r) == Times(inv, Times(c, r))
  {
    TimesComm(c, inv);
    TimesAssoc(inv, c, r);
  }

  lemma {:induction false} PScaled(g: byte, dx: byte, dy: byte)
    ensures Times(g, Add(dx, dy)) == Add(Times(g, dx), Times(g, dy))
  {
    TimesLowAdd(g, dx, dy, 8);
  }

  lemma {:induction false} QScaled(ex: int, ey: int, dx: byte, dy: byte)
    ensures Times(PowZ(-ex), Add(Times(PowZ(ex), dx), Times(PowZ(ey), dy))) == Add(dx, Times(PowZ(ey - ex), dy))
  {
    TimesLowAdd(PowZ(-ex), Times(PowZ(ex), dx), Times(PowZ(ey), dy), 8);
    SolveThroughQ(ex, dx);
    TimesAssoc(PowZ(-ex), PowZ(ey), dy);
    PowZAdd(-ex, ey);
  }

  lemma {:induction false} SumCancels(a: byte, b: byte, c: byte)
    ensures Add(Add(a, b), Add(c, b)) == Add(a, c)
  {
    AddInterchange(a, b, c, b);
    AddUnit(b);
    AddUnit(Add(a, c));
  }

  /** {02}^e + 1 vanishes only at multiples of the group's order. */
  lemma {:induction false} PowZIsOne(e: int)
    ensures Add(PowZ(e), 1) == 0 <==> e % 255 == 0
  {
    if e % 255 != 0 { OrderIs255(e % 255); }
    AddIsZero(PowZ(e), 1);
  }

  lemma {:induction false} AddIsZero(a: byte, b: byte)
    ensures Add(a, b) == 0 <==> a == b
  {}

  // ----- a row with members missing

  predicate Present(ms: Members, slot: nat) {
    slot < |ms| && ms[slot].Some?
  }

  /** Every member that is there holds at least `end` bytes. */
  ghost predicate AllReach(ms: Members, end: int) {
    forall s :: 0 <= s < |ms| && ms[s].Some? ==> end <= |ms[s].value|
  }

  /** Byte `o` of a member, or zero where there is nothing to read. */
  function Visible(ms: Members, slot: nat, o: int): byte {
    if Present(ms, slot) && 0 <= o < |ms[slot].value| then ms[slot].value[o] else 0
  }

  /** A row's geometry: the members of its data chunks, of P and of Q, and each chunk's
      weight in Q. */
  datatype Row = Row(data: seq<nat>, p: nat, q: nat, weights: seq<int>) {
    predicate Valid() {
      |weights| == |data|
    }

    /** Byte `o` of each data chunk, as far as it can be read. */
    function Column(ms: Members, o: int): (c: seq<byte>)
      ensures |c| == |data| && forall i :: 0 <= i < |data| ==> c[i] == Visible(ms, data[i], o)
    {
      seq(|data|, i requires 0 <= i < |data| => Visible(ms, data[i], o))
    }

    /** P with the first `k` data chunks taken back out, at byte `o`. */
    function LeftOfP(ms: Members, o: int, k: nat): byte
      requires k <= |data|
    {
      Add(Visible(ms, p, o), SumTo(Column(ms, o), k))
    }

    /** Q with the first `k` data chunks taken back out, at byte `o`. */
    function LeftOfQ(ms: Members, o: int, k: nat): byte
      requires Valid() && k <= |data|
    {
      Add(Visible(ms, q, o), SumTo(Weighted(Column(ms, o), weights), k))
    }

    /** The missing ones of the first `k` data chunks, in order. */
    function Missing(ms: Members, k: nat): (lost: seq<nat>)
      requires k <= |data|
      ensures forall j :: 0 <= j < |lost| ==> lost[j] < k && !Present(ms, data[lost[j]])
      ensures forall i: nat :: i < k && !Present(ms, data[i]) ==> i in lost
    {
      if k == 0 then []
      else if Present(ms, data[k - 1]) then Missing(ms, k - 1)
      else Missing(ms, k - 1) + [k - 1]
    }

    /** How data chunk `x`, whose member is missing, can be rebuilt. */
    function PlanFor(ms: Members, x: nat): Plan
      requires Valid() && x < |data|
    {
      PlanOf(Missing(ms, |data|), Present(ms, p), Present(ms, q), x, weights)
    }

    predicate Rebuildable(ms: Members, x: nat)
      requires Valid() && x < |data|
    {
      !PlanFor(ms, x).Hopeless?
    }

    /** Byte `o` of data chunk `x` as rebuilt from the rest of the row. */
    ghost function Rebuilt(ms: Members, x: nat, o: int): byte
      requires Valid() && x < |data| && Rebuildable(ms, x)
    {
      Solved(PlanFor(ms, x), LeftOfP(ms, o, |data|), LeftOfQ(ms, o, |data|))
    }
  }

  /** How a lost data chunk is rebuilt: through P, through Q with the chunk's weight, or
      through both with the weights of the pair. */
  datatype Plan = FromP | FromQ(ex: int) | FromBoth(ex: int, ey: int) | Hopeless

  /** P serves, or else Q, when `x` is the only data chunk lost; both are needed when one more
      is, and then only if the two weights differ in the field. */
  function PlanOf(lost: seq<nat>, haveP: bool, haveQ: bool, x: nat, weights: seq<int>): (plan: Plan)
    requires x < |weights| && forall i :: 0 <= i < |lost| ==> lost[i] < |weights|
    ensures plan.FromBoth? ==> (plan.ey - plan.ex) % 255 != 0
  {
    if |lost| == 1 && haveP then FromP
    else if |lost| == 1 && haveQ then FromQ(weights[x])
    else if |lost| == 2 && haveP && haveQ then
      var y := if lost[0] == x then lost[1] else lost[0];
      if (weights[y] - weights[x]) % 255 == 0 then Hopeless else FromBoth(weights[x], weights[y])
    else Hopeless
  }

  /** The lost byte, from what is left of P and Q. */
  ghost function Solved(plan: Plan, rp: byte, rq: byte): byte
    requires !plan.Hopeless? && (plan.FromBoth? ==> (plan.ey - plan.ex) % 255 != 0)
  {
    match plan
    case FromP => rp
    case FromQ(ex) => Times(PowZ(-ex), rq)
    case FromBoth(ex, ey) => PairSolution(ex, ey, rp, rq)
  }

  lemma {:induction false} MissingAscends(r: Row, ms: Members, k: nat)
    requires k <= |r.data|
    ensures forall i, j :: 0 <= i < j < |r.Missing(ms, k)| ==> r.Missing(ms, k)[i] < r.Missing(ms, k)[j]
  {
    if k > 0 { MissingAscends(r, ms, k - 1); }
  }

  /** The inverse of {02}^e + 1. */
  ghost function Inverse(e: int): (r: byte)
    requires e % 255 != 0
    ensures Times(Add(PowZ(e), 1), r) == 1
  {
    PowZIsOne(e);
    InverseExists(Add(PowZ(e), 1));
    var r :| Times(Add(PowZ(e), 1), r) == 1;
    r
  }

  /** Dx of a lost pair, from what is left of P and Q: A P' + B Q' with
      A = g^(ey-ex) / (g^(ey-ex) + 1) and B = g^(-ex) / (g^(ey-ex) + 1). */
  ghost function PairSolution(ex: int, ey: int, rp: byte, rq: byte): byte
    requires (ey - ex) % 255 != 0
  {
    var inv := Inverse(ey - ex);
    Add(Times(Times(PowZ(ey - ex), inv), rp), Times(Times(PowZ(-ex), inv), rq))
  }

  lemma {:induction false} PairSolutionExact(ex: int, ey: int, dx: byte, dy: byte)
    requires (ey - ex) % 255 != 0
    ensures PairSolution(ex, ey, Add(dx, dy), Add(Times(PowZ(ex), dx), Times(PowZ(ey), dy))) == dx
  {
    SolvePair(ex, ey, dx, dy, Inverse(ey - ex));
  }

  /** Inverses are unique, so the table's answer is the one. */
  lemma {:induction false} InverseUnique(a: byte, r: byte, r': byte)
    requires Times(a, r) == 1 && Times(a, r') == 1
    ensures r == r'
  {
    TimesAssoc(r, a, r');
    TimesComm(r, a);
    OneTimes(r');
    TimesComm(r, 1);
    OneTimes(r);
  }

  lemma {:induction false} InverseExists(a: byte)
    requires a != 0
    ensures exists r :: Times(a, r) == 1
  {
    var i := PowSurjective(a);
    InvIsPower(i);
  }

  // ----- the row as it was written

  /** What every member holds, the missing ones included. */
  type Truth = seq<seq<byte>>

  /** The members that are there hold what they should. */
  ghost predicate Agrees(ms: Members, truth: Truth) {
    |ms| == |truth| && forall s :: 0 <= s < |ms| && ms[s].Some? ==> ms[s].value == truth[s]
  }

  ghost function All(truth: Truth): (ms: Members)
    ensures |ms| == |truth| && forall s :: 0 <= s < |ms| ==> ms[s] == Some(truth[s])
  {
    seq(|truth|, s requires 0 <= s < |truth| => Some(truth[s]))
  }

  ghost predicate Deep(truth: Truth, end: int) {
    forall s :: 0 <= s < |truth| ==> end <= |truth[s]|
  }

  /** The row's members are members of the array, and distinct. */
  ghost predicate RowIn(r: Row, n: nat) {
    && r.Valid() && r.p < n && r.q < n && r.p != r.q
    && (forall i :: 0 <= i < |r.data| ==> r.data[i] < n && r.data[i] != r.p && r.data[i] != r.q)
    && (forall i, j :: 0 <= i < j < |r.data| ==> r.data[i] != r.data[j])
  }

  /** At byte `o`, P is the sum of the data and Q the weighted sum. */
  ghost predicate RowConsistent(r: Row, truth: Truth, o: int) {
    && RowIn(r, |truth|) && 0 <= o && Deep(truth, o + 1)
    && truth[r.p][o] == SumTo(r.Column(All(truth), o), |r.data|)
    && truth[r.q][o] == SumTo(Weighted(r.Column(All(truth), o), r.weights), |r.data|)
  }

  /** What a complete row holds beyond what can be read of it, at byte `o`. */
  ghost function LostColumn(r: Row, ms: Members, truth: Truth, o: int): (d: seq<byte>)
    requires Agrees(ms, truth) && RowConsistent(r, truth, o)
    ensures |d| == |r.data|
    ensures forall i :: 0 <= i < |d| ==> d[i] == if Present(ms, r.data[i]) then 0 else truth[r.data[i]][o]
  {
    var d := AddRows(r.Column(All(truth), o), r.Column(ms, o));
    assert forall i :: 0 <= i < |d| ==> d[i] == if Present(ms, r.data[i]) then 0 else truth[r.data[i]][o] by {
      forall i | 0 <= i < |d|
        ensures d[i] == if Present(ms, r.data[i]) then 0 else truth[r.data[i]][o]
      {
        AddUnit(truth[r.data[i]][o]);
      }
    }
    d
  }

  lemma {:induction false} ResidueOfP(r: Row, ms: Members, truth: Truth, o: int)
    requires Agrees(ms, truth) && RowConsistent(r, truth, o) && Present(ms, r.p)
    ensures r.LeftOfP(ms, o, |r.data|) == SumTo(LostColumn(r, ms, truth, o), |r.data|)
  {
    SumOfAddedRows(r.Column(All(truth), o), r.Column(ms, o), |r.data|);
  }

  lemma {:induction false} ResidueOfQ(r: Row, ms: Members, truth: Truth, o: int)
    requires Agrees(ms, truth) && RowConsistent(r, truth, o) && Present(ms, r.q)
    ensures r.LeftOfQ(ms, o, |r.data|) == SumTo(Weighted(LostColumn(r, ms, truth, o), r.weights), |r.data|)
  {
    var (full, seen) := (r.Column(All(truth), o), r.Column(ms, o));
    WeightedAddedRows(full, seen, r.weights);
    SumOfAddedRows(Weighted(full, r.weights), Weighted(seen, r.weights), |r.data|);
  }

  lemma {:induction false} WeightedZeros(d: seq<byte>, w: seq<int>)
    requires |d| == |w|
    ensures forall i :: 0 <= i < |d| && d[i] == 0 ==> Weighted(d, w)[i] == 0
  {
    forall i | 0 <= i < |d| && d[i] == 0
      ensures Weighted(d, w)[i] == 0
    {
      ZeroTimes(PowZ(w[i]));
    }
  }

  /** The only data chunks lost are `x` and `y`, which may be the same. */
  ghost predicate OnlyLost(r: Row, ms: Members, x: nat, y: nat) {
    && x < |r.data| && y < |r.data| && !Present(ms, r.data[x]) && !Present(ms, r.data[y])
    && forall i :: 0 <= i < |r.data| && i != x && i != y ==> Present(ms, r.data[i])
  }

  lemma {:induction false} LostFromP(r: Row, ms: Members, truth: Truth, x: nat, y: nat, o: int)
    requires Agrees(ms, truth) && RowConsistent(r, truth, o) && Present(ms, r.p) && OnlyLost(r, ms, x, y)
    ensures r.LeftOfP(ms, o, |r.data|)
         == if x == y then truth[r.data[x]][o] else Add(truth[r.data[x]][o], truth[r.data[y]][o])
  {
    var d := LostColumn(r, ms, truth, o);
    ResidueOfP(r, ms, truth, o);
    if x == y {
      SumOfOne(d, x, |d|);
    } else {
      SumOfTwo(d, if x < y then x else y, if x < y then y else x, |d|);
      AddComm(d[x], d[y]);
    }
  }

  lemma {:induction false} LostFromQ(r: Row, ms: Members, truth: Truth, x: nat, y: nat, o: int)
    requires Agrees(ms, truth) && RowConsistent(r, truth, o) && Present(ms, r.q) && OnlyLost(r, ms, x, y)
    ensures
      var qx := Times(PowZ(r.weights[x]), truth[r.data[x]][o]);
      var qy := Times(PowZ(r.weights[y]), truth[r.data[y]][o]);
      r.LeftOfQ(ms, o, |r.data|) == if x == y then qx else Add(qx, qy)
  {
    var d := LostColumn(r, ms, truth, o);
    ResidueOfQ(r, ms, truth, o);
    WeightedZeros(d, r.weights);
    var wd := Weighted(d, r.weights);
    if x == y {
      SumOfOne(wd, x, |wd|);
    } else {
      SumOfTwo(wd, if x < y then x else y, if x < y then y else x, |wd|);
      AddComm(wd[x], wd[y]);
    }
  }

  lemma {:induction false} OneLost(r: Row, ms: Members, truth: Truth, x: nat, o: int)
    requires Agrees(ms, truth) && RowConsistent(r, truth, o) && OnlyLost(r, ms, x, x)
    ensures Present(ms, r.p) ==> r.LeftOfP(ms, o, |r.data|) == truth[r.data[x]][o]
    ensures Present(ms, r.q) ==> Times(PowZ(-r.weights[x]), r.LeftOfQ(ms, o, |r.data|)) == truth[r.data[x]][o]
  {
    if Present(ms, r.p) {
      LostFromP(r, ms, truth, x, x, o);
    }
    if Present(ms, r.q) {
      LostFromQ(r, ms, truth, x, x, o);
      SolveThroughQ(r.weights[x], truth[r.data[x]][o]);
    }
  }

  lemma {:induction false} TwoLost(r: Row, ms: Members, truth: Truth, x: nat, y: nat, o: int)
    requires Agrees(ms, truth) && RowConsistent(r, truth, o) && x != y && OnlyLost(r, ms, x, y)
    requires Present(ms, r.p) && Present(ms, r.q) && (r.weights[y] - r.weights[x]) % 255 != 0
    ensures PairSolution(r.weights[x], r.weights[y], r.LeftOfP(ms, o, |r.data|), r.LeftOfQ(ms, o, |r.data|))
         == truth[r.data[x]][o]
  {
    LostFromP(r, ms, truth, x, y, o);
    LostFromQ(r, ms, truth, x, y, o);
    PairSolutionExact(r.weights[x], r.weights[y], truth[r.data[x]][o], truth[r.data[y]][o]);
  }

  /** What a plan says about the row: which data chunks are lost, and what is left to use. */
  lemma {:induction false} PlanMeaning(r: Row, ms: Members, x: nat) returns (y: nat)
    requires r.Valid() && x < |r.data| && !Present(ms, r.data[x]) && r.Rebuildable(ms, x)
    ensures
      match r.PlanFor(ms, x)
      case FromP => OnlyLost(r, ms, x, x) && Present(ms, r.p)
      case FromQ(ex) => OnlyLost(r, ms, x, x) && Present(ms, r.q) && ex == r.weights[x]
      case FromBoth(ex, ey) =>
        OnlyLost(r, ms, x, y) && x != y && Present(ms, r.p) && Present(ms,
            r.q) && ex == r.weights[x] && ey == r.weights[y]
      case Hopeless => false
  {
    var lost := r.Missing(ms, |r.data|);
    assert x in lost;
    MissingAscends(r, ms, |r.data|);
    y := x;
    if |lost| == 1 {
      assert lost[0] == x;
    } else {
      assert lost[0] == x || lost[1] == x;
      y := if lost[0] == x then lost[1] else lost[0];
    }
  }

  /** A rebuilt byte is the byte that was lost. */
  lemma {:induction false} RebuiltExact(r: Row, ms: Members, truth: Truth, x: nat, o: int)
    requires Agrees(ms, truth) && RowConsistent(r, truth, o)
    requires x < |r.data| && !Present(ms, r.data[x]) && r.Rebuildable(ms, x)
    ensures r.Rebuilt(ms, x, o) == truth[r.data[x]][o]
  {
    var y := PlanMeaning(r, ms, x);
    if r.PlanFor(ms, x).FromBoth? {
      TwoLost(r, ms, truth, x, y, o);
    } else {
      OneLost(r, ms, truth, x, o);
    }
  }

  // ----- rebuilding

  /** The row `stripe` of a RAID6 layout. */
  function RowOf(layout: nat, n: nat, stripe: nat): (r: Row)
    requires n >= 3 && Raid6LayoutKnown(layout)
    ensures |r.data| == n - 2 && r.Valid()
  {
    Row(seq(n - 2, i requires 0 <= i < n - 2 => Raid6Map(layout, n, stripe, i).data),
        Raid6P(layout, n, stripe), Raid6Q(layout, n, stripe),
        seq(n - 2, i requires 0 <= i < n - 2 => QExponent(layout, n, stripe, i)))
  }

  /** Data chunk `i` of the row is where the layout puts it, with the layout's weight. */
  ghost predicate ChunkIs(r: Row, layout: nat, n: nat, stripe: nat, i: nat)
    requires n >= 3 && Raid6LayoutKnown(layout) && i < n - 2
  {
    && i < |r.data| && i < |r.weights|
    && r.data[i] == Raid6Map(layout, n, stripe, i).data && r.weights[i] == QExponent(layout, n, stripe, i)
  }

  ghost predicate ParityIs(r: Row, layout: nat, n: nat, stripe: nat)
    requires n >= 3 && Raid6LayoutKnown(layout)
  {
    r.p == Raid6P(layout, n, stripe) && r.q == Raid6Q(layout, n, stripe)
  }

  /** `r` is row `stripe` of the layout. */
  ghost predicate RowMatches(r: Row, layout: nat, n: nat, stripe: nat) {
    && n >= 3 && Raid6LayoutKnown(layout) && r.Valid() && |r.data| == n - 2
    && (forall i: nat :: i < n - 2 ==> ChunkIs(r, layout, n, stripe, i))
    && ParityIs(r, layout, n, stripe)
  }

  /** Between them the row's members are every member. */
  ghost predicate RowCovers(r: Row, n: nat) {
    forall m: nat :: m < n && m != r.p && m != r.q ==> m in r.data
  }

  /** The row's members are a permutation of the array's. */
  lemma {:induction false} RowOfMatches(layout: nat, n: nat, stripe: nat)
    requires n >= 3 && Raid6LayoutKnown(layout)
    ensures RowMatches(RowOf(layout, n, stripe), layout, n, stripe)
    ensures RowIn(RowOf(layout, n, stripe), n) && RowCovers(RowOf(layout, n, stripe), n)
  {
    var r := RowOf(layout, n, stripe);
    Raid6ChunkOfMember(layout, n, stripe, 0);
    forall i | 0 <= i < n - 2
      ensures r.data[i] < n && r.data[i] != r.p && r.data[i] != r.q && Raid6Chunk(layout, n, stripe, r.data[i]) == i
    {
      Raid6ChunkOfMember(layout, n, stripe, i);
    }
    forall m: nat | m < n && m != r.p && m != r.q
      ensures m in r.data
    {
      Raid6MemberOfChunk(layout, n, stripe, m);
      assert r.data[Raid6Chunk(layout, n, stripe, m)] == m;
    }
  }

  datatype Fetch = Read | Absent | Failed

  /** Read `len` bytes from byte `off` of a member into `dst` at `lo`. */
  method ReadMember(ms: Members, slot: nat, off: int, dst: array<byte>, lo: nat, len: nat) returns (r: Fetch)
    requires slot < |ms| && lo + len <= dst.Length && 0 <= off
    modifies dst
    ensures r.Absent? <==> !Present(ms, slot)
    ensures r.Read? <==> Present(ms, slot) && off + len <= |ms[slot].value|
    ensures r.Read? ==> forall j :: lo <= j < lo + len ==> dst[j] == Visible(ms, slot, off + (j - lo))
    ensures !r.Read? ==> forall j :: 0 <= j < dst.Length ==> dst[j] == old(dst[j])
    ensures forall j :: 0 <= j < dst.Length && (j < lo || lo + len <= j) ==> dst[j] == old(dst[j])
  {
    if ms[slot].None? {
      return Absent;
    }
    var data := ms[slot].value;
    if |data| < off + len {
      return Failed;
    }
    forall j | lo <= j < lo + len {
      dst[j] := data[off + (j - lo)];
    }
    r := Read;
  }

  /** `t.Mul`, for the loops: only what it computes is in view. */
  method Multiply(t: Tables, a: byte, b: byte) returns (r: byte)
    requires t.Valid()
    ensures r == Times(a, b)
  {
    r := t.Mul(a, b);
  }

  /** `t.Pow`, likewise. */
  method RaiseTwo(t: Tables, e: int) returns (r: byte)
    requires t.Valid()
    ensures r == PowZ(e)
  {
    r := t.Pow(e);
  }

  /** Take a data chunk out of P and, weighted by `g`, out of Q. */
  method TakeOut(t: Tables, p: array<byte>, q: array<byte>, d: array<byte>, g: byte)
    requires t.Valid() && p != q && p != d && q != d && p.Length == q.Length == d.Length
    modifies p, q
    ensures forall j :: 0 <= j < p.Length ==> p[j] == Add(old(p[j]), d[j])
    ensures forall j :: 0 <= j < q.Length ==> q[j] == Add(old(q[j]), Times(g, d[j]))
  {
    var j := 0;
    while j < p.Length
      invariant 0 <= j <= p.Length
      invariant forall i :: 0 <= i < j ==> p[i] == Add(old(p[i]), d[i]) && q[i] == Add(old(q[i]), Times(g, d[i]))
      invariant forall i :: j <= i < p.Length ==> p[i] == old(p[i]) && q[i] == old(q[i])
    {
      var m := Multiply(t, g, d[j]);
      p[j], q[j] := Add(p[j], d[j]), Add(q[j], m);
      j := j + 1;
    }
  }

  lemma {:induction false} TakenOut(r: Row, ms: Members, o: int, k: nat)
    requires r.Valid() && k < |r.data|
    ensures r.LeftOfP(ms, o, k + 1) == Add(r.LeftOfP(ms, o, k), Visible(ms, r.data[k], o))
    ensures r.LeftOfQ(ms, o, k + 1) == Add(r.LeftOfQ(ms, o, k), Times(PowZ(r.weights[k]), Visible(ms, r.data[k], o)))
    ensures !Present(ms, r.data[k]) ==>
      r.LeftOfP(ms, o, k + 1) == r.LeftOfP(ms, o, k) && r.LeftOfQ(ms, o, k + 1) == r.LeftOfQ(ms, o, k)
  {
    var (c, w) := (r.Column(ms, o), Weighted(r.Column(ms, o), r.weights));
    AddAssoc(Visible(ms, r.p, o), SumTo(c, k), c[k]);
    AddAssoc(Visible(ms, r.q, o), SumTo(w, k), w[k]);
    AddUnit(r.LeftOfP(ms, o, k));
    AddUnit(r.LeftOfQ(ms, o, k));
    ZeroTimes(PowZ(r.weights[k]));
  }

  /** `p` and `q` are P and Q from byte `off`, with the first `k` data chunks taken out. */
  ghost predicate Reduced(r: Row, ms: Members, off: int, p: seq<byte>, q: seq<byte>, k: nat) {
    && r.Valid() && k <= |r.data| && |p| == |q|
    && (forall j :: 0 <= j < |p| ==> p[j] == r.LeftOfP(ms, off + j, k))
    && (forall j :: 0 <= j < |q| ==> q[j] == r.LeftOfQ(ms, off + j, k))
  }

  lemma {:induction false} ReducedAbsent(r: Row, ms: Members, off: int, p: seq<byte>, q: seq<byte>, k: nat)
    requires Reduced(r, ms, off, p, q, k) && k < |r.data| && !Present(ms, r.data[k])
    ensures Reduced(r, ms, off, p, q, k + 1)
  {
    forall j | 0 <= j < |p|
      ensures p[j] == r.LeftOfP(ms, off + j, k + 1) && q[j] == r.LeftOfQ(ms, off + j, k + 1)
    {
      TakenOut(r, ms, off + j, k);
    }
  }

  lemma {:induction false} ReducedStep(r: Row, ms: Members, off: int, p: seq<byte>, q: seq<byte>, d: seq<byte>,
                                       p': seq<byte>, q': seq<byte>, k: nat)
    requires Reduced(r, ms, off, p, q, k) && k < |r.data| && |p'| == |q'| == |d| == |p|
    requires forall j :: 0 <= j < |d| ==> d[j] == Visible(ms, r.data[k], off + j)
    requires forall j :: 0 <= j < |p| ==> p'[j] == Add(p[j], d[j])
    requires forall j :: 0 <= j < |q| ==> q'[j] == Add(q[j], Times(PowZ(r.weights[k]), d[j]))
    ensures Reduced(r, ms, off, p', q', k + 1)
  {
    forall j | 0 <= j < |p|
      ensures p'[j] == r.LeftOfP(ms, off + j, k + 1) && q'[j] == r.LeftOfQ(ms, off + j, k + 1)
    {
      TakenOut(r, ms, off + j, k);
    }
  }

  /** A member, if it is there, reaches `end`. */
  ghost predicate Reaches(ms: Members, slot: nat, end: int) {
    Present(ms, slot) ==> end <= |ms[slot].value|
  }

  lemma {:induction false} WeightsOfRow(r: Row, layout: nat, n: nat, stripe: nat)
    requires RowMatches(r, layout, n, stripe)
    ensures WeightsOf(r.weights, layout, n, stripe)
  {
    forall i: nat | i < n - 2
      ensures r.weights[i] == QExponent(layout, n, stripe, i)
    {
      assert ChunkIs(r, layout, n, stripe, i);
    }
  }

  /** Member and weight of data chunk `i`. */
  method LookUpChunk(layout: nat, n: nat, stripe: nat, i: nat, ghost r: Row) returns (slot: nat, e: int)
    requires RowMatches(r, layout, n, stripe) && i < n - 2
    ensures slot == r.data[i] && e == r.weights[i]
  {
    assert ChunkIs(r, layout, n, stripe, i);
    slot := Raid6Map(layout, n, stripe, i).data;
    e := ComputeQExponent(layout, n, stripe, i);
  }

  /** One turn of the loop: the data chunk on `slot`, of weight `e`, read and taken out. */
  method ReduceChunk(t: Tables, ms: Members, slot: nat, e: int, off: nat, p: array<byte>, q: array<byte>,
                     d: array<byte>,
                     ghost r: Row, ghost i: nat) returns (got: Fetch)
    requires t.Valid() && p != q && p != d && q != d && p.Length == q.Length == d.Length
    requires Reduced(r, ms, off, p[..], q[..], i) && i < |r.data| && slot == r.data[i] < |ms| && e == r.weights[i]
    modifies p, q, d
    ensures got.Absent? <==> !Present(ms, slot)
    ensures got.Read? <==> Present(ms, slot) && off + p.Length <= |ms[slot].value|
    ensures !got.Failed? ==> Reduced(r, ms, off, p[..], q[..], i + 1)
  {
    got := ReadMember(ms, slot, off, d, 0, d.Length);
    if got.Absent? {
      ReducedAbsent(r, ms, off, p[..], q[..], i);
    } else if got.Read? {
      ghost var (p0, q0, d0) := (p[..], q[..], d[..]);
      var g := RaiseTwo(t, e);
      TakeOut(t, p, q, d, g);
      ReducedStep(r, ms, off, p0, q0, d0, p[..], q[..], i);
    }
  }

  /** P and Q with every readable data chunk taken out, and the chunks that were not there. */
  method ReduceRow(t: Tables, layout: nat, ms: Members, stripe: nat, off: nat, p: array<byte>, q: array<byte>,
                   ghost r: Row)
    returns (ok: bool, missing: seq<nat>)
    requires t.Valid() && RowMatches(r, layout, |ms|, stripe) && p != q && p.Length == q.Length
    requires forall i :: 0 <= i < |r.data| ==> r.data[i] < |ms|
    requires Reduced(r, ms, off, p[..], q[..], 0)
    modifies p, q
    ensures ok <==> DataReaches(r, ms, |r.data|, off + p.Length)
    ensures ok ==> missing == r.Missing(ms, |r.data|) && Reduced(r, ms, off, p[..], q[..], |r.data|)
  {
    var d := new byte[p.Length];
    missing := [];
    var i := 0;
    while i < |ms| - 2
      invariant 0 <= i <= |ms| - 2
      invariant DataReaches(r, ms, i, off + p.Length)
      invariant missing == r.Missing(ms, i)
      invariant Reduced(r, ms, off, p[..], q[..], i)
    {
      var slot, e := LookUpChunk(layout, |ms|, stripe, i, r);
      var got := ReduceChunk(t, ms, slot, e, off, p, q, d, r, i);
      if got.Failed? {
        assert !Reaches(ms, r.data[i], off + p.Length);
        return false, missing;
      }
      if got.Absent? {
        missing := missing + [i];
      }
      i := i + 1;
    }
    ok := true;
  }

  /** The first `k` data members all reach `end`. */
  ghost predicate DataReaches(r: Row, ms: Members, k: nat, end: int) {
    k <= |r.data| && forall i :: 0 <= i < k ==> Reaches(ms, r.data[i], end)
  }

  lemma {:induction false} AllMembersReach(r: Row, ms: Members, end: int)
    requires RowCovers(r, |ms|) && RowIn(r, |ms|)
    ensures AllReach(ms, end) <==> Reaches(ms, r.p, end) && Reaches(ms, r.q, end) && DataReaches(r, ms, |r.data|, end)
  {
    if Reaches(ms, r.p, end) && Reaches(ms, r.q, end) && DataReaches(r, ms, |r.data|, end) {
      EachReaches(r, ms, end);
    }
  }

  lemma {:induction false} EachReaches(r: Row, ms: Members, end: int)
    requires RowCovers(r, |ms|)
    requires Reaches(ms, r.p, end) && Reaches(ms, r.q, end) && DataReaches(r, ms, |r.data|, end)
    ensures AllReach(ms, end)
  {
    forall s | 0 <= s < |ms| && ms[s].Some?
      ensures end <= |ms[s].value|
    {
      if s != r.p && s != r.q {
        assert s in r.data;
        var k :| 0 <= k < |r.data| && r.data[k] == s;
        assert Reaches(ms, r.data[k], end);
      }
    }
  }

  // ----- the rebuild itself

  /** The buffer's bytes outside `lo..lo + len` are as they were. */
  twostate predicate SameOutside(buf: array<byte>, lo: nat, len: nat)
    reads buf
  {
    forall j :: 0 <= j < buf.Length && (j < lo || lo + len <= j) ==> buf[j] == old(buf[j])
  }

  /** Fill `lo..` of the buffer with `ca` times `p` plus `cb` times `q`. */
  method Combine(t: Tables, ca: byte, p: array<byte>, cb: byte, q: array<byte>, buf: array<byte>, lo: nat)
    requires t.Valid() && p != buf && q != buf && p.Length == q.Length && lo + p.Length <= buf.Length
    modifies buf
    ensures forall j :: lo <= j < lo + p.Length ==> buf[j] == Add(Times(ca, p[j - lo]), Times(cb, q[j - lo]))
    ensures SameOutside(buf, lo, p.Length)
  {
    var k := 0;
    while k < p.Length
      invariant 0 <= k <= p.Length
      invariant forall j :: lo <= j < lo + k ==> buf[j] == Add(Times(ca, p[j - lo]), Times(cb, q[j - lo]))
      invariant SameOutside(buf, lo, p.Length)
    {
      var (a, b) := (p[k], q[k]);
      var ma := Multiply(t, ca, a);
      var mb := Multiply(t, cb, b);
      buf[lo + k] := Add(ma, mb);
      k := k + 1;
    }
  }

  method Scale(t: Tables, c: byte, q: array<byte>, buf: array<byte>, lo: nat)
    requires t.Valid() && q != buf && lo + q.Length <= buf.Length
    modifies buf
    ensures forall j :: lo <= j < lo + q.Length ==> buf[j] == Times(c, q[j - lo])
    ensures SameOutside(buf, lo, q.Length)
  {
    var k := 0;
    while k < q.Length
      invariant 0 <= k <= q.Length
      invariant forall j :: lo <= j < lo + k ==> buf[j] == Times(c, q[j - lo])
      invariant SameOutside(buf, lo, q.Length)
    {
      var m := Multiply(t, c, q[k]);
      buf[lo + k] := m;
      k := k + 1;
    }
  }

  method CopyInto(p: array<byte>, buf: array<byte>, lo: nat)
    requires p != buf && lo + p.Length <= buf.Length
    modifies buf
    ensures forall j :: lo <= j < lo + p.Length ==> buf[j] == p[j - lo]
    ensures SameOutside(buf, lo, p.Length)
  {
    forall j | lo <= j < lo + p.Length {
      buf[j] := p[j - lo];
    }
  }

  /** The two coefficients of a lost pair's solution, from the tables. */
  method PairCoefficients(t: Tables, ex: int, ey: int) returns (ok: bool, ca: byte, cb: byte)
    requires t.Valid()
    ensures ok <==> (ey - ex) % 255 != 0
    ensures ok ==> forall rp, rq :: Add(Times(ca, rp), Times(cb, rq)) == PairSolution(ex, ey, rp, rq)
  {
    var gyx := RaiseTwo(t, ey - ex);
    PowZIsOne(ey - ex);
    if Add(gyx, 1) == 0 {
      return false, 0, 0;
    }
    var denom := t.Inv(Add(gyx, 1));
    InverseUnique(Add(gyx, 1), denom, Inverse(ey - ex));
    ca := Multiply(t, gyx, denom);
    var gx := RaiseTwo(t, -ex);
    cb := Multiply(t, gx, denom);
    ok := true;
  }

  lemma {:induction false} StartsReduced(r: Row, ms: Members, off: int, p: seq<byte>, q: seq<byte>)
    requires r.Valid() && |p| == |q|
    requires forall j :: 0 <= j < |p| ==> p[j] == Visible(ms, r.p, off + j) && q[j] == Visible(ms, r.q, off + j)
    ensures Reduced(r, ms, off, p, q, 0)
  {
    forall j | 0 <= j < |p|
      ensures p[j] == r.LeftOfP(ms, off + j, 0) && q[j] == r.LeftOfQ(ms, off + j, 0)
    {
      AddUnit(p[j]);
      AddUnit(q[j]);
    }
  }

  /** The weights of row `stripe` of a layout. */
  ghost predicate WeightsOf(w: seq<int>, layout: nat, n: nat, stripe: nat) {
    && n >= 3 && Raid6LayoutKnown(layout) && |w| == n - 2
    && forall i: nat :: i < n - 2 ==> w[i] == QExponent(layout, n, stripe, i)
  }

  /** Finish the rebuild from what is left of P and Q. */
  method SolveRow(t: Tables, layout: nat, n: nat, stripe: nat, x: nat, p: array<byte>, q: array<byte>,
                  missing: seq<nat>,
                  haveP: bool, haveQ: bool, buf: array<byte>, lo: nat, ghost w: seq<int>) returns (ok: bool)
    requires t.Valid() && WeightsOf(w, layout, n, stripe) && x < |w|
    requires forall i :: 0 <= i < |missing| ==> missing[i] < |w|
    requires p != buf && q != buf && p.Length == q.Length && lo + p.Length <= buf.Length
    modifies buf
    ensures ok <==> !PlanOf(missing, haveP, haveQ, x, w).Hopeless?
    ensures ok ==> forall j :: lo <= j < lo + p.Length ==>
      buf[j] == Solved(PlanOf(missing, haveP, haveQ, x, w), p[j - lo], q[j - lo])
    ensures SameOutside(buf, lo, p.Length)
    ensures !ok ==> buf[..] == old(buf[..])
  {
    if |missing| == 1 && haveP {
      CopyInto(p, buf, lo);
      ok := true;
    } else if |missing| == 1 && haveQ {
      var ex := ComputeQExponent(layout, n, stripe, x);
      var inv := RaiseTwo(t, -ex);
      Scale(t, inv, q, buf, lo);
      ok := true;
    } else if |missing| == 2 && haveP && haveQ {
      var y := if missing[0] == x then missing[1] else missing[0];
      var ex := ComputeQExponent(layout, n, stripe, x);
      var ey := ComputeQExponent(layout, n, stripe, y);
      var ca, cb;
      ok, ca, cb := PairCoefficients(t, ex, ey);
      if ok {
        Combine(t, ca, p, cb, q, buf, lo);
      }
    } else {
      ok := false;
    }
  }

  /** `out` is data chunk `x` rebuilt from byte `off` on. */
  ghost predicate IsRebuilt(r: Row, ms: Members, x: nat, off: int, out: seq<byte>) {
    && r.Valid() && x < |r.data| && r.Rebuildable(ms, x)
    && forall j :: 0 <= j < |out| ==> out[j] == r.Rebuilt(ms, x, off + j)
  }

  lemma {:induction false} SolvedIsRebuilt(r: Row, ms: Members, x: nat, off: int, p: seq<byte>, q: seq<byte>,
                                           out: seq<byte>)
    requires x < |r.data| && Reduced(r, ms, off, p, q, |r.data|) && |out| == |p| && r.Rebuildable(ms, x)
    requires forall j :: 0 <= j < |out| ==> out[j] == Solved(r.PlanFor(ms, x), p[j], q[j])
    ensures IsRebuilt(r, ms, x, off, out)
  {}

  /** P and Q as far as they are there; `false` when one is too short. */
  method ReadParity(ms: Members, pd: nat, qd: nat, off: nat, p: array<byte>, q: array<byte>, ghost r: Row)
    returns (ok: bool, haveP: bool, haveQ: bool)
    requires pd == r.p < |ms| && qd == r.q < |ms| && r.Valid() && p != q && p.Length == q.Length
    requires forall j :: 0 <= j < p.Length ==> p[j] == 0 && q[j] == 0
    modifies p, q
    ensures ok <==> Reaches(ms, r.p, off + p.Length) && Reaches(ms, r.q, off + p.Length)
    ensures ok ==> haveP == Present(ms, r.p) && haveQ == Present(ms, r.q) && Reduced(r, ms, off, p[..], q[..], 0)
  {
    var gotP := ReadMember(ms, pd, off, p, 0, p.Length);
    if gotP.Failed? { return false, false, false; }
    var gotQ := ReadMember(ms, qd, off, q, 0, q.Length);
    if gotQ.Failed? { return false, false, false; }
    StartsReduced(r, ms, off, p[..], q[..]);
    return true, gotP.Read?, gotQ.Read?;
  }

  /** Rebuild data chunk `x` of a row, whose member is missing, into `lo..lo + len` of the buffer. */
  method RebuildRaid6(t: Tables, layout: nat, ms: Members, stripe: nat, x: nat, off: nat,
                      buf: array<byte>, lo: nat, len: nat, ghost r: Row) returns (ok: bool)
    requires t.Valid() && RowMatches(r, layout, |ms|, stripe) && RowIn(r, |ms|) && RowCovers(r, |ms|)
    requires x < |r.data| && lo + len <= buf.Length
    modifies buf
    ensures ok <==> AllReach(ms, off + len) && r.Rebuildable(ms, x)
    ensures ok ==> IsRebuilt(r, ms, x, off, buf[lo..lo + len])
    ensures SameOutside(buf, lo, len)
    ensures !ok ==> buf[..] == old(buf[..])
  {
    AllMembersReach(r, ms, off + len);
    assert ParityIs(r, layout, |ms|, stripe);
    ok := RebuildFrom(t, layout, ms, stripe, x, off, Raid6P(layout, |ms|, stripe), Raid6Q(layout, |ms|, stripe), buf,
                      lo, len, r);
  }

  /** P and Q with every data chunk that is there taken back out. */
  method Residues(t: Tables, layout: nat, ms: Members, stripe: nat, off: nat, pd: nat, qd: nat, len: nat, ghost r: Row)
    returns (ok: bool, haveP: bool, haveQ: bool, missing: seq<nat>, p: array<byte>, q: array<byte>)
    requires t.Valid() && RowMatches(r, layout, |ms|, stripe)
    requires pd == r.p < |ms| && qd == r.q < |ms| && forall i :: 0 <= i < |r.data| ==> r.data[i] < |ms|
    ensures fresh(p) && fresh(q) && p.Length == q.Length == len
    ensures ok <==>
      Reaches(ms, r.p, off + len) && Reaches(ms, r.q, off + len) && DataReaches(r, ms, |r.data|, off + len)
    ensures ok ==> haveP == Present(ms, r.p) && haveQ == Present(ms, r.q) && missing == r.Missing(ms, |r.data|)
    ensures ok ==> Reduced(r, ms, off, p[..], q[..], |r.data|)
  {
    p := new byte[len](_ => 0);
    q := new byte[len](_ => 0);
    missing := [];
    ok, haveP, haveQ := ReadParity(ms, pd, qd, off, p, q, r);
    if ok {
      ok, missing := ReduceRow(t, layout, ms, stripe, off, p, q, r);
    }
  }

  method RebuildFrom(t: Tables, layout: nat, ms: Members, stripe: nat, x: nat, off: nat, pd: nat, qd: nat,
                     buf: array<byte>, lo: nat, len: nat, ghost r: Row) returns (ok: bool)
    requires t.Valid() && RowMatches(r, layout, |ms|, stripe) && x < |r.data| && lo + len <= buf.Length
    requires pd == r.p < |ms| && qd == r.q < |ms| && forall i :: 0 <= i < |r.data| ==> r.data[i] < |ms|
    modifies buf
    ensures ok <==> Reaches(ms, r.p, off + len) && Reaches(ms, r.q, off + len)
                    && DataReaches(r, ms, |r.data|, off + len) && r.Rebuildable(ms, x)
    ensures ok ==> IsRebuilt(r, ms, x, off, buf[lo..lo + len])
    ensures SameOutside(buf, lo, len)
    ensures !ok ==> buf[..] == old(buf[..])
  {
    var haveP, haveQ, missing, p, q;
    ok, haveP, haveQ, missing, p, q := Residues(t, layout, ms, stripe, off, pd, qd, len, r);
    if ok {
      WeightsOfRow(r, layout, |ms|, stripe);
      ok := SolveRow(t, layout, |ms|, stripe, x, p, q, missing, haveP, haveQ, buf, lo, r.weights);
      if ok {
        SolvedIsRebuilt(r, ms, x, off, p[..], q[..], buf[lo..lo + len]);
      }
    }
  }
}
