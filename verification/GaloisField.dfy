/** The field GF(2^8) that RAID6's Q syndrome is computed in: bytes as polynomials
    over GF(2), reduced modulo x^8 + x^4 + x^3 + x^2 + 1. */
module GaloisField {
  type byte = bv8

  /** Addition in the field: bytewise exclusive or. */
  function Add(a: byte, b: byte): byte { a ^ b }

  /** Multiplication by {02}: the shifted-out coefficient of x^7 comes back as
      x^4 + x^3 + x^2 + 1. */
  function Double(a: byte): byte {
    (a << 1) ^ (a >> 7) ^ ((a >> 7) << 2) ^ ((a >> 7) << 3) ^ ((a >> 7) << 4)
  }

  function Half(b: byte): byte { b >> 1 }

  predicate Low(b: byte) { b & 1 == 1 }

  function Gate(g: bool, a: byte): byte { if g then a else 0 }

  /** `a` times the polynomial of the `k` lowest bits of `b`, by shift and reduce. */
  function TimesLow(a: byte, b: byte, k: nat): byte
    decreases k, a, b
  {
    if k == 0 then 0 else Add(Gate(Low(b), a), TimesLow(Double(a), Half(b), k - 1))
  }

  /** Multiplication in the field, by shift and reduce. */
  function Times(a: byte, b: byte): byte { TimesLow(a, b, 8) }

  /** {02}^e. */
  function Pow2(e: nat): byte {
    if e == 0 then 1 else Double(Pow2(e - 1))
  }

  lemma {:induction false} AddAssoc(a: byte, b: byte, c: byte)
    ensures Add(Add(a, b), c) == Add(a, Add(b, c))
  {}

  lemma {:induction false} AddComm(a: byte, b: byte)
    ensures Add(a, b) == Add(b, a)
  {}

  lemma {:induction false} AddUnit(a: byte)
    ensures Add(a, 0) == a && Add(0, a) == a && Add(a, a) == 0
  {}

  lemma {:induction false} AddInterchange(a: byte, b: byte, c: byte, d: byte)
    ensures Add(Add(a, b), Add(c, d)) == Add(Add(a, c), Add(b, d))
  {
    AddAssoc(a, b, Add(c, d));
    AddAssoc(b, c, d);
    AddComm(b, c);
    AddAssoc(c, b, d);
    AddAssoc(a, c, Add(b, d));
  }

  lemma {:induction false} DoubleAdd(a: byte, b: byte)
    ensures Double(Add(a, b)) == Add(Double(a), Double(b))
  {}
  lemma {:induction false} DoubleInjective(a: byte, b: byte)
    requires Double(a) == Double(b)
    ensures a == b
  {}
  lemma {:induction false} DoubleZero(a: byte) ensures Double(a) == 0 <==> a == 0 {}

  lemma {:induction false} SplitAdd(a: byte, b: byte)
    ensures Half(Add(a, b)) == Add(Half(a), Half(b))
    ensures Low(Add(a, b)) == (Low(a) != Low(b))
  {}

  lemma {:induction false} GateAdd(g: bool, a: byte, b: byte)
    ensures Gate(g, Add(a, b)) == Add(Gate(g, a), Gate(g, b))
  {}
  lemma {:induction false} GateXor(g: bool, h: bool, a: byte)
    ensures Gate(g != h, a) == Add(Gate(g, a), Gate(h, a))
  {}
  lemma {:induction false} GateDouble(g: bool, a: byte)
    ensures Gate(g, Double(a)) == Double(Gate(g, a))
  {}

  lemma {:induction false} TimesLowAdd(a: byte, b: byte, c: byte, k: nat)
    ensures TimesLow(a, Add(b, c), k) == Add(TimesLow(a, b, k), TimesLow(a, c, k))
    decreases k
  {
    if k > 0 {
      SplitAdd(b, c);
      GateXor(Low(b), Low(c), a);
      TimesLowAdd(Double(a), Half(b), Half(c), k - 1);
      AddInterchange(Gate(Low(b), a), Gate(Low(c), a),
                     TimesLow(Double(a), Half(b), k - 1), TimesLow(Double(a), Half(c), k - 1));
    } else { AddUnit(0); }
  }

  lemma {:induction false} LowTimesAdd(a: byte, b: byte, c: byte, k: nat)
    ensures TimesLow(Add(a, b), c, k) == Add(TimesLow(a, c, k), TimesLow(b, c, k))
    decreases k
  {
    if k > 0 {
      DoubleAdd(a, b);
      GateAdd(Low(c), a, b);
      LowTimesAdd(Double(a), Double(b), Half(c), k - 1);
      AddInterchange(Gate(Low(c), a), Gate(Low(c), b),
                     TimesLow(Double(a), Half(c), k - 1), TimesLow(Double(b), Half(c), k - 1));
    } else { AddUnit(0); }
  }

  lemma {:induction false} TimesLowDouble(a: byte, b: byte, k: nat)
    ensures TimesLow(Double(a), b, k) == Double(TimesLow(a, b, k))
    decreases k
  {
    if k > 0 {
      GateDouble(Low(b), a);
      TimesLowDouble(Double(a), Half(b), k - 1);
      DoubleAdd(Gate(Low(b), a), TimesLow(Double(a), Half(b), k - 1));
    } else { DoubleZero(0); }
  }

  lemma {:induction false} OneTimesTop(b: byte)
    ensures TimesLow(0x20, b, 3) == b << 5
  {
    assert TimesLow(0x80, b >> 2, 1) == b >> 2 << 7;
    assert TimesLow(0x40, b >> 1, 2) == b >> 1 << 6 by { assert Half(b >> 1) == b >> 2; }
  }

  lemma {:induction false} OneTimesMiddle(b: byte)
    ensures TimesLow(0x04, b, 6) == b << 2
  {
    OneTimesTop(b >> 3);
    assert TimesLow(0x10, b >> 2, 4) == b >> 2 << 4 by { assert Half(b >> 2) == b >> 3; }
    assert TimesLow(0x08, b >> 1, 5) == b >> 1 << 3 by { assert Half(b >> 1) == b >> 2; }
  }

  lemma {:induction false} OneTimes(b: byte)
    ensures Times(1, b) == b
  {
    OneTimesMiddle(b >> 2);
    assert TimesLow(0x02, b >> 1, 7) == b >> 1 << 1 by { assert Half(b >> 1) == b >> 2; }
  }

  lemma {:induction false} PowTimesPow(i: nat, j: nat)
    ensures Times(Pow2(i), Pow2(j)) == Pow2(i + j)
  {
    if i == 0 {
      OneTimes(Pow2(j));
    } else {
      PowTimesPow(i - 1, j);
      TimesLowDouble(Pow2(i - 1), Pow2(j), 8);
    }
  }


  /** Eight doublings. */
  function Oct(a: byte): byte {
    Double(Double(Double(Double(Double(Double(Double(Double(a))))))))
  }

  lemma {:induction false} Jump(e: nat, v: byte)
    requires Pow2(e) == v
    ensures Pow2(e + 8) == Oct(v)
  {
    assert Pow2(e + 1) == Double(v);
    assert Pow2(e + 3) == Double(Double(Double(v)));
    assert Pow2(e + 5) == Double(Double(Double(Double(Double(v)))));
    assert Pow2(e + 7) == Double(Double(Double(Double(Double(Double(Double(v)))))));
  }

  /** {02} walked round its cycle, eight steps at a time. */
  lemma {:induction false} PowerWalk()
    ensures Pow2(16) == 0x4c && Pow2(56) == 0x5d && Pow2(88) == 0xfe && Pow2(248) == 0x1b
  {
    Jump(0, 0x01);
    Jump(8, 0x1d);
    Jump(16, 0x4c);
    Jump(24, 0x8f);
    Jump(32, 0x9d);
    Jump(40, 0x6a);
    Jump(48, 0x46);
    Jump(56, 0x5d);
    Jump(64, 0x5f);
    Jump(72, 0x65);
    Jump(80, 0xfd);
    Jump(88, 0xfe);
    Jump(96, 0xd9);
    Jump(104, 0x0d);
    Jump(112, 0x81);
    Jump(120, 0x3b);
    Jump(128, 0x85);
    Jump(136, 0x4f);
    Jump(144, 0xa8);
    Jump(152, 0x49);
    Jump(160, 0xe6);
    Jump(168, 0xfc);
    Jump(176, 0xe3);
    Jump(184, 0x95);
    Jump(192, 0x82);
    Jump(200, 0x1c);
    Jump(208, 0x51);
    Jump(216, 0xc3);
    Jump(224, 0x12);
    Jump(232, 0xf7);
    Jump(240, 0x2c);
  }

  lemma {:induction false} PowersOfTwo()
    ensures Pow2(15) != 1 && Pow2(51) != 1 && Pow2(85) != 1 && Pow2(255) == 1
  {
    PowerWalk();
    assert Pow2(16) == Double(Pow2(15));
    assert Pow2(56) == Double(Double(Double(Double(Double(Pow2(51)))))) by {
      assert Pow2(53) == Double(Double(Pow2(51)));
    }
    assert Pow2(88) == Double(Double(Double(Pow2(85)))) by { assert Pow2(86) == Double(Pow2(85)); }
    assert Pow2(250) == 0x6c;
    assert Pow2(252) == 0xad;
    assert Pow2(254) == 0x8e;
  }

  lemma {:induction false} PowCancel(i: nat, d: nat)
    requires Pow2(i) == Pow2(i + d)
    ensures Pow2(d) == 1
  {
    if i > 0 {
      DoubleInjective(Pow2(i - 1), Pow2(i - 1 + d));
      PowCancel(i - 1, d);
    }
  }

  lemma {:induction false} PowMultiple(d: nat, q: nat)
    requires Pow2(d) == 1
    ensures Pow2(q * d) == 1
  {
    if q == 0 {
      assert q * d == 0;
    } else {
      PowMultiple(d, q - 1);
      assert (q - 1) * d + d == q * d;
      PowTimesPow((q - 1) * d, d);
      OneTimes(1);
    }
  }

  lemma {:induction false} PowRemainder(e: nat, d: nat)
    requires d > 0 && Pow2(d) == 1
    ensures Pow2(e % d) == Pow2(e)
  {
    PowMultiple(d, e / d);
    PowTimesPow(e / d * d, e % d);
    OneTimes(Pow2(e % d));
    assert e / d * d + e % d == e;
  }

  lemma {:induction false} ProductAtLeast(q: nat, d: nat)
    requires q >= 16 && d >= 16
    ensures q * d >= 256
  {}

  lemma {:induction false} DivisorsOf255(d: nat)
    requires 0 < d < 255 && 255 % d == 0
    ensures 15 % d == 0 || 51 % d == 0 || 85 % d == 0
  {
    var q := 255 / d;
    assert q * d == 255;
    if d < 16 {
      assert d in {1, 2, 3, 4, 5, 6, 7, 8, 9, 10, 11, 12, 13, 14, 15};
    } else {
      if q >= 16 { ProductAtLeast(q, d); }
      assert q in {1, 2, 3, 4, 5, 6, 7, 8, 9, 10, 11, 12, 13, 14, 15};
    }
  }

  /** {02} generates the whole multiplicative group: its order is exactly 255. */
  lemma {:induction false} OrderIs255(d: nat)
    requires 0 < d < 255
    ensures Pow2(255) == 1 && Pow2(d) != 1
  {
    PowersOfTwo();
    if Pow2(d) == 1 {
      PowRemainder(255, d);
      if 255 % d != 0 {
        OrderIs255(255 % d);
      } else {
        DivisorsOf255(d);
        PowRemainder(15, d);
        PowRemainder(51, d);
        PowRemainder(85, d);
      }
    }
  }

  lemma {:induction false} PowInjective(i: nat, j: nat)
    requires i < 255 && j < 255 && Pow2(i) == Pow2(j)
    ensures i == j
  {
    if i < j {
      PowCancel(i, j - i);
      OrderIs255(j - i);
    } else if j < i {
      PowCancel(j, i - j);
      OrderIs255(i - j);
    }
  }

  lemma {:induction false} PowNonZero(e: nat)
    ensures Pow2(e) != 0
  {
    if e > 0 {
      PowNonZero(e - 1);
      DoubleZero(Pow2(e - 1));
    }
  }

  /** A byte as a table index. */
  function Index(a: byte): (r: nat)
    ensures r < 256
  {
    a as int
  }

  lemma {:induction false} IndexInjective(a: byte, b: byte)
    requires Index(a) == Index(b)
    ensures a == b
  {}

  ghost function PowersBelow(k: nat): set<int> {
    if k == 0 then {} else PowersBelow(k - 1) + {Index(Pow2(k - 1))}
  }

  lemma {:induction false} PowerOf(k: nat, v: int) returns (i: nat)
    requires v in PowersBelow(k)
    ensures i < k && Index(Pow2(i)) == v
  {
    if v == Index(Pow2(k - 1)) {
      i := k - 1;
    } else {
      i := PowerOf(k - 1, v);
    }
  }

  lemma {:induction false} PowersBelowCount(k: nat)
    requires k <= 255
    ensures |PowersBelow(k)| == k
  {
    if k > 0 {
      PowersBelowCount(k - 1);
      if Index(Pow2(k - 1)) in PowersBelow(k - 1) {
        var i := PowerOf(k - 1, Index(Pow2(k - 1)));
        IndexInjective(Pow2(i), Pow2(k - 1));
        PowInjective(i, k - 1);
      }
    }
  }

  ghost function UpTo(n: nat): set<int> {
    if n == 0 then {} else UpTo(n - 1) + {n}
  }

  lemma {:induction false} UpToCount(n: nat)
    ensures |UpTo(n)| == n && forall v :: v in UpTo(n) <==> 1 <= v <= n
  {
    if n > 0 {
      UpToCount(n - 1);
    }
  }

  lemma {:induction false} SubsetOfSameSize(a: set<int>, b: set<int>)
    requires a <= b && |a| == |b|
    ensures a == b
  {
    assert |b - a| == 0 by { assert b == a + (b - a); }
    assert b - a == {};
  }

  /** Every non-zero byte is a power of {02}. */
  lemma {:induction false} PowSurjective(a: byte) returns (i: nat)
    requires a != 0
    ensures i < 255 && Pow2(i) == a
  {
    var s := PowersBelow(255);
    PowersBelowCount(255);
    UpToCount(255);
    forall v | v in s
      ensures v in UpTo(255)
    {
      var i := PowerOf(255, v);
      NonZeroPowerIndex(i);
    }
    SubsetOfSameSize(s, UpTo(255));
    if Index(a) == 0 { IndexInjective(a, 0); }
    i := PowerOf(255, Index(a));
    IndexInjective(Pow2(i), a);
  }

  lemma {:induction false} NonZeroPowerIndex(i: nat)
    ensures 1 <= Index(Pow2(i)) < 256
  {
    PowNonZero(i);
    if Index(Pow2(i)) == 0 { IndexInjective(Pow2(i), 0); }
  }

  lemma {:induction false} PowPeriod(e: nat)
    ensures Pow2(e % 255) == Pow2(e)
  {
    PowersOfTwo();
    PowRemainder(e, 255);
  }

  lemma {:induction false} ZeroTimes(a: byte)
    ensures Times(0, a) == 0 && Times(a, 0) == 0
  {
    LowTimesAdd(0, 0, a, 8);
    TimesLowAdd(a, 0, 0, 8);
    AddUnit(0);
    AddUnit(Times(0, a));
    AddUnit(Times(a, 0));
  }

  lemma {:induction false} TimesComm(a: byte, b: byte)
    ensures Times(a, b) == Times(b, a)
  {
    ZeroTimes(a);
    ZeroTimes(b);
    if a != 0 && b != 0 {
      var i := PowSurjective(a);
      var j := PowSurjective(b);
      PowTimesPow(i, j);
      PowTimesPow(j, i);
    }
  }

  lemma {:induction false} TimesAssoc(a: byte, b: byte, c: byte)
    ensures Times(Times(a, b), c) == Times(a, Times(b, c))
  {
    ZeroTimes(a);
    ZeroTimes(c);
    ZeroTimes(Times(a, b));
    ZeroTimes(Times(b, c));
    ZeroTimes(b);
    if a != 0 && b != 0 && c != 0 {
      var i := PowSurjective(a);
      var j := PowSurjective(b);
      var k := PowSurjective(c);
      PowTimesPow(i, j);
      PowTimesPow(j, k);
      PowTimesPow(i + j, k);
      PowTimesPow(i, j + k);
    }
  }

  /** {02}^e for any integer exponent: the group has order 255. */
  function PowZ(e: int): byte { Pow2(e % 255) }

  lemma {:induction false} PowZAdd(x: int, y: int)
    ensures Times(PowZ(x), PowZ(y)) == PowZ(x + y)
  {
    PowTimesPow(x % 255, y % 255);
    PowPeriod(x % 255 + y % 255);
    assert (x % 255 + y % 255) % 255 == (x + y) % 255;
  }

  /** The exponent and logarithm tables. */
  datatype Tables = Tables(exp: seq<byte>, log: seq<nat>) {
    ghost predicate Valid() {
      && |exp| == 256 && |log| == 256
      && (forall i: nat :: i < 255 ==> exp[i] == Pow2(i))
      && (forall i: nat :: i < 255 ==> log[Index(Pow2(i))] == i)
      && exp[255] == exp[0]
    }

    lemma {:induction false} LogOf(a: byte)
      requires Valid() && a != 0
      ensures log[Index(a)] < 255 && Pow2(log[Index(a)]) == a
    {
      var i := PowSurjective(a);
      assert log[Index(Pow2(i))] == i;
    }

    function Pow(e: int): (r: byte)
      requires Valid()
      ensures r == PowZ(e)
    {
      exp[e % 255]
    }

    function Mul(a: byte, b: byte): (r: byte)
      requires Valid()
      ensures r == Times(a, b)
    {
      ZeroTimes(a);
      ZeroTimes(b);
      if a == 0 || b == 0 then 0
      else
        LogOf(a);
        LogOf(b);
        MulIsPower(log[Index(a)], log[Index(b)]);
        exp[(log[Index(a)] + log[Index(b)]) % 255]
    }

    function Inv(a: byte): (r: byte)
      requires Valid() && a != 0
      ensures Times(a, r) == 1
    {
      LogOf(a);
      InvIsPower(log[Index(a)]);
      exp[(255 - log[Index(a)]) % 255]
    }
  }

  lemma {:induction false} MulIsPower(i: nat, j: nat)
    ensures Times(Pow2(i), Pow2(j)) == Pow2((i + j) % 255)
  {
    PowTimesPow(i, j);
    PowPeriod(i + j);
  }

  lemma {:induction false} InvIsPower(i: nat)
    requires i < 255
    ensures Times(Pow2(i), Pow2((255 - i) % 255)) == 1
  {
    PowPeriod(255 - i);
    PowTimesPow(i, 255 - i);
    PowPeriod(255);
  }

  lemma {:induction false} PowFitsTable(i: nat)
    requires i < 255
    ensures 0 < Index(Pow2(i)) && forall j: nat :: j < i ==> Index(Pow2(j)) != Index(Pow2(i))
  {
    NonZeroPowerIndex(i);
    forall j: nat | j < i
      ensures Index(Pow2(j)) != Index(Pow2(i))
    {
      if Index(Pow2(j)) == Index(Pow2(i)) {
        IndexInjective(Pow2(j), Pow2(i));
        PowInjective(j, i);
      }
    }
  }

  /** The low byte of the 16-bit register the tables are stepped with. */
  function Low8(x: bv16): byte { (x & 0xff) as byte }

  /** One step of the table loop: shift the register, reduce it by 0x11d. */
  method StepRegister(x: bv16) returns (y: bv16)
    requires x < 0x100
    ensures y < 0x100 && Low8(y) == Double(Low8(x))
  {
    y := x << 1;
    if y & 0x100 != 0 {
      y := y ^ 0x11d;
    }
  }

  /** Record {02}^i in both tables. */
  method Record(exp: array<byte>, log: array<nat>, i: nat, b: byte)
    requires exp as object != log
    requires exp.Length == log.Length == 256 && i < 255 && b == Pow2(i)
    requires forall j: nat :: j < i ==> exp[j] == Pow2(j)
    requires forall j: nat :: j < i ==> log[Index(Pow2(j))] == j
    modifies exp, log
    ensures forall j: nat :: j <= i ==> exp[j] == Pow2(j)
    ensures forall j: nat :: j <= i ==> log[Index(Pow2(j))] == j
    ensures log[0] == old(log[0])
  {
    PowFitsTable(i);
    exp[i] := b;
    log[Index(b)] := i;
  }

  /** The tables, filled by stepping a 16-bit register through the powers of {02}. */
  method BuildTables() returns (t: Tables)
    ensures t.Valid() && t.log[0] == 0
  {
    var exp := new byte[256](_ => 0);
    var log := new nat[256](_ => 0);
    var x: bv16 := 1;
    var i := 0;
    while i < 255
      invariant 0 <= i <= 255 && x < 0x100 && Low8(x) == Pow2(i)
      invariant forall j: nat :: j < i ==> exp[j] == Pow2(j)
      invariant forall j: nat :: j < i ==> log[Index(Pow2(j))] == j
      invariant log[0] == 0
    {
      Record(exp, log, i, Low8(x));
      x := StepRegister(x);
      i := i + 1;
    }
    exp[255] := exp[0];
    t := Tables(exp[..], log[..]);
  }
}
