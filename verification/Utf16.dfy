/** Partition names: 36 UTF-16 units, little-endian, zero-padded. */
module Utf16 {
  import opened Bytes
  import opened PartitionTable
  import opened Wrappers

  const NAME_UNITS: nat := 36
  const NAME_BYTES: nat := 72
  const REPLACEMENT: char := '\U{FFFD}'

  // ----- characters and units

  predicate IsHigh(u: u16) {
    0xD800 <= u < 0xDC00
  }

  predicate IsLow(u: u16) {
    0xDC00 <= u < 0xE000
  }

  /** A character as one unit, or as a surrogate pair. */
  function Units(c: char): (r: seq<u16>)
    ensures 1 <= |r| <= 2
    ensures |r| == 1 ==> r[0] == c as int && !IsHigh(r[0]) && !IsLow(r[0])
    ensures |r| == 2 ==> IsHigh(r[0]) && IsLow(r[1]) && c as int == Paired(r[0], r[1])
  {
    var n := c as int;
    if n < 0x1_0000 then [n] else [0xD800 + (n - 0x1_0000) / 0x400, 0xDC00 + (n - 0x1_0000) % 0x400]
  }

  function Paired(high: u16, low: u16): int {
    0x1_0000 + (high - 0xD800) * 0x400 + (low - 0xDC00)
  }

  function Encode(s: string): seq<u16> {
    if s == "" then [] else Encode(s[..|s| - 1]) + Units(s[|s| - 1])
  }

  /** The text of a run of units, with the replacement character for each lone surrogate. */
  function DecodeLossy(u: seq<u16>): string {
    if u == [] then ""
    else if IsHigh(u[0]) && |u| > 1 && IsLow(u[1]) then [Paired(u[0], u[1]) as char] + DecodeLossy(u[2..])
    else if IsHigh(u[0]) || IsLow(u[0]) then [REPLACEMENT] + DecodeLossy(u[1..])
    else [u[0] as char] + DecodeLossy(u[1..])
  }

  lemma {:induction false} EncodeFirst(c: char, s: string)
    ensures Encode([c] + s) == Units(c) + Encode(s)
  {
    var t, k := [c] + s, |s| - 1;
    if s == "" {
      assert t[..0] == "" && Encode("") == [];
      assert Encode(t) == Encode(t[..0]) + Units(c);
    } else {
      EncodeFirst(c, s[..k]);
      assert t[..|t| - 1] == [c] + s[..k] && t[|t| - 1] == s[k];
      assert Encode(t) == (Units(c) + Encode(s[..k])) + Units(s[k]);
      AssociativeUnits(Units(c), Encode(s[..k]), Units(s[k]));
    }
  }

  lemma {:induction false} AssociativeUnits(a: seq<u16>, b: seq<u16>, c: seq<u16>)
    ensures (a + b) + c == a + (b + c)
  {
  }

  /** Decoding undoes encoding. */
  lemma {:induction false} DecodeEncode(s: string)
    ensures DecodeLossy(Encode(s)) == s
  {
    if s != "" {
      EncodeFirst(s[0], s[1..]);
      assert s == [s[0]] + s[1..];
      DecodeEncode(s[1..]);
      var u := Encode(s);
      assert u == Units(s[0]) + Encode(s[1..]);
      assert u[|Units(s[0])|..] == Encode(s[1..]);
      if |Units(s[0])| == 2 {
        assert u[0] == Units(s[0])[0] && u[1] == Units(s[0])[1];
      } else {
        assert u[0] == Units(s[0])[0];
      }
    }
  }

  // ----- the name field

  /** The part of a name that is kept: as many whole characters as fit. */
  ghost predicate KeptPrefix(name: string, k: nat) {
    && k <= |name| && |Encode(name[..k])| <= NAME_UNITS
    && (k < |name| ==> |Encode(name[..k + 1])| > NAME_UNITS)
  }

  /** No longer prefix fits. */
  lemma {:induction false} KeptIsLongest(name: string, k: nat, m: nat)
    requires KeptPrefix(name, k) && k < m <= |name|
    ensures |Encode(name[..m])| > NAME_UNITS
    decreases m
  {
    if m > k + 1 {
      KeptIsLongest(name, k, m - 1);
      assert name[..m][..m - 1] == name[..m - 1];
    }
  }

  /** How many characters are kept, at least `k` of them. */
  function KeptLength(name: string, k: nat): (r: nat)
    requires k <= |name| && |Encode(name[..k])| <= NAME_UNITS
    ensures KeptPrefix(name, r)
    decreases |name| - k
  {
    if k < |name| && |Encode(name[..k + 1])| <= NAME_UNITS then KeptLength(name, k + 1) else k
  }

  /** The part of a name a table keeps. */
  function StoredName(name: Option<string>): (r: string)
    ensures |Encode(r)| <= NAME_UNITS
    ensures name.Some? ==> r <= name.value
    ensures name.Some? ==> forall m :: |r| < m <= |name.value| ==> |Encode(name.value[..m])| > NAME_UNITS
  {
    match name
    case None => ""
    case Some(s) =>
      assert s[..0] == "";
      var k := KeptLength(s, 0);
      assert forall m :: k < m <= |s| ==> |Encode(s[..m])| > NAME_UNITS by {
        forall m | k < m <= |s| ensures |Encode(s[..m])| > NAME_UNITS { KeptIsLongest(s, k, m); }
      }
      s[..k]
  }

  lemma {:induction false} KeptUnique(name: string, j: nat, k: nat)
    requires KeptPrefix(name, j) && KeptPrefix(name, k)
    ensures j == k
  {
    if j < k { KeptIsLongest(name, j, k); }
    if k < j { KeptIsLongest(name, k, j); }
  }

  /** The units of a name's longest whole-character prefix that fits the field. */
  method NameUnits(name: Option<string>) returns (units: seq<u16>)
    ensures units == Encode(StoredName(name))
  {
    units := [];
    if name.None? { return; }
    var s := name.value;
    var i: nat := 0;
    while i < |s|
      invariant i <= |s| && units == Encode(s[..i]) && |units| <= NAME_UNITS
    {
      var u := Units(s[i]);
      assert s[..i + 1][..i] == s[..i];
      if (|units| + |u|) * 2 > NAME_BYTES { break; }
      units := units + u;
      i := i + 1;
    }
    assert s[..0] == "";
    assert KeptPrefix(s, i);
    KeptUnique(s, i, KeptLength(s, 0));
  }

  /** Units before the first NUL. */
  function UpToNul(u: seq<u16>): seq<u16> {
    if u == [] || u[0] == 0 then [] else [u[0]] + UpToNul(u[1..])
  }

  /** Text before the first NUL. */
  function CutAtNul(s: string): string {
    if s == "" || s[0] == '\0' then "" else [s[0]] + CutAtNul(s[1..])
  }

  lemma {:induction false} UpToNulStops(u: seq<u16>, rest: seq<u16>)
    requires forall i :: 0 <= i < |u| ==> u[i] != 0
    ensures UpToNul(u + rest) == u + UpToNul(rest)
  {
    if u == [] {
      assert u + rest == rest;
    } else {
      UpToNulStops(u[1..], rest);
      assert (u + rest)[1..] == u[1..] + rest;
    }
  }

  /** Padded with zeros and cut at the first NUL, the units of a name are the units of the name
      cut at its first NUL. */
  lemma {:induction false} UpToNulOfName(s: string, pad: seq<u16>)
    requires pad == [] || pad[0] == 0
    ensures UpToNul(Encode(s) + pad) == Encode(CutAtNul(s))
  {
    if s == "" {
      assert Encode(s) + pad == pad;
    } else {
      var c, t := s[0], s[1..];
      assert s == [c] + t;
      EncodeFirst(c, t);
      AssociativeUnits(Units(c), Encode(t), pad);
      var rest := Encode(t) + pad;
      assert Encode(s) + pad == Units(c) + rest;
      if c == '\0' {
        assert Units(c) == [0] && (Units(c) + rest)[0] == 0;
      } else {
        UpToNulOfName(t, pad);
        UpToNulStops(Units(c), rest);
        CutFirst(c, t);
      }
    }
  }

  lemma {:induction false} CutFirst(c: char, t: string)
    requires c != '\0'
    ensures Encode(CutAtNul([c] + t)) == Units(c) + Encode(CutAtNul(t))
  {
    assert ([c] + t)[1..] == t;
    EncodeFirst(c, CutAtNul(t));
  }

  // ----- units as bytes

  function UnitBytes(u: seq<u16>): (r: seq<byte>)
    ensures |r| == 2 * |u|
  {
    if u == [] then [] else ToLE(u[0], 2) + UnitBytes(u[1..])
  }

  function BytesUnits(b: seq<byte>): seq<u16> {
    Widths();
    if |b| < 2 then [] else [FromLE(b[..2])] + BytesUnits(b[2..])
  }

  lemma {:induction false} BytesOfUnits(u: seq<u16>)
    ensures BytesUnits(UnitBytes(u)) == u
  {
    if u != [] {
      Widths();
      ToFromLE(u[0], 2);
      BytesOfUnits(u[1..]);
      var b := UnitBytes(u);
      assert b[..2] == ToLE(u[0], 2) && b[2..] == UnitBytes(u[1..]);
    }
  }

  function NoUnits(n: nat): (r: seq<u16>)
    ensures |r| == n && forall i :: 0 <= i < n ==> r[i] == 0
  {
    seq(n, _ => 0)
  }

  /** The name field holding these units. */
  function NameField(units: seq<u16>): (r: seq<byte>)
    requires |units| <= NAME_UNITS
    ensures |r| == NAME_BYTES
  {
    UnitBytes(units + NoUnits(NAME_UNITS - |units|))
  }

  /** The name a field holds. */
  function ReadName(field: seq<byte>): Option<string> {
    var u := UpToNul(BytesUnits(field));
    if u == [] then None else Some(DecodeLossy(u))
  }

  function NonEmpty(s: string): Option<string> {
    if s == "" then None else Some(s)
  }

  /** A stored name reads back as what was kept of it, cut at its first NUL, or as no name if
      that is empty. */
  lemma {:induction false} NameReadBack(name: Option<string>)
    ensures ReadName(NameField(Encode(StoredName(name)))) == NonEmpty(CutAtNul(StoredName(name)))
  {
    var kept := StoredName(name);
    var units := Encode(kept);
    var pad := NoUnits(NAME_UNITS - |units|);
    BytesOfUnits(units + pad);
    UpToNulOfName(kept, pad);
    DecodeEncode(CutAtNul(kept));
    EncodeEmpty(CutAtNul(kept));
  }

  lemma {:induction false} EncodeEmpty(s: string)
    ensures Encode(s) == [] <==> s == ""
  {
  }

  // ----- a name written again

  /** After the first NUL of a name there is nothing else. */
  predicate NulsAfter(s: string) {
    forall i :: |CutAtNul(s)| <= i < |s| ==> s[i] == '\0'
  }

  lemma {:induction false} CutIsPrefix(s: string)
    ensures CutAtNul(s) <= s && (|CutAtNul(s)| < |s| ==> s[|CutAtNul(s)|] == '\0')
  {
    if s != "" && s[0] != '\0' { CutIsPrefix(s[1..]); }
  }

  lemma {:induction false} EncodePrefix(s: string, n: nat)
    requires n <= |s|
    ensures Encode(s[..n]) <= Encode(s)
    decreases |s| - n
  {
    if n < |s| {
      EncodePrefix(s, n + 1);
      assert s[..n + 1][..n] == s[..n];
    } else {
      assert s[..n] == s;
    }
  }

  /** Text that fits a name is stored whole. */
  lemma {:induction false} StoredWhole(s: string)
    requires |Encode(s)| <= NAME_UNITS
    ensures StoredName(Some(s)) == s
  {
    assert s[..|s|] == s;
  }

  predicate ZeroFrom(u: seq<u16>, n: nat) {
    forall i :: n <= i < |u| ==> u[i] == 0
  }

  /** The units from character `n` on are all zero exactly when the characters are NULs. */
  lemma {:induction false} NulUnits(s: string, n: nat)
    requires n <= |s|
    ensures ZeroFrom(Encode(s), |Encode(s[..n])|) <==> forall i :: n <= i < |s| ==> s[i] == '\0'
    decreases |s|
  {
    EncodePrefix(s, n);
    if n == |s| {
      assert s[..n] == s;
    } else {
      var k := |s| - 1;
      var init, last := s[..k], Units(s[k]);
      assert init[..n] == s[..n];
      EncodePrefix(init, n);
      NulUnits(init, n);
      LastUnits(Encode(init), last, |Encode(s[..n])|);
      assert (forall i :: n <= i < |s| ==> s[i] == '\0') <==>
        (forall i :: n <= i < k ==> init[i] == '\0') && s[k] == '\0';
    }
  }

  lemma {:induction false} LastUnits(u: seq<u16>, last: seq<u16>, n: nat)
    requires n <= |u|
    ensures ZeroFrom(u + last, n) <==> ZeroFrom(u, n) && ZeroFrom(last, 0)
  {
    if ZeroFrom(u + last, n) {
      forall i | n <= i < |u| ensures u[i] == 0 { assert (u + last)[i] == 0; }
      forall i | 0 <= i < |last| ensures last[i] == 0 { assert (u + last)[|u| + i] == 0; }
    }
  }

  lemma {:induction false} SameFieldUnits(a: seq<u16>, b: seq<u16>)
    requires a <= b && |b| <= NAME_UNITS
    ensures NameField(a) == NameField(b) <==> ZeroFrom(b, |a|)
  {
    var x, y := a + NoUnits(NAME_UNITS - |a|), b + NoUnits(NAME_UNITS - |b|);
    BytesOfUnits(x);
    BytesOfUnits(y);
    assert NameField(a) == NameField(b) <==> x == y;
    if ZeroFrom(b, |a|) {
      assert x == y;
    }
    if x == y {
      forall i | |a| <= i < |b| ensures b[i] == 0 { assert y[i] == x[i]; }
    }
  }

  /** The name field as it is written. */
  function FieldOf(name: Option<string>): seq<byte> {
    NameField(Encode(StoredName(name)))
  }

  /** A name read back is written as it was, exactly when nothing follows its first NUL. */
  lemma {:induction false} NameAgain(name: Option<string>)
    ensures FieldOf(NonEmpty(CutAtNul(StoredName(name)))) == FieldOf(name) <==> NulsAfter(StoredName(name))
  {
    var kept := StoredName(name);
    var cut := CutAtNul(kept);
    CutIsPrefix(kept);
    assert kept[..|cut|] == cut;
    EncodePrefix(kept, |cut|);
    StoredWhole(cut);
    SameFieldUnits(Encode(cut), Encode(kept));
    NulUnits(kept, |cut|);
    assert StoredName(NonEmpty(cut)) == cut;
  }
}
