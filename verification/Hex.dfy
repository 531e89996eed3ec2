/** The "%x" conversion both ways: what printf writes, and what scanf reads back. */
module Hex {
  import opened Prelude

  function DigitByte(d: nat): Byte
    requires d < 16
  {
    if d < 10 then 48 + d else 87 + d
  }

  predicate IsHexByte(c: Byte) {
    48 <= c <= 57 || 97 <= c <= 102 || 65 <= c <= 70
  }

  function DigitValue(c: Byte): (r: nat)
    requires IsHexByte(c)
    ensures r < 16
  {
    if c <= 57 then c - 48 else if c <= 70 then c - 55 else c - 87
  }

  ghost predicate AllHex(s: seq<Byte>) { forall i :: 0 <= i < |s| ==> IsHexByte(s[i]) }

  // ---- numerals, said without the conversions

  const LOWER_DIGITS: seq<Byte> := [48, 49, 50, 51, 52, 53, 54, 55, 56, 57, 97, 98, 99, 100, 101, 102]
  const UPPER_DIGITS: seq<Byte> := [48, 49, 50, 51, 52, 53, 54, 55, 56, 57, 65, 66, 67, 68, 69, 70]

  predicate IsDigitOf(c: Byte, d: nat) { d < 16 && (c == LOWER_DIGITS[d] || c == UPPER_DIGITS[d]) }

  /** The string is a numeral for n, in either case and with any leading zeros. */
  predicate Spells(s: seq<Byte>, n: nat) {
    if s == [] then n == 0 else IsDigitOf(s[|s| - 1], n % 16) && Spells(s[..|s| - 1], n / 16)
  }

  lemma DigitIff(c: Byte, d: nat)
    ensures IsDigitOf(c, d) <==> IsHexByte(c) && DigitValue(c) == d
  {
    if IsHexByte(c) {
      var v := DigitValue(c);
      assert c == LOWER_DIGITS[v] || c == UPPER_DIGITS[v];
    }
  }

  lemma {:induction false} SpellsIff(s: seq<Byte>, n: nat)
    ensures Spells(s, n) <==> AllHex(s) && Value(s) == n
    decreases |s|
  {
    if s != [] {
      var init, c := s[..|s| - 1], s[|s| - 1];
      assert s == init + [c];
      SpellsIff(init, n / 16);
      DigitIff(c, n % 16);
    }
  }

  /** printf "%x". */
  function Print(n: nat): (s: seq<Byte>)
    ensures s != [] && AllHex(s)
  {
    if n < 16 then [DigitByte(n)] else Print(n / 16) + [DigitByte(n % 16)]
  }

  /** The number that a string of hexadecimal digits denotes. */
  function Value(s: seq<Byte>): nat
    requires AllHex(s)
  {
    if s == [] then 0 else Value(s[..|s| - 1]) * 16 + DigitValue(s[|s| - 1])
  }

  /** The longest prefix made of hexadecimal digits, at most max of them. */
  function HexPrefix(s: seq<Byte>, max: nat): (r: seq<Byte>)
    ensures AllHex(r) && r <= s && |r| <= max
    ensures |r| < |s| && |r| < max ==> !IsHexByte(s[|r|])
    decreases |s|
  {
    if s == [] || max == 0 || !IsHexByte(s[0]) then []
    else
      var r := HexPrefix(s[1..], max - 1);
      assert s == [s[0]] + s[1..];
      [s[0]] + r
  }

  /** What isspace accepts: the space, and tab to carriage return. */
  predicate IsSpaceByte(c: Byte) { c == 32 || 9 <= c <= 13 }

  function SkipSpaces(s: seq<Byte>): seq<Byte> {
    if s != [] && IsSpaceByte(s[0]) then SkipSpaces(s[1..]) else s
  }

  /** scanf "%<max>x": None when there is no digit to convert. */
  function Scan(s: seq<Byte>, max: nat): Option<nat> {
    var d := HexPrefix(SkipSpaces(s), max);
    if d == [] then None else Some(Value(d))
  }

  /** What is printed is the numeral in lower case without leading zeros. */
  lemma {:induction false} PrintIs(n: nat)
    ensures Spells(Print(n), n) && (n > 0 ==> Print(n)[0] != 48)
    ensures forall i :: 0 <= i < |Print(n)| ==> Print(n)[i] in LOWER_DIGITS
  {
    if n < 16 {
      assert [DigitByte(n)][..0] == [] && DigitByte(n) == LOWER_DIGITS[n];
    } else {
      PrintIs(n / 16);
      var p, c := Print(n / 16), DigitByte(n % 16);
      assert c == LOWER_DIGITS[n % 16] && (p + [c])[..|p + [c]| - 1] == p;
    }
  }

  lemma {:induction false} ValuePrint(n: nat)
    ensures Value(Print(n)) == n
  {
    if n < 16 {
      assert [DigitByte(n)][..0] == [];
    } else {
      ValuePrint(n / 16);
      var p, d := Print(n / 16), DigitByte(n % 16);
      assert (p + [d])[..|p + [d]| - 1] == p;
    }
  }

  /** A prefix of hexadecimal digits followed by something else is found whole. */
  lemma {:induction false} PrefixIs(d: seq<Byte>, t: seq<Byte>, max: nat)
    requires AllHex(d) && |d| <= max && (|d| == max || t == [] || !IsHexByte(t[0]))
    ensures HexPrefix(d + t, max) == d
  {
    var r := HexPrefix(d + t, max);
    assert forall i :: 0 <= i < |d| ==> (d + t)[i] == d[i];
    assert forall i :: 0 <= i < |r| ==> r[i] == (d + t)[i];
    assert t != [] ==> (d + t)[|d|] == t[0];
    assert r == (d + t)[..|r|];
  }

  /** Reading back what was printed, when no further digit follows within the field. */
  lemma ScanPrint(n: nat, t: seq<Byte>, max: nat)
    requires |Print(n)| <= max && (|Print(n)| == max || t == [] || !IsHexByte(t[0]))
    ensures Scan(Print(n) + t, max) == Some(n)
  {
    var p := Print(n);
    assert IsHexByte(p[0]) && (p + t)[0] == p[0];
    assert SkipSpaces(p + t) == p + t;
    PrefixIs(p, t, max);
    ValuePrint(n);
  }

  function Power16(k: nat): nat { if k == 0 then 1 else 16 * Power16(k - 1) }

  lemma {:induction false} PrintLength(n: nat, k: nat)
    requires n < Power16(k) && k >= 1
    ensures |Print(n)| <= k
    decreases k
  {
    assert Power16(1) == 16;
    if n >= 16 {
      PrintLength(n / 16, k - 1);
    }
  }

  lemma PrintLength32(n: nat)
    requires n < TWO32
    ensures |Print(n)| <= 8
  {
    assert Power16(8) == TWO32 by {
      assert Power16(2) == 256;
      assert Power16(4) == 65536;
      assert Power16(6) == 16777216;
    }
    PrintLength(n, 8);
  }
}
