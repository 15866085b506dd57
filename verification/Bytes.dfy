/** Byte strings, and unsigned decimal numbers in them. */
module Bytes {
  import opened Options

  type byte = b: int | 0 <= b < 256

  const ESC: byte := 0x1b
  const NEWLINE: byte := 0x0a
  const TAB: byte := 0x09

  predicate IsDigit(b: byte) { 0x30 <= b <= 0x39 }

  /** How Rust formats an unsigned integer. */
  function Decimal(n: nat): (s: seq<byte>)
    ensures |s| > 0 && forall i :: 0 <= i < |s| ==> IsDigit(s[i])
  {
    if n < 10 then [0x30 + n] else Decimal(n / 10) + [0x30 + n % 10]
  }

  /** The value of a digit string; `None` when some byte is not a digit. */
  function DigitsValue(s: seq<byte>): Option<nat> {
    if s == [] then Some(0)
    else
      var front := DigitsValue(s[..|s| - 1]);
      if front.Some? && IsDigit(s[|s| - 1]) then Some(front.value * 10 + (s[|s| - 1] - 0x30)) else None
  }

  /** How Rust parses an unsigned integer below `limit`: an optional `+`, at least one digit. */
  function ParseUnsigned(s: seq<byte>, limit: nat): Option<nat> {
    var digits := if |s| > 1 && s[0] == 0x2b then s[1..] else s;
    if digits == [] then None
    else
      var v := DigitsValue(digits);
      if v.Some? && v.value < limit then v else None
  }

  /** The same for a signed integer: a minus in front, and `-limit` is still in range. */
  function ParseSigned(s: seq<byte>, limit: nat): Option<int> {
    if |s| > 1 && s[0] == 0x2d then
      var v := DigitsValue(s[1..]);
      if v.Some? && v.value <= limit then
        var value: int := v.value;
        Some(-value)
      else None
    else
      var v := ParseUnsigned(s, limit);
      if v.Some? then
        var value: int := v.value;
        Some(value)
      else None
  }

  lemma {:induction false} DecimalValue(n: nat)
    ensures DigitsValue(Decimal(n)) == Some(n)
  {
    if n < 10 {
      var s: seq<byte> := [0x30 + n];
      assert s[..0] == [];
    } else {
      var s := Decimal(n);
      assert s[..|s| - 1] == Decimal(n / 10);
      DecimalValue(n / 10);
    }
  }

  /** A formatted number parses back. */
  lemma DecimalParses(n: nat, limit: nat)
    requires n < limit
    ensures ParseUnsigned(Decimal(n), limit) == Some(n)
  {
    DecimalValue(n);
    assert IsDigit(Decimal(n)[0]);
  }

  lemma DecimalParsesSigned(n: nat, limit: nat)
    requires n < limit
    ensures ParseSigned(Decimal(n), limit) == Some(n)
  {
    hide DigitsValue;
    DecimalParses(n, limit);
    assert IsDigit(Decimal(n)[0]);
  }

  // ----- numbers, byte by byte -----

  lemma SomeDecimals()
    ensures Decimal(0) == [0x30] && Decimal(57) == [0x35, 0x37] && Decimal(1049) == [0x31, 0x30, 0x34, 0x39]
  {
    assert Decimal(104) == Decimal(10) + [0x34];
  }

  /** A formatted number is read back within the range and refused outside it, with a sign or without. */
  lemma DecimalRange(n: nat, limit: nat)
    ensures ParseUnsigned(Decimal(n), limit) == if n < limit then Some(n) else None
    ensures ParseUnsigned([0x2b] + Decimal(n), limit) == if n < limit then Some(n) else None
    ensures ParseSigned(Decimal(n), limit) == if n < limit then Some(n) else None
    ensures ParseSigned([0x2d] + Decimal(n), limit) == if n <= limit then Some(0 - n as int) else None
  {
    hide DigitsValue, Decimal;
    DecimalValue(n);
    var s := Decimal(n);
    assert IsDigit(s[0]);
    assert ([0x2b] + s)[1..] == s && ([0x2d] + s)[1..] == s;
  }

  lemma {:induction false} DigitsOnly(s: seq<byte>, k: nat)
    requires k < |s| && !(0x30 <= s[k] <= 0x39)
    ensures DigitsValue(s) == None
    decreases |s|
  {
    if k == |s| - 1 {
    } else {
      DigitsOnly(s[..|s| - 1], k);
    }
  }

  /** Nothing else is a number: not the empty string, not a sign alone, and no byte that is not a digit. */
  lemma NotANumber(s: seq<byte>, k: nat, limit: nat)
    requires s != [] ==> k < |s| && !(0x30 <= s[k] <= 0x39)
    requires |s| > 1 ==> k > 0 || (s[0] != 0x2b && s[0] != 0x2d)
    ensures ParseUnsigned(s, limit) == None && ParseSigned(s, limit) == None
  {
    hide DigitsValue;
    if s != [] {
      DigitsOnly(s, k);
      if k > 0 { DigitsOnly(s[1..], k - 1); }
    }
  }

  function Concat<T>(parts: seq<seq<T>>): seq<T> {
    if parts == [] then [] else parts[0] + Concat(parts[1..])
  }

  lemma Associates<T>(a: seq<T>, b: seq<T>, c: seq<T>)
    ensures a + (b + c) == (a + b) + c
  {
  }

  lemma DropDrop<T>(s: seq<T>, at: nat, n: nat)
    requires at + n <= |s|
    ensures s[at..][n..] == s[at + n..] && s[at..][..n] == s[at..at + n]
  {
  }
}
