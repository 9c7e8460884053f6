/**
 * Base16 (section 8 of RFC 4648) as Python spells it: `bytes.hex()` writes
 * lower-case digits, `str.upper()` turns them into the upper-case form, and
 * a strict decoder reads either case back.
 */
module Hex {
  import opened Wrappers
  import opened Bytes

  type nibble = v: int | 0 <= v < 16

  /** The digit `bytes.hex()` writes for a 4-bit value. */
  function LowerDigit(v: nibble): (c: char) {
    if v < 10 then (v + '0' as int) as char else (v - 10 + 'a' as int) as char
  }

  /** `bytes.hex()`: two lower-case digits per byte, high nibble first. */
  function Hex(b: seq<byte>): (s: string)
    ensures |s| == 2 * |b|
  {
    if b == [] then "" else [LowerDigit(b[0] / 16), LowerDigit(b[0] % 16)] + Hex(b[1..])
  }

  /** `str.upper()` restricted to ASCII: only `a`..`z` change. */
  function UpperChar(c: char): char {
    if 'a' <= c <= 'z' then (c as int - 'a' as int + 'A' as int) as char else c
  }

  function Upper(s: string): string {
    seq(|s|, i requires 0 <= i < |s| => UpperChar(s[i]))
  }

  predicate IsUpperHexDigit(c: char) {
    ('0' <= c <= '9') || ('A' <= c <= 'F')
  }

  /** The value of a hexadecimal digit of either case. */
  function DigitValue(c: char): Option<nibble> {
    if '0' <= c <= '9' then Some(c as int - '0' as int)
    else if 'a' <= c <= 'f' then Some(c as int - 'a' as int + 10)
    else if 'A' <= c <= 'F' then Some(c as int - 'A' as int + 10)
    else None
  }

  /** Strict base16 decoding: an even number of hexadecimal digits. */
  function Unhex(s: string): (r: Option<seq<byte>>)
    ensures r.Some? ==> |r.value| * 2 == |s|
  {
    if |s| == 0 then Some([])
    else if |s| == 1 then None
    else match (DigitValue(s[0]), DigitValue(s[1]), Unhex(s[2..]))
      case (Some(hi), Some(lo), Some(rest)) => Some([hi as int * 16 + lo as int] + rest)
      case _ => None
  }

  lemma UpperAppend(a: string, b: string)
    ensures Upper(a + b) == Upper(a) + Upper(b)
  {
  }

  /** Upper-cased `bytes.hex()` output consists of upper-case hexadecimal digits only. */
  lemma {:induction false} UpperHexDigits(b: seq<byte>)
    ensures |Upper(Hex(b))| == 2 * |b|
    ensures forall i :: 0 <= i < 2 * |b| ==> IsUpperHexDigit(Upper(Hex(b))[i])
  {
    if b != [] {
      UpperHexDigits(b[1..]);
      UpperAppend([LowerDigit(b[0] / 16), LowerDigit(b[0] % 16)], Hex(b[1..]));
    }
  }

  /** Reading the upper-cased digits back gives the bytes. */
  lemma {:induction false} UnhexUpperHex(b: seq<byte>)
    ensures Unhex(Upper(Hex(b))) == Some(b)
  {
    if b != [] {
      var d := [LowerDigit(b[0] / 16), LowerDigit(b[0] % 16)];
      UnhexUpperHex(b[1..]);
      UpperAppend(d, Hex(b[1..]));
      var s := Upper(Hex(b));
      assert s[2..] == Upper(Hex(b[1..]));
      assert DigitValue(s[0]) == Some(b[0] / 16) && DigitValue(s[1]) == Some(b[0] % 16);
      assert b == [b[0] / 16 * 16 + b[0] % 16] + b[1..];
    }
  }

  /** An upper-case digit is the upper-cased digit of its own value. */
  lemma DigitRoundTrip(c: char)
    requires IsUpperHexDigit(c)
    ensures DigitValue(c).Some? && UpperChar(LowerDigit(DigitValue(c).value)) == c
  {
  }

  /** The two leading upper-case digits of a string are the upper-cased hex of the byte they spell. */
  lemma PairRoundTrip(c0: char, c1: char)
    requires IsUpperHexDigit(c0) && IsUpperHexDigit(c1)
    ensures var x := DigitValue(c0).value as int * 16 + DigitValue(c1).value as int;
            0 <= x < 256 && Upper([LowerDigit(x / 16), LowerDigit(x % 16)]) == [c0, c1]
  {
    // the calls below keep the proof stable across solver seeds
    DigitRoundTrip(c0);
    DigitRoundTrip(c1);
  }

  /** Every string of upper-case digits of even length is the upper-cased hex of its decoding. */
  lemma {:induction false} UpperHexUnhex(s: string)
    requires |s| % 2 == 0
    requires forall i :: 0 <= i < |s| ==> IsUpperHexDigit(s[i])
    ensures Unhex(s).Some? && Upper(Hex(Unhex(s).value)) == s
    decreases |s|
  {
    if |s| > 0 {
      UpperHexUnhex(s[2..]);
      PairRoundTrip(s[0], s[1]);
      var rest := Unhex(s[2..]).value;
      var x: byte := DigitValue(s[0]).value as int * 16 + DigitValue(s[1]).value as int;
      assert Unhex(s) == Some([x] + rest);
      assert ([x] + rest)[1..] == rest;
      UpperAppend([LowerDigit(x / 16), LowerDigit(x % 16)], Hex(rest));
      assert s == [s[0], s[1]] + s[2..];
    }
  }
}
