/**
 * Base64 over the standard alphabet of section 4 of RFC 4648, as Python's
 * `base64.b64encode` produces it (with `=` padding), and a strict decoder
 * for it. Bytes are integers in [0, 256).
 */
module Base64 {
  import opened Wrappers
  import opened Bytes

  type sextet = v: int | 0 <= v < 64

  /** Characters of the standard alphabet (padding `=` excluded). */
  predicate IsBase64Char(c: char) {
    ('A' <= c <= 'Z') || ('a' <= c <= 'z') || ('0' <= c <= '9') || c == '+' || c == '/'
  }

  /** The value of an alphabet character. */
  function CharValue(c: char): (v: sextet)
    requires IsBase64Char(c)
  {
    if 'A' <= c <= 'Z' then c as int - 'A' as int
    else if 'a' <= c <= 'z' then c as int - 'a' as int + 26
    else if '0' <= c <= '9' then c as int - '0' as int + 52
    else if c == '+' then 62
    else 63
  }

  /** The alphabet character of a 6-bit value; CharValue undoes it. */
  function ValueChar(v: sextet): (c: char)
    ensures IsBase64Char(c) && CharValue(c) == v
  {
    if v < 26 then (v + 'A' as int) as char
    else if v < 52 then (v - 26 + 'a' as int) as char
    else if v < 62 then (v - 52 + '0' as int) as char
    else if v == 62 then '+'
    else '/'
  }

  /** Number of `=` characters the encoding of n bytes ends with. */
  function PadCount(n: nat): (p: nat)
    ensures p <= 2 && (n + p) % 3 == 0
  {
    (3 - n % 3) % 3
  }

  /** The four characters of a full group of three bytes. */
  function EncodeGroup(x: byte, y: byte, z: byte): (s: string)
    ensures |s| == 4 && forall i :: 0 <= i < 4 ==> IsBase64Char(s[i])
  {
    [ValueChar(x / 4), ValueChar(x % 4 * 16 + y / 16), ValueChar(y % 16 * 4 + z / 64), ValueChar(z % 64)]
  }

  /** Standard base64 with padding; each group of up to three bytes gives four characters. */
  function Encode(b: seq<byte>): (s: string)
    ensures |s| == 4 * ((|b| + 2) / 3)
    decreases |b|
  {
    if |b| == 0 then ""
    else if |b| == 1 then
      [ValueChar(b[0] / 4), ValueChar(b[0] % 4 * 16), '=', '=']
    else if |b| == 2 then
      [ValueChar(b[0] / 4), ValueChar(b[0] % 4 * 16 + b[1] / 16), ValueChar(b[1] % 16 * 4), '=']
    else
      EncodeGroup(b[0], b[1], b[2]) + Encode(b[3..])
  }

  /**
   * The encoding of n bytes is alphabet characters followed by exactly
   * PadCount(n) padding characters.
   */
  lemma {:induction false} EncodeShape(b: seq<byte>)
    ensures forall i :: 0 <= i < |Encode(b)| - PadCount(|b|) ==> IsBase64Char(Encode(b)[i])
    ensures forall i :: |Encode(b)| - PadCount(|b|) <= i < |Encode(b)| ==> Encode(b)[i] == '='
    decreases |b|
  {
    if |b| >= 3 {
      var g, t := EncodeGroup(b[0], b[1], b[2]), Encode(b[3..]);
      EncodeShape(b[3..]);
      assert Encode(b) == g + t;
      assert PadCount(|b|) == PadCount(|b| - 3);
      forall i | 0 <= i < |Encode(b)| - PadCount(|b|) ensures IsBase64Char(Encode(b)[i]) {
        if i >= 4 { assert Encode(b)[i] == t[i - 4]; }
      }
    }
  }

  /** The three bytes of a group are recovered from its four 6-bit values. */
  lemma GroupValues(x: byte, y: byte, z: byte)
    ensures (x / 4) * 4 + (x % 4 * 16 + y / 16) / 16 == x
    ensures (x % 4 * 16 + y / 16) % 16 * 16 + (y % 16 * 4 + z / 64) / 4 == y
    ensures (y % 16 * 4 + z / 64) % 4 * 64 + z % 64 == z
  {
    var hy, hz := y / 16, z / 64;
    assert 0 <= hy < 16 && 0 <= hz < 4;
    assert (x % 4 * 16 + hy) / 16 == x % 4 && (x % 4 * 16 + hy) % 16 == hy;
    assert (y % 16 * 4 + hz) / 4 == y % 16 && (y % 16 * 4 + hz) % 4 == hz;
  }

  /**
   * Decodes one quadruple of characters. Padding is accepted only when the
   * quadruple is the last one (`xx==` gives one byte, `xxx=` two). As in
   * Python, bits below the last decoded byte are ignored.
   */
  function DecodeQuad(c0: char, c1: char, c2: char, c3: char, last: bool): (r: Option<seq<byte>>)
    ensures r.Some? ==> 1 <= |r.value| <= 3
  {
    if !IsBase64Char(c0) || !IsBase64Char(c1) then None
    else
      var b0 := CharValue(c0) * 4 + CharValue(c1) / 16;
      if IsBase64Char(c2) && IsBase64Char(c3) then
        Some([b0, CharValue(c1) % 16 * 16 + CharValue(c2) / 4, CharValue(c2) % 4 * 64 + CharValue(c3)])
      else if last && IsBase64Char(c2) && c3 == '=' then
        Some([b0, CharValue(c1) % 16 * 16 + CharValue(c2) / 4])
      else if last && c2 == '=' && c3 == '=' then
        Some([b0])
      else None
  }

  /** Strict decoding: the length must be a multiple of four. */
  function Decode(s: string): (r: Option<seq<byte>>)
    decreases |s|
  {
    if |s| == 0 then Some([])
    else if |s| < 4 then None
    else
      match DecodeQuad(s[0], s[1], s[2], s[3], |s| == 4)
      case None => None
      case Some(head) =>
        match Decode(s[4..])
        case None => None
        case Some(tail) => Some(head + tail)
  }

  /** A full group decodes to its three bytes, wherever it stands. */
  lemma DecodeGroup(x: byte, y: byte, z: byte, last: bool)
    ensures var g := EncodeGroup(x, y, z); DecodeQuad(g[0], g[1], g[2], g[3], last) == Some([x, y, z])
  {
    GroupValues(x, y, z);
  }

  /** A final group of one byte (`xx==`) decodes to that byte. */
  lemma DecodeOne(x: byte)
    ensures DecodeQuad(ValueChar(x / 4), ValueChar(x % 4 * 16), '=', '=', true) == Some([x])
  {
    GroupValues(x, 0, 0);
  }

  /** A final group of two bytes (`xxx=`) decodes to those bytes. */
  lemma DecodeTwo(x: byte, y: byte)
    ensures DecodeQuad(ValueChar(x / 4), ValueChar(x % 4 * 16 + y / 16), ValueChar(y % 16 * 4), '=', true)
         == Some([x, y])
  {
    GroupValues(x, y, 0);
  }

  /** Decoding a quadruple followed by more text. */
  lemma DecodeAppend(g: string, t: string, head: seq<byte>, tail: seq<byte>)
    requires |g| == 4 && DecodeQuad(g[0], g[1], g[2], g[3], |t| == 0) == Some(head)
    requires Decode(t) == Some(tail)
    ensures Decode(g + t) == Some(head + tail)
  {
    var s := g + t;
    assert s[0] == g[0] && s[1] == g[1] && s[2] == g[2] && s[3] == g[3];
    assert s[4..] == t;
  }

  /** Round trip for the one-byte input (`xx==`). */
  lemma DecodeEncodeOne(b: seq<byte>)
    requires |b| == 1
    ensures Decode(Encode(b)) == Some(b)
  {
    DecodeOne(b[0]);
    DecodeAppend(Encode(b), "", [b[0]], []);
    assert Encode(b) + "" == Encode(b);
    assert b == [b[0]] + [];
  }

  /** Round trip for the two-byte input (`xxx=`). */
  lemma DecodeEncodeTwo(b: seq<byte>)
    requires |b| == 2
    ensures Decode(Encode(b)) == Some(b)
  {
    DecodeTwo(b[0], b[1]);
    DecodeAppend(Encode(b), "", [b[0], b[1]], []);
    assert Encode(b) + "" == Encode(b);
    assert b == [b[0], b[1]] + [];
  }

  /** Decoding what Encode produced gives back the bytes. */
  lemma {:induction false} DecodeEncode(b: seq<byte>)
    ensures Decode(Encode(b)) == Some(b)
    decreases |b|
  {
    if |b| == 1 {
      DecodeEncodeOne(b);
    } else if |b| == 2 {
      DecodeEncodeTwo(b);
    } else if |b| >= 3 {
      var t := Encode(b[3..]);
      DecodeGroup(b[0], b[1], b[2], |t| == 0);
      DecodeEncode(b[3..]);
      DecodeAppend(EncodeGroup(b[0], b[1], b[2]), t, [b[0], b[1], b[2]], b[3..]);
      assert b == [b[0], b[1], b[2]] + b[3..];
    }
  }

  /** Encode is injective: different byte strings have different encodings. */
  lemma EncodeInjective(a: seq<byte>, b: seq<byte>)
    ensures Encode(a) == Encode(b) <==> a == b
  {
    if Encode(a) == Encode(b) {
      DecodeEncode(a);
      DecodeEncode(b);
    }
  }
}
