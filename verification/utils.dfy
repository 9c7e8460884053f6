/**
 * The identity and signing helpers of the client library: request
 * signatures, device identifiers and the session-token decoder.
 *
 * HMAC-SHA1 is not modelled: every operation takes it as a parameter of
 * type Hmac, of which only the 20-byte digest length is known. The random
 * bytes of a device identifier and the UTF-8/JSON decoder are parameters too.
 */
module Utils {
  import opened Wrappers
  import opened Bytes
  import Base64
  import Hex

  /** A SHA-1 digest: 20 bytes. */
  type Digest = s: seq<byte> | |s| == 20 witness seq(20, _ => 0)

  /** The 20 bytes of `os.urandom(20)`: not a digest, but of the same length. */
  type RandomBytes = Digest

  /** HMAC-SHA1(key, message). */
  type Hmac = (seq<byte>, seq<byte>) -> Digest

  /** The one-byte version prefix of signatures and device identifiers. */
  const Prefix: seq<byte> := [0x19]

  const DeviceKey: seq<byte> :=
    [0xE7, 0x30, 0x9E, 0xCC, 0x09, 0x53, 0xC6, 0xFA, 0x60, 0x00,
     0x5B, 0x27, 0x65, 0xF9, 0x9D, 0xBB, 0xC9, 0x65, 0xC8, 0xE9]

  const SignatureKey: seq<byte> :=
    [0xDF, 0xA5, 0xED, 0x19, 0x2D, 0xDA, 0x6E, 0x88, 0xA1, 0x2F,
     0xE1, 0x21, 0x30, 0xDC, 0x62, 0x06, 0xB1, 0x25, 0x1E, 0x44]

  // ---------------------------------------------------------------------
  // Request signature
  // ---------------------------------------------------------------------

  /**
   * The request signature: standard base64 of the prefix byte followed by
   * HMAC-SHA1(SignatureKey, data). The 21 bytes fill seven whole groups,
   * so the result is 28 alphabet characters with no padding, and it
   * decodes to exactly those 21 bytes.
   */
  function GenerateSignature(hmac: Hmac, data: seq<byte>): (sig: string)
    ensures |sig| == 28
    ensures forall i :: 0 <= i < |sig| ==> Base64.IsBase64Char(sig[i])
    ensures Base64.Decode(sig) == Some(Prefix + hmac(SignatureKey, data))
  {
    var signed := Prefix + hmac(SignatureKey, data);
    Base64.EncodeShape(signed);
    Base64.DecodeEncode(signed);
    Base64.Encode(signed)
  }

  /**
   * The signature depends on the body only through its digest: two bodies
   * get the same signature exactly when their digests agree.
   */
  lemma SignatureDeterminedByDigest(hmac: Hmac, a: seq<byte>, b: seq<byte>)
    ensures GenerateSignature(hmac, a) == GenerateSignature(hmac, b)
        <==> hmac(SignatureKey, a) == hmac(SignatureKey, b)
  {
    Base64.EncodeInjective(Prefix + hmac(SignatureKey, a), Prefix + hmac(SignatureKey, b));
    if Prefix + hmac(SignatureKey, a) == Prefix + hmac(SignatureKey, b) {
      assert hmac(SignatureKey, a) == (Prefix + hmac(SignatureKey, a))[1..];
    }
  }

  // ---------------------------------------------------------------------
  // Device identifier
  // ---------------------------------------------------------------------

  /**
   * The device identifier built from 20 random bytes: upper-cased hex of
   * the 21-byte identifier (prefix and random bytes) followed by the hex
   * HMAC-SHA1(DeviceKey, identifier).
   */
  function GenerateDeviceId(hmac: Hmac, random: RandomBytes): (id: string)
  {
    var identifier := Prefix + random;
    Hex.Upper(Hex.Hex(identifier) + Hex.Hex(hmac(DeviceKey, identifier)))
  }

  /**
   * The format of a device identifier: 82 upper-case hexadecimal digits,
   * starting with "19", whose last 40 digits are the HMAC of the 21 bytes
   * spelled by the first 42.
   */
  predicate IsDeviceId(hmac: Hmac, s: string) {
    && |s| == 82
    && (forall i :: 0 <= i < |s| ==> Hex.IsUpperHexDigit(s[i]))
    && s[..2] == "19"
    && Hex.Unhex(s[..42]).Some?
    && s[42..] == Hex.Upper(Hex.Hex(hmac(DeviceKey, Hex.Unhex(s[..42]).value)))
  }

  /** Every generated identifier has the format, and its first 42 digits spell prefix and random bytes. */
  lemma GeneratedDeviceIdIsWellFormed(hmac: Hmac, random: RandomBytes)
    ensures IsDeviceId(hmac, GenerateDeviceId(hmac, random))
    ensures Hex.Unhex(GenerateDeviceId(hmac, random)[..42]) == Some(Prefix + random)
  {
    var identifier := Prefix + random;
    var head, tail := Hex.Hex(identifier), Hex.Hex(hmac(DeviceKey, identifier));
    var id := GenerateDeviceId(hmac, random);
    Hex.UpperAppend(head, tail);
    assert id[..42] == Hex.Upper(head) && id[42..] == Hex.Upper(tail);
    Hex.UpperHexDigits(identifier);
    Hex.UpperHexDigits(hmac(DeviceKey, identifier));
    Hex.UnhexUpperHex(identifier);
    assert head[..2] == "19";
    assert id[..2] == Hex.Upper(head)[..2];
  }

  /** Conversely, every identifier of the format is what some random bytes generate. */
  lemma WellFormedDeviceIdIsGenerated(hmac: Hmac, s: string)
    requires IsDeviceId(hmac, s)
    ensures var identifier := Hex.Unhex(s[..42]).value;
            |identifier| == 21 && identifier[..1] == Prefix
            && GenerateDeviceId(hmac, identifier[1..]) == s
  {
    var identifier := Hex.Unhex(s[..42]).value;
    Hex.UpperHexUnhex(s[..42]);
    assert Hex.Upper(Hex.Hex(identifier)) == s[..42];
    assert Hex.Hex(identifier)[..2] == Hex.Hex(identifier[..1]);
    assert identifier[..1] == Prefix;
    assert identifier == Prefix + identifier[1..];
    Hex.UpperAppend(Hex.Hex(identifier), Hex.Hex(hmac(DeviceKey, identifier)));
    assert s == s[..42] + s[42..];
  }

  // ---------------------------------------------------------------------
  // Session token
  // ---------------------------------------------------------------------

  /** `str.replace(from, to)` with one-character arguments: every occurrence is replaced. */
  function Replace(s: string, from: char, to: char): (r: string)
    ensures |r| == |s|
    ensures forall i :: 0 <= i < |s| ==> r[i] == (if s[i] == from then to else s[i])
  {
    if s == [] then []
    else [if s[0] == from then to else s[0]] + Replace(s[1..], from, to)
  }

  /** `functools.reduce(lambda a, e: a.replace(*e), subs, s)`. */
  function ReplaceEach(s: string, subs: seq<(char, char)>): string
    decreases |subs|
  {
    if subs == [] then s else ReplaceEach(Replace(s, subs[0].0, subs[0].1), subs[1..])
  }

  /** The substitutions from the URL-safe alphabet back to the standard one. */
  const UrlSafeSubstitutions: seq<(char, char)> := [('-', '+'), ('_', '/')]

  /** The character a URL-safe character stands for in the standard alphabet. */
  function FromUrlSafe(c: char): char {
    if c == '-' then '+' else if c == '_' then '/' else c
  }

  /** Euclidean remainder by four, from a witness of the division. */
  lemma ModFour(x: int, q: int, r: int)
    requires x == 4 * q + r && 0 <= r < 4
    ensures x % 4 == r
  {
  }

  /** Python's `-n % 4` is the distance from n up to the next multiple of four. */
  lemma NegModFour(n: nat)
    ensures (-(n as int)) % 4 == (4 - n % 4) % 4
    ensures (n + (-(n as int)) % 4) % 4 == 0
  {
    // the steps below keep the proof stable across solver seeds
    if n % 4 == 0 {
      ModFour(-(n as int), -(n / 4), 0);
    } else {
      ModFour(-(n as int), -(n / 4) - 1, 4 - n % 4);
      ModFour(n + (4 - n % 4), n / 4 + 1, 0);
    }
  }

  /** Padding that brings a string of length n to a multiple of four: `"=" * (-n % 4)`. */
  function Padding(n: nat): (p: string)
    ensures |p| <= 3 && (n + |p|) % 4 == 0
    ensures forall i :: 0 <= i < |p| ==> p[i] == '='
  {
    NegModFour(n);
    seq((-(n as int)) % 4, _ => '=')
  }

  /** The token turned into padded standard base64, before decoding. */
  function NormalizeToken(token: string): string {
    ReplaceEach(token + Padding(|token|), UrlSafeSubstitutions)
  }

  /**
   * Normalisation keeps every token character in place, mapping `-` to `+`
   * and `_` to `/`, and appends (-len) mod 4 padding characters, so the
   * length becomes a multiple of four.
   */
  lemma NormalizeTokenShape(token: string)
    ensures var s := NormalizeToken(token);
            && |s| == |token| + (-|token|) % 4 && |s| % 4 == 0
            && (forall i :: 0 <= i < |token| ==> s[i] == FromUrlSafe(token[i]))
            && (forall i :: |token| <= i < |s| ==> s[i] == '=')
  {
    // the steps below keep the proof stable across solver seeds
    var padded := token + Padding(|token|);
    var once := Replace(padded, '-', '+');
    assert ReplaceEach(padded, UrlSafeSubstitutions) == ReplaceEach(once, [('_', '/')]);
    assert ReplaceEach(once, [('_', '/')]) == Replace(once, '_', '/');
  }

  /** Python's reading of a slice bound against a sequence of length n. */
  function SliceBound(i: int, n: nat): (j: nat)
    ensures j <= n
  {
    if i < 0 then (if i + n < 0 then 0 else i + n)
    else if i > n then n
    else i
  }

  /** Python's `s[start:stop]`: negative bounds count from the end and out-of-range bounds are clipped. */
  function Slice<T>(s: seq<T>, start: int, stop: int): seq<T> {
    var lo, hi := SliceBound(start, |s|), SliceBound(stop, |s|);
    if lo < hi then s[lo..hi] else []
  }

  /**
   * `blob[1:-20]`: the JSON part between the leading marker byte and the
   * 20-byte trailer; empty when the blob has at most 21 bytes.
   */
  function FrameBody(blob: seq<byte>): (body: seq<byte>)
    ensures |blob| <= 21 ==> body == []
    ensures |blob| > 21 ==> body == blob[1..|blob| - 20]
  {
    Slice(blob, 1, -20)
  }

  /** A decoded JSON value. Numbers are integers only. */
  datatype Json =
    | Null
    | Boolean(b: bool)
    | Number(n: int)
    | Str(s: string)
    | Array(items: seq<Json>)
    | Object(fields: map<string, Json>)

  /** UTF-8 decoding followed by JSON parsing; None for text that is not UTF-8 or not JSON. */
  type JsonParser = seq<byte> -> Option<Json>

  /** How token decoding fails: the exception Python would raise. */
  datatype DecodeError =
    | InvalidBase64   // binascii.Error
    | InvalidJson     // UnicodeDecodeError or msgspec.DecodeError
    | NotAnObject     // TypeError from subscripting a non-mapping
    | MissingKey      // KeyError

  /** `decode_session_id`: normalise, base64-decode, cut off the framing, parse. */
  function DecodeSessionId(parse: JsonParser, token: string): Result<Json, DecodeError> {
    match Base64.Decode(NormalizeToken(token))
    case None => Err(InvalidBase64)
    case Some(blob) =>
      match parse(FrameBody(blob))
      case None => Err(InvalidJson)
      case Some(value) => Ok(value)
  }

  /** `session_id_to_user_id`: entry "2" of the decoded object. */
  function SessionIdToUserId(parse: JsonParser, token: string): Result<Json, DecodeError> {
    match DecodeSessionId(parse, token)
    case Err(e) => Err(e)
    case Ok(Object(fields)) => if "2" in fields then Ok(fields["2"]) else Err(MissingKey)
    case Ok(_) => Err(NotAnObject)
  }

  // ---------------------------------------------------------------------
  // Properties of the decoder
  // ---------------------------------------------------------------------

  /** A decoded blob of at most 21 bytes leaves nothing to parse, and empty input is not JSON. */
  lemma ShortBlobRejected(parse: JsonParser, token: string)
    requires parse([]) == None
    requires Base64.Decode(NormalizeToken(token)).Some?
    requires |Base64.Decode(NormalizeToken(token)).value| <= 21
    ensures DecodeSessionId(parse, token) == Err(InvalidJson)
  {
  }

  /** A quadruple sequence whose last quadruple has padding in its second place does not decode. */
  lemma {:induction false} DecodeRejectsLoneCharacter(s: string)
    requires |s| % 4 == 0 && |s| >= 4 && s[|s| - 3] == '='
    ensures Base64.Decode(s) == None
    decreases |s|
  {
    if |s| > 4 {
      assert s[4..][|s[4..]| - 3] == '=';
      DecodeRejectsLoneCharacter(s[4..]);
    }
  }

  /**
   * A token one character longer than a multiple of four leaves a single
   * character in its last group, which no padding can complete.
   */
  lemma LoneCharacterTokenRejected(parse: JsonParser, token: string)
    requires |token| % 4 == 1
    ensures DecodeSessionId(parse, token) == Err(InvalidBase64)
  {
    NormalizeTokenShape(token);
    var s := NormalizeToken(token);
    assert |s| == |token| + 3;
    DecodeRejectsLoneCharacter(s);
  }

  /** Python's `s.rstrip("=")`. */
  function StripPadding(s: string): (r: string)
    decreases |s|
  {
    if s != [] && s[|s| - 1] == '=' then StripPadding(s[..|s| - 1]) else s
  }

  /** The URL-safe, unpadded token a server issues for a blob. */
  function UrlSafeToken(blob: seq<byte>): string {
    StripPadding(ReplaceEach(Base64.Encode(blob), [('+', '-'), ('/', '_')]))
  }

  /** Stripping removes exactly a trailing run of padding that follows a non-padding character. */
  lemma {:induction false} StripPaddingRun(s: string, n: nat)
    requires n <= |s|
    requires n > 0 ==> s[n - 1] != '='
    requires forall i :: n <= i < |s| ==> s[i] == '='
    ensures StripPadding(s) == s[..n]
    decreases |s|
  {
    if |s| > n {
      StripPaddingRun(s[..|s| - 1], n);
      assert s[..|s| - 1][..n] == s[..n];
    } else {
      assert s[..n] == s;
    }
  }

  /** The URL-safe form of a standard encoding, character by character. */
  lemma UrlSafeEncoding(blob: seq<byte>)
    ensures var e, u := Base64.Encode(blob), ReplaceEach(Base64.Encode(blob), [('+', '-'), ('/', '_')]);
            && |u| == |e|
            && (forall i :: 0 <= i < |e| - Base64.PadCount(|blob|) ==> u[i] != '=' && FromUrlSafe(u[i]) == e[i])
            && (forall i :: |e| - Base64.PadCount(|blob|) <= i < |e| ==> u[i] == '=')
  {
    var e := Base64.Encode(blob);
    Base64.EncodeShape(blob);
    var once := Replace(e, '+', '-');
    assert ReplaceEach(e, [('+', '-'), ('/', '_')]) == ReplaceEach(once, [('/', '_')]);
    assert ReplaceEach(once, [('/', '_')]) == Replace(once, '/', '_');
  }

  /** The unpadded URL-safe token of a blob, character by character. */
  lemma UrlSafeTokenShape(blob: seq<byte>)
    ensures var e, t := Base64.Encode(blob), UrlSafeToken(blob);
            && |t| == |e| - Base64.PadCount(|blob|)
            && (forall i :: 0 <= i < |t| ==> FromUrlSafe(t[i]) == e[i])
            && (forall i :: |t| <= i < |e| ==> e[i] == '=')
  {
    var e := Base64.Encode(blob);
    var u := ReplaceEach(e, [('+', '-'), ('/', '_')]);
    Base64.EncodeShape(blob);
    UrlSafeEncoding(blob);
    StripPaddingRun(u, |e| - Base64.PadCount(|blob|));
  }

  /** Normalisation restores a padded encoding from its URL-safe form with the padding cut off. */
  lemma NormalizeRestores(token: string, e: string, groups: nat)
    requires |e| == 4 * groups && |token| <= |e| < |token| + 4
    requires forall i :: 0 <= i < |token| ==> FromUrlSafe(token[i]) == e[i]
    requires forall i :: |token| <= i < |e| ==> e[i] == '='
    ensures NormalizeToken(token) == e
  {
    // the steps below keep the proof stable across solver seeds
    ModFour(-|token|, -(groups as int), |e| - |token|);
    NormalizeTokenShape(token);
  }

  /** Normalising the URL-safe token of a blob gives back the padded standard encoding. */
  lemma NormalizeUrlSafeToken(blob: seq<byte>)
    ensures NormalizeToken(UrlSafeToken(blob)) == Base64.Encode(blob)
  {
    var e, token := Base64.Encode(blob), UrlSafeToken(blob);
    UrlSafeTokenShape(blob);
    NormalizeRestores(token, e, (|blob| + 2) / 3);
  }

  /**
   * Round trip: for a blob made of any marker byte, the bytes of a JSON
   * document and a 20-byte trailer, decoding its URL-safe unpadded token
   * yields the document's value.
   */
  lemma SessionTokenRoundTrip(parse: JsonParser, marker: byte, payload: seq<byte>, trailer: seq<byte>, value: Json)
    requires |trailer| == 20 && parse(payload) == Some(value)
    ensures DecodeSessionId(parse, UrlSafeToken([marker] + payload + trailer)) == Ok(value)
  {
    var blob := [marker] + payload + trailer;
    NormalizeUrlSafeToken(blob);
    Base64.DecodeEncode(blob);
    if |blob| > 21 {
      assert FrameBody(blob) == payload;
    } else {
      assert payload == [];
    }
  }

  /** The user id of such a token is the document's entry "2", and its absence is a KeyError. */
  lemma UserIdRoundTrip(parse: JsonParser, marker: byte, payload: seq<byte>, trailer: seq<byte>, fields: map<string, Json>)
    requires |trailer| == 20 && parse(payload) == Some(Object(fields))
    ensures SessionIdToUserId(parse, UrlSafeToken([marker] + payload + trailer))
         == if "2" in fields then Ok(fields["2"]) else Err(MissingKey)
  {
    SessionTokenRoundTrip(parse, marker, payload, trailer, Object(fields));
  }
}
