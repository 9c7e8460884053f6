# amino.dorks identity and signing, modelled in Dafny

This project models the identity and signing core of the amino.dorks client
library for the Amino HTTP API, and proves properties of that model:

- the **request signature**: standard base64 (section 4 of RFC 4648) of the
  version prefix byte `0x19` followed by HMAC-SHA1 of the request body under
  the fixed signature key;
- the **device identifier**: upper-case base16 (section 8 of RFC 4648) of the
  prefix and 20 random bytes, followed by the hex HMAC-SHA1 of those 21 bytes
  under the fixed device key;
- the **session-token decoder**: URL-safe base64 (section 5 of RFC 4648) is
  mapped back to the standard alphabet, padded with `=` to a multiple of four,
  decoded, stripped of its first byte and last 20 bytes (`[1:-20]`), and the
  middle is parsed as JSON; the user id is the entry `"2"`;
- the **client identity state** of the class `ADorksClient`: the write-once,
  lazily generated device id, the session id set by `login` and
  `login_on_session_id`, the header mapping, the signing branch of `_request`,
  `upload_media` and `__eq__`.

Files:

- `bytes.dfy`, `wrappers.dfy`: bytes as integers in [0, 256); `Option` and `Result`.
- `base64.dfy` (module `Base64`): `b64encode` and a strict `b64decode`, with the
  round trip `Decode(Encode(b)) == Some(b)`.
- `hex.dfy` (module `Hex`): `bytes.hex()`, ASCII `str.upper()`, and a strict
  hex decoder, with round trips in both directions for upper-case hex.
- `utils.dfy` (module `Utils`): `aminodorks/_utils.py`. `DecodeSessionId` and
  `SessionIdToUserId` model `decode_session_id` and `session_id_to_user_id`
  directly. They have no contract of their own. What they do is stated by the
  lemmas below.
- `client.dfy` (module `Client`): the client class of both client files.

HMAC-SHA1 is a parameter `hmac: Hmac`, a total function returning a 20-byte
`Digest`. The 20 bytes of `os.urandom(20)` are a `RandomBytes` parameter. UTF-8
decoding followed by `msgspec.json.decode` is a parameter `parse: JsonParser`.

The two client files define the same class. The modelled members are
line-for-line the same in both; only `__eq__` is missing from the second:

| member | aminodorks/_adorks_client.py | aminodorks/_aminodorks_client.py |
|---|---|---|
| `ADorksClient.constructor` | 48-65 | 48-65 |
| `ADorksClient.DeviceId`, `NextDeviceId` | 97-102 | 67-72 |
| `ADorksClient.Headers`, `HeaderEntries` | 108-116 | 78-86 |
| `MediaTypes` | 129-134 | 99-104 |
| `ADorksClient.Request`, `SignedEntries` | 140-148 | 106-114 |
| `ADorksClient.Login` | 156-170 | 122-136 |
| `ADorksClient.LoginOnSessionId` | 172-175 | 138-141 |
| `ADorksClient.UploadMedia` | 177-180 | 143-146 |
| `ADorksClient.Equals` | 76-80 | (absent) |

## Model

| member | source | states |
|---|---|---|
| Base64.Encode | aminodorks/_utils.py:19-22 | the encoding of n bytes has 4·⌈n/3⌉ characters |
| Base64.EncodeShape | aminodorks/_utils.py:19-22 | the encoding is alphabet characters followed by exactly (3 − n mod 3) mod 3 `=` characters |
| Base64.DecodeEncode | aminodorks/_utils.py:30 | the strict decoder gives back exactly the bytes that were encoded |
| Base64.EncodeInjective | aminodorks/_utils.py:19-22 | two byte strings have the same encoding if and only if they are equal |
| Hex.Hex | aminodorks/_utils.py:27 | `bytes.hex()` writes two digits per byte |
| Hex.UpperHexDigits | aminodorks/_utils.py:27 | upper-cased hex of n bytes is 2n characters, all in `0-9A-F` |
| Hex.UnhexUpperHex | aminodorks/_utils.py:27 | upper-cased hex decodes back to the bytes |
| Hex.UpperHexUnhex | aminodorks/_utils.py:27 | every even-length string over `0-9A-F` is the upper-cased hex of its decoding |
| Base64.Decode | aminodorks/_utils.py:30 | no contract; behaviour stated by Base64.DecodeEncode and Utils.DecodeRejectsLoneCharacter |
| Hex.Upper | aminodorks/_utils.py:27 | no contract; behaviour stated by Hex.UpperHexDigits, Hex.UnhexUpperHex and Hex.UpperHexUnhex |
| Hex.Unhex | aminodorks/_utils.py:27 | a decoding has half as many bytes as the text has digits; behaviour stated by Hex.UnhexUpperHex and Hex.UpperHexUnhex |
| Utils.Prefix | aminodorks/_utils.py:14 | the one-byte prefix `0x19` |
| Utils.DeviceKey | aminodorks/_utils.py:15 | the 20-byte device key, byte for byte |
| Utils.SignatureKey | aminodorks/_utils.py:16 | the 20-byte signature key, byte for byte |
| Utils.GenerateDeviceId | aminodorks/_utils.py:24-27 | no contract; behaviour stated by Utils.GeneratedDeviceIdIsWellFormed and Utils.WellFormedDeviceIdIsGenerated |
| Utils.ReplaceEach | aminodorks/_utils.py:30 | no contract; the `reduce` over the two substitution pairs; behaviour stated by Utils.NormalizeTokenShape |
| Utils.NormalizeToken | aminodorks/_utils.py:30 | no contract; the padding and substitution step; behaviour stated by Utils.NormalizeTokenShape and Utils.NormalizeUrlSafeToken |
| Utils.Slice | aminodorks/_utils.py:30 | no contract; Python's slice with clipped and negative bounds; behaviour for `[1:-20]` stated by Utils.FrameBody |
| Utils.DecodeSessionId | aminodorks/_utils.py:29-30 | no contract; behaviour stated by Utils.SessionTokenRoundTrip, Utils.ShortBlobRejected and Utils.LoneCharacterTokenRejected |
| Utils.SessionIdToUserId | aminodorks/_utils.py:32 | no contract; behaviour stated by Utils.UserIdRoundTrip |
| Client.AuthValue | aminodorks/_adorks_client.py:115 | no contract; behaviour stated by Client.AuthValueDeterminesSession and Client.HeaderEntries |
| Client.MediaTypes | aminodorks/_adorks_client.py:129-134 | the two upload kinds and their content types, `audio/aac` and `image/jpg` |
| Client.HeaderMap.constructor | aminodorks/_adorks_client.py:144 | the header dictionary `_request` receives and updates in place, created with the given entries |
| Utils.GenerateSignature | aminodorks/_utils.py:18-22 | the signature is 28 standard-alphabet characters with no `=`, and it decodes to exactly 21 bytes: `0x19` and then HMAC-SHA1(SIGNATURE_KEY, data) |
| Utils.SignatureDeterminedByDigest | aminodorks/_utils.py:18-22 | two bodies get equal signatures if and only if their HMAC digests are equal; the signature is a function of the body alone, with no randomness or state |
| Utils.GeneratedDeviceIdIsWellFormed | aminodorks/_utils.py:24-27 | a generated id is 82 characters in `0-9A-F` and starts with `"19"`. Its first 42 characters spell the prefix and the random bytes, and its last 40 are the upper-case hex HMAC-SHA1(DEVICE_KEY, the 21 bytes the first 42 spell) |
| Utils.WellFormedDeviceIdIsGenerated | aminodorks/_utils.py:24-27 | conversely, every string of that format is the id generated from the 20 random bytes it spells |
| Utils.Replace | aminodorks/_utils.py:30 | `str.replace` with one-character arguments keeps the length, replaces every occurrence, and leaves all other characters unchanged |
| Utils.NegModFour | aminodorks/_utils.py:30 | Python's `-len % 4` is the distance from len up to the next multiple of four |
| Utils.Padding | aminodorks/_utils.py:30 | the padding is 0 to 3 `=` characters and brings the length to a multiple of four |
| Utils.NormalizeTokenShape | aminodorks/_utils.py:30 | normalisation maps `-` to `+` and `_` to `/` in place, leaves other characters unchanged, and appends `(-len) mod 4` `=` characters, so the length becomes a multiple of four |
| Utils.SliceBound | aminodorks/_utils.py:30 | a Python slice bound resolves to a position within the sequence |
| Utils.FrameBody | aminodorks/_utils.py:30 | `[1:-20]` keeps bytes 1..n−21 of an n-byte blob, and nothing when n ≤ 21 |
| Utils.ShortBlobRejected | aminodorks/_utils.py:29-30 | a token that decodes to at most 21 bytes fails with a JSON decoding error, not a value, since empty input is not JSON |
| Utils.DecodeRejectsLoneCharacter | aminodorks/_utils.py:30 | a padded string whose last group has `=` in its second place does not decode |
| Utils.LoneCharacterTokenRejected | aminodorks/_utils.py:30 | a token of length 4k+1 is always rejected as invalid base64 |
| Utils.StripPaddingRun | aminodorks/_utils.py:30 | `rstrip("=")` removes exactly the trailing padding run |
| Utils.UrlSafeEncoding | aminodorks/_utils.py:30 | the URL-safe form of an encoding maps back character by character under the decoder's substitution |
| Utils.UrlSafeTokenShape | aminodorks/_utils.py:30 | the unpadded URL-safe token has the encoding's length minus its padding and maps back to it character by character |
| Utils.NormalizeRestores | aminodorks/_utils.py:30 | normalising an unpadded URL-safe form restores the padded standard encoding |
| Utils.NormalizeUrlSafeToken | aminodorks/_utils.py:30 | normalising the URL-safe unpadded token of any blob gives back its padded standard base64 |
| Utils.SessionTokenRoundTrip | aminodorks/_utils.py:29-30 | for a blob made of a marker byte, the bytes J of a JSON document and a 20-byte trailer, `decode_session_id` of its URL-safe unpadded token returns the value J parses to |
| Utils.UserIdRoundTrip | aminodorks/_utils.py:32 | for such a token, `session_id_to_user_id` returns the object's entry `"2"`, and fails with a KeyError when the entry is absent |
| Client.NextDeviceId | aminodorks/_aminodorks_client.py:67-72 | after a read, the stored device id is set. A non-empty stored id stays as it was. A `None` or empty one is replaced by a well-formed generated id |
| Client.DeviceIdGeneratedOnce | aminodorks/_adorks_client.py:97-102 | a second read keeps what the first stored, whatever random bytes it is offered, so generation happens at most once |
| Client.AuthValueDeterminesSession | aminodorks/_adorks_client.py:115 | `sid=…` values are equal exactly when the sessions are equal, except that no session (written `sid=None`) and the session id `"None"` look the same |
| Client.HeaderEntries | aminodorks/_aminodorks_client.py:78-86 | the headers have exactly five keys, and map `NDCDEVICEID` to the device id and `NDCAUTH` to `"sid=" + session_id` |
| Client.SignedEntries | aminodorks/_aminodorks_client.py:113-114 | a non-empty body adds `NDC-MSG-SIG`, which decodes to the prefix and the body's HMAC. No body or an empty body leaves the headers unchanged. No other entry ever changes |
| Client.ADorksClient.constructor | aminodorks/_adorks_client.py:58-65 | the given device id and session id are stored as they are, and there is no user object |
| Client.ADorksClient.DeviceId | aminodorks/_adorks_client.py:97-102 | the property returns the stored id, generating and storing one first when it is `None` or empty |
| Client.ADorksClient.Headers | aminodorks/_adorks_client.py:108-116 | every read builds a new mapping, holding the (possibly just generated) device id and the current session |
| Client.ADorksClient.Request | aminodorks/_adorks_client.py:140-150 | the caller's mapping is updated in place by the signing branch, and that mapping is what the request carries |
| Client.ADorksClient.Login | aminodorks/_adorks_client.py:156-170 | the body carries the same device id as the headers. The body is never empty, so the request always carries `NDC-MSG-SIG`, which decodes to the prefix and the body's HMAC. A successful reply sets the session to its `sid` and stores the user object. A failed request changes neither |
| Client.ADorksClient.LoginOnSessionId | aminodorks/_aminodorks_client.py:138-141 | the token is stored as the session before the user id is extracted, and stays stored when extraction fails. Otherwise the unsigned profile request carries `sid=<token>` |
| Client.ADorksClient.UploadMedia | aminodorks/_aminodorks_client.py:143-146 | an unknown file type fails before any request. Otherwise the request is signed when the file is non-empty, and it carries no `Content-Type` |
| Client.ADorksClient.UploadMediaWithContentType | aminodorks/_adorks_client.py:177-180 | the intended upload: the request carries the `Content-Type` of the file type, besides the signed headers |
| Client.ADorksClient.Equals | aminodorks/_adorks_client.py:76-80 | a value that is not a client gives `NotImplemented`. Two clients compare equal exactly when their device ids (both read, so possibly generated now) and session ids are equal. A client equals itself |

## Findings

| source | as written | input that shows it | evidently intended | confidence | as-written member | corrected member |
|---|---|---|---|---|---|---|
| aminodorks/_aminodorks_client.py:143-146 (also aminodorks/_adorks_client.py:177-180) | `Content-Type` is set on one `self.headers` mapping, and the request is sent with a second, new `self.headers` | any upload, e.g. `file_type="image"`: the mapping passed to the session has no `Content-Type`, so `image/jpg`/`audio/aac` is never sent | send the mapping that holds `Content-Type: image/jpg`, as `join_thread` does with its local `headers` | high (not executed) | Client.ADorksClient.UploadMedia | Client.ADorksClient.UploadMediaWithContentType |

## Left out

- HMAC-SHA1 (`hmac.new`, `hashlib.sha1`): a parameter `hmac` whose only known property is a 20-byte result.
- `os.urandom(20)`: the 20 random bytes are a parameter. That two generated ids differ is not modelled.
- UTF-8 decoding and `msgspec.json.decode`: a parameter `parse` from bytes to a JSON value (`Json`). JSON numbers are integers only.
- `b64decode` leniency: the model's decoder is strict. It accepts only alphabet characters, with `=` only in the last group. Python's non-validating decoder skips other characters and stray padding. So a token containing `=`, or characters outside the URL-safe alphabet, may decode in Python but is rejected here. Like Python, the strict decoder ignores non-zero bits after the last byte. For tokens over the URL-safe alphabet without `=`, the two decoders agree.
- `str.upper()` is modelled for ASCII only. It is applied only to hexadecimal digits.
- The HTTP transport (aiohttp, asyncio): `session`, `loop`, `__del__`, `close_session`, the status check, the HTTP method strings and URL paths. A failed request is a `None` reply. A request returns the headers (and body) it would send.
- The request methods `get_communities`, `get_threads`, `get_thread`, `get_thread_users`, `join_thread`, `leave_thread` and `invite_to_thread`: URL building, a fixed `Content-Type: application/x-www-form-urlencoded` on `join_thread`'s own header mapping, the msgspec-encoded `uids`/`timestamp` body of `invite_to_thread` (signed by the modelled signing branch of `_request`), the `_user_object.auid` lookup of `join_thread` and `leave_thread` (an `AttributeError` before any login), and reply decoding. `get_user` appears only as the unsigned request inside `LoginOnSessionId`.
- The login document (email, password, `time()` timestamp) and its msgspec encoding: a parameter `encodeBody` applied to the device id.
- `__hash__` and `__repr__`: they depend on Python's built-in hash and string formatting.
- What Python's `==` does after `__eq__` returns `NotImplemented` (Python tries the other operand's `__eq__`, then falls back to identity).
- The response models under `aminodorks/models/`: `UserObject` keeps only `auid` and `sid`.
- `_proxy`, `_connector`, `_trace_configs`, `_loop` and `_session`: transport configuration.
- A race between two first reads of `device_id`: the model is sequential.
