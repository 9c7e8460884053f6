/**
 * The identity state of the client class `ADorksClient`. The class is
 * defined twice, in aminodorks/_adorks_client.py and
 * aminodorks/_aminodorks_client.py; the parts modelled here are the same in
 * both, except `__eq__`, which only the first defines.
 *
 * The transport is not modelled: a request method returns the header
 * mapping (and body) it would hand to the HTTP session, and the decoded
 * reply of the server is a parameter (None when the request raises).
 */
module Client {
  import opened Wrappers
  import opened Bytes
  import opened Utils
  import Base64

  const SignatureHeader: string := "NDC-MSG-SIG"
  const DeviceIdHeader: string := "NDCDEVICEID"
  const AuthHeader: string := "NDCAUTH"
  const ContentTypeHeader: string := "Content-Type"

  /** `media_types`: the content type of each kind of upload. */
  const MediaTypes: map<string, string> := map["audio" := "audio/aac", "image" := "image/jpg"]

  /** Python truthiness of an optional string: None and "" are both false. */
  predicate IsSet(s: Option<string>) {
    s.Some? && s.value != ""
  }

  /** Python truthiness of an optional request body. */
  predicate HasBody(data: Option<seq<byte>>) {
    data.Some? && data.value != []
  }

  /**
   * What a read of the `device_id` property leaves in `_device_id`: a set
   * value stays, otherwise a fresh identifier from the given random bytes.
   */
  function NextDeviceId(stored: Option<string>, hmac: Hmac, random: RandomBytes): (next: Option<string>)
    ensures IsSet(next)
    ensures IsSet(stored) ==> next == stored
    ensures !IsSet(stored) ==> next.Some? && IsDeviceId(hmac, next.value)
  {
    if IsSet(stored) then stored
    else
      GeneratedDeviceIdIsWellFormed(hmac, random);
      Some(GenerateDeviceId(hmac, random))
  }

  /**
   * Generation happens at most once: after one read, every later read
   * keeps the stored identifier whatever random bytes it is offered.
   */
  lemma DeviceIdGeneratedOnce(stored: Option<string>, hmac: Hmac, first: RandomBytes, later: RandomBytes)
    ensures NextDeviceId(NextDeviceId(stored, hmac, first), hmac, later) == NextDeviceId(stored, hmac, first)
  {
  }

  /** `f"sid={session_id}"`; Python writes a missing session as `None`. */
  function AuthValue(sessionId: Option<string>): string {
    "sid=" + (match sessionId case None => "None" case Some(s) => s)
  }

  /**
   * The authorisation value tells sessions apart, with one exception: no
   * session and the session id "None" give the same value.
   */
  lemma AuthValueDeterminesSession(a: Option<string>, b: Option<string>)
    ensures AuthValue(a) == AuthValue(b)
        <==> a == b || (a in {None, Some("None")} && b in {None, Some("None")})
  {
    var ta := match a case None => "None" case Some(s) => s;
    var tb := match b case None => "None" case Some(s) => s;
    assert AuthValue(a)[4..] == ta && AuthValue(b)[4..] == tb;
  }

  /** The mapping the `headers` property builds. */
  function HeaderEntries(deviceId: string, sessionId: Option<string>): (h: map<string, string>)
    ensures h.Keys == {"Accept-Language", "User-Agent", "Host", DeviceIdHeader, AuthHeader}
    ensures h[DeviceIdHeader] == deviceId && h[AuthHeader] == AuthValue(sessionId)
  {
    map[
      "Accept-Language" := "en-US",
      "User-Agent" := "Apple iPhone13,4 iOS v15.6.1 Main/3.12.9",
      "Host" := "service.aminoapps.com",
      DeviceIdHeader := deviceId,
      AuthHeader := AuthValue(sessionId)
    ]
  }

  /**
   * The headers after the signing branch of `_request`: a non-empty body
   * adds a signature that decodes to the prefix and the body's digest; no
   * body or an empty one leaves the headers as they were. No other entry
   * changes.
   */
  function SignedEntries(hmac: Hmac, entries: map<string, string>, data: Option<seq<byte>>): (r: map<string, string>)
    ensures r.Keys == if HasBody(data) then entries.Keys + {SignatureHeader} else entries.Keys
    ensures forall k :: k in entries && k != SignatureHeader ==> r[k] == entries[k]
    ensures HasBody(data) ==> Base64.Decode(r[SignatureHeader]) == Some(Prefix + hmac(SignatureKey, data.value))
    ensures !HasBody(data) ==> r == entries
  {
    if HasBody(data) then entries[SignatureHeader := GenerateSignature(hmac, data.value)] else entries
  }

  /** The fields of a decoded `UserObject` that the client reads. */
  datatype UserObject = UserObject(auid: Option<string>, sid: Option<string>)

  /** What `__eq__` returns. */
  datatype Comparison = NotImplemented | Compared(equal: bool)

  /** A header dictionary; `_request` and `upload_media` update it in place. */
  class HeaderMap {
    var entries: map<string, string>

    constructor(entries: map<string, string>)
      ensures this.entries == entries
    {
      this.entries := entries;
    }
  }

  class ADorksClient {
    var deviceId: Option<string>       // _device_id
    var sessionId: Option<string>      // _session_id
    var userObject: Option<UserObject> // _user_object

    constructor(deviceId: Option<string>, sessionId: Option<string>)
      ensures this.deviceId == deviceId && this.sessionId == sessionId && userObject == None
    {
      this.deviceId := deviceId;
      this.sessionId := sessionId;
      userObject := None;
    }

    /** The `device_id` property: generated and stored on the first read that finds it unset. */
    method DeviceId(hmac: Hmac, random: RandomBytes) returns (id: string)
      modifies this`deviceId
      ensures deviceId == NextDeviceId(old(deviceId), hmac, random) && deviceId == Some(id)
    {
      if !IsSet(deviceId) {
        deviceId := Some(GenerateDeviceId(hmac, random));
      }
      id := deviceId.value;
    }

    /** The `headers` property: a new mapping on every read. */
    method Headers(hmac: Hmac, random: RandomBytes) returns (h: HeaderMap)
      modifies this`deviceId
      ensures fresh(h)
      ensures deviceId == NextDeviceId(old(deviceId), hmac, random)
      ensures h.entries == HeaderEntries(deviceId.value, sessionId)
    {
      var id := DeviceId(hmac, random);
      h := new HeaderMap(HeaderEntries(id, sessionId));
    }

    /**
     * The signing branch of `_request`: the signature is written into the
     * caller's mapping, which is then what the request carries.
     */
    method Request(hmac: Hmac, headers: HeaderMap, data: Option<seq<byte>>) returns (sent: map<string, string>)
      modifies headers
      ensures headers.entries == SignedEntries(hmac, old(headers.entries), data)
      ensures sent == headers.entries
    {
      if HasBody(data) {
        headers.entries := headers.entries[SignatureHeader := GenerateSignature(hmac, data.value)];
      }
      sent := headers.entries;
    }

    /**
     * `login`: the body carries the device id (encodeBody stands for the
     * msgspec encoding of the login document, which as a JSON object is
     * never empty), the request is signed, and a successful reply sets the
     * session to the reply's `sid`.
     */
    method Login(hmac: Hmac, random: RandomBytes, encodeBody: string -> seq<byte>, reply: Option<UserObject>)
      returns (sent: map<string, string>, body: seq<byte>)
      requires forall d :: encodeBody(d) != []
      modifies this`deviceId, this`sessionId, this`userObject
      ensures deviceId == NextDeviceId(old(deviceId), hmac, random)
      ensures body == encodeBody(deviceId.value)
      ensures SignatureHeader in sent && Base64.Decode(sent[SignatureHeader]) == Some(Prefix + hmac(SignatureKey, body))
      ensures sent == SignedEntries(hmac, HeaderEntries(deviceId.value, old(sessionId)), Some(body))
      ensures reply.Some? ==> userObject == reply && sessionId == reply.value.sid
      ensures reply.None? ==> userObject == old(userObject) && sessionId == old(sessionId)
    {
      var id := DeviceId(hmac, random);
      body := encodeBody(id);
      assert HasBody(Some(body));
      var headers := Headers(hmac, random);
      sent := Request(hmac, headers, Some(body));
      if reply.Some? {
        userObject := reply;
        sessionId := reply.value.sid;
      }
    }

    /**
     * `login_on_session_id`: the token is stored first, so it stays stored
     * even when extracting the user id fails; the profile request then
     * carries the new token and no body.
     */
    method LoginOnSessionId(hmac: Hmac, random: RandomBytes, parse: JsonParser, token: string, reply: Option<UserObject>)
      returns (userId: Result<Json, DecodeError>, sent: Option<map<string, string>>)
      modifies this`deviceId, this`sessionId, this`userObject
      ensures sessionId == Some(token)
      ensures userId == SessionIdToUserId(parse, token)
      ensures userId.Err? ==> deviceId == old(deviceId) && userObject == old(userObject) && sent == None
      ensures userId.Ok? ==> deviceId == NextDeviceId(old(deviceId), hmac, random)
      ensures userId.Ok? ==> sent == Some(HeaderEntries(deviceId.value, Some(token)))
      ensures userId.Ok? ==> userObject == if reply.Some? then reply else old(userObject)
    {
      sessionId := Some(token);
      userId := SessionIdToUserId(parse, token);
      if userId.Err? {
        sent := None;
        return;
      }
      var headers := Headers(hmac, random);
      var s := Request(hmac, headers, None);
      sent := Some(s);
      if reply.Some? {
        userObject := reply;
      }
    }

    /**
     * `upload_media`: an unknown file type raises before any request. The
     * content type goes into one copy of the headers and the request is
     * sent with another, so it never carries a content type.
     */
    method UploadMedia(hmac: Hmac, random: RandomBytes, file: seq<byte>, fileType: string)
      returns (sent: Option<map<string, string>>)
      modifies this`deviceId
      ensures deviceId == NextDeviceId(old(deviceId), hmac, random)
      ensures fileType !in MediaTypes ==> sent == None
      ensures fileType in MediaTypes ==> sent == Some(SignedEntries(hmac, HeaderEntries(deviceId.value, sessionId), Some(file)))
      ensures sent.Some? ==> ContentTypeHeader !in sent.value
    {
      var headers := Headers(hmac, random);
      if fileType !in MediaTypes {
        sent := None;
        return;
      }
      headers.entries := headers.entries[ContentTypeHeader := MediaTypes[fileType]];
      var requestHeaders := Headers(hmac, random);
      var s := Request(hmac, requestHeaders, Some(file));
      sent := Some(s);
    }

    /**
     * `upload_media` as evidently intended: the request is sent with the
     * mapping that received the content type, as `join_thread` does.
     */
    method UploadMediaWithContentType(hmac: Hmac, random: RandomBytes, file: seq<byte>, fileType: string)
      returns (sent: Option<map<string, string>>)
      modifies this`deviceId
      ensures deviceId == NextDeviceId(old(deviceId), hmac, random)
      ensures fileType !in MediaTypes ==> sent == None
      ensures fileType in MediaTypes ==>
                sent.Some? && ContentTypeHeader in sent.value && sent.value[ContentTypeHeader] == MediaTypes[fileType]
      ensures fileType in MediaTypes ==> sent == Some(SignedEntries(hmac,
                HeaderEntries(deviceId.value, sessionId)[ContentTypeHeader := MediaTypes[fileType]], Some(file)))
    {
      var headers := Headers(hmac, random);
      if fileType !in MediaTypes {
        sent := None;
        return;
      }
      headers.entries := headers.entries[ContentTypeHeader := MediaTypes[fileType]];
      var s := Request(hmac, headers, Some(file));
      sent := Some(s);
    }

    /**
     * `__eq__` against another client (Some) or any other value (None).
     * Both device ids are read, so either may be generated here.
     */
    method Equals(hmac: Hmac, random: RandomBytes, otherRandom: RandomBytes, other: Option<ADorksClient>)
      returns (r: Comparison)
      modifies this`deviceId, if other.Some? then {other.value} else {}
      ensures other.None? ==> r == NotImplemented && deviceId == old(deviceId)
      ensures other.Some? ==> deviceId == NextDeviceId(old(deviceId), hmac, random)
      ensures other.Some? && other.value != this
              ==> other.value.deviceId == NextDeviceId(old(other.value.deviceId), hmac, otherRandom)
      ensures sessionId == old(sessionId) && userObject == old(userObject)
      ensures other.Some? ==> (other.value.sessionId == old(other.value.sessionId)
                               && other.value.userObject == old(other.value.userObject))
      ensures other.Some? ==> r == Compared(deviceId == other.value.deviceId && sessionId == other.value.sessionId)
      ensures other == Some(this) ==> r == Compared(true)
    {
      if other.None? {
        return NotImplemented;
      }
      var mine := DeviceId(hmac, random);
      var theirs := other.value.DeviceId(hmac, otherRandom);
      r := Compared(mine == theirs && sessionId == other.value.sessionId);
    }
  }
}
