/** The signed session cookie: `sign`, `serialize_session` and
    `deserialize_session` (foxwebsite/framework.py, lines 22-39).

    The cookie value is the session dictionary as compact, key-sorted JSON,
    a dot, and the hexadecimal HMAC-SHA256 of that JSON under the
    application's secret key. The keyed hash itself is a parameter `mac`
    (key bytes, message bytes to digest bytes): the properties below hold for
    every such function. */
module SessionCodec {
  import opened Base
  import opened Text
  import Utf8
  import Json

  /** `hmac.new(key, msg, hashlib.sha256).digest()`, as a parameter. */
  type Mac = (bytes, bytes) -> bytes

  /** `sign(data, secret)`: the lower-case hexadecimal digest of the UTF-8
      encoded data under the UTF-8 encoded secret. It never holds a dot, which
      is what lets `deserialize_session` find it after the last one. */
  function Sign(data: string, secret: string, mac: Mac): (sig: string)
    ensures forall i :: 0 <= i < |sig| ==> IsLowerHex(sig[i])
    ensures '.' !in sig
    ensures IsAscii(sig)
  {
    HexDigest(mac(Utf8.Encode(secret), Utf8.Encode(data)))
  }

  /** The signed part of a cookie value: `json.dumps(data, separators=(',', ':'),
      sort_keys=True)`. */
  function Payload(d: map<string, Json.Scalar>): string {
    Json.EncodeSorted(d)
  }

  /** `serialize_session(data, secret)`: the payload, a dot and its signature.
      With `ensure_ascii` in force the value is plain ASCII, so it fits in a
      `Set-Cookie` header as it is, and its last dot sits right before the
      signature. */
  function Serialize(d: map<string, Json.Scalar>, secret: string, mac: Mac): (v: string)
    ensures IsAscii(v)
    ensures '.' in v && RSplitOnce(v, '.') == (Payload(d), Sign(Payload(d), secret, mac))
  {
    var payload := Payload(d);
    Json.EncodeSortedIsAscii(d);
    Json.AsciiConcat(payload, ".");
    Json.AsciiConcat(payload + ".", Sign(payload, secret, mac));
    SuffixAfterLastSeparator(payload, Sign(payload, secret, mac), '.');
    payload + "." + Sign(payload, secret, mac)
  }

  /** A serialized session is its payload, a dot and the payload's
      signature. */
  lemma SerializeParts(d: map<string, Json.Scalar>, secret: string, mac: Mac)
    ensures Serialize(d, secret, mac) == Payload(d) + "." + Sign(Payload(d), secret, mac)
  {
  }

  /** `deserialize_session(value, secret)`, with the signature comparison
      failing soft: a missing cookie, a value without a dot, a signature that
      is not the one the secret gives for the text before the last dot, and a
      payload `json.loads` rejects all give `None`; otherwise the decoded
      payload. This is the behaviour the rest of the model uses; the
      function as written raises for a non-ASCII signature instead
      (`DeserializeAsWritten`). */
  function Deserialize(value: Option<string>, secret: string, mac: Mac): (r: Option<Json.Document>)
    ensures r.Some? ==> value.Some? && '.' in value.value
  {
    match value
    case None => None
    case Some(v) =>
      if '.' !in v then None
      else
        var (data, sig) := RSplitOnce(v, '.');
        if sig != Sign(data, secret, mac) then None else Json.Decode(data)
  }

  /** The text of the `TypeError` `hmac.compare_digest` raises when handed a `str` holding a
      character outside ASCII. */
  const NonAsciiCompare := "comparing strings with non-ASCII characters is not supported"

  /** `deserialize_session` exactly as written: `hmac.compare_digest(sig,
      sign(data, secret))` sits outside the `try`, and for two `str`
      arguments it raises `TypeError` when either holds a non-ASCII
      character. The signature comes from the client's cookie, so this
      exception escapes. */
  function DeserializeAsWritten(value: Option<string>, secret: string, mac: Mac): (r: Result<Option<Json.Document>>)
    ensures r.Raised? ==> value.Some? && '.' in value.value && !IsAscii(RSplitOnce(value.value, '.').1)
  {
    match value
    case None => Returned(None)
    case Some(v) =>
      if '.' !in v then Returned(None)
      else
        var (data, sig) := RSplitOnce(v, '.');
        if !IsAscii(sig) then Raised(NonAsciiCompare)
        else if sig != Sign(data, secret, mac) then Returned(None)
        else Returned(Json.Decode(data))
  }

  /** The session a request starts with: the decoded dictionary, or an empty
      one when the cookie did not decode to a dictionary (line 246). */
  function ResolveSession(doc: Option<Json.Document>): (session: map<string, Json.Scalar>)
    ensures session != map[] ==> doc == Some(Json.Object(session))
  {
    match doc
    case Some(Object(fields)) => fields
    case _ => map[]
  }

  /* ---------------------------------------------------------------------- */
  /* Properties                                                             */
  /* ---------------------------------------------------------------------- */

  /** A serialized session reads back as the same dictionary under the same
      secret. */
  lemma RoundTrip(d: map<string, Json.Scalar>, secret: string, mac: Mac)
    ensures Deserialize(Some(Serialize(d, secret, mac)), secret, mac) == Some(Json.Object(d))
  {
    Json.DecodeEncodeSorted(d);
  }

  /** Hence a request carrying the cookie the previous response set starts
      with the session that response saved. */
  lemma ResolveRoundTrip(d: map<string, Json.Scalar>, secret: string, mac: Mac)
    ensures ResolveSession(Deserialize(Some(Serialize(d, secret, mac)), secret, mac)) == d
  {
    RoundTrip(d, secret, mac);
    ResolveObject(Deserialize(Some(Serialize(d, secret, mac)), secret, mac), d);
  }

  lemma ResolveObject(doc: Option<Json.Document>, d: map<string, Json.Scalar>)
    requires doc == Some(Json.Object(d))
    ensures ResolveSession(doc) == d
  {
  }

  /** A cookie value is accepted exactly when it is some text, a dot and that
      text's signature, and the text is a JSON document; the document is then
      the result. */
  lemma AcceptedIff(v: string, secret: string, mac: Mac, doc: Json.Document)
    ensures Deserialize(Some(v), secret, mac) == Some(doc)
        <==> exists data :: v == data + "." + Sign(data, secret, mac) && Json.Decode(data) == Some(doc)
  {
    if Deserialize(Some(v), secret, mac) == Some(doc) {
      var (data, sig) := RSplitOnce(v, '.');
      assert v == data + "." + Sign(data, secret, mac) && Json.Decode(data) == Some(doc);
    }
    if data :| v == data + "." + Sign(data, secret, mac) && Json.Decode(data) == Some(doc) {
      SuffixAfterLastSeparator(data, Sign(data, secret, mac), '.');
    }
  }

  /** Text followed by a dot and anything other than its signature is
      rejected, whatever the text holds: a client cannot alter the session
      without the secret. */
  lemma ForgedRejected(data: string, sig: string, secret: string, mac: Mac)
    requires '.' !in sig && sig != Sign(data, secret, mac)
    ensures Deserialize(Some(data + "." + sig), secret, mac) == None
  {
    SuffixAfterLastSeparator(data, sig, '.');
  }

  /** The function as written and the fail-soft one agree on every value
      whose signature part is ASCII; they part only where the written one
      raises. */
  lemma AsWrittenAgrees(value: Option<string>, secret: string, mac: Mac)
    ensures DeserializeAsWritten(value, secret, mac).Returned?
        ==> DeserializeAsWritten(value, secret, mac).value == Deserialize(value, secret, mac)
    ensures DeserializeAsWritten(value, secret, mac).Raised? ==> Deserialize(value, secret, mac) == None
  {
  }

  /** A cookie value whose signature part holds a non-ASCII character makes
      the function as written raise, for every secret and keyed hash. */
  lemma AsWrittenRaisesOnNonAscii(secret: string, mac: Mac)
    ensures DeserializeAsWritten(Some("{}.\U{e9}"), secret, mac) == Raised(NonAsciiCompare)
    ensures Deserialize(Some("{}.\U{e9}"), secret, mac) == None
  {
    SuffixAfterLastSeparator("{}", "\U{e9}", '.');
  }
}
