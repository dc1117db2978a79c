/** The response helpers: `send_response` and `send_json`
    (foxwebsite/framework.py, lines 99-116), the events the dispatcher sends
    by hand, and the content-type table of static files (lines 254-263). */
module Responses {
  import opened Base
  import opened Text
  import Utf8
  import Json

  /** A response header, shown before its `.encode()`. */
  datatype Header = Header(name: string, value: string)

  /** A message handed to ASGI's `send`: `http.response.start` with a status
      and headers, or `http.response.body` with the body bytes. */
  datatype Event = Start(status: int, headers: seq<Header>) | Body(body: bytes)

  /** `(b"content-length", str(len(body)).encode())`. */
  function ContentLength(body: bytes): Header {
    Header("content-length", Decimal(|body|))
  }

  /** The two events of one response: the start, whose headers end with the
      content length, then the body. */
  function Reply(status: int, headers: seq<Header>, body: bytes): seq<Event> {
    [Start(status, headers + [ContentLength(body)]), Body(body)]
  }

  /** A response as a client reads it: a start and a body, the last header
      of the start a canonical decimal content length equal to the number of
      body bytes. */
  ghost predicate Framed(events: seq<Event>) {
    |events| == 2 && events[0].Start? && events[1].Body?
    && var hs := events[0].headers;
       |hs| >= 1 && hs[|hs| - 1].name == "content-length"
       && Canonical(hs[|hs| - 1].value)
       && DigitsValue(hs[|hs| - 1].value) == |events[1].body|
  }

  /** Every reply is framed, with its status, its own headers first and the
      body unchanged. */
  lemma ReplyFramed(status: int, headers: seq<Header>, body: bytes)
    ensures var r := Reply(status, headers, body);
            Framed(r) && r[0].status == status && r[0].headers[..|headers|] == headers
            && r[1].body == body
  {
    var hs := headers + [ContentLength(body)];
    assert hs[|hs| - 1] == ContentLength(body);
    assert hs[..|headers|] == headers;
  }

  /** `send_response(send, status, content, content_type)`: the content as
      UTF-8 with its content type and length. */
  function SendResponse(status: int, content: string, contentType: string): seq<Event> {
    Reply(status, [Header("content-type", contentType)], Utf8.Encode(content))
  }

  /** A client reading a `send_response` reply finds the status, the content
      type, a content length equal to the UTF-8 byte length, and a body that
      decodes to the content. */
  lemma SendResponseReadBack(status: int, content: string, contentType: string)
    ensures var r := SendResponse(status, content, contentType);
            Framed(r) && r[0].status == status && r[0].headers[0] == Header("content-type", contentType)
            && |r[0].headers| == 2 && Utf8.Decode(r[1].body) == Some(content)
  {
    ReplyFramed(status, [Header("content-type", contentType)], Utf8.Encode(content));
    Utf8.DecodeEncode(content);
  }

  /** `send_json(send, data, status)`: `json.dumps(data, ensure_ascii=False)`
      for a dictionary of scalars, given as its items in insertion order. */
  function SendJson(items: Json.Dict, status: int): seq<Event> {
    SendResponse(status, Json.EncodeObject(items, Json.ResponseStyle), "application/json")
  }

  /** The body `send_json` sends decodes, as UTF-8 and then as JSON, to the
      dictionary (`Json.DecodeEncodeDict` gives its keys and values). */
  lemma SendJsonReadBack(items: Json.Dict, status: int)
    ensures var r := SendJson(items, status);
            Framed(r) && r[0].headers[0] == Header("content-type", "application/json")
            && Utf8.Decode(r[1].body) == Some(Json.EncodeObject(items, Json.ResponseStyle))
            && Json.Decode(Json.EncodeObject(items, Json.ResponseStyle)) == Some(Json.Object(Json.FoldPairs(map[], items)))
  {
    SendResponseReadBack(status, Json.EncodeObject(items, Json.ResponseStyle), "application/json");
    Json.DecodeEncodeObject(items, Json.ResponseStyle);
  }

  /* ---------------------------------------------------------------------- */
  /* Static files                                                           */
  /* ---------------------------------------------------------------------- */

  /** `s` holds only dots. */
  predicate AllDots(s: string) {
    forall i :: 0 <= i < |s| ==> s[i] == '.'
  }

  /** `os.path.splitext(p)[1]` on POSIX: from the last dot of the last path
      component to the end, unless the component holds only dots before it
      (a leading dot does not start an extension). */
  function Ext(p: string): (e: string)
    ensures e == [] || (e[0] == '.' && '.' !in e[1..] && '/' !in e && |e| <= |p| && p[|p| - |e|..] == e)
  {
    if '.' !in p then []
    else
      var dot := LastIndexOf(p, '.');
      var start := if '/' in p then LastIndexOf(p, '/') + 1 else 0;
      if start <= dot && !AllDots(p[start..dot]) then
        assert '/' !in p[start..];
        assert forall k :: 0 <= k < |p| - dot ==> p[dot..][k] == p[start..][k + dot - start];
        assert p[dot..][1..] == p[dot + 1..];
        p[dot..]
      else []
  }

  /** A file name whose stem ends in an ordinary character gets the
      extension it was written with. */
  lemma ExtOfName(stem: string, e: string)
    requires stem != [] && stem[|stem| - 1] != '.' && stem[|stem| - 1] != '/'
    requires '.' !in e && '/' !in e
    ensures Ext(stem + ("." + e)) == "." + e
  {
    var p := stem + ("." + e);
    DotSuffix(stem, e);
    if '/' in p {
      var slash := LastIndexOf(p, '/');
      assert slash < |stem| - 1 by {
        assert p[slash] == '/';
      }
      assert p[slash + 1..|stem|][|stem| - 1 - (slash + 1)] == stem[|stem| - 1];
    } else {
      assert p[..|stem|][|stem| - 1] == stem[|stem| - 1];
    }
  }

  /** In `stem.e` the last dot is the one before `e`, and no `/` comes from
      the last character of `stem` on. */
  lemma DotSuffix(stem: string, e: string)
    requires stem != [] && stem[|stem| - 1] != '.' && stem[|stem| - 1] != '/'
    requires '.' !in e && '/' !in e
    ensures var p := stem + ("." + e);
            p[|stem|] == '.' && p[|stem| + 1..] == e && LastIndexOf(p, '.') == |stem|
            && forall j :: |stem| - 1 <= j < |p| ==> p[j] != '/'
  {
    var p := stem + ("." + e);
    assert p[|stem| + 1..] == e;
    assert p[|stem| - 1] == stem[|stem| - 1];
    assert forall j :: |stem| + 1 <= j < |p| ==> p[j] == e[j - |stem| - 1];
  }

  /** The content types the dispatcher knows for static files. */
  const StaticTypes: map<string, string> := map[
    ".css" := "text/css", ".js" := "application/javascript",
    ".png" := "image/png", ".jpg" := "image/jpeg", ".ico" := "image/x-icon",
    ".html" := "text/html", ".json" := "application/json"]

  /** `ct_map.get(ext, "application/octet-stream")`. */
  function ContentTypeFor(ext: string): string {
    if ext in StaticTypes then StaticTypes[ext] else "application/octet-stream"
  }

  /** A static file of a known kind is served with its content type, every
      other file as `application/octet-stream`. */
  lemma StaticContentType(stem: string, e: string)
    requires stem != [] && stem[|stem| - 1] != '.' && stem[|stem| - 1] != '/'
    requires '.' !in e && '/' !in e
    ensures ContentTypeFor(Ext(stem + ("." + e))) ==
            if "." + e in StaticTypes then StaticTypes["." + e] else "application/octet-stream"
  {
    ExtOfName(stem, e);
  }

  /** The reply for a static file: its bytes as read, with the content type
      its extension gives. */
  function StaticReply(filePath: string, data: bytes): seq<Event> {
    Reply(200, [Header("content-type", ContentTypeFor(Ext(filePath)))], data)
  }
}
