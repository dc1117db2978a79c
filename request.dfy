/** The request object (foxwebsite/framework.py, lines 45-92): the parsed
    and cached cookies, the body gathered from ASGI `receive` messages and
    cached, the JSON body, and the session operations a handler performs. */
module Requests {
  import opened Base
  import opened Text
  import Utf8
  import Json
  import opened Responses

  /** An ASGI message from `receive()`: `message.get("body", b"")` and
      `message.get("more_body", False)`. */
  datatype Message = Message(body: bytes, moreBody: bool)

  /** What `receive()` returns once the client's messages are used up:
      `http.disconnect`, with neither a body nor more body. */
  const Disconnect := Message([], false)

  /** The parts of the ASGI scope the framework reads: `type`, `method`,
      `path` and the request headers, shown decoded. */
  datatype Scope = Scope(kind: string, verb: string, path: string, headers: seq<Header>)

  /* ---------------------------------------------------------------------- */
  /* Cookies                                                                */
  /* ---------------------------------------------------------------------- */

  /** One `;`-separated item of a `Cookie` header: when it holds `=`, the
      stripped item split at its first `=` into name and value. */
  function ParseItem(item: string): (r: Option<(string, string)>)
    ensures r.Some? ==> r.value.0 + "=" + r.value.1 == Strip(item) && '=' !in r.value.0
    ensures r.None? <==> '=' !in item
  {
    if '=' in item then
      StripKeeps(item, '=');
      Some(SplitFirst(Strip(item), '='))
    else None
  }

  /** The cookies of `items` added to `acc` in order, a later item
      overwriting an earlier one with the same name. */
  function AddItems(acc: map<string, string>, items: seq<string>): map<string, string>
    decreases |items|
  {
    if items == [] then acc
    else
      var before := AddItems(acc, items[..|items| - 1]);
      match ParseItem(items[|items| - 1])
      case Some((k, v)) => before[k := v]
      case None => before
  }

  /** The cookies one request header adds: those of its value split on `;`
      when its name is `cookie` in any case, none otherwise. */
  function AddHeader(acc: map<string, string>, h: Header): map<string, string> {
    if Lower(h.name) == "cookie" then AddItems(acc, Split(h.value, ';')) else acc
  }

  /** What `request.cookies` holds: the cookies of every header, in order. */
  function CookiesOf(headers: seq<Header>): map<string, string>
    decreases |headers|
  {
    if headers == [] then map[]
    else AddHeader(CookiesOf(headers[..|headers| - 1]), headers[|headers| - 1])
  }

  /** One more header adds its cookies to those of the headers before it. */
  lemma CookiesOfStep(headers: seq<Header>, i: nat)
    requires i < |headers|
    ensures CookiesOf(headers[..i + 1]) == AddHeader(CookiesOf(headers[..i]), headers[i])
  {
    assert headers[..i + 1][..i] == headers[..i];
  }

  /** One more item adds its cookie, if it has one, to those before it. */
  lemma AddItemsStep(acc: map<string, string>, items: seq<string>, j: nat)
    requires j < |items|
    ensures AddItems(acc, items[..j + 1]) ==
            if '=' in items[j] then
              var (k, v) := ParseItem(items[j]).value;
              AddItems(acc, items[..j])[k := v]
            else AddItems(acc, items[..j])
  {
    assert items[..j + 1][..j] == items[..j];
  }

  /** The last item naming a cookie gives its value. */
  lemma {:induction false} LastItemWins(acc: map<string, string>, items: seq<string>, i: nat, k: string, v: string)
    requires i < |items| && ParseItem(items[i]) == Some((k, v))
    requires forall j :: i < j < |items| ==> ParseItem(items[j]).None? || ParseItem(items[j]).value.0 != k
    ensures k in AddItems(acc, items) && AddItems(acc, items)[k] == v
    decreases |items|
  {
    if i < |items| - 1 {
      var init := items[..|items| - 1];
      assert forall j :: i < j < |init| ==> init[j] == items[j];
      LastItemWins(acc, init, i, k, v);
    }
  }

  /** A name no item gives keeps whatever `acc` had for it. */
  lemma {:induction false} NoItemKeeps(acc: map<string, string>, items: seq<string>, k: string)
    requires forall j :: 0 <= j < |items| ==> ParseItem(items[j]).None? || ParseItem(items[j]).value.0 != k
    ensures (k in AddItems(acc, items)) == (k in acc)
    ensures k in acc ==> AddItems(acc, items)[k] == acc[k]
    decreases |items|
  {
    if items != [] {
      var init := items[..|items| - 1];
      assert forall j :: 0 <= j < |init| ==> init[j] == items[j];
      NoItemKeeps(acc, init, k);
    }
  }

  /** A browser echoing one cookie `name=value` gives back that value, when
      the name is a plain token and the value holds no `;` and does not end
      in white space. */
  lemma EchoedCookie(name: string, value: string)
    requires name != [] && !IsSpace(name[0]) && '=' !in name && ';' !in name
    requires ';' !in value && (value == [] || !IsSpace(value[|value| - 1]))
    ensures CookiesOf([Header("cookie", name + "=" + value)]) == map[name := value]
  {
    var item := name + "=" + value;
    ParseEchoed(name, value);
    assert ';' !in item;
    CookieHeaderOfOneItem(item);
    assert AddItems(map[], [item]) == map[name := value] by {
      assert [item][..0] == [];
    }
  }

  /** A `Cookie` header holding a single item adds just that item. */
  lemma CookieHeaderOfOneItem(item: string)
    requires ';' !in item
    ensures CookiesOf([Header("cookie", item)]) == AddItems(map[], [item])
  {
    assert Lower("cookie") == "cookie";
    assert Split(item, ';') == [item];
    assert [Header("cookie", item)][..0] == [];
  }

  /** The single item `name=value` parses back to its name and value. */
  lemma ParseEchoed(name: string, value: string)
    requires name != [] && !IsSpace(name[0]) && '=' !in name
    requires value == [] || !IsSpace(value[|value| - 1])
    ensures ParseItem(name + "=" + value) == Some((name, value))
  {
    var item := name + "=" + value;
    assert item[0] == name[0];
    assert item[|item| - 1] == if value == [] then '=' else value[|value| - 1];
    StripNoop(item);
    assert item[|name|] == '=';
    var (k, v) := SplitFirst(item, '=');
    PrefixBeforeSeparator(name, value, k, v, '=');
  }

  /* ---------------------------------------------------------------------- */
  /* Body                                                                   */
  /* ---------------------------------------------------------------------- */

  /** The body `body()` gathers starting at message `i`, and how many
      messages it has taken: bodies are added until a message without more
      body, or until the messages run out and `receive()` reports the
      disconnect. */
  function Collect(inbox: seq<Message>, i: nat): (r: (bytes, nat))
    ensures i <= |inbox| ==> i <= r.1 <= |inbox|
    decreases |inbox| - i
  {
    if i >= |inbox| then ([], i)
    else if !inbox[i].moreBody then (inbox[i].body, i + 1)
    else
      var (rest, j) := Collect(inbox, i + 1);
      (inbox[i].body + rest, j)
  }

  /** The bodies of a run of messages, one after the other. */
  function Concat(messages: seq<Message>): bytes {
    if messages == [] then [] else messages[0].body + Concat(messages[1..])
  }

  /** The body is the concatenation of the bodies of the messages up to and
      including the first one without more body. */
  lemma {:induction false} CollectUpToLast(inbox: seq<Message>, i: nat, j: nat)
    requires i < j <= |inbox| && !inbox[j - 1].moreBody
    requires forall k :: i <= k < j - 1 ==> inbox[k].moreBody
    ensures Collect(inbox, i) == (Concat(inbox[i..j]), j)
    decreases j - i
  {
    assert inbox[i..j][0] == inbox[i];
    if i < j - 1 {
      CollectUpToLast(inbox, i + 1, j);
      assert inbox[i..j][1..] == inbox[i + 1..j];
    } else {
      assert inbox[i..j][1..] == [];
      assert Concat(inbox[i..j]) == inbox[i].body + [];
      assert inbox[i].body + [] == inbox[i].body;
    }
  }

  /** When every remaining message promises more body, the body is all of
      them and the disconnect ends it. */
  lemma {:induction false} CollectToDisconnect(inbox: seq<Message>, i: nat)
    requires i <= |inbox|
    requires forall k :: i <= k < |inbox| ==> inbox[k].moreBody
    ensures Collect(inbox, i) == (Concat(inbox[i..]), |inbox|)
    decreases |inbox| - i
  {
    if i < |inbox| {
      CollectToDisconnect(inbox, i + 1);
      assert inbox[i..][1..] == inbox[i + 1..];
    }
  }

  /** The texts of the exceptions `body.decode()` and `json.loads` raise,
      shown as fixed strings. */
  const InvalidUtf8 := "'utf-8' codec can't decode the body"
  const InvalidJson := "the body is not a JSON document"

  /** `await request.json()` on the body `b`: `None` for an empty body,
      otherwise the body decoded as UTF-8 and then as JSON; either decoding
      may raise. */
  function DecodeBody(b: bytes): Result<Option<Json.Document>> {
    if b == [] then Returned(None)
    else
      match Utf8.Decode(b)
      case None => Raised(InvalidUtf8)
      case Some(text) =>
        match Json.Decode(text)
        case None => Raised(InvalidJson)
        case Some(doc) => Returned(Some(doc))
  }

  /** A body a client built with `json.dumps` and UTF-8 reads back as the
      dictionary. */
  lemma DecodeJsonBody(items: seq<(string, Json.Scalar)>, st: Json.Style)
    requires Json.ReadableStyle(st)
    ensures DecodeBody(Utf8.Encode(Json.EncodeObject(items, st)))
            == Returned(Some(Json.Object(Json.FoldPairs(map[], items))))
  {
    var text := Json.EncodeObject(items, st);
    Utf8.DecodeEncode(text);
    Json.DecodeEncodeObject(items, st);
  }

  /* ---------------------------------------------------------------------- */
  /* Session headers                                                        */
  /* ---------------------------------------------------------------------- */

  /** The header that tells the browser to drop the session cookie. */
  function DeletionCookie(cookieName: string): Header {
    Header("set-cookie", cookieName + "=" + DeletionTail)
  }

  /** What follows the name and `=` in the deletion cookie: the value
      `deleted`, then the attributes: the root path, an expiry date in the
      past, `HttpOnly`. */
  const DeletionTail := "deleted" + "; Path=/" + "; Expires=Thu, 01 Jan 1970 00:00:00 GMT" + "; HttpOnly"

  /** The text of the `AttributeError` that `self.app` raises: `__call__`
      never gives a request an `app` attribute. */
  const NoAppAttribute := "'Request' object has no attribute 'app'"

  /** One request being served. */
  class Request {
    const scope: Scope
    const verb: string
    const path: string
    /** The messages `receive()` delivers, in order. */
    const inbox: seq<Message>
    /** How many of them `receive()` has delivered. */
    var received: nat
    var bodyCache: Option<bytes>
    var cookieCache: Option<map<string, string>>
    /** The named groups of the matched route. */
    var params: map<string, string>
    var session: map<string, Json.Scalar>
    /** Headers a handler asked to add to the response, in order. */
    var responseHeaders: seq<Header>

    /** `receive()` never gets ahead of the client's messages. */
    predicate Valid()
      reads this
    {
      received <= |inbox|
    }

    /** `Request(scope, receive)`. The session and the extra response headers
        start empty, which reads the same as the attributes being absent. */
    constructor(scope: Scope, inbox: seq<Message>)
      ensures Valid()
      ensures this.scope == scope && verb == scope.verb && path == scope.path && this.inbox == inbox
      ensures received == 0 && bodyCache == None && cookieCache == None
      ensures params == map[] && session == map[] && responseHeaders == []
    {
      this.scope := scope;
      verb := scope.verb;
      path := scope.path;
      this.inbox := inbox;
      received := 0;
      bodyCache := None;
      cookieCache := None;
      params := map[];
      session := map[];
      responseHeaders := [];
    }

    /** `request.cookies`: parsed from the headers on first use, then the
        same dictionary every time. */
    method Cookies() returns (c: map<string, string>)
      modifies this`cookieCache
      ensures old(cookieCache).Some? ==> cookieCache == old(cookieCache)
      ensures old(cookieCache).None? ==> cookieCache == Some(CookiesOf(scope.headers))
      ensures cookieCache == Some(c)
    {
      if cookieCache.None? {
        cookieCache := Some(map[]);
        var i := 0;
        while i < |scope.headers|
          invariant 0 <= i <= |scope.headers|
          invariant cookieCache == Some(CookiesOf(scope.headers[..i]))
        {
          var header := scope.headers[i];
          CookiesOfStep(scope.headers, i);
          if Lower(header.name) == "cookie" {
            AddCookieItems(Split(header.value, ';'));
          }
          i := i + 1;
        }
        assert scope.headers[..i] == scope.headers;
      }
      c := cookieCache.value;
    }

    /** The inner loop of `request.cookies`: the items of one `Cookie`
        header added in order, a later one overwriting an earlier one. */
    method AddCookieItems(items: seq<string>)
      requires cookieCache.Some?
      modifies this`cookieCache
      ensures cookieCache == Some(AddItems(old(cookieCache).value, items))
    {
      var j := 0;
      while j < |items|
        invariant 0 <= j <= |items|
        invariant cookieCache == Some(AddItems(old(cookieCache).value, items[..j]))
      {
        var item := items[j];
        AddItemsStep(old(cookieCache).value, items, j);
        if '=' in item {
          StripKeeps(item, '=');
          var (k, v) := SplitFirst(Strip(item), '=');
          cookieCache := Some(cookieCache.value[k := v]);
        }
        j := j + 1;
      }
      assert items[..j] == items;
    }

    /** `await receive()`: the next message, or the disconnect once they are
        used up. */
    method Receive() returns (m: Message)
      requires Valid()
      modifies this`received
      ensures Valid()
      ensures old(received) < |inbox| ==> m == inbox[old(received)] && received == old(received) + 1
      ensures old(received) == |inbox| ==> m == Disconnect && received == old(received)
    {
      if received < |inbox| {
        m := inbox[received];
        received := received + 1;
      } else {
        m := Disconnect;
      }
    }

    /** `await request.body()`: the messages' bodies gathered on first use,
        then the cached bytes without calling `receive()` again. */
    method Body() returns (b: bytes)
      requires Valid()
      modifies this`received, this`bodyCache
      ensures Valid() && bodyCache == Some(b)
      ensures old(bodyCache).Some? ==> b == old(bodyCache).value && received == old(received)
      ensures old(bodyCache).None? ==> (b, received) == Collect(inbox, old(received))
    {
      if bodyCache.Some? {
        return bodyCache.value;
      }
      var body: bytes := [];
      var more := true;
      while more
        invariant Valid() && old(received) <= received
        invariant more ==> body + Collect(inbox, received).0 == Collect(inbox, old(received)).0
                           && Collect(inbox, received).1 == Collect(inbox, old(received)).1
        invariant !more ==> (body, received) == Collect(inbox, old(received))
        decreases |inbox| - received, more
      {
        ghost var before := received;
        var message := Receive();
        if before < |inbox| && message.moreBody {
          ConcatAssoc(body, message.body, Collect(inbox, received).0);
        }
        body := body + message.body;
        more := message.moreBody;
      }
      bodyCache := Some(body);
      b := body;
    }

    /** `await request.json()`. */
    method JsonBody() returns (r: Result<Option<Json.Document>>)
      requires Valid()
      modifies this`received, this`bodyCache
      ensures Valid() && bodyCache.Some? && r == DecodeBody(bodyCache.value)
      ensures old(bodyCache).Some? ==> bodyCache == old(bodyCache) && received == old(received)
      ensures old(bodyCache).None? ==> (bodyCache.value, received) == Collect(inbox, old(received))
    {
      var b := Body();
      if b == [] {
        r := Returned(None);
      } else {
        match Utf8.Decode(b)
        case None =>
          r := Raised(InvalidUtf8);
        case Some(text) =>
          match Json.Decode(text)
          case None =>
            r := Raised(InvalidJson);
          case Some(doc) =>
            r := Returned(Some(doc));
      }
    }

    /** `request.session[key] = value`. */
    method Put(key: string, value: Json.Scalar)
      modifies this`session
      ensures session == old(session)[key := value]
    {
      session := session[key := value];
    }

    /** `request.session.pop(key, None)`. */
    method Pop(key: string)
      modifies this`session
      ensures session == old(session) - {key}
    {
      session := session - {key};
    }

    /** `request.clear_session()` as written: the session is emptied, then
        the cookie name is looked up through `self.app`, which no request
        has, so the call raises before the deletion cookie is added. */
    method ClearSessionAsWritten() returns (r: Result<()>)
      modifies this`session
      ensures session == map[] && r == Raised(NoAppAttribute)
    {
      session := map[];
      r := Raised(NoAppAttribute);
    }

    /** `request.clear_session()` as its documentation describes it, given
        the application's cookie name: the session is emptied and exactly one
        deletion cookie is added after the headers already asked for. This is
        also what `MicroPy.clear_session(request)` does. */
    method ClearSession(cookieName: string)
      modifies this`session, this`responseHeaders
      ensures session == map[]
      ensures responseHeaders == old(responseHeaders) + [DeletionCookie(cookieName)]
    {
      session := map[];
      responseHeaders := responseHeaders + [DeletionCookie(cookieName)];
    }
  }
}
