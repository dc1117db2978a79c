/** The application object and its ASGI entry point (foxwebsite/framework.py,
    lines 131-370): route registration, `url_for`, the session headers of a
    response, `clear_session`, and `__call__`, which turns one request into
    the events handed to `send`.

    What lies outside the framework is a parameter: the files on disk are a
    map from path to contents, the templates a map from path to text, and
    each handler a function from what it can read of the request to what it
    does to the session and what it returns. */
module App {
  import opened Base
  import opened Text
  import Utf8
  import Json
  import opened Responses
  import Routing
  import opened SessionCodec
  import opened Requests

  /* ---------------------------------------------------------------------- */
  /* Handlers                                                               */
  /* ---------------------------------------------------------------------- */

  /** What a handler does to the request while it runs: sets or pops a
      session key, calls `app.clear_session(request)`, or calls
      `request.clear_session()`. */
  datatype Effect = Put(key: string, value: Json.Scalar) | Pop(key: string) | Clear | ClearViaRequest

  /** What a handler returns: `None`, a `str`, a `dict` of scalars (its
      items in insertion order), or any other object, shown by its `str()`. */
  datatype Value = NoneValue | Str(s: string) | Dict(items: Json.Dict) | Other(repr: string)

  /** What a handler can read of the request: the method, the path, the
      route's groups, the session, the cookies and the body. */
  datatype HandlerInput = HandlerInput(
    verb: string, path: string, params: map<string, string>,
    session: map<string, Json.Scalar>, cookies: map<string, string>, body: bytes)

  /** One run of a handler: its effects in order, then its return value or
      the text of the exception it raised. */
  datatype HandlerRun = HandlerRun(effects: seq<Effect>, outcome: Result<Value>)

  /** The registered handlers, by number. */
  type Handlers = (nat, HandlerInput) -> HandlerRun

  /** The session, the extra response headers and the exception, if any,
      once a handler's effects have run. */
  datatype Applied = Applied(session: map<string, Json.Scalar>, extra: seq<Header>, raised: Option<string>)

  /** The effects run in order. `request.clear_session()` empties the
      session and then raises, so nothing after it runs. */
  function ApplyEffects(session: map<string, Json.Scalar>, extra: seq<Header>, effects: seq<Effect>, cookieName: string): Applied
    decreases |effects|
  {
    if effects == [] then Applied(session, extra, None)
    else
      match effects[0]
      case Put(k, v) => ApplyEffects(session[k := v], extra, effects[1..], cookieName)
      case Pop(k) => ApplyEffects(session - {k}, extra, effects[1..], cookieName)
      case Clear => ApplyEffects(map[], extra + [DeletionCookie(cookieName)], effects[1..], cookieName)
      case ClearViaRequest => Applied(map[], extra, Some(NoAppAttribute))
  }

  /** Running effects is running a first part and then the rest. */
  lemma {:induction false} ApplyEffectsSplit(session: map<string, Json.Scalar>, extra: seq<Header>, effects: seq<Effect>, i: nat, cookieName: string)
    requires i < |effects|
    ensures ApplyEffects(session, extra, effects[i..], cookieName) ==
            match effects[i]
            case Put(k, v) => ApplyEffects(session[k := v], extra, effects[i + 1..], cookieName)
            case Pop(k) => ApplyEffects(session - {k}, extra, effects[i + 1..], cookieName)
            case Clear => ApplyEffects(map[], extra + [DeletionCookie(cookieName)], effects[i + 1..], cookieName)
            case ClearViaRequest => Applied(map[], extra, Some(NoAppAttribute))
  {
    assert effects[i..][0] == effects[i];
    assert effects[i..][1..] == effects[i + 1..];
  }

  /** The only headers effects add are deletion cookies, and an exception is
      the one `request.clear_session()` raises. */
  lemma {:induction false} EffectsAddDeletions(session: map<string, Json.Scalar>, extra: seq<Header>, effects: seq<Effect>, cookieName: string)
    ensures var a := ApplyEffects(session, extra, effects, cookieName);
            |a.extra| >= |extra| && a.extra[..|extra|] == extra
            && (forall j :: |extra| <= j < |a.extra| ==> a.extra[j] == DeletionCookie(cookieName))
            && (a.raised.Some? ==> a.raised.value == NoAppAttribute && a.session == map[])
    decreases |effects|
  {
    if effects != [] {
      match effects[0]
      case Put(k, v) => EffectsAddDeletions(session[k := v], extra, effects[1..], cookieName);
      case Pop(k) => EffectsAddDeletions(session - {k}, extra, effects[1..], cookieName);
      case Clear =>
        var e := extra + [DeletionCookie(cookieName)];
        EffectsAddDeletions(map[], e, effects[1..], cookieName);
        var a := ApplyEffects(map[], e, effects[1..], cookieName);
        assert a.extra[..|extra|] == e[..|extra|] == extra;
      case ClearViaRequest =>
    }
  }

  /** After `app.clear_session(request)`, with no key set afterwards and no
      call of `request.clear_session()`, the session is empty and the
      deletion cookie is among the extra headers. */
  lemma {:induction false} ClearEmptiesSession(session: map<string, Json.Scalar>, extra: seq<Header>, effects: seq<Effect>, i: nat, cookieName: string)
    requires i < |effects| && effects[i] == Clear
    requires forall j :: 0 <= j < |effects| ==> !effects[j].ClearViaRequest?
    requires forall j :: i < j < |effects| ==> !effects[j].Put?
    ensures var a := ApplyEffects(session, extra, effects, cookieName);
            a.session == map[] && a.raised == None && DeletionCookie(cookieName) in a.extra
    decreases |effects|
  {
    if i == 0 {
      var e := extra + [DeletionCookie(cookieName)];
      assert e[|extra|] == DeletionCookie(cookieName);
      PopsKeepEmpty(e, effects[1..], cookieName);
      EffectsAddDeletions(map[], e, effects[1..], cookieName);
      var a := ApplyEffects(map[], e, effects[1..], cookieName);
      assert a.extra[|extra|] == a.extra[..|e|][|extra|];
    } else {
      var rest := effects[1..];
      assert forall j :: 0 <= j < |rest| ==> rest[j] == effects[j + 1];
      match effects[0]
      case Put(k, v) => ClearEmptiesSession(session[k := v], extra, rest, i - 1, cookieName);
      case Pop(k) => ClearEmptiesSession(session - {k}, extra, rest, i - 1, cookieName);
      case Clear => ClearEmptiesSession(map[], extra + [DeletionCookie(cookieName)], rest, i - 1, cookieName);
    }
  }

  /** Effects that only pop and clear leave an empty session empty. */
  lemma {:induction false} PopsKeepEmpty(extra: seq<Header>, effects: seq<Effect>, cookieName: string)
    requires forall j :: 0 <= j < |effects| ==> effects[j].Pop? || effects[j].Clear?
    ensures var a := ApplyEffects(map[], extra, effects, cookieName);
            a.session == map[] && a.raised == None
    decreases |effects|
  {
    if effects != [] {
      var rest := effects[1..];
      assert forall j :: 0 <= j < |rest| ==> rest[j] == effects[j + 1];
      var empty: map<string, Json.Scalar> := map[];
      match effects[0]
      case Pop(k) =>
        assert (empty - {k}).Keys == {};
        assert empty - {k} == empty;
        PopsKeepEmpty(extra, rest, cookieName);
      case Clear =>
        PopsKeepEmpty(extra + [DeletionCookie(cookieName)], rest, cookieName);
    }
  }

  /* ---------------------------------------------------------------------- */
  /* Response headers                                                       */
  /* ---------------------------------------------------------------------- */

  /** The name of the session cookie. */
  const SessionCookieName := "micropy_session"

  /** The header that saves the session in the browser. */
  function SessionCookie(cookieName: string, session: map<string, Json.Scalar>, secret: string, mac: Mac): Header {
    Header("set-cookie", cookieName + "=" + Serialize(session, secret, mac) + "; Path=/; HttpOnly")
  }

  /** `_build_headers_with_session`: the content type, the extra headers in
      the order the handler asked for them, and the session cookie when the
      session is not empty. */
  function BuildHeaders(contentType: string, extra: seq<Header>, session: map<string, Json.Scalar>,
                        cookieName: string, secret: string, mac: Mac): seq<Header>
  {
    [Header("content-type", contentType)] + extra
    + (if session != map[] then [SessionCookie(cookieName, session, secret, mac)] else [])
  }

  /** The session cookie is never a deletion cookie: its value holds a dot
      and the deletion cookie's does not. */
  lemma SessionCookieNotDeletion(cookieName: string, session: map<string, Json.Scalar>, secret: string, mac: Mac)
    ensures SessionCookie(cookieName, session, secret, mac) != DeletionCookie(cookieName)
  {
    DeletionHasNoDot();
    DotDiffers(cookieName + "=", Serialize(session, secret, mac), "; Path=/; HttpOnly", DeletionTail);
  }

  /** The deletion cookie holds no dot. */
  lemma DeletionHasNoDot()
    ensures '.' !in DeletionTail
  {
    assert '.' !in "deleted" && '.' !in "; Path=/" && '.' !in "; HttpOnly";
    assert '.' !in "; Expires=Thu, 01 Jan 1970 00:00:00 GMT";
  }

  /** Text holding a dot, whatever surrounds it, differs from text with no
      dot after the same prefix. */
  lemma DotDiffers(p: string, v: string, x: string, rest: string)
    requires '.' in v && '.' !in rest
    ensures p + v + x != p + rest
  {
    var k :| 0 <= k < |v| && v[k] == '.';
    assert (p + v + x)[|p| + k] == '.';
    if k < |rest| {
      assert (p + rest)[|p| + k] == rest[k];
    }
  }

  /** A response carries the session cookie exactly when the session it
      leaves is not empty, whatever deletion cookies come before it, and the
      header before the extra ones is the content type. */
  lemma SessionCookieIff(contentType: string, extra: seq<Header>, session: map<string, Json.Scalar>,
                         cookieName: string, secret: string, mac: Mac)
    requires forall j :: 0 <= j < |extra| ==> extra[j] == DeletionCookie(cookieName)
    ensures var hs := BuildHeaders(contentType, extra, session, cookieName, secret, mac);
            hs[0] == Header("content-type", contentType) && hs[1..1 + |extra|] == extra
            && (SessionCookie(cookieName, session, secret, mac) in hs <==> session != map[])
  {
    var hs := BuildHeaders(contentType, extra, session, cookieName, secret, mac);
    var sc := SessionCookie(cookieName, session, secret, mac);
    SessionCookieNotDeletion(cookieName, session, secret, mac);
    assert hs[1..1 + |extra|] == extra;
    if session == map[] {
      assert hs == [Header("content-type", contentType)] + extra;
      assert sc !in hs by {
        forall j | 0 <= j < |hs| ensures hs[j] != sc {
          if j > 0 {
            assert hs[j] == extra[j - 1];
          }
        }
      }
    } else {
      assert hs[|hs| - 1] == sc;
    }
  }

  /** What the browser sends back of a `Set-Cookie` value: the text before
      its first `;`. */
  function Echo(setCookie: string): (r: string)
    ensures ';' !in r && |r| <= |setCookie|
  {
    if ';' in setCookie then SplitFirst(setCookie, ';').0 else setCookie
  }

  /** The session a response saves is the session the next request starts
      with, when the browser echoes the cookie back and the session's JSON
      holds no `;`. */
  lemma SessionPersists(session: map<string, Json.Scalar>, secret: string, mac: Mac)
    requires ';' !in Payload(session)
    ensures var echoed := Echo(SessionCookie(SessionCookieName, session, secret, mac).value);
            var cookies := CookiesOf([Header("cookie", echoed)]);
            SessionCookieName in cookies
            && ResolveSession(Deserialize(Some(cookies[SessionCookieName]), secret, mac)) == session
  {
    var v := Serialize(session, secret, mac);
    SerializedCookieValue(session, secret, mac);
    CookieNameIsToken();
    EchoOfCookie(SessionCookieName, v);
    EchoedCookie(SessionCookieName, v);
    ResolveRoundTrip(session, secret, mac);
  }

  /** The browser echoes a cookie's name and value without its attributes. */
  lemma EchoOfCookie(name: string, v: string)
    requires ';' !in name + "=" && ';' !in v
    ensures Echo(name + "=" + v + "; Path=/; HttpOnly") == name + "=" + v
  {
    var head := name + "=" + v;
    assert ';' !in head;
    assert "; Path=/; HttpOnly" == [';'] + " Path=/; HttpOnly";
    ConcatAssoc(head, [';'], " Path=/; HttpOnly");
    EchoHead(head, " Path=/; HttpOnly");
  }

  /** The session cookie's name is a plain token. */
  lemma CookieNameIsToken()
    ensures SessionCookieName != [] && !IsSpace(SessionCookieName[0])
    ensures '=' !in SessionCookieName && ';' !in SessionCookieName && ';' !in SessionCookieName + "="
  {
  }

  /** The serialized session holds no `;` when its JSON does not, and it
      ends in a dot or a hexadecimal digit, never in white space. */
  lemma SerializedCookieValue(session: map<string, Json.Scalar>, secret: string, mac: Mac)
    requires ';' !in Payload(session)
    ensures var v := Serialize(session, secret, mac);
            ';' !in v && v != [] && !IsSpace(v[|v| - 1])
  {
    var p := Payload(session);
    SerializeParts(session, secret, mac);
    JoinedValue(p, Sign(p, secret, mac));
  }

  /** Text without `;`, a dot and hexadecimal digits hold no `;` and do not
      end in white space. */
  lemma JoinedValue(p: string, sig: string)
    requires ';' !in p
    requires forall i :: 0 <= i < |sig| ==> IsLowerHex(sig[i])
    ensures var v := p + "." + sig;
            ';' !in v && v != [] && !IsSpace(v[|v| - 1])
  {
    assert ';' !in sig by {
      assert forall i :: 0 <= i < |sig| ==> sig[i] != ';';
    }
    var v := p + "." + sig;
    assert v[|v| - 1] == if sig == [] then '.' else sig[|sig| - 1];
  }

  /** The browser echoes the part before the first `;`. */
  lemma EchoHead(head: string, tail: string)
    requires ';' !in head
    ensures Echo(head + [';'] + tail) == head
  {
    var (h, t) := SplitFirst(head + [';'] + tail, ';');
    PrefixBeforeSeparator(head, tail, h, t, ';');
  }

  /* ---------------------------------------------------------------------- */
  /* Dispatch                                                               */
  /* ---------------------------------------------------------------------- */

  /** The application's configuration. */
  datatype Settings = Settings(templateFolder: string, staticUrlPath: string, secretKey: string, cookieName: string, mac: Mac)

  /** `os.path.join(folder, name)` for a name that does not start with `/`. */
  function JoinPath(folder: string, name: string): string {
    if folder == [] || folder[|folder| - 1] == '/' then folder + name else folder + "/" + name
  }

  /** The template a handler returning nothing falls back on: the path
      without its outer slashes, or `index` for the root, plus `.html`. */
  function AutoTemplate(path: string): (name: string)
    ensures name != [] && name[0] != '/'
    ensures |name| > 5 && name[|name| - 5..] == ".html"
  {
    var stem := StripSlashes(path);
    var base := if stem == [] then "index" else stem;
    assert (base + ".html")[0] == base[0];
    assert (base + ".html")[|base|..] == ".html";
    base + ".html"
  }

  const NotFoundPage := "<h1>404 The route does not exist.</h1>"

  /** The page of an exception raised inside the handler or while building
      the response. */
  function ErrorPage(message: string): string {
    "<h1>500 Internal Server Error</h1><pre>" + message + "</pre>"
  }

  /** A 200 reply built with the session headers. */
  function SessionReply(st: Settings, contentType: string, a: Applied, body: string): seq<Event> {
    Reply(200, BuildHeaders(contentType, a.extra, a.session, st.cookieName, st.secretKey, st.mac), Utf8.Encode(body))
  }

  /** What `__call__` sends once the handler has run and its effects have
      left `a`. */
  function Finish(st: Settings, path: string, templates: map<string, string>, a: Applied, outcome: Result<Value>): seq<Event> {
    match outcome
    case Raised(message) => SendResponse(500, ErrorPage(message), "text/html")
    case Returned(v) =>
      var (contentType, text) := Content(st.templateFolder, path, templates, v);
      SessionReply(st, contentType, a, text)
  }

  /** The content type and text of the 200 response to what a handler
      returned: the template named after the path when the handler returned
      `None` or the empty string and that template exists; otherwise a
      dictionary as JSON, a string as it is, and anything else by its
      `str()`. */
  function Content(templateFolder: string, path: string, templates: map<string, string>, v: Value): (string, string) {
    var auto := JoinPath(templateFolder, AutoTemplate(path));
    if (v == NoneValue || v == Str("")) && auto in templates then ("text/html", templates[auto])
    else
      match v
      case Dict(items) => ("application/json", Json.EncodeObject(items, Json.ResponseStyle))
      case Str(s) => ("text/html", s)
      case NoneValue => ("text/html", "None")
      case Other(repr) => ("text/html", repr)
  }

  /** The outcome of a run: the exception `request.clear_session()` raised,
      if it did, or else the handler's own outcome. */
  function Outcome(a: Applied, run: HandlerRun): Result<Value> {
    if a.raised.Some? then Raised(a.raised.value) else run.outcome
  }

  /** The session a request starts with, from its cookies. */
  function StartSession(st: Settings, cookies: map<string, string>): map<string, Json.Scalar> {
    ResolveSession(Deserialize(if st.cookieName in cookies then Some(cookies[st.cookieName]) else None, st.secretKey, st.mac))
  }

  /** What `__call__` sends for a request whose path is neither the icon nor
      an existing static file: the handler of the first route that selects
      it, or the not-found page. */
  function Dispatch(st: Settings, routes: seq<Routing.Route>, scope: Scope, inbox: seq<Message>,
                    templates: map<string, string>, handlers: Handlers): seq<Event>
  {
    match Routing.FirstMatch(routes, scope.verb, scope.path, 0)
    case None => SendResponse(404, NotFoundPage, "text/html")
    case Some((i, params)) =>
      var cookies := CookiesOf(scope.headers);
      var session := StartSession(st, cookies);
      var run := handlers(routes[i].handler, HandlerInput(scope.verb, scope.path, params, session, cookies, Collect(inbox, 0).0));
      var a := ApplyEffects(session, [], run.effects, st.cookieName);
      Finish(st, scope.path, templates, a, Outcome(a, run))
  }

  /** `await app(scope, receive, send)`: the events sent, given the client's
      messages, the files on disk and the templates. */
  function Respond(st: Settings, routes: seq<Routing.Route>, scope: Scope, inbox: seq<Message>,
                   files: map<string, bytes>, templates: map<string, string>, handlers: Handlers): seq<Event>
  {
    if scope.kind != "http" then []
    else if scope.path == "/favicon.ico" then SendResponse(204, "", "image/x-icon")
    else if StartsWith(scope.path, st.staticUrlPath) && "." + scope.path in files then
      StaticReply("." + scope.path, files["." + scope.path])
    else Dispatch(st, routes, scope, inbox, templates, handlers)
  }

  /* ---------------------------------------------------------------------- */
  /* Properties of a response                                               */
  /* ---------------------------------------------------------------------- */

  /** Every HTTP request is answered by exactly one framed response whose
      status is 200, 204, 404 or 500; any other scope gets nothing. */
  lemma RespondFramed(st: Settings, routes: seq<Routing.Route>, scope: Scope, inbox: seq<Message>,
                      files: map<string, bytes>, templates: map<string, string>, handlers: Handlers)
    ensures var r := Respond(st, routes, scope, inbox, files, templates, handlers);
            (r == [] <==> scope.kind != "http")
            && (r != [] ==> Framed(r) && r[0].status in {200, 204, 404, 500})
  {
    var r := Respond(st, routes, scope, inbox, files, templates, handlers);
    if scope.kind == "http" {
      if scope.path == "/favicon.ico" {
        SendResponseReadBack(204, "", "image/x-icon");
      } else if StartsWith(scope.path, st.staticUrlPath) && "." + scope.path in files {
        var p := "." + scope.path;
        ReplyFramed(200, [Header("content-type", ContentTypeFor(Ext(p)))], files[p]);
      } else {
        DispatchFramed(st, routes, scope, inbox, templates, handlers);
      }
    }
  }

  lemma DispatchFramed(st: Settings, routes: seq<Routing.Route>, scope: Scope, inbox: seq<Message>,
                       templates: map<string, string>, handlers: Handlers)
    ensures var r := Dispatch(st, routes, scope, inbox, templates, handlers);
            Framed(r) && r[0].status in {200, 404, 500}
  {
    match Routing.FirstMatch(routes, scope.verb, scope.path, 0)
    case None => SendResponseReadBack(404, NotFoundPage, "text/html");
    case Some((i, params)) =>
      var cookies := CookiesOf(scope.headers);
      var session := StartSession(st, cookies);
      var run := handlers(routes[i].handler, HandlerInput(scope.verb, scope.path, params, session, cookies, Collect(inbox, 0).0));
      var a := ApplyEffects(session, [], run.effects, st.cookieName);
      FinishFramed(st, scope.path, templates, a, Outcome(a, run));
  }

  lemma FinishFramed(st: Settings, path: string, templates: map<string, string>, a: Applied, outcome: Result<Value>)
    ensures var r := Finish(st, path, templates, a, outcome);
            Framed(r) && r[0].status == (if outcome.Raised? then 500 else 200)
  {
    match outcome
    case Raised(message) => SendResponseReadBack(500, ErrorPage(message), "text/html");
    case Returned(v) =>
      var (contentType, text) := Content(st.templateFolder, path, templates, v);
      ReplyFramed(200, BuildHeaders(contentType, a.extra, a.session, st.cookieName, st.secretKey, st.mac), Utf8.Encode(text));
  }

  /** The icon path is answered with an empty 204 whatever routes exist. */
  lemma FaviconAlways(st: Settings, routes: seq<Routing.Route>, scope: Scope, inbox: seq<Message>,
                      files: map<string, bytes>, templates: map<string, string>, handlers: Handlers)
    requires scope.kind == "http" && scope.path == "/favicon.ico"
    ensures Respond(st, routes, scope, inbox, files, templates, handlers) == SendResponse(204, "", "image/x-icon")
  {
  }

  /** A file that exists under the static prefix is served as it is, before
      any route is looked at, so no route can shadow it. */
  lemma StaticBeforeRoutes(st: Settings, routes: seq<Routing.Route>, scope: Scope, inbox: seq<Message>,
                           files: map<string, bytes>, templates: map<string, string>, handlers: Handlers)
    requires scope.kind == "http" && scope.path != "/favicon.ico"
    requires StartsWith(scope.path, st.staticUrlPath) && "." + scope.path in files
    ensures Respond(st, routes, scope, inbox, files, templates, handlers) == StaticReply("." + scope.path, files["." + scope.path])
  {
  }

  /** A request no route selects gets the not-found page, whatever the
      handlers would do. */
  lemma NoRouteNotFound(st: Settings, routes: seq<Routing.Route>, scope: Scope, inbox: seq<Message>,
                        files: map<string, bytes>, templates: map<string, string>, handlers: Handlers)
    requires scope.kind == "http" && scope.path != "/favicon.ico"
    requires !(StartsWith(scope.path, st.staticUrlPath) && "." + scope.path in files)
    requires forall j :: 0 <= j < |routes| ==> !Routing.Selects(routes[j], scope.verb, scope.path)
    ensures Respond(st, routes, scope, inbox, files, templates, handlers) == SendResponse(404, NotFoundPage, "text/html")
  {
    assert Respond(st, routes, scope, inbox, files, templates, handlers) == Dispatch(st, routes, scope, inbox, templates, handlers);
    NoneSelects(routes, scope.verb, scope.path);
    DispatchNotFound(st, routes, scope, inbox, templates, handlers);
  }

  lemma NoneSelects(routes: seq<Routing.Route>, verb: string, path: string)
    requires forall j :: 0 <= j < |routes| ==> !Routing.Selects(routes[j], verb, path)
    ensures Routing.FirstMatch(routes, verb, path, 0) == None
  {
  }

  lemma DispatchNotFound(st: Settings, routes: seq<Routing.Route>, scope: Scope, inbox: seq<Message>,
                         templates: map<string, string>, handlers: Handlers)
    requires Routing.FirstMatch(routes, scope.verb, scope.path, 0) == None
    ensures Dispatch(st, routes, scope, inbox, templates, handlers) == SendResponse(404, NotFoundPage, "text/html")
  {
  }

  /** A handler that calls `request.clear_session()` always produces the
      error page naming the missing `app` attribute, whatever it returns. */
  lemma ClearViaRequestFails(st: Settings, path: string, templates: map<string, string>,
                             session: map<string, Json.Scalar>, run: HandlerRun)
    requires exists j :: 0 <= j < |run.effects| && run.effects[j] == ClearViaRequest
    ensures var a := ApplyEffects(session, [], run.effects, st.cookieName);
            var r := Finish(st, path, templates, a, Outcome(a, run));
            r[0].status == 500 && Utf8.Decode(r[1].body) == Some(ErrorPage(NoAppAttribute))
  {
    var j :| 0 <= j < |run.effects| && run.effects[j] == ClearViaRequest;
    StopsAtRequestClear(session, [], run.effects, j, st.cookieName);
    EffectsAddDeletions(session, [], run.effects, st.cookieName);
    SendResponseReadBack(500, ErrorPage(NoAppAttribute), "text/html");
  }

  lemma {:induction false} StopsAtRequestClear(session: map<string, Json.Scalar>, extra: seq<Header>, effects: seq<Effect>, j: nat, cookieName: string)
    requires j < |effects| && effects[j] == ClearViaRequest
    ensures ApplyEffects(session, extra, effects, cookieName).raised.Some?
    decreases |effects|
  {
    if j > 0 && !effects[0].ClearViaRequest? {
      var rest := effects[1..];
      assert rest[j - 1] == effects[j];
      match effects[0]
      case Put(k, v) => StopsAtRequestClear(session[k := v], extra, rest, j - 1, cookieName);
      case Pop(k) => StopsAtRequestClear(session - {k}, extra, rest, j - 1, cookieName);
      case Clear => StopsAtRequestClear(map[], extra + [DeletionCookie(cookieName)], rest, j - 1, cookieName);
    }
  }

  /** After `app.clear_session(request)`, with no key set afterwards, the
      response deletes the session cookie and does not set it again. */
  lemma ClearedSessionResponse(st: Settings, contentType: string, session: map<string, Json.Scalar>, effects: seq<Effect>, i: nat)
    requires i < |effects| && effects[i] == Clear
    requires forall j :: 0 <= j < |effects| ==> !effects[j].ClearViaRequest?
    requires forall j :: i < j < |effects| ==> !effects[j].Put?
    ensures var a := ApplyEffects(session, [], effects, st.cookieName);
            var hs := BuildHeaders(contentType, a.extra, a.session, st.cookieName, st.secretKey, st.mac);
            DeletionCookie(st.cookieName) in hs && a.raised == None
            && forall s :: SessionCookie(st.cookieName, s, st.secretKey, st.mac) !in hs
  {
    var a := ApplyEffects(session, [], effects, st.cookieName);
    ClearEmptiesSession(session, [], effects, i, st.cookieName);
    EffectsAddDeletions(session, [], effects, st.cookieName);
    HeadersAfterClear(contentType, a.extra, st.cookieName, st.secretKey, st.mac);
  }

  /** With an empty session and only deletion cookies among the extra
      headers, the headers carry those and no session cookie. */
  lemma HeadersAfterClear(contentType: string, extra: seq<Header>, cookieName: string, secret: string, mac: Mac)
    requires forall j :: 0 <= j < |extra| ==> extra[j] == DeletionCookie(cookieName)
    requires DeletionCookie(cookieName) in extra
    ensures var hs := BuildHeaders(contentType, extra, map[], cookieName, secret, mac);
            DeletionCookie(cookieName) in hs
            && forall s :: SessionCookie(cookieName, s, secret, mac) !in hs
  {
    var hs := BuildHeaders(contentType, extra, map[], cookieName, secret, mac);
    assert hs == [Header("content-type", contentType)] + extra;
    var k :| 0 <= k < |extra| && extra[k] == DeletionCookie(cookieName);
    assert hs[k + 1] == extra[k];
    forall s ensures SessionCookie(cookieName, s, secret, mac) !in hs {
      SessionCookieNotDeletion(cookieName, s, secret, mac);
      forall j | 0 <= j < |hs| ensures hs[j] != SessionCookie(cookieName, s, secret, mac) {
        if j > 0 {
          assert hs[j] == extra[j - 1];
        }
      }
    }
  }

  /** A dictionary a handler returns reaches the client as JSON that reads
      back as that dictionary (`Json.DecodeEncodeDict` gives its keys and values). */
  lemma DictReadBack(st: Settings, path: string, templates: map<string, string>, a: Applied, items: Json.Dict)
    ensures Finish(st, path, templates, a, Returned(Dict(items)))
            == SessionReply(st, "application/json", a, Json.EncodeObject(items, Json.ResponseStyle))
    ensures Json.Decode(Json.EncodeObject(items, Json.ResponseStyle)) == Some(Json.Object(Json.FoldPairs(map[], items)))
  {
    Json.DecodeEncodeObject(items, Json.ResponseStyle);
  }

  /** A string is sent as HTML as it is, unless it is empty and the page
      template exists. */
  lemma StrServedAsHtml(st: Settings, path: string, templates: map<string, string>, a: Applied, text: string)
    requires text != "" || JoinPath(st.templateFolder, AutoTemplate(path)) !in templates
    ensures Finish(st, path, templates, a, Returned(Str(text))) == SessionReply(st, "text/html", a, text)
  {
  }

  /** Without a page template, `None` is sent as the text `None` with status
      200, not as a not-found page; any other object is sent as its `str()`. */
  lemma NoTemplateFallsThrough(st: Settings, path: string, templates: map<string, string>, a: Applied, repr: string)
    requires JoinPath(st.templateFolder, AutoTemplate(path)) !in templates
    ensures Finish(st, path, templates, a, Returned(NoneValue)) == SessionReply(st, "text/html", a, "None")
    ensures Finish(st, path, templates, a, Returned(Other(repr))) == SessionReply(st, "text/html", a, repr)
  {
  }

  /** A client reads a 200 reply with session headers back: the content type
      first, a content length equal to the UTF-8 length, and a body that
      decodes to the text. */
  lemma SessionReplyReadBack(st: Settings, contentType: string, a: Applied, text: string)
    ensures var r := SessionReply(st, contentType, a, text);
            Framed(r) && r[0].status == 200 && r[0].headers[0] == Header("content-type", contentType)
            && Utf8.Decode(r[1].body) == Some(text)
  {
    var hs := BuildHeaders(contentType, a.extra, a.session, st.cookieName, st.secretKey, st.mac);
    ReplyFramed(200, hs, Utf8.Encode(text));
    Utf8.DecodeEncode(text);
  }

  /** A handler returning nothing, or the empty string, is answered with the
      template named after the path when there is one. */
  lemma AutoTemplateServed(st: Settings, path: string, templates: map<string, string>, a: Applied, v: Value)
    requires v == NoneValue || v == Str("")
    requires JoinPath(st.templateFolder, AutoTemplate(path)) in templates
    ensures var r := Finish(st, path, templates, a, Returned(v));
            r[0].status == 200 && r[0].headers[0] == Header("content-type", "text/html")
            && Utf8.Decode(r[1].body) == Some(templates[JoinPath(st.templateFolder, AutoTemplate(path))])
  {
    Utf8.DecodeEncode(templates[JoinPath(st.templateFolder, AutoTemplate(path))]);
  }

  /** A page path `/about` or `/about/` falls back on `about.html`: the
      template is named after the path between its outer slashes. */
  lemma AutoTemplateOfPage(s: string)
    requires s != [] && s[0] != '/' && s[|s| - 1] != '/'
    ensures AutoTemplate("/" + s) == s + ".html"
    ensures AutoTemplate("/" + s + "/") == s + ".html"
  {
    StripSlashesBetween(s, "/" + s);
    StripSlashesBetween(s, "/" + s + "/");
  }

  /** A path made only of slashes, the root `/` among them, falls back on
      `index.html`; any other path names `index.html` only when it is
      `index` between slashes. */
  lemma AutoTemplateIndex(path: string)
    ensures (forall i :: 0 <= i < |path| ==> path[i] == '/') ==> AutoTemplate(path) == "index.html"
    ensures AutoTemplate(path) == "index.html" ==>
              (forall i :: 0 <= i < |path| ==> path[i] == '/') || StripSlashes(path) == "index"
  {
  }

  /* ---------------------------------------------------------------------- */
  /* Route registration                                                     */
  /* ---------------------------------------------------------------------- */

  /** The routes `route(path, methods)` appends: one per method, in order,
      with the method upper-cased. */
  function Registered(pattern: seq<Routing.Segment>, methods: seq<string>, handler: nat): (r: seq<Routing.Route>)
    ensures |r| == |methods|
    ensures forall j :: 0 <= j < |methods| ==> r[j] == Routing.Route(pattern, Upper(methods[j]), handler)
  {
    if methods == [] then [] else [Routing.Route(pattern, Upper(methods[0]), handler)] + Registered(pattern, methods[1..], handler)
  }

  /** The `url_for` keys `route(path, methods)` writes. */
  function EntryKeys(path: string, methods: seq<string>): set<string>
    decreases |methods|
  {
    if methods == [] then {} else {Upper(methods[0]) + ":" + path} + EntryKeys(path, methods[1..])
  }

  /** The keys `route(path, methods)` writes are exactly `"METHOD:path"`
      for each of its methods, upper-cased. */
  lemma {:induction false} EntryKeysMembers(path: string, methods: seq<string>)
    ensures forall k :: k in EntryKeys(path, methods) <==> exists j :: 0 <= j < |methods| && k == Upper(methods[j]) + ":" + path
    decreases |methods|
  {
    if methods != [] {
      EntryKeysMembers(path, methods[1..]);
      assert forall j :: 1 <= j < |methods| ==> methods[1..][j - 1] == methods[j];
    }
  }

  /** The `url_for` entries `route(path, methods)` adds: each of its keys
      maps to the path, and every other key keeps its entry (or stays
      absent). */
  function MapEntries(routeMap: map<string, string>, path: string, methods: seq<string>): (r: map<string, string>)
    ensures r.Keys == routeMap.Keys + EntryKeys(path, methods)
    ensures forall k :: k in EntryKeys(path, methods) ==> r[k] == path
    ensures forall k :: k in routeMap && k !in EntryKeys(path, methods) ==> r[k] == routeMap[k]
    decreases |methods|
  {
    if methods == [] then routeMap
    else MapEntries(routeMap[Upper(methods[0]) + ":" + path := path], path, methods[1..])
  }

  /** A route registered earlier is preferred: adding routes changes the
      choice only for requests no earlier route selects. */
  lemma {:induction false} EarlierRoutesFirst(old_: seq<Routing.Route>, new_: seq<Routing.Route>, verb: string, path: string, from: nat)
    requires from <= |old_|
    ensures Routing.FirstMatch(old_ + new_, verb, path, from) ==
            match Routing.FirstMatch(old_, verb, path, from)
            case Some(m) => Some(m)
            case None =>
              match Routing.FirstMatch(new_, verb, path, 0)
              case Some((i, params)) => Some((|old_| + i, params))
              case None => None
    decreases |old_| - from
  {
    var all := old_ + new_;
    if from == |old_| {
      LaterRoutes(old_, new_, verb, path, 0);
    } else {
      assert all[from] == old_[from];
      EarlierRoutesFirst(old_, new_, verb, path, from + 1);
    }
  }

  lemma {:induction false} LaterRoutes(old_: seq<Routing.Route>, new_: seq<Routing.Route>, verb: string, path: string, from: nat)
    requires from <= |new_|
    ensures Routing.FirstMatch(old_ + new_, verb, path, |old_| + from) ==
            match Routing.FirstMatch(new_, verb, path, from)
            case Some((i, params)) => Some((|old_| + i, params))
            case None => None
    decreases |new_| - from
  {
    if from < |new_| {
      assert (old_ + new_)[|old_| + from] == new_[from];
      LaterRoutes(old_, new_, verb, path, from + 1);
    }
  }

  /* ---------------------------------------------------------------------- */
  /* The application object                                                 */
  /* ---------------------------------------------------------------------- */

  class MicroPy {
    const templateFolder: string
    const staticUrlPath: string
    const secretKey: string
    const sessionCookieName: string
    /** The keyed hash the session signature uses. */
    const mac: Mac
    var routes: seq<Routing.Route>
    /** `url_for`'s table from `"METHOD:path"` to the registered path. */
    var routeMap: map<string, string>

    /** Every route was compiled from a valid path. */
    predicate Valid()
      reads this
    {
      forall j :: 0 <= j < |routes| ==> Routing.GoodNames(routes[j].pattern)
    }

    function Config(): Settings {
      Settings(templateFolder, staticUrlPath, secretKey, sessionCookieName, mac)
    }

    /** `MicroPy(template_folder, static_url_path, secret_key)`; creating the
        template folder on disk is not modelled. */
    constructor(mac: Mac, templateFolder: string := "templates", staticUrlPath: string := "/static", secretKey: string := "dev-secret")
      ensures Valid()
      ensures this.templateFolder == templateFolder && this.staticUrlPath == staticUrlPath
      ensures this.secretKey == secretKey && this.mac == mac
      ensures sessionCookieName == SessionCookieName && routes == [] && routeMap == map[]
    {
      this.templateFolder := templateFolder;
      this.staticUrlPath := staticUrlPath;
      this.secretKey := secretKey;
      this.mac := mac;
      sessionCookieName := SessionCookieName;
      routes := [];
      routeMap := map[];
    }

    /** `@app.route(path, methods)` applied to handler number `handler`. A
        path whose placeholders are not distinct identifiers makes
        `re.compile` raise and registers nothing. */
    method Route(path: string, methods: seq<string>, handler: nat) returns (r: Result<()>)
      requires Valid()
      modifies this`routes, this`routeMap
      ensures Valid()
      ensures Routing.Compile(path).None? ==> r.Raised? && routes == old(routes) && routeMap == old(routeMap)
      ensures Routing.Compile(path).Some? ==>
                r == Returned(()) && routes == old(routes) + Registered(Routing.Compile(path).value, methods, handler)
                && routeMap == MapEntries(old(routeMap), path, methods)
    {
      var compiled := Routing.Compile(path);
      if compiled.None? {
        return Raised("bad placeholder name in route pattern");
      }
      RegisterAll(compiled.value, path, methods, handler);
      r := Returned(());
    }

    /** The loop of `route`'s decorator: one route and one `url_for` entry
        per method, in order. */
    method RegisterAll(pattern: seq<Routing.Segment>, path: string, methods: seq<string>, handler: nat)
      requires Valid() && Routing.GoodNames(pattern)
      modifies this`routes, this`routeMap
      ensures Valid()
      ensures routes == old(routes) + Registered(pattern, methods, handler)
      ensures routeMap == MapEntries(old(routeMap), path, methods)
    {
      ghost var before := routes;
      ghost var target := MapEntries(routeMap, path, methods);
      var i := 0;
      while i < |methods|
        invariant 0 <= i <= |methods|
        invariant Valid()
        invariant routes == before + Registered(pattern, methods[..i], handler)
        invariant MapEntries(routeMap, path, methods[i..]) == target
      {
        RegisterNext(pattern, path, methods, i, handler, before, target);
        i := i + 1;
      }
      RegisteredDone(pattern, path, methods, handler, routeMap);
    }

    /** One turn of `route`'s loop keeps the loop's invariant: the routes
        are those of the methods seen so far, and the entries of the methods
        still to come lead to the final `url_for` table. */
    method RegisterNext(pattern: seq<Routing.Segment>, path: string, methods: seq<string>, i: nat, handler: nat,
                        ghost before: seq<Routing.Route>, ghost target: map<string, string>)
      requires i < |methods| && Valid() && Routing.GoodNames(pattern)
      requires routes == before + Registered(pattern, methods[..i], handler)
      requires MapEntries(routeMap, path, methods[i..]) == target
      modifies this`routes, this`routeMap
      ensures Valid()
      ensures routes == before + Registered(pattern, methods[..i + 1], handler)
      ensures MapEntries(routeMap, path, methods[i + 1..]) == target
    {
      RegisteredStep(pattern, methods, i, handler);
      MapEntriesStep(routeMap, path, methods, i);
      AddRoute(pattern, path, methods[i], handler);
    }

    /** One turn of `route`'s loop: the route for one method and its
        `url_for` entry. */
    method AddRoute(pattern: seq<Routing.Segment>, path: string, m: string, handler: nat)
      requires Valid() && Routing.GoodNames(pattern)
      modifies this`routes, this`routeMap
      ensures Valid()
      ensures routes == old(routes) + [Routing.Route(pattern, Upper(m), handler)]
      ensures routeMap == old(routeMap)[Upper(m) + ":" + path := path]
    {
      routes := routes + [Routing.Route(pattern, Upper(m), handler)];
      routeMap := routeMap[Upper(m) + ":" + path := path];
    }

    /** `@app.get(path)`. */
    method Get(path: string, handler: nat) returns (r: Result<()>)
      requires Valid()
      modifies this`routes, this`routeMap
      ensures Valid()
      ensures Routing.Compile(path).None? ==> r.Raised? && routes == old(routes) && routeMap == old(routeMap)
      ensures Routing.Compile(path).Some? ==>
                r == Returned(()) && routes == old(routes) + [Routing.Route(Routing.Compile(path).value, "GET", handler)]
                && routeMap == old(routeMap)["GET:" + path := path]
    {
      UpperLiteral("GET");
      assert ["GET"][1..] == [];
      assert "GET" + ":" == "GET:";
      r := Route(path, ["GET"], handler);
    }

    /** `@app.post(path)`. */
    method Post(path: string, handler: nat) returns (r: Result<()>)
      requires Valid()
      modifies this`routes, this`routeMap
      ensures Valid()
      ensures Routing.Compile(path).None? ==> r.Raised? && routes == old(routes) && routeMap == old(routeMap)
      ensures Routing.Compile(path).Some? ==>
                r == Returned(()) && routes == old(routes) + [Routing.Route(Routing.Compile(path).value, "POST", handler)]
                && routeMap == old(routeMap)["POST:" + path := path]
    {
      UpperLiteral("POST");
      assert ["POST"][1..] == [];
      assert "POST" + ":" == "POST:";
      r := Route(path, ["POST"], handler);
    }

    /** `app.url_for(endpoint, **values)`, the keyword arguments given as
        pairs in order. */
    method UrlFor(endpoint: string, values: seq<(string, string)>) returns (url: string)
      ensures url == Routing.UrlFor(routeMap, endpoint, values)
    {
      if endpoint !in routeMap {
        return "/";
      }
      url := routeMap[endpoint];
      var i := 0;
      while i < |values|
        invariant 0 <= i <= |values|
        invariant Routing.SubstituteAll(url, values[i..]) == Routing.UrlFor(routeMap, endpoint, values)
      {
        assert values[i..][1..] == values[i + 1..];
        url := Routing.Substitute(url, values[i].0, values[i].1);
        i := i + 1;
      }
    }

    /** `_build_headers_with_session(request, content_type)`. */
    method BuildHeadersWithSession(request: Request, contentType: string) returns (headers: seq<Header>)
      ensures headers == BuildHeaders(contentType, request.responseHeaders, request.session, sessionCookieName, secretKey, mac)
    {
      headers := [Header("content-type", contentType)];
      headers := headers + request.responseHeaders;
      if request.session != map[] {
        var data := Serialize(request.session, secretKey, mac);
        headers := headers + [Header("set-cookie", sessionCookieName + "=" + data + "; Path=/; HttpOnly")];
      }
    }

    /** `app.clear_session(request)`. */
    method ClearSession(request: Request)
      modifies request`session, request`responseHeaders
      ensures request.session == map[]
      ensures request.responseHeaders == old(request.responseHeaders) + [DeletionCookie(sessionCookieName)]
    {
      request.ClearSession(sessionCookieName);
    }

    /** The matching loop of `__call__`: the first route, in registration
        order, whose pattern matches the path and whose method is the
        request's; its groups become `request.params`. */
    method FindRoute(request: Request) returns (handler: Option<nat>)
      modifies request`params
      ensures match Routing.FirstMatch(routes, request.verb, request.path, 0)
              case None => handler == None && request.params == old(request.params)
              case Some((i, m)) => handler == Some(routes[i].handler) && request.params == m
    {
      var i := 0;
      while i < |routes|
        invariant 0 <= i <= |routes|
        invariant Routing.FirstMatch(routes, request.verb, request.path, i) == Routing.FirstMatch(routes, request.verb, request.path, 0)
        invariant request.params == old(request.params)
      {
        var m := Routing.MatchFrom(routes[i].pattern, request.path);
        if m.Some? && routes[i].verb == request.verb {
          request.params := m.value;
          return Some(routes[i].handler);
        }
        i := i + 1;
      }
      handler := None;
    }

    /** The handler's effects carried out on the request, in order, stopping
        at `request.clear_session()`, which raises. */
    method RunEffects(request: Request, effects: seq<Effect>) returns (raised: Option<string>)
      modifies request`session, request`responseHeaders
      ensures ApplyEffects(old(request.session), old(request.responseHeaders), effects, sessionCookieName)
              == Applied(request.session, request.responseHeaders, raised)
    {
      raised := None;
      var i := 0;
      while i < |effects|
        invariant 0 <= i <= |effects|
        invariant ApplyEffects(request.session, request.responseHeaders, effects[i..], sessionCookieName)
                  == ApplyEffects(old(request.session), old(request.responseHeaders), effects, sessionCookieName)
        decreases |effects| - i
      {
        ApplyEffectsSplit(request.session, request.responseHeaders, effects, i, sessionCookieName);
        match effects[i] {
          case Put(k, v) => request.Put(k, v);
          case Pop(k) => request.Pop(k);
          case Clear => ClearSession(request);
          case ClearViaRequest =>
            var r := request.ClearSessionAsWritten();
            return Some(r.error);
        }
        i := i + 1;
      }
      assert effects[i..] == [];
    }

    /** The response once the handler has run. */
    method Send(request: Request, templates: map<string, string>, outcome: Result<Value>) returns (events: seq<Event>)
      ensures events == Finish(Config(), request.path, templates, Applied(request.session, request.responseHeaders, None), outcome)
    {
      match outcome
      case Raised(message) =>
        events := SendResponse(500, ErrorPage(message), "text/html");
      case Returned(v) =>
        var (contentType, content) := Content(templateFolder, request.path, templates, v);
        var headers := BuildHeadersWithSession(request, contentType);
        var body := Utf8.Encode(content);
        headers := headers + [ContentLength(body)];
        events := [Start(200, headers), Body(body)];
    }

    /** `await app(scope, receive, send)`: the events sent are those
        `Respond` gives. */
    method Call(scope: Scope, inbox: seq<Message>, files: map<string, bytes>,
                templates: map<string, string>, handlers: Handlers) returns (events: seq<Event>)
      ensures events == Respond(Config(), routes, scope, inbox, files, templates, handlers)
    {
      if scope.kind != "http" {
        return [];
      }
      var request := new Request(scope, inbox);
      var cookies := request.Cookies();
      var cookie := if sessionCookieName in cookies then Some(cookies[sessionCookieName]) else None;
      request.session := ResolveSession(Deserialize(cookie, secretKey, mac));
      if request.path == "/favicon.ico" {
        return SendResponse(204, "", "image/x-icon");
      }
      if StartsWith(request.path, staticUrlPath) && "." + request.path in files {
        var filePath := "." + request.path;
        return StaticReply(filePath, files[filePath]);
      }
      events := Serve(request, cookies, templates, handlers);
    }

    /** The part of `__call__` after the icon and the static files: find the
        route, run its handler and send the response. */
    method Serve(request: Request, cookies: map<string, string>, templates: map<string, string>, handlers: Handlers)
      returns (events: seq<Event>)
      requires request.verb == request.scope.verb && request.path == request.scope.path
      requires cookies == CookiesOf(request.scope.headers)
      requires request.session == StartSession(Config(), cookies) && request.responseHeaders == []
      modifies request`params, request`session, request`responseHeaders
      ensures events == Dispatch(Config(), routes, request.scope, request.inbox, templates, handlers)
    {
      var handler := FindRoute(request);
      if handler.None? {
        return SendResponse(404, NotFoundPage, "text/html");
      }
      var input := HandlerInput(request.verb, request.path, request.params, request.session, cookies, Collect(request.inbox, 0).0);
      var run := handlers(handler.value, input);
      var raised := RunEffects(request, run.effects);
      if raised.Some? {
        return SendResponse(500, ErrorPage(raised.value), "text/html");
      }
      events := Send(request, templates, run.outcome);
    }
  }

  lemma MapEntriesStep(routeMap: map<string, string>, path: string, methods: seq<string>, i: nat)
    requires i < |methods|
    ensures MapEntries(routeMap, path, methods[i..]) == MapEntries(routeMap[Upper(methods[i]) + ":" + path := path], path, methods[i + 1..])
  {
    assert methods[i..][1..] == methods[i + 1..];
  }

  lemma RegisteredAppend(pattern: seq<Routing.Segment>, methods: seq<string>, m: string, handler: nat)
    ensures Registered(pattern, methods + [m], handler) == Registered(pattern, methods, handler) + [Routing.Route(pattern, Upper(m), handler)]
  {
  }

  /** Once the loop has seen every method, its invariants are the method's
      postconditions. */
  lemma RegisteredDone(pattern: seq<Routing.Segment>, path: string, methods: seq<string>, handler: nat, routeMap: map<string, string>)
    ensures Registered(pattern, methods[..|methods|], handler) == Registered(pattern, methods, handler)
    ensures MapEntries(routeMap, path, methods[|methods|..]) == routeMap
  {
    assert methods[..|methods|] == methods;
    assert methods[|methods|..] == [];
  }

  lemma RegisteredStep(pattern: seq<Routing.Segment>, methods: seq<string>, i: nat, handler: nat)
    requires i < |methods|
    ensures Registered(pattern, methods[..i + 1], handler) == Registered(pattern, methods[..i], handler) + [Routing.Route(pattern, Upper(methods[i]), handler)]
  {
    assert methods[..i + 1] == methods[..i] + [methods[i]];
    RegisteredAppend(pattern, methods[..i], methods[i], handler);
  }

  lemma UpperLiteral(s: string)
    requires forall j :: 0 <= j < |s| ==> 'A' <= s[j] <= 'Z'
    ensures Upper(s) == s
  {
  }

  /* ---------------------------------------------------------------------- */
  /* Links                                                                  */
  /* ---------------------------------------------------------------------- */

  /** The link `url_for` builds for a registered route leads back to it: the
      dispatcher picks that route, or one registered before it, and the
      route itself gets its values back. This holds when every placeholder
      gets a value without `/` or `{` and the literal text keeps the groups
      apart. */
  lemma UrlForReachesRoute(routes: seq<Routing.Route>, routeMap: map<string, string>, i: nat, path: string, values: seq<(string, string)>)
    requires i < |routes| && Routing.Compile(path) == Some(routes[i].pattern)
    requires routes[i].verb + ":" + path in routeMap && routeMap[routes[i].verb + ":" + path] == path
    requires Routing.Delimited(routes[i].pattern) && Routing.BraceFreeLiterals(routes[i].pattern)
    requires Routing.FreshPairs(map[], values)
    requires forall n :: n in Routing.NameSet(routes[i].pattern) ==>
               n in Routing.Bind(map[], values) && Routing.ValidValue(Routing.Bind(map[], values)[n])
    ensures var url := Routing.UrlFor(routeMap, routes[i].verb + ":" + path, values);
            var f := Routing.FirstMatch(routes, routes[i].verb, url, 0);
            f.Some? && f.value.0 <= i
            && (f.value.0 == i ==> f.value.1.Keys == Routing.NameSet(routes[i].pattern)
                                   && forall n :: n in f.value.1 ==> f.value.1[n] == Routing.Bind(map[], values)[n])
  {
    var url := Routing.UrlFor(routeMap, routes[i].verb + ":" + path, values);
    Routing.UrlForMatches(routeMap, routes[i].verb + ":" + path, routes[i].pattern, values);
    assert Routing.Selects(routes[i], routes[i].verb, url);
  }
}
