# MicroPy request dispatch, modelled in Dafny

This project models the core of MicroPy (`foxwebsite/framework.py`), a small
ASGI web framework. The core is the code that takes one HTTP request from the
ASGI server and sends back one response. It covers:

- **Signed session cookies.** `sign`, `serialize_session` and
  `deserialize_session` are the `SessionCodec` module, over a flat JSON codec
  (`Json`) and UTF-8 (`Utf8`).
- **The request object.** The `Requests.Request` class holds:
  - the cached cookie dictionary, filled by a loop over the headers;
  - the cached body, filled by a loop over `receive()`;
  - `json()`;
  - the session and the extra response headers that `clear_session`
    appends to.
- **Routes.** `Routing` compiles `{name}` placeholders the way `re.escape` and
  `re.sub` do. It has a backtracking matcher with the greedy semantics of
  `[^/]+` groups, first-match route selection, and `url_for`'s sequential
  substitution.
- **Responses.** `Responses` holds `send_response`, `send_json`, the static
  content-type table and `os.path.splitext`.
- **The application.** `App.MicroPy` is a class with:
  - `route`/`get`/`post` (which update `routes` and `route_map`);
  - `url_for`;
  - `_build_headers_with_session`;
  - `clear_session`;
  - the route-matching loop;
  - `__call__`.

`__call__` is specified by the function `App.Respond`. It gives the events
sent for a request, and is decided in this order:

1. non-HTTP scopes send nothing;
2. the favicon;
3. static files;
4. route lookup and the 404 page;
5. the handler, its session effects and the auto-template;
6. the 200 response for a dictionary, a string or anything else, with
   session headers;
7. the 500 page for an exception.

`MicroPy.Call` is proved to send exactly `Respond`'s events.

The outside world becomes parameters:

- The keyed hash (HMAC-SHA256) is a function parameter `mac`.
  `Sign` is the lowercase hex digest of its result.
- The files on disk are a map from path to bytes.
- The templates are a map from path to text.
- Route handlers are a function `handlers`. It takes the handler's number
  and what the handler can see (method, path, parameters, session, cookies,
  body). It returns the session operations the handler performs and what it
  returns or raises.
- `send` is the returned sequence of events.
- `receive` is the sequence of client messages.

## Model

| member | source | states |
|---|---|---|
| SessionCodec.Sign | foxwebsite/framework.py:22-23 | a signature is lowercase hex, hence ASCII and free of `.` |
| SessionCodec.Serialize | foxwebsite/framework.py:25-28 | the cookie value is ASCII and splits at its last `.` into the sorted compact JSON payload and that payload's signature |
| SessionCodec.Deserialize | foxwebsite/framework.py:30-39 | a session is only ever accepted from a value that holds a `.` |
| SessionCodec.DeserializeAsWritten | foxwebsite/framework.py:30-39 | the code as written raises only when the value holds a `.` and the text after the last `.` is not ASCII (`hmac.compare_digest` on `str`) |
| SessionCodec.ResolveSession | foxwebsite/framework.py:244-246 | a non-empty session comes only from a decoded JSON object equal to it; anything else gives `{}` |
| SessionCodec.RoundTrip | foxwebsite/framework.py:25-39 | deserializing a serialized session with the same secret gives back the same dictionary |
| SessionCodec.ResolveRoundTrip | foxwebsite/framework.py:244-246 | the session resolved from a cookie the app wrote equals the session it wrote |
| SessionCodec.AcceptedIff | foxwebsite/framework.py:30-39 | a value is accepted exactly when it is `payload.sig`, `sig` is the payload's signature, and the payload decodes as JSON |
| SessionCodec.ForgedRejected | foxwebsite/framework.py:33-35 | any signature other than the true one is rejected |
| SessionCodec.AsWrittenAgrees | foxwebsite/framework.py:30-39 | whenever the code as written returns, it returns what the fail-soft decoder returns; whenever it raises, the fail-soft decoder gives no session |
| SessionCodec.AsWrittenRaisesOnNonAscii | foxwebsite/framework.py:33-34 | the cookie value `{}.é` makes the code as written raise `TypeError` for every secret and hash, where the fail-soft decoder gives no session |
| Json.DecodeEncodeSorted | foxwebsite/framework.py:26 | `json.loads` of the compact, key-sorted `json.dumps` of a flat dictionary gives the dictionary back |
| Json.EncodeSortedIsAscii | foxwebsite/framework.py:26 | the session payload is ASCII, because of the default `ensure_ascii` |
| Json.SortedKeys | foxwebsite/framework.py:26 | `sort_keys` lists every key exactly once, in strictly increasing code-point order |
| Json.DecodeEncodeObject | foxwebsite/framework.py:114-116 | a dictionary written with `", "`/`": "` or compact separators, with or without `ensure_ascii`, decodes back to the same dictionary (later duplicate keys win) |
| Json.DecodeEncodeDict | foxwebsite/framework.py:114-116 | the JSON of a dictionary, whose keys are distinct, reads back to an object with exactly the dictionary's keys and, at each key, that item's value |
| Json.ParseStringOfEncodeString | foxwebsite/framework.py:26 | every string, including control characters and astral code points, survives JSON escaping |
| Json.ParseScalarOfEncodeScalar | foxwebsite/framework.py:26 | every scalar (null, boolean, integer, string) survives encoding |
| Json.EncodeObject | foxwebsite/framework.py:115 | `json.dumps` of a dictionary is a braced text; Json.DecodeEncodeObject and Json.DecodeEncodeDict state that it reads back |
| Json.EncodeSorted | foxwebsite/framework.py:26 | the session payload; Json.DecodeEncodeSorted, Json.EncodeSortedIsAscii and Json.SortedKeys state that it reads back, is ASCII and lists the keys in order |
| Json.Decode | foxwebsite/framework.py:37 | `json.loads`; Json.DecodeEncodeObject and Json.DecodeEncodeSorted state that it inverts the encoders |
| SessionCodec.Payload | foxwebsite/framework.py:26 | the signed part of a cookie value; SessionCodec.Serialize and SessionCodec.RoundTrip state its place in the value and that it reads back |
| Utf8.Encode | foxwebsite/framework.py:100 | UTF-8 output is at least as long as the text and empty exactly for empty text |
| Utf8.DecodeEncode | foxwebsite/framework.py:92 | decoding the UTF-8 encoding of any text gives the text back |
| Utf8.EncodeDecode | foxwebsite/framework.py:92 | any bytes that decode re-encode to the same bytes |
| Utf8.Decode | foxwebsite/framework.py:92 | strict UTF-8 decoding; Utf8.DecodeEncode and Utf8.EncodeDecode state that it inverts Utf8.Encode |
| Text.Strip | foxwebsite/framework.py:65 | `str.strip()` gives a contiguous slice of the text: only whitespace is removed before and after it, and no whitespace is left at either end |
| Text.StripSlashes | foxwebsite/framework.py:299 | `strip("/")` gives a contiguous slice of the path: only `/` is removed before and after it, and no `/` is left at either end |
| Text.StripSlashesBetween | foxwebsite/framework.py:299 | `strip("/")` of `/s` and of `/s/` is `s` when `s` is non-empty and neither starts nor ends with `/` |
| Text.Split | foxwebsite/framework.py:63 | `split(";")` gives at least one piece, none of which holds `;`, and joining the pieces gives the input |
| Text.SplitJoin | foxwebsite/framework.py:63 | splitting a join of `;`-free pieces gives back the pieces |
| Text.SplitFirst | foxwebsite/framework.py:65 | `split("=", 1)` cuts at the first `=` |
| Text.RSplitOnce | foxwebsite/framework.py:33 | `rsplit(".", 1)` cuts at the last `.` |
| Text.SuffixAfterLastSeparator | foxwebsite/framework.py:33 | a signature free of `.` is recovered whole by `rsplit(".", 1)` |
| Text.Lower | foxwebsite/framework.py:61 | `lower()` maps every character and keeps the length |
| Text.Upper | foxwebsite/framework.py:160 | `upper()` maps every character and keeps the length |
| Text.Decimal | foxwebsite/framework.py:106 | `str(n)` of a length is a canonical numeral whose value is `n` |
| Text.DecimalOfValue | foxwebsite/framework.py:106 | a canonical numeral is `str` of its value |
| Text.HexDigest | foxwebsite/framework.py:23 | `hexdigest()` has two lowercase hex digits per byte |
| Text.HexDigestDigits | foxwebsite/framework.py:23 | characters `2j` and `2j+1` of `hexdigest()` are the lowercase hex digits of the high and the low four bits of byte `j` |
| Requests.ParseItem | foxwebsite/framework.py:63-66 | an item with `=` yields a name without `=` and a value that rejoin to the stripped item; an item without `=` is skipped |
| Requests.LastItemWins | foxwebsite/framework.py:63-66 | a cookie named again later in the header overrides the earlier value |
| Requests.NoItemKeeps | foxwebsite/framework.py:63-66 | items that do not name a cookie leave its entry as it was |
| Requests.EchoedCookie | foxwebsite/framework.py:56-67 | a `Cookie` header `name=value` parses to exactly `{name: value}` |
| Requests.CookieHeaderOfOneItem | foxwebsite/framework.py:60-63 | a header with no `;` is a single item |
| Requests.ParseEchoed | foxwebsite/framework.py:64-66 | `name=value` parses to that name and value when neither has surrounding whitespace |
| Requests.AddItems | foxwebsite/framework.py:63-66 | the cookies of one header's items, added in order; Requests.LastItemWins and Requests.NoItemKeeps state their effect, and Requests.Request.AddCookieItems leaves exactly this cache |
| Requests.CookiesOf | foxwebsite/framework.py:56-67 | the cookies of every `cookie` header; Requests.EchoedCookie states it for an echoed cookie, and Requests.Request.Cookies caches exactly it |
| Requests.Collect | foxwebsite/framework.py:72-76 | reading stops inside the available messages |
| Requests.CollectUpToLast | foxwebsite/framework.py:72-76 | the body is the concatenation of every chunk up to and including the first with `more_body` false |
| Requests.CollectToDisconnect | foxwebsite/framework.py:72-76 | without a final chunk, the body is every chunk received before the disconnect |
| Requests.DecodeJsonBody | foxwebsite/framework.py:90-92 | a UTF-8 JSON object body reads back as that dictionary |
| Requests.DecodeBody | foxwebsite/framework.py:90-92 | `json()` on a body; Requests.DecodeJsonBody states that a JSON object body reads back, and Requests.Request.JsonBody returns exactly it |
| Requests.Request.constructor | foxwebsite/framework.py:46-54 | a new request has the scope's method and path, no caches, no parameters, an empty session and no extra headers |
| Requests.Request.Cookies | foxwebsite/framework.py:56-67 | the first call fills the cache with the cookies of the `cookie` headers; later calls return the cached dictionary unchanged |
| Requests.Request.AddCookieItems | foxwebsite/framework.py:63-66 | the inner loop adds the items of one header to the cache |
| Requests.Request.Receive | foxwebsite/framework.py:74 | `receive()` yields the next client message, or a disconnect once they are used up |
| Requests.Request.Body | foxwebsite/framework.py:69-78 | the first call reads the messages up to the last chunk and caches the body; later calls read nothing and return the cache |
| Requests.Request.JsonBody | foxwebsite/framework.py:90-92 | `json()` returns `None` for an empty body, else the decoded document, else the decoding error, and caches the body |
| Requests.Request.Put | test.py:9 | a handler's `request.session[k] = v` sets key `k` to `v` and keeps every other entry |
| Requests.Request.Pop | foxwebsite/framework.py:213-216 | a handler's `session.pop(k, None)` removes key `k`, if present, and keeps every other entry; lines 213-216 then write what is left |
| Requests.Request.ClearSessionAsWritten | foxwebsite/framework.py:80-88 | the code as written empties the session and then raises `AttributeError` on `self.app` |
| Requests.Request.ClearSession | foxwebsite/framework.py:80-88 | the intended behaviour empties the session and appends the deletion cookie |
| App.EffectsAddDeletions | foxwebsite/framework.py:221-229 | the only headers a handler adds are deletion cookies, one per clear |
| App.ClearEmptiesSession | foxwebsite/framework.py:221-229 | after a clear followed only by pops, the session is empty and a deletion cookie is pending |
| App.PopsKeepEmpty | foxwebsite/framework.py:221-229 | an empty session stays empty under pops and clears |
| App.StopsAtRequestClear | foxwebsite/framework.py:80-88 | calling `request.clear_session()` always raises |
| App.SessionCookieNotDeletion | foxwebsite/framework.py:216 | the fresh session cookie is never the deletion cookie |
| App.DeletionHasNoDot | foxwebsite/framework.py:225 | the deletion cookie's value holds no `.` |
| App.DotDiffers | foxwebsite/framework.py:216 | a header holding a `.` where the other has none differs from it |
| App.SessionCookieIff | foxwebsite/framework.py:204-219 | the content type comes first, then the pending extra headers in order, and the session cookie is present exactly when the session is non-empty |
| App.HeadersAfterClear | foxwebsite/framework.py:204-219 | after a clear, the deletion cookie is sent and no session cookie |
| App.Echo | foxwebsite/framework.py:216 | what a browser sends back is the part before the first `;` |
| App.SessionPersists | foxwebsite/framework.py:244-246 | a browser echoing the session cookie written at line 216 gives the next request the same session |
| App.EchoOfCookie | foxwebsite/framework.py:216 | the echoed cookie is `name=value` |
| App.CookieNameIsToken | foxwebsite/framework.py:136 | `micropy_session` is a non-empty cookie name without `=` or `;` |
| App.SerializedCookieValue | foxwebsite/framework.py:215-216 | the session cookie's value holds no `;` and has no surrounding whitespace |
| App.JoinedValue | foxwebsite/framework.py:28 | payload, `.` and a hex signature hold no `;` and end in a non-space character |
| App.EchoHead | foxwebsite/framework.py:216 | the echo stops at the first `;` |
| App.AutoTemplate | foxwebsite/framework.py:299 | the template name is non-empty, ends in `.html` and does not start with `/` |
| App.AutoTemplateOfPage | foxwebsite/framework.py:299 | `/s` and `/s/` both name the template `s.html`, for any `s` that neither starts nor ends with `/` |
| App.AutoTemplateIndex | foxwebsite/framework.py:299 | a path made only of slashes, `/` among them, names `index.html`; any other path names it only when it strips to `index` |
| App.RespondFramed | foxwebsite/framework.py:235-370 | a non-HTTP scope gets no events; every HTTP request gets one start event then one body event, with a content length equal to the body's byte length and status 200, 204, 404 or 500 |
| App.DispatchFramed | foxwebsite/framework.py:280-370 | every dispatched request gets one well-framed response with status 200, 404 or 500 |
| App.FinishFramed | foxwebsite/framework.py:293-370 | every handler outcome gives a well-framed 200 or 500 response |
| App.FaviconAlways | foxwebsite/framework.py:249-251 | `/favicon.ico` always gets an empty 204 `image/x-icon` response, before static files and routes |
| App.StaticBeforeRoutes | foxwebsite/framework.py:254-278 | an existing file under the static prefix is sent as-is with the table's content type, before any route and without session headers |
| App.NoRouteNotFound | foxwebsite/framework.py:280-291 | when no route selects the method and path, the response is the fixed 404 page |
| App.NoneSelects | foxwebsite/framework.py:282-287 | the loop finds no route when none selects the request |
| App.ClearViaRequestFails | foxwebsite/framework.py:80-88 | a handler that calls `request.clear_session()` gets the 500 page carrying the `AttributeError` text, whatever it returns |
| App.ClearedSessionResponse | foxwebsite/framework.py:221-229 | after `app.clear_session(request)` the 200 response carries the deletion cookie and no session cookie |
| App.DictReadBack | foxwebsite/framework.py:319-332 | a returned dictionary is sent as 200 `application/json` and its body decodes back to the dictionary |
| App.StrServedAsHtml | foxwebsite/framework.py:333-345 | a returned string is sent unchanged as 200 `text/html`, unless it is empty and the page template exists |
| App.NoTemplateFallsThrough | foxwebsite/framework.py:346-359 | without a page template, `None` is sent as the text `None` and any other object as its `str()`, both with status 200 |
| App.SessionReplyReadBack | foxwebsite/framework.py:304-345 | a 200 reply's body decodes back to the text, with the content type first and the content length last |
| App.Respond | foxwebsite/framework.py:235-291 | what `__call__` sends: nothing for a non-HTTP scope, then the favicon, a static file, or the dispatch; its properties are App.RespondFramed, App.FaviconAlways and App.StaticBeforeRoutes, and App.MicroPy.Call sends exactly these events |
| App.Dispatch | foxwebsite/framework.py:280-295 | the 404 page when no route selects the request, else the handler's outcome after its session effects; its properties are App.DispatchFramed, App.NoRouteNotFound and App.ClearViaRequestFails, and App.MicroPy.Serve sends exactly these events |
| App.Finish | foxwebsite/framework.py:293-370 | the 500 page for an exception, else the 200 reply with session headers; its properties are App.FinishFramed, App.DictReadBack, App.StrServedAsHtml, App.NoTemplateFallsThrough and App.AutoTemplateServed, and App.MicroPy.Send sends exactly these events |
| App.Content | foxwebsite/framework.py:297-359 | the content type and text for what a handler returned; App.AutoTemplateServed, App.DictReadBack, App.StrServedAsHtml and App.NoTemplateFallsThrough state each case |
| App.BuildHeaders | foxwebsite/framework.py:204-219 | the headers of a 200 reply; App.SessionCookieIff and App.HeadersAfterClear state their order and when the session cookie is present, and App.MicroPy.BuildHeadersWithSession returns exactly them |
| App.ApplyEffects | foxwebsite/framework.py:221-229 | the session and extra headers once a handler's session operations have run; App.EffectsAddDeletions, App.ClearEmptiesSession, App.PopsKeepEmpty and App.StopsAtRequestClear state what they do, and App.MicroPy.RunEffects leaves exactly this state |
| App.AutoTemplateServed | foxwebsite/framework.py:297-316 | `None` or `""` with an existing template serves the template text as 200 `text/html` |
| App.Registered | foxwebsite/framework.py:158-160 | one route per method, in order, with the upper-cased method |
| App.MapEntries | foxwebsite/framework.py:159-162 | the keys are the old keys plus one `METHOD:path` key per method; each of those maps to the path, and every other key keeps its old entry |
| App.EntryKeysMembers | foxwebsite/framework.py:159-162 | a key is added exactly when it is `METHOD:path` for one of the listed methods, upper-cased |
| App.EarlierRoutesFirst | foxwebsite/framework.py:282-287 | routes registered later are reached only when no earlier one selects the request |
| App.LaterRoutes | foxwebsite/framework.py:282-287 | past the old routes, the search is a search of the new ones |
| App.UrlForReachesRoute | foxwebsite/framework.py:175-182 | the URL `url_for` builds for a route is selected by that route or an earlier one; when it is selected by that route, its parameters are the given values |
| App.MicroPy.constructor | foxwebsite/framework.py:132-141 | defaults `templates`, `/static`, `dev-secret`, cookie name `micropy_session`, no routes |
| App.MicroPy.Route | foxwebsite/framework.py:152-164 | a path that compiles appends one route per method and its `url_for` keys; a path whose placeholder is not a group name raises and changes nothing |
| App.MicroPy.RegisterAll | foxwebsite/framework.py:158-163 | the loop appends one route per method, in order, with the method upper-cased, and adds the `METHOD:path` keys of `route_map` |
| App.MicroPy.RegisterNext | foxwebsite/framework.py:159-162 | one turn of the loop keeps its invariant: the routes are those of the methods seen so far, and the `METHOD:path` entries still to come lead to the final `route_map` |
| App.MicroPy.AddRoute | foxwebsite/framework.py:160-162 | one iteration appends one route and sets one `METHOD:path` key to the path |
| App.MicroPy.Get | foxwebsite/framework.py:166-167 | `get` registers the single method `GET` |
| App.MicroPy.Post | foxwebsite/framework.py:169-170 | `post` registers the single method `POST` |
| App.MicroPy.UrlFor | foxwebsite/framework.py:175-182 | the loop substitutes each value in turn into the registered path, or gives `/` for an unknown endpoint |
| App.MicroPy.BuildHeadersWithSession | foxwebsite/framework.py:204-219 | the headers are the content type, the pending extra headers, and the signed session cookie when the session is non-empty |
| App.MicroPy.ClearSession | foxwebsite/framework.py:221-229 | the session is emptied and one deletion cookie is appended |
| App.MicroPy.FindRoute | foxwebsite/framework.py:280-287 | the loop returns the first route in registration order whose method and pattern match, and stores its parameters |
| App.MicroPy.RunEffects | foxwebsite/framework.py:295 | applying the handler's session operations to the request leaves the state `ApplyEffects` gives |
| App.MicroPy.Send | foxwebsite/framework.py:293-370 | the events sent for a handler outcome are `Finish`'s |
| App.MicroPy.Call | foxwebsite/framework.py:235-370 | `__call__` sends exactly the events `Respond` specifies |
| App.MicroPy.Serve | foxwebsite/framework.py:280-370 | the routing and handler phase sends exactly `Dispatch`'s events |
| Routing.Compile | foxwebsite/framework.py:154-156 | a compiled pattern renders back to the path, has only identifier group names that differ, keeps no placeholder inside a literal piece, and has a group named after every placeholder of the path; compilation fails exactly when some placeholder's name is not an identifier or two placeholders share a name |
| Routing.ScanGoodIff | foxwebsite/framework.py:154-156 | the groups found have good names exactly when the path's placeholders do |
| Routing.ScanLiteralsPlain | foxwebsite/framework.py:155 | no literal piece of the scanned pattern holds a placeholder |
| Routing.ScanSound | foxwebsite/framework.py:154-156 | when the groups have good names, so do the path's placeholders, and every placeholder names a group |
| Routing.ScanComplete | foxwebsite/framework.py:154-156 | when the path's placeholders have good names, distinct from each other, so do the groups |
| Routing.NamesFromPlaceholders | foxwebsite/framework.py:155 | every group name is the name of a placeholder at some position of the path |
| Routing.RenderScan | foxwebsite/framework.py:154-155 | scanning a path loses no character |
| Routing.MatchFrom | foxwebsite/framework.py:283-286 | `pattern.match(path)` and its `groupdict()`; Routing.MatchSound, Routing.MatchComplete and Routing.MatchRecovers state what it finds |
| Routing.TryLengths | foxwebsite/framework.py:283 | the backtracking of a `[^/]+` group, longest value first; Routing.TryLengthsSound and Routing.TryLengthsFinds state that it finds a value exactly when the rest of the pattern can match |
| Routing.MatchSound | foxwebsite/framework.py:283-286 | a match's parameters, filled into the pattern, give back the path (up to a trailing newline), and every value is non-empty and slash-free |
| Routing.MatchComplete | foxwebsite/framework.py:283 | any path built by filling the pattern with non-empty slash-free values is matched |
| Routing.MatchRecovers | foxwebsite/framework.py:283-286 | for patterns whose placeholders are separated by literals, matching a filled path gives back exactly the values |
| Routing.AdjacentGroupsAreGreedy | foxwebsite/framework.py:155 | adjacent placeholders split greedily: `/xyz` binds `a` to `xy` and `b` to `z` |
| Routing.FirstMatch | foxwebsite/framework.py:282-287 | the result is the first route from the start index that selects the method and path; no earlier one does |
| Routing.KeyPlaceholder | foxwebsite/framework.py:180 | a match of `{\s*key\s*}` spans from `{` to `}` |
| Routing.SubstitutePlain | foxwebsite/framework.py:180 | text without `{` is left alone |
| Routing.SubstituteOwnPlaceholder | foxwebsite/framework.py:180 | `{key}` is replaced by the value |
| Routing.SubstituteOtherPlaceholder | foxwebsite/framework.py:180 | another placeholder is left alone |
| Routing.SubstituteRenderWith | foxwebsite/framework.py:179-180 | one substitution replaces exactly the placeholders of that key |
| Routing.SubstituteAllRenderWith | foxwebsite/framework.py:179-181 | substituting all values renders the pattern with every bound placeholder replaced |
| Routing.Substitute | foxwebsite/framework.py:180 | one `re.sub` of `url_for`; Routing.SubstitutePlain, Routing.SubstituteOwnPlaceholder, Routing.SubstituteOtherPlaceholder and Routing.SubstituteRenderWith state what it replaces |
| Routing.SubstituteAll | foxwebsite/framework.py:179-181 | the loop of `url_for`; Routing.SubstituteAllRenderWith states its result |
| Routing.UrlFor | foxwebsite/framework.py:175-182 | `url_for`; Routing.UrlForMatches and App.UrlForReachesRoute state that its URL leads back to the route, and App.MicroPy.UrlFor returns exactly it |
| Routing.UrlForMatches | foxwebsite/framework.py:175-182 | the URL `url_for` builds from valid values matches the route's own pattern and gives back those values |
| Responses.ReplyFramed | foxwebsite/framework.py:99-112 | a reply is a start event then a body event, with the content length equal to the body's length |
| Responses.SendResponseReadBack | foxwebsite/framework.py:99-112 | `send_response` sends the status, the content type and a UTF-8 body that decodes back to the content |
| Responses.SendJsonReadBack | foxwebsite/framework.py:114-116 | `send_json` sends `application/json` whose body decodes back to the dictionary |
| Responses.SendResponse | foxwebsite/framework.py:99-112 | the events of `send_response`; Responses.SendResponseReadBack states them |
| Responses.SendJson | foxwebsite/framework.py:114-116 | the events of `send_json`; Responses.SendJsonReadBack and Json.DecodeEncodeDict state that the body reads back |
| Responses.StaticReply | foxwebsite/framework.py:256-277 | the reply for a static file; App.StaticBeforeRoutes states it is the file's bytes with the table's content type |
| Responses.ContentTypeFor | foxwebsite/framework.py:258-263 | the content-type table; Responses.StaticContentType states it per extension |
| Responses.Ext | foxwebsite/framework.py:257 | `splitext` gives an empty extension or a `.`-led suffix of the last path component with no further `.` |
| Responses.ExtOfName | foxwebsite/framework.py:257 | `stem.ext` has the extension `.ext` |
| Responses.StaticContentType | foxwebsite/framework.py:258-263 | each of the seven listed extensions gets its content type; any other gets `application/octet-stream` |

## Left out

- Files and templates are maps. `os.path.exists`, `open` and `os.makedirs` (line 137) are not modelled.
- Template rendering (`render_template`, jinja2, `string.Template`) is foreign library code. Only the raw-file auto-template of lines 297-316 is modelled.
- `serve_file` is not part of this model. `__call__` never calls it.
- HMAC-SHA256 is the parameter `mac`. Constant-time comparison is not expressible; `compare_digest` is equality on ASCII text.
- JSON is flat: `null`, booleans, integers and strings inside one object. Floats, nested values and lists are not modelled.
- A dictionary returned by a handler is modelled as `Json.Dict`, the list of its items in insertion order with distinct keys, as a Python dictionary holds them. Its JSON keeps that order.
- `parse_qs`/`query_params` (line 50) is not modelled. The query string's `.decode()` at line 50 runs in `Request(scope, receive)` at line 239, outside the `try`, so a query string that is not UTF-8 raises `UnicodeDecodeError` and nothing is sent. The model does not capture this.
- Header names and values are decoded text. The bytes-to-text decoding of headers (lines 61-62) is not modelled. A `Cookie` header that is not UTF-8 raises `UnicodeDecodeError` at line 62, reached from line 244 outside the `try`, and nothing is sent. The model does not capture this.
- `receive` and `send` are sequences, and the async machinery (`await`, `asyncio.iscoroutinefunction`) is not modelled.
- `run`, uvicorn, the `print`/`traceback` logging, the module globals and `create_app` are glue and are not modelled.
- A handler's effect on the session is limited to `session[k] = v`, `session.pop(k, None)`, `app.clear_session(request)` and `request.clear_session()`. Other code in a handler is its returned value or raised message.
- App.Dispatch gives the handler the body as `Collect(inbox, 0)`. That is what `await request.body()` returns. The handler's lazy reading is not modelled.
- Requests.DecodeBody: the messages of `UnicodeDecodeError` and `JSONDecodeError` are fixed texts. They are not Python's exact wording.
- Routing.Compile: `\w` in group names is ASCII letters, digits and `_`. Non-ASCII identifiers are not modelled.
- Routing.Substitute: the value is inserted literally. `re.sub` would interpret `\` escapes in a value, and a value holding `\` is not modelled.
- Text.Upper: only ASCII letters change case; Unicode case mapping is not modelled.
- Text.Lower: only ASCII letters change case; Unicode case mapping is not modelled.
- App.SessionPersists: requires that the session's JSON holds no `;`. A string value with `;` is cut short by the browser's `Cookie` header, which the code does not guard against.
- App.Respond: uses the fail-soft SessionCodec.Deserialize from the second finding. As written, a cookie whose signature part is not ASCII (for example `micropy_session={}.é`) makes `__call__` raise `TypeError` at lines 244-245, before the favicon check, and nothing is sent.
- App.AutoTemplate: the template name (lines 299-300) is not normalised, and neither is the static path `"." + path` (line 255). So `/../secret` names `templates/../secret.html`, and `..` reaches outside the template and static folders. Files are keyed by the raw joined path, so such an escape shows up only as a different key.
- Requests.DecodeBody: JSON escapes for lone surrogates such as `\ud800` are accepted by Python's `json.loads`, but a Dafny `char` cannot hold a lone surrogate. Such bodies make the model raise where `request.json()` returns a string, and they are not modelled.
- App.MicroPy.Route: a path whose `re.compile` fails only on a bad group name is modelled. Other regex errors cannot arise from `re.escape` output.
- App.MicroPy.Route: `methods` has no default. `route(path)` with the default `("GET",)` of line 152 registers what App.MicroPy.Get registers.
- The code has no before/after hooks, no error handlers, no `(body, status)` tuples, no `Secure`/`SameSite`/`Max-Age` cookie attributes and no 404 for a missing auto-template. The model follows the code:
  - a missing template falls through to `None`/`""` as text with 200;
  - a tuple is sent as its `str()`;
  - the auto-template name is the whole stripped path, not its last segment;
  - the session is resolved before static files are served, but a static reply carries no session header.

## Findings

| source | as written | input that shows it | evidently intended | confidence | as-written member | corrected member |
|---|---|---|---|---|---|---|
| foxwebsite/framework.py:80-88 | `Request.clear_session` reads `self.app`, which no code ever sets, so it raises `AttributeError` after emptying the session | a handler that calls `request.clear_session()` and returns `"ok"` gets a 500 page with `'Request' object has no attribute 'app'` | empty the session and queue the deletion cookie, as `MicroPy.clear_session` does | high, not executed | Requests.Request.ClearSessionAsWritten, App.ClearViaRequestFails | Requests.Request.ClearSession, App.MicroPy.ClearSession |
| foxwebsite/framework.py:33-34 | `hmac.compare_digest` on two `str` raises `TypeError` when the cookie's signature part is not ASCII, and session resolution (lines 244-245) is outside the `try` | the cookie `micropy_session={}.é` | fail soft: treat the cookie as no session | high, not executed | SessionCodec.DeserializeAsWritten, SessionCodec.AsWrittenRaisesOnNonAscii | SessionCodec.Deserialize |
