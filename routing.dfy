/** Route patterns (foxwebsite/framework.py, lines 152-182 and 280-291):
    how `MicroPy.route` turns a path such as `/user/{name}` into a regular
    expression, how that expression matches a request path, which route the
    dispatcher picks, and how `url_for` fills a path back in.

    `route` builds `"^" + re.escape(path) + "$"` and then rewrites every
    escaped `\{name\}` whose name is a non-empty run of characters other than
    `}` and `/` into the named group `(?P<name>[^/]+)`. A compiled route is
    kept here as the list of its pieces: literal text and named groups. */
module Routing {
  import opened Base
  import opened Text

  /** One piece of a compiled route: literal text, which `re.escape` makes
      match itself, or the named group `(?P<name>[^/]+)`. */
  datatype Segment = Lit(text: string) | Param(name: string)

  /* ---------------------------------------------------------------------- */
  /* Compiling a route path                                                 */
  /* ---------------------------------------------------------------------- */

  /** The characters `[^}/]` of the placeholder pattern accepts. */
  predicate InName(c: char) { c != '}' && c != '/' }

  /** `s` starts with a placeholder: a brace, a non-empty run of characters
      other than `}` and `/`, and a closing brace. On the escaped path this is
      exactly where `\\{([^}/]+)\\}` matches. */
  predicate PlaceholderAt(s: string) {
    s != [] && s[0] == '{'
    && var n := LeadingCount(s[1..], InName);
       0 < n < |s| - 1 && s[n + 1] == '}'
  }

  /** The path text a placeholder stands for. */
  function Placeholder(name: string): string {
    "{" + name + "}"
  }

  /** The path text of one piece. */
  function Piece(seg: Segment): string {
    match seg
    case Lit(t) => t
    case Param(n) => Placeholder(n)
  }

  /** The path a list of pieces was compiled from. */
  function Render(segs: seq<Segment>): string {
    if segs == [] then [] else Piece(segs[0]) + Render(segs[1..])
  }

  /** Put one literal character in front of a list of pieces, joining it to
      a literal that already starts the list. */
  function Lead(c: char, segs: seq<Segment>): (r: seq<Segment>)
    ensures Render(r) == [c] + Render(segs)
  {
    if segs != [] && segs[0].Lit? then
      assert ([c] + segs[0].text) + Render(segs[1..]) == [c] + (segs[0].text + Render(segs[1..])) by {
        ConcatAssoc([c], segs[0].text, Render(segs[1..]));
      }
      [Lit([c] + segs[0].text)] + segs[1..]
    else [Lit([c])] + segs
  }

  /** The pieces of a route path, left to right: placeholders where the
      substitution finds them, literal text everywhere else. */
  function Scan(s: string): seq<Segment>
    decreases |s|
  {
    if s == [] then []
    else if PlaceholderAt(s) then
      var n := LeadingCount(s[1..], InName);
      [Param(s[1..n + 1])] + Scan(s[n + 2..])
    else Lead(s[0], Scan(s[1..]))
  }

  /** ASCII letters and `_` may start a group name; digits may follow. */
  predicate IsIdentStart(c: char) { ('a' <= c <= 'z') || ('A' <= c <= 'Z') || c == '_' }

  predicate IsIdentChar(c: char) { IsIdentStart(c) || ('0' <= c <= '9') }

  /** A name `(?P<name>...)` accepts. */
  predicate IsIdentifier(s: string) {
    s != [] && IsIdentStart(s[0]) && forall i :: 1 <= i < |s| ==> IsIdentChar(s[i])
  }

  /** The names of the groups of a route. */
  function NameSet(segs: seq<Segment>): set<string> {
    if segs == [] then {}
    else (if segs[0].Param? then {segs[0].name} else {}) + NameSet(segs[1..])
  }

  /** Every group name is an identifier and none occurs twice: otherwise
      `re.compile` raises `re.error`. */
  predicate GoodNames(segs: seq<Segment>) {
    segs == []
    || ((segs[0].Param? ==> IsIdentifier(segs[0].name) && segs[0].name !in NameSet(segs[1..]))
        && GoodNames(segs[1..]))
  }

  /** The group name of the placeholder that starts `s`. */
  function NameAt(s: string): string
    requires PlaceholderAt(s)
  {
    s[1..LeadingCount(s[1..], InName) + 1]
  }

  /** Every placeholder of the path names a group `re.compile` accepts, and
      no two placeholders name the same group. */
  ghost predicate GoodPlaceholders(path: string) {
    (forall i :: 0 <= i < |path| && PlaceholderAt(path[i..]) ==> IsIdentifier(NameAt(path[i..])))
    && (forall i, j :: 0 <= i < j < |path| && PlaceholderAt(path[i..]) && PlaceholderAt(path[j..]) ==>
          NameAt(path[i..]) != NameAt(path[j..]))
  }

  /** No placeholder starts anywhere in `t`. */
  ghost predicate PlainText(t: string) {
    forall j :: 0 <= j < |t| ==> !PlaceholderAt(t[j..])
  }

  /** Every literal piece is plain text: each placeholder became a group. */
  ghost predicate LiteralsPlain(segs: seq<Segment>) {
    forall k :: 0 <= k < |segs| && segs[k].Lit? ==> PlainText(segs[k].text)
  }

  /** The pattern `route` compiles for `path`, or `None` where `re.compile`
      raises `re.error`. The pieces render back to the path, every
      placeholder of the path became a group (no literal holds one), and
      compilation fails exactly when a placeholder's name is not a group name
      or two placeholders share a name. */
  function Compile(path: string): (r: Option<seq<Segment>>)
    ensures r.Some? ==> Render(r.value) == path && GoodNames(r.value) && LiteralsPlain(r.value)
    ensures r.Some? ==> forall i :: 0 <= i < |path| && PlaceholderAt(path[i..]) ==> NameAt(path[i..]) in NameSet(r.value)
    ensures r.None? <==> !GoodPlaceholders(path)
  {
    var segs := Scan(path);
    RenderScan(path);
    ScanLiteralsPlain(path);
    ScanGoodIff(path);
    if GoodNames(segs) then
      ScanSound(path);
      assert NamesCovered(path);
      Some(segs)
    else None
  }

  /** The scan's group names are good exactly when the path's placeholders
      are. */
  lemma ScanGoodIff(s: string)
    ensures GoodNames(Scan(s)) <==> GoodPlaceholders(s)
  {
    if GoodNames(Scan(s)) {
      ScanSound(s);
    }
    if GoodPlaceholders(s) {
      ScanComplete(s);
    }
  }

  /** A placeholder at the start of a prefix of `q` is one at the start of
      `q`, with the same name. */
  lemma PlaceholderExtend(p: string, q: string)
    requires PlaceholderAt(p) && |p| <= |q| && q[..|p|] == p
    ensures PlaceholderAt(q) && NameAt(q) == NameAt(p)
  {
    var n := LeadingCount(p[1..], InName);
    assert q[n + 1] == q[..|p|][n + 1];
    assert q[1..][n] == p[n + 1];
    LeadingCountAtMost(q[1..], InName, n);
    forall j | 0 <= j < n
      ensures InName(q[1..][j])
    {
      assert q[j + 1] == q[..|p|][j + 1];
      assert q[1..][j] == p[1..][..n][j];
    }
    LeadingCountAtLeast(q[1..], InName, n);
    var name, prefixName := q[1..n + 1], q[..|p|][1..n + 1];
    forall i | 0 <= i < n
      ensures name[i] == prefixName[i]
    {
      assert prefixName[i] == q[..|p|][i + 1];
    }
    assert name == prefixName;
  }

  /** Inside a placeholder with a proper name no other placeholder starts. */
  lemma InsideName(s: string, j: nat)
    requires PlaceholderAt(s) && IsIdentifier(NameAt(s))
    requires 0 < j < LeadingCount(s[1..], InName) + 2
    ensures !PlaceholderAt(s[j..])
  {
    var n := LeadingCount(s[1..], InName);
    if j <= n {
      assert s[j] == NameAt(s)[j - 1];
    }
  }

  /** Dropping the first `k` characters keeps the placeholders good. */
  lemma GoodPlaceholdersSuffix(s: string, k: nat)
    requires GoodPlaceholders(s) && k <= |s|
    ensures GoodPlaceholders(s[k..])
  {
    var t := s[k..];
    forall i | 0 <= i < |t|
      ensures t[i..] == s[k + i..]
    {
    }
  }

  /** A literal character in front changes neither the names nor whether
      they are good. */
  lemma LeadNames(c: char, segs: seq<Segment>)
    ensures NameSet(Lead(c, segs)) == NameSet(segs)
    ensures GoodNames(Lead(c, segs)) == GoodNames(segs)
  {
    var r := Lead(c, segs);
    if segs != [] && segs[0].Lit? {
      assert r[1..] == segs[1..];
    } else {
      assert r[1..] == segs;
    }
  }

  /** The literal pieces the scan produces are plain text. */
  lemma {:induction false} ScanLiteralsPlain(s: string)
    ensures LiteralsPlain(Scan(s))
    decreases |s|
  {
    if s == [] {
    } else if PlaceholderAt(s) {
      var n := LeadingCount(s[1..], InName);
      var rest := Scan(s[n + 2..]);
      ScanLiteralsPlain(s[n + 2..]);
      assert Scan(s) == [Param(s[1..n + 1])] + rest;
      assert forall k :: 1 <= k < |Scan(s)| ==> Scan(s)[k] == rest[k - 1];
    } else {
      ScanLiteralsPlain(s[1..]);
      RenderScan(s[1..]);
      assert s == [s[0]] + s[1..];
      LeadPlain(s[0], Scan(s[1..]), s);
    }
  }

  /** One character before plain text keeps it plain when the text it starts
      is not a placeholder. */
  lemma PlainPrepend(c: char, t: string, s: string)
    requires PlainText(t) && |t| + 1 <= |s| && s[..|t| + 1] == [c] + t && !PlaceholderAt(s)
    ensures PlainText([c] + t)
  {
    var u := [c] + t;
    forall j | 0 <= j < |u|
      ensures !PlaceholderAt(u[j..])
    {
      if j == 0 {
        if PlaceholderAt(u) {
          PlaceholderExtend(u, s);
        }
      } else {
        assert u[j..] == t[j - 1..];
      }
    }
  }

  /** `Lead` keeps literals plain when the text it starts is not a
      placeholder. */
  lemma LeadPlain(c: char, segs: seq<Segment>, s: string)
    requires LiteralsPlain(segs) && s == [c] + Render(segs) && !PlaceholderAt(s)
    ensures LiteralsPlain(Lead(c, segs))
  {
    var r := Lead(c, segs);
    if segs != [] && segs[0].Lit? {
      var t := segs[0].text;
      var u := [c] + t;
      assert r[0] == Lit(u);
      assert s == u + Render(segs[1..]) by {
        ConcatAssoc([c], t, Render(segs[1..]));
      }
      assert s[..|u|] == u;
      PlainPrepend(c, t, s);
      assert forall k :: 1 <= k < |r| ==> r[k] == segs[k];
    } else {
      assert r[0] == Lit([c]);
      assert forall k :: 1 <= k < |r| ==> r[k] == segs[k - 1];
    }
  }

  /** A placeholder found in a suffix is one of the whole path, with its name. */
  lemma PlaceholderShift(s: string, a: nat, k: nat)
    requires a <= |s| && k < |s| - a && PlaceholderAt(s[a..][k..])
    ensures PlaceholderAt(s[a + k..]) && NameAt(s[a + k..]) == NameAt(s[a..][k..])
  {
    assert s[a..][k..] == s[a + k..];
  }

  /** A leading placeholder adds its name to the names of the rest. */
  lemma ScanParamNames(s: string)
    requires PlaceholderAt(s)
    ensures NameSet(Scan(s)) == {NameAt(s)} + NameSet(Scan(s[LeadingCount(s[1..], InName) + 2..]))
  {
    var n := LeadingCount(s[1..], InName);
    var rest := Scan(s[n + 2..]);
    assert Scan(s) == [Param(s[1..n + 1])] + rest;
    assert ([Param(s[1..n + 1])] + rest)[1..] == rest;
  }

  /** Every name the scan produces comes from a placeholder of the path. */
  lemma {:induction false} NamesFromPlaceholders(s: string, name: string) returns (j: nat)
    requires name in NameSet(Scan(s))
    ensures j < |s| && PlaceholderAt(s[j..]) && NameAt(s[j..]) == name
    decreases |s|, 1
  {
    if PlaceholderAt(s) && name == NameAt(s) {
      assert s[0..] == s;
      j := 0;
    } else {
      j := NamesFromLaterPiece(s, name);
    }
  }

  /** The name comes from a piece after the first one. */
  lemma {:induction false} NamesFromLaterPiece(s: string, name: string) returns (j: nat)
    requires name in NameSet(Scan(s))
    requires !(PlaceholderAt(s) && name == NameAt(s))
    ensures j < |s| && PlaceholderAt(s[j..]) && NameAt(s[j..]) == name
    decreases |s|, 0
  {
    var a := FirstPieceLength(s, name);
    var t := s[a..];
    var k := NamesFromPlaceholders(t, name);
    assert k < |s| - a && PlaceholderAt(s[a..][k..]);
    PlaceholderShift(s, a, k);
    assert PlaceholderAt(s[a + k..]);
    j := a + k;
    assert s[j..] == s[a + k..];
  }

  /** The length of the first piece the scan takes from `s`, when `name` is
      not the name of that piece; the name then comes from the rest. */
  lemma FirstPieceLength(s: string, name: string) returns (a: nat)
    requires name in NameSet(Scan(s))
    requires !(PlaceholderAt(s) && name == NameAt(s))
    ensures 0 < a <= |s| && name in NameSet(Scan(s[a..]))
  {
    assert Scan([]) == [];
    if PlaceholderAt(s) {
      ScanParamNames(s);
      a := LeadingCount(s[1..], InName) + 2;
    } else {
      LeadNames(s[0], Scan(s[1..]));
      a := 1;
    }
  }

  /** Every placeholder of the path names one of the scan's groups. */
  ghost predicate NamesCovered(s: string) {
    forall i :: 0 <= i < |s| && PlaceholderAt(s[i..]) ==> NameAt(s[i..]) in NameSet(Scan(s))
  }

  /** Good group names in the scan mean good placeholders in the path, and
      every placeholder's name is one of the groups. */
  lemma {:induction false} ScanSound(s: string)
    requires GoodNames(Scan(s))
    ensures GoodPlaceholders(s) && NamesCovered(s)
    decreases |s|
  {
    if s == [] {
    } else if PlaceholderAt(s) {
      var n := LeadingCount(s[1..], InName);
      ScanTailNames(s);
      ScanSound(s[n + 2..]);
      ScanSoundPlaceholder(s);
    } else {
      LeadNames(s[0], Scan(s[1..]));
      ScanSound(s[1..]);
      ScanSoundLead(s);
    }
  }

  /** The groups after a leading placeholder keep good names. */
  lemma ScanTailNames(s: string)
    requires PlaceholderAt(s) && GoodNames(Scan(s))
    ensures GoodNames(Scan(s[LeadingCount(s[1..], InName) + 2..]))
  {
    var n := LeadingCount(s[1..], InName);
    var rest := Scan(s[n + 2..]);
    assert Scan(s) == [Param(s[1..n + 1])] + rest;
    assert ([Param(s[1..n + 1])] + rest)[1..] == rest;
  }

  /** The step of `ScanSound` for a path that starts with a placeholder. */
  lemma ScanSoundPlaceholder(s: string)
    requires PlaceholderAt(s) && GoodNames(Scan(s))
    requires var r := s[LeadingCount(s[1..], InName) + 2..]; GoodPlaceholders(r) && NamesCovered(r)
    ensures GoodPlaceholders(s) && NamesCovered(s)
  {
    var n := LeadingCount(s[1..], InName);
    var r := s[n + 2..];
    var rest := Scan(r);
    assert Scan(s) == [Param(s[1..n + 1])] + rest;
    assert ([Param(s[1..n + 1])] + rest)[1..] == rest;
    forall i | n + 2 <= i < |s|
      ensures s[i..] == r[i - (n + 2)..]
    {
    }
    forall i | 0 < i < n + 2
      ensures !PlaceholderAt(s[i..])
    {
      InsideName(s, i);
    }
    assert s[0..] == s;
  }

  /** The step of `ScanSound` for a path that starts with literal text. */
  lemma ScanSoundLead(s: string)
    requires s != [] && !PlaceholderAt(s)
    requires NameSet(Scan(s)) == NameSet(Scan(s[1..]))
    requires GoodPlaceholders(s[1..]) && NamesCovered(s[1..])
    ensures GoodPlaceholders(s) && NamesCovered(s)
  {
    forall i | 1 <= i < |s|
      ensures s[i..] == s[1..][i - 1..]
    {
    }
    assert s[0..] == s;
  }

  /** Good placeholders in the path mean good group names in the scan. */
  lemma {:induction false} ScanComplete(s: string)
    requires GoodPlaceholders(s)
    ensures GoodNames(Scan(s))
    decreases |s|
  {
    if s == [] {
    } else if PlaceholderAt(s) {
      var n := LeadingCount(s[1..], InName);
      var r := s[n + 2..];
      var rest := Scan(r);
      assert Scan(s) == [Param(s[1..n + 1])] + rest;
      assert ([Param(s[1..n + 1])] + rest)[1..] == rest;
      assert s[0..] == s;
      GoodPlaceholdersSuffix(s, n + 2);
      ScanComplete(r);
      if NameAt(s) in NameSet(rest) {
        forall j | 0 <= j < |r|
          ensures r[j..] == s[n + 2 + j..]
        {
        }
        var k := NamesFromPlaceholders(r, NameAt(s));
        assert false;
      }
    } else {
      GoodPlaceholdersSuffix(s, 1);
      ScanComplete(s[1..]);
      LeadNames(s[0], Scan(s[1..]));
    }
  }

  /** Scanning loses nothing: the pieces render back to the path. */
  lemma {:induction false} RenderScan(s: string)
    ensures Render(Scan(s)) == s
    decreases |s|
  {
    if s == [] {
    } else if PlaceholderAt(s) {
      var n := LeadingCount(s[1..], InName);
      var name := s[1..n + 1];
      assert Scan(s) == [Param(name)] + Scan(s[n + 2..]);
      RenderScan(s[n + 2..]);
      RenderParam(name, Scan(s[n + 2..]));
      PlaceholderPrefix(s);
    } else {
      assert Scan(s) == Lead(s[0], Scan(s[1..]));
      RenderScan(s[1..]);
      assert s == [s[0]] + s[1..];
    }
  }

  lemma RenderParam(name: string, segs: seq<Segment>)
    ensures Render([Param(name)] + segs) == Placeholder(name) + Render(segs)
  {
    assert ([Param(name)] + segs)[1..] == segs;
  }

  /** A path that starts with a placeholder is that placeholder and the rest. */
  lemma PlaceholderPrefix(s: string)
    requires PlaceholderAt(s)
    ensures var n := LeadingCount(s[1..], InName);
            s == Placeholder(s[1..n + 1]) + s[n + 2..]
  {
    var n := LeadingCount(s[1..], InName);
    assert s[..n + 2] == Placeholder(s[1..n + 1]);
    assert s == s[..n + 2] + s[n + 2..];
  }

  /* ---------------------------------------------------------------------- */
  /* Matching a request path                                                */
  /* ---------------------------------------------------------------------- */

  predicate NotSlash(c: char) { c != '/' }

  /** Where `$` matches: at the end of the path or just before a final
      newline. */
  predicate AtEnd(s: string) { s == [] || s == "\n" }

  /** `pattern.match(s).groupdict()` for the pieces `segs`, or `None` where
      the pattern does not match. A literal must come next; a group first
      takes the longest slash-free run it can and gives characters back one
      at a time until the rest of the pattern matches, as the regular
      expression engine backtracks. */
  function MatchFrom(segs: seq<Segment>, s: string): Option<map<string, string>>
    decreases |segs|, |s| + 1
  {
    if segs == [] then (if AtEnd(s) then Some(map[]) else None)
    else
      match segs[0]
      case Lit(t) => if StartsWith(s, t) then MatchFrom(segs[1..], s[|t|..]) else None
      case Param(name) => TryLengths(name, segs[1..], s, LeadingCount(s, NotSlash))
  }

  /** The group `name` tries the values `s[..k]`, `s[..k - 1]`, ..., `s[..1]`
      in that order; the first one after which `rest` matches wins. */
  function TryLengths(name: string, rest: seq<Segment>, s: string, k: nat): Option<map<string, string>>
    requires k <= LeadingCount(s, NotSlash)
    decreases |rest| + 1, k
  {
    if k == 0 then None
    else
      match MatchFrom(rest, s[k..])
      case Some(m) => Some(m[name := s[..k]])
      case None => TryLengths(name, rest, s, k - 1)
  }

  /** What a group may capture: `[^/]+`. */
  predicate ValidValue(v: string) { v != [] && '/' !in v }

  /** The path a route stands for once every group has a value. */
  function Fill(segs: seq<Segment>, vals: map<string, string>): string
    requires NameSet(segs) <= vals.Keys
  {
    if segs == [] then []
    else
      (match segs[0] case Lit(t) => t case Param(n) => vals[n]) + Fill(segs[1..], vals)
  }

  /** Filling only reads the values of the route's own groups. */
  lemma {:induction false} FillAgree(segs: seq<Segment>, a: map<string, string>, b: map<string, string>)
    requires NameSet(segs) <= a.Keys && NameSet(segs) <= b.Keys
    requires forall n :: n in NameSet(segs) ==> a[n] == b[n]
    ensures Fill(segs, a) == Fill(segs, b)
  {
    if segs != [] {
      FillAgree(segs[1..], a, b);
    }
  }

  /** The groups of a match are exactly the route's, each holds a value `[^/]+`
      accepts, and the path is the route filled with them (before an
      optional final newline). */
  ghost predicate Matches(segs: seq<Segment>, s: string, m: map<string, string>) {
    m.Keys == NameSet(segs)
    && (forall n :: n in m ==> ValidValue(m[n]))
    && (s == Fill(segs, m) || s == Fill(segs, m) + "\n")
  }

  /** Soundness: whatever the matcher returns is a correct reading of the path. */
  lemma {:induction false} MatchSound(segs: seq<Segment>, s: string)
    requires GoodNames(segs)
    requires MatchFrom(segs, s).Some?
    ensures Matches(segs, s, MatchFrom(segs, s).value)
    decreases |segs|, |s| + 1
  {
    if segs != [] {
      var rest := segs[1..];
      match segs[0]
      case Lit(t) =>
        var m := MatchFrom(rest, s[|t|..]);
        MatchSound(rest, s[|t|..]);
        assert s == t + s[|t|..];
        ConcatAssoc(t, Fill(rest, m.value), "\n");
      case Param(name) =>
        TryLengthsSound(name, rest, s, LeadingCount(s, NotSlash));
    }
  }

  lemma {:induction false} TryLengthsSound(name: string, rest: seq<Segment>, s: string, k: nat)
    requires GoodNames(rest) && name !in NameSet(rest)
    requires k <= LeadingCount(s, NotSlash)
    requires TryLengths(name, rest, s, k).Some?
    ensures var m := TryLengths(name, rest, s, k).value;
            m.Keys == {name} + NameSet(rest)
            && (forall n :: n in m ==> ValidValue(m[n]))
            && (s == m[name] + Fill(rest, m) || s == m[name] + Fill(rest, m) + "\n")
    decreases |rest| + 1, k
  {
    if MatchFrom(rest, s[k..]).Some? {
      MatchSound(rest, s[k..]);
      ExtendMatch(name, rest, s, k, MatchFrom(rest, s[k..]).value);
    } else {
      TryLengthsSound(name, rest, s, k - 1);
    }
  }

  /** A non-empty prefix of the slash-free run is a value `[^/]+` accepts. */
  lemma PrefixIsValue(s: string, k: nat)
    requires 0 < k <= LeadingCount(s, NotSlash)
    ensures ValidValue(s[..k])
  {
    var lc := LeadingCount(s, NotSlash);
    assert forall i :: 0 <= i < k ==> s[..k][i] == s[..lc][i];
  }

  /** Adding the group's value to a match of the rest of the route. */
  lemma ExtendMatch(name: string, rest: seq<Segment>, s: string, k: nat, m0: map<string, string>)
    requires name !in NameSet(rest)
    requires 0 < k <= LeadingCount(s, NotSlash)
    requires Matches(rest, s[k..], m0)
    ensures var m := m0[name := s[..k]];
            m.Keys == {name} + NameSet(rest)
            && (forall n :: n in m ==> ValidValue(m[n]))
            && (s == m[name] + Fill(rest, m) || s == m[name] + Fill(rest, m) + "\n")
  {
    var v := s[..k];
    var m := m0[name := v];
    FillAgree(rest, m0, m);
    PrefixIsValue(s, k);
    assert s == v + s[k..];
    ConcatAssoc(v, Fill(rest, m), "\n");
  }

  /** A slash-free prefix lies within the run a group may take. */
  lemma RunCoversValue(v: string, tail: string)
    requires '/' !in v
    ensures |v| <= LeadingCount(v + tail, NotSlash)
  {
    assert forall j :: 0 <= j < |v| ==> (v + tail)[j] == v[j];
    LeadingCountAtLeast(v + tail, NotSlash, |v|);
  }

  /** A slash-free value followed by a slash, or by nothing, is exactly the
      run a group takes. */
  lemma RunIsValue(v: string, tail: string)
    requires '/' !in v
    requires tail == [] || tail[0] == '/'
    ensures LeadingCount(v + tail, NotSlash) == |v|
  {
    RunCoversValue(v, tail);
    if tail != [] {
      assert (v + tail)[|v|] == '/';
      LeadingCountAtMost(v + tail, NotSlash, |v|);
    }
  }

  /** Completeness: a path that is the route filled with values `[^/]+`
      accepts (and perhaps a final newline) is matched. */
  lemma {:induction false} MatchComplete(segs: seq<Segment>, vals: map<string, string>, e: string)
    requires NameSet(segs) <= vals.Keys
    requires forall n :: n in NameSet(segs) ==> ValidValue(vals[n])
    requires AtEnd(e)
    ensures MatchFrom(segs, Fill(segs, vals) + e).Some?
    decreases |segs|
  {
    if segs != [] {
      var rest := segs[1..];
      var tail := Fill(rest, vals) + e;
      match segs[0]
      case Lit(t) =>
        ConcatAssoc(t, Fill(rest, vals), e);
        DropAppend(t, tail);
        MatchComplete(rest, vals, e);
      case Param(n) =>
        var v := vals[n];
        ConcatAssoc(v, Fill(rest, vals), e);
        DropAppend(v, tail);
        RunCoversValue(v, tail);
        MatchComplete(rest, vals, e);
        TryLengthsFinds(n, rest, v + tail, LeadingCount(v + tail, NotSlash), |v|);
    }
  }

  lemma {:induction false} TryLengthsFinds(name: string, rest: seq<Segment>, s: string, k: nat, j: nat)
    requires 1 <= j <= k <= LeadingCount(s, NotSlash)
    requires MatchFrom(rest, s[j..]).Some?
    ensures TryLengths(name, rest, s, k).Some?
    decreases k
  {
    if MatchFrom(rest, s[k..]).None? {
      TryLengthsFinds(name, rest, s, k - 1, j);
    }
  }

  /** Every group is followed by a literal that starts with `/`, or ends the
      route: the shape of `/user/{name}/posts/{id}`. */
  predicate Delimited(segs: seq<Segment>) {
    segs == []
    || ((segs[0].Param? ==> |segs| == 1 || (segs[1].Lit? && segs[1].text != [] && segs[1].text[0] == '/'))
        && Delimited(segs[1..]))
  }

  /** For a delimited route the match gives back exactly the values the path
      was filled with. */
  lemma {:induction false} MatchRecovers(segs: seq<Segment>, vals: map<string, string>)
    requires GoodNames(segs) && Delimited(segs)
    requires NameSet(segs) <= vals.Keys
    requires forall n :: n in NameSet(segs) ==> ValidValue(vals[n])
    ensures var r := MatchFrom(segs, Fill(segs, vals));
            r.Some? && r.value.Keys == NameSet(segs) && forall n :: n in r.value ==> r.value[n] == vals[n]
    decreases |segs|
  {
    if segs != [] {
      var rest := segs[1..];
      var tail := Fill(rest, vals);
      MatchRecovers(rest, vals);
      match segs[0]
      case Lit(t) =>
        DropAppend(t, tail);
      case Param(n) =>
        var v := vals[n];
        DropAppend(v, tail);
        FillStartsWithSlash(rest, vals);
        RunIsValue(v, tail);
    }
  }

  /** What follows a group in a delimited route starts with a slash. */
  lemma FillStartsWithSlash(segs: seq<Segment>, vals: map<string, string>)
    requires NameSet(segs) <= vals.Keys
    requires segs == [] || (segs[0].Lit? && segs[0].text != [] && segs[0].text[0] == '/')
    ensures Fill(segs, vals) == [] || Fill(segs, vals)[0] == '/'
  {
  }

  /** With two groups side by side the greedy first group takes all it can:
      `/{a}{b}` filled with `x` and `yz` reads back as `xy` and `z`. This is
      why `MatchRecovers` asks for a delimited route. */
  lemma AdjacentGroupsAreGreedy()
    ensures Fill([Lit("/"), Param("a"), Param("b")], map["a" := "x", "b" := "yz"]) == "/xyz"
    ensures MatchFrom([Lit("/"), Param("a"), Param("b")], "/xyz") == Some(map["b" := "z", "a" := "xy"])
  {
    var segs := [Lit("/"), Param("a"), Param("b")];
    var last := [Param("b")];
    assert segs[1..] == [Param("a"), Param("b")] && segs[1..][1..] == last && last[1..] == [];
    assert LeadingCount("z", NotSlash) == 1 by {
      assert "z"[1..] == [];
    }
    assert LeadingCount("xyz", NotSlash) == 3 by {
      assert "yz"[1..] == "z";
      assert "xyz"[1..] == "yz";
    }
    assert MatchFrom(last, "") == None;
    assert MatchFrom(last, "z") == Some(map["b" := "z"]) by {
      assert "z"[1..] == [] && "z"[..1] == "z";
      assert MatchFrom([], "z"[1..]) == Some(map[]);
      assert TryLengths("b", [], "z", 1) == Some(map[]["b" := "z"]);
    }
    assert TryLengths("a", last, "xyz", 3) == TryLengths("a", last, "xyz", 2) by {
      assert "xyz"[3..] == [];
    }
    assert TryLengths("a", last, "xyz", 2) == Some(map["b" := "z", "a" := "xy"]) by {
      assert "xyz"[2..] == "z" && "xyz"[..2] == "xy";
    }
    assert StartsWith("/xyz", "/") && "/xyz"[1..] == "xyz";
  }

  /* ---------------------------------------------------------------------- */
  /* Choosing the route                                                     */
  /* ---------------------------------------------------------------------- */

  /** A registered route: its compiled pattern, the upper-cased HTTP method and
      the handler it calls. */
  datatype Route = Route(pattern: seq<Segment>, verb: string, handler: nat)

  /** The route's pattern matches the path and its method is the request's. */
  predicate Selects(route: Route, verb: string, path: string) {
    MatchFrom(route.pattern, path).Some? && route.verb == verb
  }

  /** The dispatcher's choice among `routes[from..]`: the first route, in
      registration order, that selects the request, with its groups, or
      `None` when no route does. */
  function FirstMatch(routes: seq<Route>, verb: string, path: string, from: nat): (r: Option<(nat, map<string, string>)>)
    requires from <= |routes|
    ensures r.Some? ==> from <= r.value.0 < |routes| && routes[r.value.0].verb == verb
                        && MatchFrom(routes[r.value.0].pattern, path) == Some(r.value.1)
    ensures forall j :: from <= j < |routes| && (r.None? || j < r.value.0) ==> !Selects(routes[j], verb, path)
    decreases |routes| - from
  {
    if from == |routes| then None
    else if Selects(routes[from], verb, path) then
      Some((from, MatchFrom(routes[from].pattern, path).value))
    else FirstMatch(routes, verb, path, from + 1)
  }

  /* ---------------------------------------------------------------------- */
  /* Filling a path back in: url_for                                        */
  /* ---------------------------------------------------------------------- */

  /** `re.match("{\s*" + key + "\s*}", s)`: the length of a placeholder for
      `key` at the start of `s`, spaces allowed inside the braces. */
  function KeyPlaceholder(s: string, key: string): (r: Option<nat>)
    ensures r.Some? ==> 2 <= r.value <= |s| && s[0] == '{' && s[r.value - 1] == '}'
  {
    if s == [] || s[0] != '{' then None
    else
      var a := 1 + LeadingCount(s[1..], IsSpace);
      if !StartsWith(s[a..], key) then None
      else
        var b := a + |key| + LeadingCount(s[a + |key|..], IsSpace);
        if b < |s| && s[b] == '}' then Some(b + 1) else None
  }

  /** `re.sub("{\s*" + key + "\s*}", value, s)`: every placeholder for `key`,
      left to right and without overlap, replaced by `value`. */
  function Substitute(s: string, key: string, value: string): string
    decreases |s|
  {
    if s == [] then []
    else
      match KeyPlaceholder(s, key)
      case Some(n) => value + Substitute(s[n..], key, value)
      case None => [s[0]] + Substitute(s[1..], key, value)
  }

  /** What the loop of `url_for` leaves in `path` once it has substituted the
      pairs one after the other. */
  function SubstituteAll(path: string, values: seq<(string, string)>): string
    decreases |values|
  {
    if values == [] then path
    else SubstituteAll(Substitute(path, values[0].0, values[0].1), values[1..])
  }

  /** `url_for(endpoint, **values)`: the registered path of `"METHOD:path"`
      with the values substituted, or `/` for an unknown endpoint. */
  function UrlFor(routeMap: map<string, string>, endpoint: string, values: seq<(string, string)>): string {
    if endpoint in routeMap then SubstituteAll(routeMap[endpoint], values) else "/"
  }

  /** A route path with some placeholders already filled from `f`. */
  function RenderWith(segs: seq<Segment>, f: map<string, string>): string {
    if segs == [] then []
    else
      (match segs[0]
       case Lit(t) => t
       case Param(n) => if n in f then f[n] else Placeholder(n))
      + RenderWith(segs[1..], f)
  }

  /** The literal text of a route holds no brace: every `{` of its path
      opens a placeholder. */
  predicate BraceFreeLiterals(segs: seq<Segment>) {
    segs == [] || ((segs[0].Lit? ==> '{' !in segs[0].text) && BraceFreeLiterals(segs[1..]))
  }

  /** A character other than `{` is copied. */
  lemma SubstituteStep(s: string, key: string, value: string)
    requires s != [] && s[0] != '{'
    ensures Substitute(s, key, value) == [s[0]] + Substitute(s[1..], key, value)
  {
    assert KeyPlaceholder(s, key) == None;
  }

  /** Text without `{` holds no placeholder and passes through unchanged. */
  lemma {:induction false} SubstitutePlain(t: string, rest: string, key: string, value: string)
    requires '{' !in t
    ensures Substitute(t + rest, key, value) == t + Substitute(rest, key, value)
    decreases |t|
  {
    if t != [] {
      var s := t + rest;
      var tail := Substitute(rest, key, value);
      assert s[0] == t[0] && s[1..] == t[1..] + rest;
      SubstituteStep(s, key, value);
      SubstitutePlain(t[1..], rest, key, value);
      assert Substitute(s, key, value) == [t[0]] + (t[1..] + tail);
      ConcatAssoc([t[0]], t[1..], tail);
      assert [t[0]] + t[1..] == t;
    } else {
      assert t + rest == rest;
    }
  }

  /** The placeholder for `key` itself is replaced. */
  lemma SubstituteOwnPlaceholder(key: string, rest: string, value: string)
    requires IsIdentifier(key)
    ensures Substitute(Placeholder(key) + rest, key, value) == value + Substitute(rest, key, value)
  {
    var s := Placeholder(key) + rest;
    assert s[1..] == key + ("}" + rest);
    assert s[1 + |key|..] == "}" + rest;
    assert LeadingCount(s[1..], IsSpace) == 0 by {
      assert s[1..][0] == key[0];
    }
    assert StartsWith(s[1..], key);
    assert LeadingCount(s[1 + |key|..], IsSpace) == 0;
    assert KeyPlaceholder(s, key) == Some(|key| + 2);
    assert s[|key| + 2..] == rest;
  }

  /** No placeholder for `key` starts where the placeholder of another
      identifier does. */
  lemma OtherPlaceholderNoMatch(name: string, key: string, rest: string)
    requires IsIdentifier(name) && IsIdentifier(key) && name != key
    ensures KeyPlaceholder(Placeholder(name) + rest, key) == None
  {
    var s := Placeholder(name) + rest;
    var t := s[1..];
    assert t == name + ("}" + rest);
    assert t[..|name|] == name && t[|name|] == '}';
    KeyNotLonger(name, key, t);
    assert LeadingCount(t, IsSpace) == 0 by {
      assert t[0] == name[0];
    }
    if StartsWith(t, key) {
      ShorterKeyNoMatch(name, key, s);
    }
  }

  /** Another identifier cannot start with a name followed by `}`. */
  lemma KeyNotLonger(name: string, key: string, t: string)
    requires IsIdentifier(key) && name != key
    requires |t| > |name| && t[..|name|] == name && t[|name|] == '}'
    ensures !StartsWith(t, key) || |key| < |name|
  {
    if |key| == |name| {
      assert |key| <= |t| ==> t[..|key|] == name;
    } else if |key| > |name| {
      assert |key| <= |t| ==> t[..|key|][|name|] == '}';
    }
  }

  /** A key that is a proper prefix of the name is followed by a name
      character, not by spaces and a brace. */
  lemma ShorterKeyNoMatch(name: string, key: string, s: string)
    requires IsIdentifier(name) && |key| < |name|
    requires |s| > 1 + |name| && s[1..1 + |name|] == name
    ensures var b := 1 + |key| + LeadingCount(s[1 + |key|..], IsSpace);
            b < |s| && s[b] != '}'
  {
    var c := name[|key|];
    assert IsIdentChar(c) && !IsSpace(c) && c != '}';
    assert s[1 + |key|..][0] == c;
    assert s[1 + |key|] == c;
  }

  /** The placeholder for another identifier is left as it is. */
  lemma SubstituteOtherPlaceholder(name: string, key: string, rest: string, value: string)
    requires IsIdentifier(name) && IsIdentifier(key) && name != key
    ensures Substitute(Placeholder(name) + rest, key, value) == Placeholder(name) + Substitute(rest, key, value)
  {
    var s := Placeholder(name) + rest;
    OtherPlaceholderNoMatch(name, key, rest);
    assert s[1..] == (name + "}") + rest;
    SubstitutePlain(name + "}", rest, key, value);
    ConcatAssoc(['{'], name + "}", Substitute(rest, key, value));
    assert ['{'] + (name + "}") == Placeholder(name);
  }

  /** Substituting one fresh identifier fills exactly its placeholder. */
  lemma {:induction false} SubstituteRenderWith(segs: seq<Segment>, f: map<string, string>, key: string, value: string)
    requires GoodNames(segs) && BraceFreeLiterals(segs)
    requires forall n :: n in f ==> '{' !in f[n]
    requires IsIdentifier(key) && key !in f && '{' !in value
    ensures Substitute(RenderWith(segs, f), key, value) == RenderWith(segs, f[key := value])
    decreases |segs|
  {
    if segs != [] {
      var rest := RenderWith(segs[1..], f);
      SubstituteRenderWith(segs[1..], f, key, value);
      match segs[0]
      case Lit(t) =>
        SubstitutePlain(t, rest, key, value);
      case Param(n) =>
        if n in f {
          SubstitutePlain(f[n], rest, key, value);
        } else if n == key {
          SubstituteOwnPlaceholder(key, rest, value);
        } else {
          SubstituteOtherPlaceholder(n, key, rest, value);
        }
    }
  }

  /** The values `url_for` has substituted after the pairs, on top of `f`. */
  function Bind(f: map<string, string>, values: seq<(string, string)>): map<string, string>
    decreases |values|
  {
    if values == [] then f else Bind(f[values[0].0 := values[0].1], values[1..])
  }

  /** Keyword arguments as Python passes them: identifiers, none repeated,
      none already bound in `f`, and values without `{`. */
  predicate FreshPairs(f: map<string, string>, values: seq<(string, string)>)
    decreases |values|
  {
    values == []
    || (IsIdentifier(values[0].0) && values[0].0 !in f && '{' !in values[0].1
        && FreshPairs(f[values[0].0 := values[0].1], values[1..]))
  }

  lemma {:induction false} SubstituteAllRenderWith(segs: seq<Segment>, f: map<string, string>, values: seq<(string, string)>)
    requires GoodNames(segs) && BraceFreeLiterals(segs)
    requires forall n :: n in f ==> '{' !in f[n]
    requires FreshPairs(f, values)
    ensures SubstituteAll(RenderWith(segs, f), values) == RenderWith(segs, Bind(f, values))
    decreases |values|
  {
    if values != [] {
      var (k, v) := values[0];
      SubstituteRenderWith(segs, f, k, v);
      SubstituteAllRenderWith(segs, f[k := v], values[1..]);
    }
  }

  lemma {:induction false} RenderWithNothing(segs: seq<Segment>)
    ensures RenderWith(segs, map[]) == Render(segs)
  {
    if segs != [] {
      RenderWithNothing(segs[1..]);
    }
  }

  lemma {:induction false} RenderWithAll(segs: seq<Segment>, f: map<string, string>)
    requires NameSet(segs) <= f.Keys
    ensures RenderWith(segs, f) == Fill(segs, f)
  {
    if segs != [] {
      RenderWithAll(segs[1..], f);
    }
  }

  /** `url_for` and the matcher are inverse: the URL `url_for` builds for a
      delimited route, from a value `[^/]+` accepts for each of its groups,
      is matched by that route and gives those values back. */
  lemma UrlForMatches(routeMap: map<string, string>, endpoint: string, segs: seq<Segment>, values: seq<(string, string)>)
    requires endpoint in routeMap && Compile(routeMap[endpoint]) == Some(segs)
    requires Delimited(segs) && BraceFreeLiterals(segs)
    requires FreshPairs(map[], values)
    requires forall n :: n in NameSet(segs) ==> n in Bind(map[], values) && ValidValue(Bind(map[], values)[n])
    ensures var r := MatchFrom(segs, UrlFor(routeMap, endpoint, values));
            r.Some? && r.value.Keys == NameSet(segs)
            && forall n :: n in r.value ==> r.value[n] == Bind(map[], values)[n]
  {
    var vals := Bind(map[], values);
    RenderWithNothing(segs);
    SubstituteAllRenderWith(segs, map[], values);
    RenderWithAll(segs, vals);
    MatchRecovers(segs, vals);
  }
}
