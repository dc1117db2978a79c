/** The part of Python's `json` module the framework uses, for flat documents:
    `json.dumps` of a dictionary whose values are `None`, booleans, integers
    or strings (with the `ensure_ascii`, `separators` and `sort_keys` options
    the framework passes), and `json.loads` of a scalar or of such a
    dictionary. */
module Json {
  import opened Base
  import opened Text

  datatype Scalar = Null | Bool(b: bool) | Int(i: int) | Str(s: string)

  /** What `json.loads` returns: a scalar, or a dictionary of scalars. */
  datatype Document = Value(v: Scalar) | Object(fields: map<string, Scalar>)

  /** The `json.dumps` options that change the text. */
  datatype Style = Style(ensureAscii: bool, itemSeparator: string, keySeparator: string)

  /** `json.dumps(d, separators=(',', ':'), sort_keys=True)`: the session payload. */
  const SessionStyle := Style(true, ",", ":")

  /** `json.dumps(d, ensure_ascii=False)`: dictionaries returned by handlers. */
  const ResponseStyle := Style(false, ", ", ": ")

  /** The separators `json.loads` can read back: the comma or colon with at most
      one space after it. */
  predicate ReadableStyle(st: Style) {
    (st.itemSeparator == "," || st.itemSeparator == ", ")
    && (st.keySeparator == ":" || st.keySeparator == ": ")
  }

  /* ---------------------------------------------------------------------- */
  /* Encoding                                                               */
  /* ---------------------------------------------------------------------- */

  /** Four lower-case hexadecimal digits, as in `'\\u{0:04x}'.format(n)`. */
  function Hex4(n: nat): (r: string)
    requires n < 0x10000
    ensures |r| == 4
  {
    [HexChar(n / 4096), HexChar((n / 256) % 16), HexChar((n / 16) % 16), HexChar(n % 16)]
  }

  /** How `json.dumps` writes one character inside a string literal. With
      `ensure_ascii` everything outside `' '..'~'` is escaped, code points
      above U+FFFF as a surrogate pair; without it only the quote, the
      backslash and the control characters are. */
  function EscapeChar(c: char, ascii: bool): (r: string)
    ensures |r| >= 1
    ensures r[0] != '"'
    ensures |r| == 1 <==> r[0] != '\\'
  {
    var n := c as int;
    if c == '"' then "\\\""
    else if c == '\\' then "\\\\"
    else if c == '\n' then "\\n"
    else if c == '\r' then "\\r"
    else if c == '\t' then "\\t"
    else if n == 8 then "\\b"
    else if n == 12 then "\\f"
    else if n < 0x20 then "\\u" + Hex4(n)
    else if !ascii || n < 0x7F then [c]
    else if n < 0x10000 then "\\u" + Hex4(n)
    else
      var v := n - 0x10000;
      "\\u" + (Hex4(0xD800 + v / 1024) + ("\\u" + Hex4(0xDC00 + v % 1024)))
  }

  function EscapeAll(s: string, ascii: bool): string {
    if s == [] then [] else EscapeChar(s[0], ascii) + EscapeAll(s[1..], ascii)
  }

  /** A JSON string literal. */
  function EncodeString(s: string, ascii: bool): (r: string)
    ensures |r| >= 2 && r[0] == '"' && r[|r| - 1] == '"'
  {
    "\"" + EscapeAll(s, ascii) + "\""
  }

  /** With `ensure_ascii` the text is pure ASCII. */
  lemma {:induction false} EscapeAllIsAscii(s: string)
    ensures IsAscii(EscapeAll(s, true))
  {
    if s != [] {
      EscapeAllIsAscii(s[1..]);
      EscapeCharIsAscii(s[0]);
      AsciiConcat(EscapeChar(s[0], true), EscapeAll(s[1..], true));
    }
  }

  lemma EscapeCharIsAscii(c: char)
    ensures IsAscii(EscapeChar(c, true))
  {
    var n := c as int;
    if n >= 0x10000 {
      PairEscapeIsAscii(c);
    } else if n < 0x20 || 0x7F <= n {
      HexIsAscii(n);
      AsciiConcat("\\u", Hex4(n));
    }
  }

  lemma PairEscapeIsAscii(c: char)
    requires c as int >= 0x10000
    ensures IsAscii(EscapeChar(c, true))
  {
    var v := c as int - 0x10000;
    var hi, lo := Hex4(0xD800 + v / 1024), Hex4(0xDC00 + v % 1024);
    assert EscapeChar(c, true) == "\\u" + (hi + ("\\u" + lo));
    HexIsAscii(0xD800 + v / 1024);
    HexIsAscii(0xDC00 + v % 1024);
    AsciiConcat("\\u", lo);
    AsciiConcat(hi, "\\u" + lo);
    AsciiConcat("\\u", hi + ("\\u" + lo));
  }

  lemma HexIsAscii(n: nat)
    requires n < 0x10000
    ensures IsAscii(Hex4(n))
  {
  }

  lemma AsciiConcat(a: string, b: string)
    requires IsAscii(a) && IsAscii(b)
    ensures IsAscii(a + b)
  {
    assert forall i :: 0 <= i < |a + b| ==> (a + b)[i] == if i < |a| then a[i] else b[i - |a|];
  }

  function EncodeScalar(v: Scalar, ascii: bool): (r: string)
    ensures |r| >= 1
  {
    match v
    case Null => "null"
    case Bool(b) => if b then "true" else "false"
    case Int(i) => IntRepr(i)
    case Str(s) => EncodeString(s, ascii)
  }

  /** One `"key": value` item. */
  function EncodeMember(key: string, v: Scalar, st: Style): (r: string)
    ensures |r| >= 1 && r[0] == '"'
  {
    EncodeString(key, st.ensureAscii) + (st.keySeparator + EncodeScalar(v, st.ensureAscii))
  }

  /** The items of a dictionary, separated by the item separator. */
  function EncodeMembers(pairs: seq<(string, Scalar)>, st: Style): (r: string)
    requires |pairs| >= 1
    ensures |r| >= 1 && r[0] == '"'
  {
    var head := EncodeMember(pairs[0].0, pairs[0].1, st);
    if |pairs| == 1 then head else head + (st.itemSeparator + EncodeMembers(pairs[1..], st))
  }

  /** The items of a Python dictionary, in insertion order: no key occurs
      twice. */
  predicate DistinctKeys(pairs: seq<(string, Scalar)>) {
    forall i, j :: 0 <= i < j < |pairs| ==> pairs[i].0 != pairs[j].0
  }

  /** The keys the items name. */
  function ItemKeys(pairs: seq<(string, Scalar)>): set<string> {
    set i | 0 <= i < |pairs| :: pairs[i].0
  }

  /** A dictionary of scalars, as the list of its items in insertion order. */
  type Dict = pairs: seq<(string, Scalar)> | DistinctKeys(pairs)

  /** `json.dumps` of a dictionary whose items come in the order `pairs` lists them. */
  function EncodeObject(pairs: seq<(string, Scalar)>, st: Style): (r: string)
    ensures |r| >= 2 && r[0] == '{' && r[|r| - 1] == '}'
  {
    if pairs == [] then "{}" else "{" + (EncodeMembers(pairs, st) + "}")
  }

  /* ---------------------------------------------------------------------- */
  /* Key order (sort_keys=True)                                             */
  /* ---------------------------------------------------------------------- */

  /** Python's `<` on strings: code point by code point, a proper prefix first. */
  predicate Less(a: string, b: string) {
    if a == [] then b != []
    else if b == [] then false
    else if a[0] != b[0] then a[0] < b[0]
    else Less(a[1..], b[1..])
  }

  lemma {:induction false} LessIrreflexive(a: string)
    ensures !Less(a, a)
  {
    if a != [] {
      LessIrreflexive(a[1..]);
    }
  }

  lemma {:induction false} LessTransitive(a: string, b: string, c: string)
    requires Less(a, b) && Less(b, c)
    ensures Less(a, c)
  {
    if a != [] && b != [] && c != [] && a[0] == b[0] && b[0] == c[0] {
      LessTransitive(a[1..], b[1..], c[1..]);
    }
  }

  lemma {:induction false} LessTotal(a: string, b: string)
    requires a != b
    ensures Less(a, b) || Less(b, a)
  {
    if a != [] && b != [] && a[0] == b[0] {
      assert a == [a[0]] + a[1..] && b == [b[0]] + b[1..];
      assert a[1..] != b[1..];
      LessTotal(a[1..], b[1..]);
    }
  }

  lemma LessAsymmetric(a: string, b: string)
    requires Less(a, b)
    ensures !Less(b, a)
  {
    if Less(b, a) {
      LessTransitive(a, b, a);
      LessIrreflexive(a);
    }
  }

  /** `m` comes before every other element of `s`. */
  predicate IsLeast(m: string, s: set<string>) {
    m in s && forall k :: k in s && k != m ==> Less(m, k)
  }

  lemma {:induction false} LeastExists(s: set<string>)
    requires s != {}
    ensures exists m :: IsLeast(m, s)
    decreases |s|
  {
    var x :| x in s;
    if s != {x} {
      LeastExists(s - {x});
      var m :| IsLeast(m, s - {x});
      if Less(x, m) {
        forall k | k in s && k != x
          ensures Less(x, k)
        {
          if k != m {
            LessTransitive(x, m, k);
          }
        }
        assert IsLeast(x, s);
      } else {
        LessTotal(x, m);
        assert IsLeast(m, s);
      }
    } else {
      assert IsLeast(x, s);
    }
  }

  lemma LeastUnique(s: set<string>)
    ensures forall m1, m2 :: IsLeast(m1, s) && IsLeast(m2, s) ==> m1 == m2
  {
    forall m1, m2 | IsLeast(m1, s) && IsLeast(m2, s)
      ensures m1 == m2
    {
      if m1 != m2 {
        LessAsymmetric(m1, m2);
      }
    }
  }

  /** The smallest key of a non-empty set. */
  function Least(s: set<string>): (m: string)
    requires s != {}
    ensures IsLeast(m, s)
  {
    LeastExists(s);
    LeastUnique(s);
    var m :| IsLeast(m, s);
    m
  }

  /** Strictly increasing in Python's string order (so also without repeats). */
  ghost predicate StrictlySorted(keys: seq<string>) {
    forall i, j :: 0 <= i < j < |keys| ==> Less(keys[i], keys[j])
  }

  /** `sorted(keys)`: the keys of a set in Python's string order. */
  function SortedKeys(s: set<string>): (r: seq<string>)
    ensures |r| == |s|
    ensures forall k :: k in s <==> k in r
    ensures StrictlySorted(r)
    decreases |s|
  {
    if s == {} then []
    else
      var m := Least(s);
      var rest := SortedKeys(s - {m});
      assert forall k :: k in rest ==> k in s && k != m && Less(m, k);
      [m] + rest
  }

  /** The items of `m`, key by key in the order `keys` gives. */
  function ItemsOf(m: map<string, Scalar>, keys: seq<string>): (r: seq<(string, Scalar)>)
    requires forall k :: k in keys ==> k in m
    ensures |r| == |keys|
    ensures forall i :: 0 <= i < |r| ==> r[i] == (keys[i], m[keys[i]])
  {
    if keys == [] then [] else [(keys[0], m[keys[0]])] + ItemsOf(m, keys[1..])
  }

  /** `json.dumps(m, separators=(',', ':'), sort_keys=True)`. */
  function EncodeSorted(m: map<string, Scalar>): string {
    EncodeObject(ItemsOf(m, SortedKeys(m.Keys)), SessionStyle)
  }

  /* ---------------------------------------------------------------------- */
  /* Decoding                                                               */
  /* ---------------------------------------------------------------------- */

  predicate IsWs(c: char) { c == ' ' || c == '\t' || c == '\n' || c == '\r' }

  /** Skip JSON white space. */
  function SkipWs(s: string): (r: string)
    ensures |r| <= |s|
    ensures r != [] ==> !IsWs(r[0])
  {
    if s != [] && IsWs(s[0]) then SkipWs(s[1..]) else s
  }

  predicate IsHexDigit(c: char) {
    ('0' <= c <= '9') || ('a' <= c <= 'f') || ('A' <= c <= 'F')
  }

  function HexDigitValue(c: char): (d: nat)
    requires IsHexDigit(c)
    ensures d < 16
  {
    if '0' <= c <= '9' then c as int - '0' as int
    else if 'a' <= c <= 'f' then c as int - 'a' as int + 10
    else c as int - 'A' as int + 10
  }

  /** The four hexadecimal digits after `\u`. */
  function ParseHex4(s: string): (r: Option<nat>)
    ensures r.Some? ==> r.value < 0x10000
  {
    if |s| >= 4 && IsHexDigit(s[0]) && IsHexDigit(s[1]) && IsHexDigit(s[2]) && IsHexDigit(s[3]) then
      Some(4096 * HexDigitValue(s[0]) + 256 * HexDigitValue(s[1]) + 16 * HexDigitValue(s[2]) + HexDigitValue(s[3]))
    else None
  }

  predicate IsHighSurrogate(u: nat) { 0xD800 <= u <= 0xDBFF }
  predicate IsLowSurrogate(u: nat) { 0xDC00 <= u <= 0xDFFF }

  /** One escape sequence at the start of `s` (which starts with a backslash):
      the character and the number of characters the escape takes. A lone
      surrogate is rejected: a `char` cannot hold one. */
  function ParseEscape(s: string): (r: Option<(char, nat)>)
    requires |s| >= 1 && s[0] == '\\'
    ensures r.Some? ==> 2 <= r.value.1 <= |s|
  {
    if |s| < 2 then None
    else if s[1] == '"' then Some(('"', 2))
    else if s[1] == '\\' then Some(('\\', 2))
    else if s[1] == '/' then Some(('/', 2))
    else if s[1] == 'b' then Some((8 as char, 2))
    else if s[1] == 'f' then Some((12 as char, 2))
    else if s[1] == 'n' then Some(('\n', 2))
    else if s[1] == 'r' then Some(('\r', 2))
    else if s[1] == 't' then Some(('\t', 2))
    else if s[1] == 'u' then
      match ParseHex4(s[2..])
      case None => None
      case Some(u) =>
        if IsHighSurrogate(u) then
          if |s| >= 12 && s[6] == '\\' && s[7] == 'u' then
            match ParseHex4(s[8..])
            case Some(lo) =>
              if IsLowSurrogate(lo) then Some(((0x10000 + (u - 0xD800) * 1024 + (lo - 0xDC00)) as char, 12))
              else None
            case None => None
          else None
        else if IsLowSurrogate(u) then None
        else Some((u as char, 6))
    else None
  }

  /** The rest of a string literal after its opening quote: its value, and
      what follows the closing quote. */
  function ParseStringBody(s: string): (r: Option<(string, string)>)
    ensures r.Some? ==> |r.value.1| < |s|
    decreases |s|
  {
    if s == [] then None
    else if s[0] == '"' then Some(([], s[1..]))
    else if s[0] == '\\' then
      match ParseEscape(s)
      case None => None
      case Some((c, k)) =>
        match ParseStringBody(s[k..])
        case None => None
        case Some((t, rest)) => Some(([c] + t, rest))
    else if (s[0] as int) < 0x20 then None
    else
      match ParseStringBody(s[1..])
      case None => None
      case Some((t, rest)) => Some(([s[0]] + t, rest))
  }

  function ParseString(s: string): (r: Option<(string, string)>)
    ensures r.Some? ==> |r.value.1| < |s|
  {
    if s != [] && s[0] == '"' then ParseStringBody(s[1..]) else None
  }

  /** The leading run of decimal digits. */
  function DigitRun(s: string): (n: nat)
    ensures n <= |s|
    ensures forall i :: 0 <= i < n ==> IsDigit(s[i])
    ensures n < |s| ==> !IsDigit(s[n])
  {
    if s != [] && IsDigit(s[0]) then 1 + DigitRun(s[1..]) else 0
  }

  /** The digits of an integer literal: `0`, or a digit run without a leading
      zero. A fraction or an exponent (a float) is not modelled and is
      rejected. */
  function ParseUnsigned(t: string): (r: Option<(nat, string)>)
    ensures r.Some? ==> |r.value.1| < |t|
  {
    var k := if t != [] && t[0] == '0' then 1 else DigitRun(t);
    if k == 0 then None
    else
      var rest := t[k..];
      if rest != [] && (rest[0] == '.' || rest[0] == 'e' || rest[0] == 'E') then None
      else Some((DigitsValue(t[..k]), rest))
  }

  /** An integer literal, with an optional minus sign. */
  function ParseNumber(s: string): (r: Option<(int, string)>)
    ensures r.Some? ==> |r.value.1| < |s|
  {
    var neg := s != [] && s[0] == '-';
    match ParseUnsigned(if neg then s[1..] else s)
    case None => None
    case Some((v, rest)) => Some((if neg then -(v as int) else v as int, rest))
  }

  function ParseScalar(s: string): (r: Option<(Scalar, string)>)
    ensures r.Some? ==> |r.value.1| < |s|
  {
    if |s| >= 4 && s[..4] == "null" then Some((Null, s[4..]))
    else if |s| >= 4 && s[..4] == "true" then Some((Bool(true), s[4..]))
    else if |s| >= 5 && s[..5] == "false" then Some((Bool(false), s[5..]))
    else if s != [] && s[0] == '"' then
      match ParseString(s)
      case None => None
      case Some((t, rest)) => Some((Str(t), rest))
    else
      match ParseNumber(s)
      case None => None
      case Some((i, rest)) => Some((Int(i), rest))
  }

  /** `"key" : value` with optional white space around the colon. */
  function ParseMember(s: string): (r: Option<(string, Scalar, string)>)
    ensures r.Some? ==> |r.value.2| < |s|
  {
    match ParseString(s)
    case None => None
    case Some((key, r1)) =>
      var t1 := SkipWs(r1);
      if t1 == [] || t1[0] != ':' then None
      else
        match ParseScalar(SkipWs(t1[1..]))
        case None => None
        case Some((v, r2)) => Some((key, v, r2))
  }

  /** The members of an object after `{` and white space, added one by one to
      `acc` (a repeated key keeps its last value, as a Python `dict` does). */
  function ParseMembers(s: string, acc: map<string, Scalar>): (r: Option<(map<string, Scalar>, string)>)
    ensures r.Some? ==> |r.value.1| < |s|
    decreases |s|
  {
    match ParseMember(s)
    case None => None
    case Some((key, v, rest)) =>
      var acc' := acc[key := v];
      var t := SkipWs(rest);
      if t != [] && t[0] == '}' then Some((acc', t[1..]))
      else if t != [] && t[0] == ',' then ParseMembers(SkipWs(t[1..]), acc')
      else None
  }

  function ParseObject(s: string): (r: Option<(map<string, Scalar>, string)>)
    requires s != [] && s[0] == '{'
    ensures r.Some? ==> |r.value.1| < |s|
  {
    var t := SkipWs(s[1..]);
    if t != [] && t[0] == '}' then Some((map[], t[1..]))
    else ParseMembers(t, map[])
  }

  /** `json.loads(s)`; `None` where it raises (or where the document holds a
      float, an array or a nested object, which are not modelled). */
  function Decode(s: string): (r: Option<Document>)
  {
    var t := SkipWs(s);
    if t != [] && t[0] == '{' then
      match ParseObject(t)
      case Some((m, rest)) => if SkipWs(rest) == [] then Some(Object(m)) else None
      case None => None
    else
      match ParseScalar(t)
      case Some((v, rest)) => if SkipWs(rest) == [] then Some(Value(v)) else None
      case None => None
  }

  /* ---------------------------------------------------------------------- */
  /* Round trip                                                             */
  /* ---------------------------------------------------------------------- */

  lemma ParseHex4OfHex4(n: nat, rest: string)
    requires n < 0x10000
    ensures ParseHex4(Hex4(n) + rest) == Some(n)
  {
    var s := Hex4(n) + rest;
    assert s[0] == HexChar(n / 4096) && s[1] == HexChar((n / 256) % 16);
    assert s[2] == HexChar((n / 16) % 16) && s[3] == HexChar(n % 16);
    HexDigitValueOfHexChar(n / 4096);
    HexDigitValueOfHexChar((n / 256) % 16);
    HexDigitValueOfHexChar((n / 16) % 16);
    HexDigitValueOfHexChar(n % 16);
    HexDigitsRecompose(n);
  }

  lemma HexDigitValueOfHexChar(d: nat)
    requires d < 16
    ensures IsHexDigit(HexChar(d)) && HexDigitValue(HexChar(d)) == d
  {
  }

  lemma HexDigitsRecompose(n: nat)
    requires n < 0x10000
    ensures 4096 * (n / 4096) + 256 * ((n / 256) % 16) + 16 * ((n / 16) % 16) + n % 16 == n
  {
    var q := n / 16;
    var q2 := q / 16;
    assert q * 16 + n % 16 == n;
    assert q2 * 16 + q % 16 == q;
    assert (q2 / 16) * 16 + q2 % 16 == q2;
    assert q2 == n / 256 && q2 / 16 == n / 4096;
  }

  /** A character that `EscapeChar` escapes is read back by `ParseEscape`. */
  lemma ParseEscapeOfEscapeChar(c: char, ascii: bool, rest: string)
    requires |EscapeChar(c, ascii)| > 1
    ensures ParseEscape(EscapeChar(c, ascii) + rest) == Some((c, |EscapeChar(c, ascii)|))
  {
    var n := c as int;
    if c == '"' || c == '\\' || c == '\n' || c == '\r' || c == '\t' || n == 8 || n == 12 {
      ParseShortEscape(c, ascii, rest);
    } else if n < 0x20 || (ascii && n < 0x10000) {
      assert EscapeChar(c, ascii) == "\\u" + Hex4(n);
      ConcatAssoc("\\u", Hex4(n), rest);
      ParseUnicodeEscape(n, rest);
    } else {
      var v := n - 0x10000;
      var hi, lo := 0xD800 + v / 1024, 0xDC00 + v % 1024;
      assert EscapeChar(c, ascii) == "\\u" + (Hex4(hi) + ("\\u" + Hex4(lo)));
      assert 0x10000 + (hi - 0xD800) * 1024 + (lo - 0xDC00) == n;
      ConcatAssoc("\\u", Hex4(hi) + ("\\u" + Hex4(lo)), rest);
      ConcatAssoc(Hex4(hi), "\\u" + Hex4(lo), rest);
      ConcatAssoc("\\u", Hex4(lo), rest);
      ParseSurrogateEscape(hi, lo, rest);
    }
  }

  lemma ParseShortEscape(c: char, ascii: bool, rest: string)
    requires c == '"' || c == '\\' || c == '\n' || c == '\r' || c == '\t' || c as int == 8 || c as int == 12
    ensures ParseEscape(EscapeChar(c, ascii) + rest) == Some((c, 2))
  {
    var e := EscapeChar(c, ascii);
    assert (e + rest)[1] == e[1];
  }

  lemma ParseUnicodeEscape(n: nat, rest: string)
    requires n < 0x10000 && !IsHighSurrogate(n) && !IsLowSurrogate(n)
    ensures ParseEscape("\\u" + (Hex4(n) + rest)) == Some((n as char, 6))
  {
    ParseHex4OfHex4(n, rest);
  }

  lemma ParseSurrogateEscape(hi: nat, lo: nat, rest: string)
    requires IsHighSurrogate(hi) && IsLowSurrogate(lo)
    requires 0x10000 + (hi - 0xD800) * 1024 + (lo - 0xDC00) < 0x110000
    ensures ParseEscape("\\u" + (Hex4(hi) + ("\\u" + (Hex4(lo) + rest))))
            == Some(((0x10000 + (hi - 0xD800) * 1024 + (lo - 0xDC00)) as char, 12))
  {
    var tail := "\\u" + (Hex4(lo) + rest);
    var s := "\\u" + (Hex4(hi) + tail);
    ParseHex4OfHex4(hi, tail);
    DropAppend("\\u", Hex4(hi) + tail);
    DropAppend(Hex4(hi), tail);
    DropDrop(s, 2, 4);
    DropAppend("\\u", Hex4(lo) + rest);
    DropDrop(s, 6, 2);
    ParseHex4OfHex4(lo, rest);
    assert s[6] == '\\' && s[7] == 'u';
  }

  /** A character `EscapeChar` leaves alone may stand in a string literal as it is. */
  lemma RawCharAllowed(c: char, ascii: bool)
    requires |EscapeChar(c, ascii)| == 1
    ensures EscapeChar(c, ascii) == [c]
    ensures c != '"' && c != '\\' && c as int >= 0x20
  {
  }

  lemma {:induction false} ParseStringBodyOfEscapeAll(s: string, ascii: bool, rest: string)
    ensures ParseStringBody(EscapeAll(s, ascii) + "\"" + rest) == Some((s, rest))
  {
    var x := EscapeAll(s, ascii) + "\"" + rest;
    if s == [] {
      assert x == "\"" + rest;
    } else {
      var e := EscapeChar(s[0], ascii);
      var tail := EscapeAll(s[1..], ascii) + "\"" + rest;
      assert x == e + tail;
      ParseStringBodyOfEscapeAll(s[1..], ascii, rest);
      if |e| == 1 {
        RawCharAllowed(s[0], ascii);
        assert x[0] == s[0] && x[1..] == tail;
      } else {
        ParseEscapeOfEscapeChar(s[0], ascii, tail);
        assert x[|e|..] == tail;
      }
      assert [s[0]] + s[1..] == s;
    }
  }

  lemma ParseStringOfEncodeString(s: string, ascii: bool, rest: string)
    ensures ParseString(EncodeString(s, ascii) + rest) == Some((s, rest))
  {
    var x := EncodeString(s, ascii) + rest;
    assert x[1..] == EscapeAll(s, ascii) + "\"" + rest;
    ParseStringBodyOfEscapeAll(s, ascii, rest);
  }

  /** What may follow a scalar in the encoder's output. */
  predicate EndsScalar(rest: string) {
    rest == [] || rest[0] == ',' || rest[0] == '}'
  }

  lemma ParseNumberOfIntRepr(i: int, rest: string)
    requires EndsScalar(rest)
    ensures ParseNumber(IntRepr(i) + rest) == Some((i, rest))
  {
    if i < 0 {
      ConcatAssoc("-", Decimal(-i), rest);
      ParseNegative(Decimal(-i), rest);
    } else {
      ParseNonNegative(Decimal(i), rest);
    }
  }

  lemma ParseNegative(d: string, rest: string)
    requires Canonical(d) && EndsScalar(rest)
    ensures ParseNumber("-" + (d + rest)) == Some((-(DigitsValue(d) as int), rest))
  {
    ParseUnsignedOfDigits(d, rest);
    ParseMinus("-" + (d + rest), d + rest, DigitsValue(d), rest);
  }

  /** A minus sign negates the literal after it. */
  lemma ParseMinus(s: string, t: string, v: nat, rest: string)
    requires s == "-" + t && ParseUnsigned(t) == Some((v, rest))
    ensures ParseNumber(s) == Some((-(v as int), rest))
  {
    assert s[1..] == t;
  }

  lemma ParseNonNegative(d: string, rest: string)
    requires Canonical(d) && EndsScalar(rest)
    ensures ParseNumber(d + rest) == Some((DigitsValue(d) as int, rest))
  {
    assert IsDigit((d + rest)[0]);
    ParseUnsignedOfDigits(d, rest);
  }

  /** A canonical numeral followed by a scalar terminator is read back with its value. */
  lemma ParseUnsignedOfDigits(d: string, rest: string)
    requires Canonical(d) && EndsScalar(rest)
    ensures ParseUnsigned(d + rest) == Some((DigitsValue(d), rest))
  {
    var t := d + rest;
    if t[0] != '0' {
      DigitRunOfDigits(d, rest);
    }
    assert t[..|d|] == d && t[|d|..] == rest;
  }

  lemma {:induction false} DigitRunOfDigits(d: string, rest: string)
    requires forall i :: 0 <= i < |d| ==> IsDigit(d[i])
    requires rest == [] || !IsDigit(rest[0])
    ensures DigitRun(d + rest) == |d|
  {
    if d != [] {
      assert (d + rest)[1..] == d[1..] + rest;
      DigitRunOfDigits(d[1..], rest);
    }
  }

  lemma ParseScalarOfEncodeScalar(v: Scalar, ascii: bool, rest: string)
    requires EndsScalar(rest)
    ensures ParseScalar(EncodeScalar(v, ascii) + rest) == Some((v, rest))
  {
    var s := EncodeScalar(v, ascii) + rest;
    match v
    case Null => assert s[..4] == "null";
    case Bool(b) =>
      if b {
        assert s[..4] == "true";
      } else {
        assert s[..5] == "false";
        assert s[..4] == "fals";
      }
    case Str(t) =>
      ParseScalarOfQuote(s);
      ParseStringOfEncodeString(t, ascii, rest);
    case Int(i) =>
      assert s[0] == '-' || IsDigit(s[0]);
      ParseScalarOfNumber(s);
      ParseNumberOfIntRepr(i, rest);
  }

  /** Text that starts with a quote is read as a string. */
  lemma ParseScalarOfQuote(s: string)
    requires s != [] && s[0] == '"'
    ensures ParseScalar(s) == match ParseString(s)
                              case None => None
                              case Some((t, rest)) => Some((Str(t), rest))
  {
    if |s| >= 4 {
      assert s[..4][0] == '"';
    }
    if |s| >= 5 {
      assert s[..5][0] == '"';
    }
  }

  /** Text that starts with a minus sign or a digit is read as a number. */
  lemma ParseScalarOfNumber(s: string)
    requires s != [] && (s[0] == '-' || IsDigit(s[0]))
    ensures ParseScalar(s) == match ParseNumber(s)
                              case None => None
                              case Some((i, rest)) => Some((Int(i), rest))
  {
    if |s| >= 4 {
      assert s[..4][0] == s[0];
    }
    if |s| >= 5 {
      assert s[..5][0] == s[0];
    }
  }

  lemma SkipWsNone(s: string)
    requires s == [] || !IsWs(s[0])
    ensures SkipWs(s) == s
  {
  }

  lemma SkipWsSpace(s: string)
    requires s == [] || !IsWs(s[0])
    ensures SkipWs(" " + s) == s
  {
    assert (" " + s)[1..] == s;
  }

  /** Skipping the white space after a separator of a readable style. */
  lemma SkipSeparator(sep: string, c: char, s: string)
    requires sep == [c] || sep == [c, ' ']
    requires s == [] || !IsWs(s[0])
    ensures SkipWs((sep + s)[1..]) == s
  {
    if sep == [c] {
      assert (sep + s)[1..] == s;
    } else {
      assert (sep + s)[1..] == " " + s;
      SkipWsSpace(s);
    }
  }

  lemma ParseMemberOfEncodeMember(key: string, v: Scalar, st: Style, rest: string)
    requires ReadableStyle(st)
    requires EndsScalar(rest)
    ensures ParseMember(EncodeMember(key, v, st) + rest) == Some((key, v, rest))
  {
    var ks := EncodeString(key, st.ensureAscii);
    var vs := EncodeScalar(v, st.ensureAscii);
    var after := st.keySeparator + (vs + rest);
    var x := EncodeMember(key, v, st) + rest;
    ConcatAssoc(ks, st.keySeparator + vs, rest);
    ConcatAssoc(st.keySeparator, vs, rest);
    ParseStringOfEncodeString(key, st.ensureAscii, after);
    assert SkipWs(after[1..]) == vs + rest by {
      ScalarStartsSolid(v, st.ensureAscii);
      SkipSeparator(st.keySeparator, ':', vs + rest);
    }
    ParseScalarOfEncodeScalar(v, st.ensureAscii, rest);
    ParseMemberSteps(x, key, after, v, rest);
  }

  /** How `ParseMember` reads a key, a colon and a value. */
  lemma ParseMemberSteps(s: string, key: string, r1: string, v: Scalar, r2: string)
    requires ParseString(s) == Some((key, r1))
    requires r1 != [] && r1[0] == ':'
    requires ParseScalar(SkipWs(r1[1..])) == Some((v, r2))
    ensures ParseMember(s) == Some((key, v, r2))
  {
    SkipWsNone(r1);
  }

  /** An encoded scalar never starts with white space. */
  lemma ScalarStartsSolid(v: Scalar, ascii: bool)
    ensures !IsWs(EncodeScalar(v, ascii)[0])
  {
    match v
    case Int(i) => assert IntRepr(i)[0] == '-' || IsDigit(IntRepr(i)[0]);
    case _ =>
  }

  /** The map a dictionary display with these items builds. */
  function FoldPairs(acc: map<string, Scalar>, pairs: seq<(string, Scalar)>): map<string, Scalar>
    decreases |pairs|
  {
    if pairs == [] then acc else FoldPairs(acc[pairs[0].0 := pairs[0].1], pairs[1..])
  }

  /** Reading the items of a dictionary into a map gives each key its own
      value and adds no other key. */
  lemma {:induction false} FoldPairsDistinct(acc: map<string, Scalar>, pairs: seq<(string, Scalar)>)
    requires DistinctKeys(pairs)
    ensures FoldPairs(acc, pairs).Keys == acc.Keys + ItemKeys(pairs)
    ensures forall i :: 0 <= i < |pairs| ==> FoldPairs(acc, pairs)[pairs[i].0] == pairs[i].1
    decreases |pairs|
  {
    if pairs != [] {
      var rest := pairs[1..];
      assert DistinctKeys(rest) by {
        forall i, j | 0 <= i < j < |rest| ensures rest[i].0 != rest[j].0 {
          assert rest[i] == pairs[i + 1] && rest[j] == pairs[j + 1];
        }
      }
      var acc' := acc[pairs[0].0 := pairs[0].1];
      FoldPairsDistinct(acc', rest);
      var m := FoldPairs(acc', rest);
      assert ItemKeys(pairs) == {pairs[0].0} + ItemKeys(rest) by {
        forall k | k in ItemKeys(pairs)
          ensures k in {pairs[0].0} + ItemKeys(rest)
        {
          var i :| 0 <= i < |pairs| && pairs[i].0 == k;
          if i > 0 {
            assert rest[i - 1] == pairs[i];
          }
        }
        forall k | k in ItemKeys(rest)
          ensures k in ItemKeys(pairs)
        {
          var i :| 0 <= i < |rest| && rest[i].0 == k;
          assert rest[i] == pairs[i + 1];
        }
      }
      forall i | 0 <= i < |pairs|
        ensures m[pairs[i].0] == pairs[i].1
      {
        if i == 0 {
          FoldPairsKeeps(acc', rest, pairs[0].0);
        } else {
          assert rest[i - 1] == pairs[i];
        }
      }
    }
  }

  /** A key no item names keeps the value it had before the items. */
  lemma {:induction false} FoldPairsKeeps(acc: map<string, Scalar>, pairs: seq<(string, Scalar)>, k: string)
    requires k in acc && forall i :: 0 <= i < |pairs| ==> pairs[i].0 != k
    ensures k in FoldPairs(acc, pairs) && FoldPairs(acc, pairs)[k] == acc[k]
    decreases |pairs|
  {
    if pairs != [] {
      assert forall i :: 0 <= i < |pairs[1..]| ==> pairs[1..][i] == pairs[i + 1];
      FoldPairsKeeps(acc[pairs[0].0 := pairs[0].1], pairs[1..], k);
    }
  }

  lemma {:induction false} ParseMembersOfEncodeMembers(pairs: seq<(string, Scalar)>, st: Style,
                                                       acc: map<string, Scalar>, rest: string)
    requires |pairs| >= 1 && ReadableStyle(st)
    ensures ParseMembers(EncodeMembers(pairs, st) + ("}" + rest), acc) == Some((FoldPairs(acc, pairs), rest))
    decreases |pairs|
  {
    if |pairs| == 1 {
      ParseLastPair(pairs, st, acc, rest);
    } else {
      ParseNextPair(pairs, st, acc, rest);
      ParseMembersOfEncodeMembers(pairs[1..], st, acc[pairs[0].0 := pairs[0].1], rest);
    }
  }

  lemma ParseLastPair(pairs: seq<(string, Scalar)>, st: Style, acc: map<string, Scalar>, rest: string)
    requires ReadableStyle(st) && |pairs| == 1
    ensures ParseMembers(EncodeMembers(pairs, st) + ("}" + rest), acc) == Some((FoldPairs(acc, pairs), rest))
  {
    var (key, v) := pairs[0];
    assert FoldPairs(acc, pairs) == acc[key := v] by {
      assert pairs[1..] == [];
    }
    var x := EncodeMember(key, v, st) + ("}" + rest);
    ParseMemberOfEncodeMember(key, v, st, "}" + rest);
    ParseMembersLast(x, acc, key, v, "}" + rest);
    DropHead('}', rest);
  }

  lemma ParseNextPair(pairs: seq<(string, Scalar)>, st: Style, acc: map<string, Scalar>, rest: string)
    requires ReadableStyle(st) && |pairs| >= 2
    ensures ParseMembers(EncodeMembers(pairs, st) + ("}" + rest), acc)
            == ParseMembers(EncodeMembers(pairs[1..], st) + ("}" + rest), acc[pairs[0].0 := pairs[0].1])
    ensures FoldPairs(acc, pairs) == FoldPairs(acc[pairs[0].0 := pairs[0].1], pairs[1..])
  {
    var (key, v) := pairs[0];
    var head := EncodeMember(key, v, st);
    var more := EncodeMembers(pairs[1..], st);
    var y := more + ("}" + rest);
    ConcatAssoc(head, st.itemSeparator + more, "}" + rest);
    ConcatAssoc(st.itemSeparator, more, "}" + rest);
    ParseMoreMembers(key, v, st, acc, y, head + (st.itemSeparator + y));
  }

  lemma ParseMoreMembers(key: string, v: Scalar, st: Style, acc: map<string, Scalar>, tail: string, x: string)
    requires ReadableStyle(st) && tail != [] && tail[0] == '"'
    requires x == EncodeMember(key, v, st) + (st.itemSeparator + tail)
    ensures ParseMembers(x, acc) == ParseMembers(tail, acc[key := v])
  {
    var after := st.itemSeparator + tail;
    ParseMemberOfEncodeMember(key, v, st, after);
    ParseMembersNext(x, acc, key, v, after);
    SkipSeparator(st.itemSeparator, ',', tail);
  }

  /** The last member: a closing brace follows it. */
  lemma ParseMembersLast(s: string, acc: map<string, Scalar>, key: string, v: Scalar, rest: string)
    requires ParseMember(s) == Some((key, v, rest))
    requires rest != [] && rest[0] == '}'
    ensures ParseMembers(s, acc) == Some((acc[key := v], rest[1..]))
  {
    SkipWsNone(rest);
  }

  /** A member followed by a comma: parsing goes on after the comma. */
  lemma ParseMembersNext(s: string, acc: map<string, Scalar>, key: string, v: Scalar, rest: string)
    requires ParseMember(s) == Some((key, v, rest))
    requires rest != [] && rest[0] == ','
    ensures ParseMembers(s, acc) == ParseMembers(SkipWs(rest[1..]), acc[key := v])
  {
    SkipWsNone(rest);
    var t := SkipWs(rest);
    assert t == rest;
    assert !(t != [] && t[0] == '}');
  }

  /** `json.loads(json.dumps(d))` gives `d` back, for either style the framework uses. */
  lemma DecodeEncodeObject(pairs: seq<(string, Scalar)>, st: Style)
    requires ReadableStyle(st)
    ensures Decode(EncodeObject(pairs, st)) == Some(Object(FoldPairs(map[], pairs)))
  {
    var x := EncodeObject(pairs, st);
    ParseObjectOfEncodeObject(pairs, st);
    DecodeOfObject(x, FoldPairs(map[], pairs));
  }

  /** A dictionary written as JSON reads back as itself: exactly the keys of
      its items, each with its own value. */
  lemma DecodeEncodeDict(items: Dict, st: Style)
    requires ReadableStyle(st)
    ensures Decode(EncodeObject(items, st)) == Some(Object(FoldPairs(map[], items)))
    ensures FoldPairs(map[], items).Keys == ItemKeys(items)
    ensures forall i :: 0 <= i < |items| ==> FoldPairs(map[], items)[items[i].0] == items[i].1
  {
    var m := FoldPairs(map[], items);
    assert Decode(EncodeObject(items, st)) == Some(Object(m)) by {
      DecodeEncodeObject(items, st);
    }
    assert m.Keys == ItemKeys(items) && forall i :: 0 <= i < |items| ==> m[items[i].0] == items[i].1 by {
      FoldPairsDistinct(map[], items);
    }
  }

  lemma ParseObjectOfEncodeObject(pairs: seq<(string, Scalar)>, st: Style)
    requires ReadableStyle(st)
    ensures ParseObject(EncodeObject(pairs, st)) == Some((FoldPairs(map[], pairs), []))
  {
    var x := EncodeObject(pairs, st);
    if pairs == [] {
      DropHead('{', "}");
      SkipWsNone("}");
      DropHead('}', []);
    } else {
      var inner := EncodeMembers(pairs, st) + "}";
      DropHead('{', inner);
      SkipWsNone(inner);
      AppendNil("}");
      ParseMembersOfEncodeMembers(pairs, st, map[], []);
    }
  }

  /** A complete object text decodes to the object's map. */
  lemma DecodeOfObject(x: string, m: map<string, Scalar>)
    requires x != [] && x[0] == '{' && ParseObject(x) == Some((m, []))
    ensures Decode(x) == Some(Object(m))
  {
    SkipWsNone(x);
  }

  /** Folding the items of a map, each key once, rebuilds the map. */
  lemma {:induction false} FoldItems(m: map<string, Scalar>, keys: seq<string>, acc: map<string, Scalar>)
    requires forall k :: k in keys ==> k in m
    requires forall i, j :: 0 <= i < j < |keys| ==> keys[i] != keys[j]
    requires forall k :: k in acc ==> k in m && acc[k] == m[k]
    requires forall k :: k in m ==> k in acc || k in keys
    ensures FoldPairs(acc, ItemsOf(m, keys)) == m
  {
    if keys != [] {
      var items := ItemsOf(m, keys);
      assert items[1..] == ItemsOf(m, keys[1..]);
      forall i, j | 0 <= i < j < |keys[1..]|
        ensures keys[1..][i] != keys[1..][j]
      {
        assert keys[1..][i] == keys[i + 1] && keys[1..][j] == keys[j + 1];
      }
      FoldItems(m, keys[1..], acc[keys[0] := m[keys[0]]]);
    }
  }

  /** The session payload round trip: `json.loads` of the sorted compact
      encoding of a dictionary is that dictionary. */
  lemma DecodeEncodeSorted(m: map<string, Scalar>)
    ensures Decode(EncodeSorted(m)) == Some(Object(m))
  {
    var keys := SortedKeys(m.Keys);
    DecodeEncodeObject(ItemsOf(m, keys), SessionStyle);
    forall i, j | 0 <= i < j < |keys|
      ensures keys[i] != keys[j]
    {
      LessIrreflexive(keys[i]);
    }
    FoldItems(m, keys, map[]);
  }

  /** The sorted compact encoding is plain ASCII. */
  lemma EncodeSortedIsAscii(m: map<string, Scalar>)
    ensures IsAscii(EncodeSorted(m))
  {
    var items := ItemsOf(m, SortedKeys(m.Keys));
    if items != [] {
      MembersAscii(items);
      AsciiConcat("{", EncodeMembers(items, SessionStyle));
      AsciiConcat("{" + EncodeMembers(items, SessionStyle), "}");
    }
  }

  lemma {:induction false} MembersAscii(pairs: seq<(string, Scalar)>)
    requires |pairs| >= 1
    ensures IsAscii(EncodeMembers(pairs, SessionStyle))
  {
    var key := pairs[0].0;
    var v := pairs[0].1;
    var head := EncodeMember(key, v, SessionStyle);
    assert IsAscii(head) by {
      EscapeAllIsAscii(key);
      AsciiConcat("\"", EscapeAll(key, true));
      AsciiConcat("\"" + EscapeAll(key, true), "\"");
      ScalarAscii(v);
      AsciiConcat(EncodeString(key, true), ":");
      AsciiConcat(EncodeString(key, true) + ":", EncodeScalar(v, true));
    }
    if |pairs| > 1 {
      MembersAscii(pairs[1..]);
      AsciiConcat(",", EncodeMembers(pairs[1..], SessionStyle));
      AsciiConcat(head, "," + EncodeMembers(pairs[1..], SessionStyle));
    } else {
      assert EncodeMembers(pairs, SessionStyle) == head + "";
    }
  }

  lemma ScalarAscii(v: Scalar)
    ensures IsAscii(EncodeScalar(v, true))
  {
    match v
    case Str(t) =>
      EscapeAllIsAscii(t);
      AsciiConcat("\"", EscapeAll(t, true));
      AsciiConcat("\"" + EscapeAll(t, true), "\"");
    case Int(i) =>
      assert forall j :: 0 <= j < |IntRepr(i)| ==> IntRepr(i)[j] == '-' || IsDigit(IntRepr(i)[j]);
    case _ =>
  }
}
