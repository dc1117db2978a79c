/** String operations of Python's `str` that the framework relies on:
    `strip`, `split`, `rsplit`, `startswith`, `upper`, `str(int)` and hex digests. */
module Text {
  import opened Base

  /** Python's `str.isspace()` (and the `\s` class of a `str` regular expression):
      the characters the Unicode database lists as white space. */
  predicate IsSpace(c: char) {
    var n := c as int;
    n == 0x20 || (0x09 <= n <= 0x0D) || (0x1C <= n <= 0x1F) || n == 0x85 || n == 0xA0
    || n == 0x1680 || (0x2000 <= n <= 0x200A) || n == 0x2028 || n == 0x2029
    || n == 0x202F || n == 0x205F || n == 0x3000
  }

  predicate IsSlash(c: char) { c == '/' }

  /** Every character of `s` is one that `drop` removes. */
  ghost predicate AllDropped(s: string, drop: char -> bool) {
    forall k :: 0 <= k < |s| ==> drop(s[k])
  }

  /** Number of leading characters of `s` that `drop` removes. */
  function LeadingCount(s: string, drop: char -> bool): (n: nat)
    ensures n <= |s|
    ensures AllDropped(s[..n], drop)
    ensures n < |s| ==> !drop(s[n])
  {
    if s == [] || !drop(s[0]) then 0
    else
      var n := 1 + LeadingCount(s[1..], drop);
      assert s[..n] == [s[0]] + s[1..][..n - 1];
      n
  }

  /** The leading run stops at the first kept character. */
  lemma {:induction false} LeadingCountAtMost(s: string, drop: char -> bool, i: nat)
    requires i < |s| && !drop(s[i])
    ensures LeadingCount(s, drop) <= i
  {
    if drop(s[0]) {
      assert s[1..][i - 1] == s[i];
      LeadingCountAtMost(s[1..], drop, i - 1);
    }
  }

  /** The leading run takes in every dropped character before it stops. */
  lemma {:induction false} LeadingCountAtLeast(s: string, drop: char -> bool, i: nat)
    requires i <= |s| && forall j :: 0 <= j < i ==> drop(s[j])
    ensures i <= LeadingCount(s, drop)
  {
    if i > 0 {
      assert forall j :: 0 <= j < i - 1 ==> s[1..][j] == s[j + 1];
      LeadingCountAtLeast(s[1..], drop, i - 1);
    }
  }

  /** Number of trailing characters of `s` that `drop` removes. */
  function TrailingCount(s: string, drop: char -> bool): (n: nat)
    ensures n <= |s|
    ensures AllDropped(s[|s| - n..], drop)
    ensures n < |s| ==> !drop(s[|s| - 1 - n])
  {
    if s == [] || !drop(s[|s| - 1]) then 0
    else
      var init := s[..|s| - 1];
      var m := TrailingCount(init, drop);
      TrailingStep(s, drop, m);
      1 + m
  }

  /** A dropped last character extends the trailing run of the rest by one. */
  lemma TrailingStep(s: string, drop: char -> bool, m: nat)
    requires s != [] && drop(s[|s| - 1]) && m <= |s| - 1
    requires AllDropped(s[..|s| - 1][|s| - 1 - m..], drop)
    requires m < |s| - 1 ==> !drop(s[..|s| - 1][|s| - 2 - m])
    ensures AllDropped(s[|s| - (m + 1)..], drop)
    ensures m + 1 < |s| ==> !drop(s[|s| - 1 - (m + 1)])
  {
    var init := s[..|s| - 1];
    var tail := s[|s| - (m + 1)..];
    forall k | 0 <= k < |tail|
      ensures drop(tail[k])
    {
      if k < m {
        assert tail[k] == init[|init| - m..][k];
      }
    }
    assert m < |init| ==> s[|s| - 1 - (m + 1)] == init[|init| - 1 - m];
  }

  /** The trailing run stops at the last kept character. */
  lemma {:induction false} TrailingCountAtMost(s: string, drop: char -> bool, i: nat)
    requires i < |s| && !drop(s[i])
    ensures TrailingCount(s, drop) <= |s| - 1 - i
  {
    if i < |s| - 1 && drop(s[|s| - 1]) {
      assert s[..|s| - 1][i] == s[i];
      TrailingCountAtMost(s[..|s| - 1], drop, i);
    }
  }

  /** Python's `s.strip(chars)`: remove the longest prefix and suffix made of
      characters that `drop` accepts (see `TrimSpec`). */
  function Trim(s: string, drop: char -> bool): (r: string)
    ensures |r| <= |s|
  {
    var rest := s[LeadingCount(s, drop)..];
    rest[..|rest| - TrailingCount(rest, drop)]
  }

  /** A string whose first character is kept is not all dropped. */
  lemma NotAllDropped(t: string, drop: char -> bool)
    requires t != [] && !drop(t[0])
    ensures !AllDropped(t, drop)
  {
  }

  /** `r` is a contiguous slice of `s`, and only characters `drop` removes
      come before it and after it. */
  ghost predicate TrimmedSlice(s: string, r: string, drop: char -> bool) {
    exists i :: 0 <= i <= |s| - |r| && r == s[i..i + |r|]
      && AllDropped(s[..i], drop) && AllDropped(s[i + |r|..], drop)
  }

  /** What `strip` leaves: a slice of `s` that neither starts nor ends with a
      dropped character, with only dropped characters cut off on each side. */
  lemma TrimSpec(s: string, drop: char -> bool)
    ensures var r := Trim(s, drop);
            (r != [] ==> !drop(r[0]) && !drop(r[|r| - 1])) && TrimmedSlice(s, r, drop)
  {
    var lead := LeadingCount(s, drop);
    var rest := s[lead..];
    var trail := TrailingCount(rest, drop);
    var r := Trim(s, drop);
    assert r == rest[..|rest| - trail];
    if rest != [] {
      assert rest[0] == s[lead];
      NotAllDropped(rest, drop);
      assert rest[|rest| - |rest|..] == rest;
      assert trail < |rest|;
      assert r[0] == rest[0];
      assert r[|r| - 1] == rest[|rest| - 1 - trail];
    }
    assert s[lead + |r|..] == rest[|rest| - trail..];
    assert r == s[lead..lead + |r|];
  }

  /** Python's `s.strip()`. */
  function Strip(s: string): (r: string)
    ensures |r| <= |s|
    ensures r != [] ==> !IsSpace(r[0]) && !IsSpace(r[|r| - 1])
    ensures TrimmedSlice(s, r, IsSpace)
  {
    TrimSpec(s, IsSpace);
    Trim(s, IsSpace)
  }

  /** `strip` keeps every character that is not white space. */
  lemma StripKeeps(s: string, c: char)
    requires c in s && !IsSpace(c)
    ensures c in Strip(s)
  {
    var p :| 0 <= p < |s| && s[p] == c;
    var lead := LeadingCount(s, IsSpace);
    LeadingCountAtMost(s, IsSpace, p);
    var rest := s[lead..];
    assert rest[p - lead] == c;
    TrailingCountAtMost(rest, IsSpace, p - lead);
    assert Strip(s)[p - lead] == c;
  }

  /** A string that starts and ends with a character other than white space
      is its own `strip`. */
  lemma StripNoop(s: string)
    requires s != [] && !IsSpace(s[0]) && !IsSpace(s[|s| - 1])
    ensures Strip(s) == s
  {
    assert LeadingCount(s, IsSpace) == 0;
    assert s[0..] == s;
    assert TrailingCount(s, IsSpace) == 0;
  }

  /** Python's `s.strip("/")`. */
  function StripSlashes(s: string): (r: string)
    ensures |r| <= |s|
    ensures r != [] ==> r[0] != '/' && r[|r| - 1] != '/'
    ensures TrimmedSlice(s, r, IsSlash)
  {
    TrimSpec(s, IsSlash);
    Trim(s, IsSlash)
  }

  /** `strip("/")` of `s` with one slash before it and at most one after it
      is `s`, when `s` neither starts nor ends with a slash. */
  lemma StripSlashesBetween(s: string, p: string)
    requires s != [] && s[0] != '/' && s[|s| - 1] != '/'
    requires p == "/" + s || p == "/" + s + "/"
    ensures StripSlashes(p) == s
  {
    assert p[1] == s[0];
    LeadingCountAtMost(p, IsSlash, 1);
    assert LeadingCount(p, IsSlash) == 1;
    var rest := p[1..];
    if p == "/" + s {
      assert rest == s;
      TrailingCountAtMost(rest, IsSlash, |s| - 1);
      assert rest[..|rest| - 0] == s;
    } else {
      assert rest == s + "/";
      assert rest[|s| - 1] == s[|s| - 1];
      TrailingCountAtMost(rest, IsSlash, |s| - 1);
      assert TrailingCount(rest, IsSlash) == 1;
      assert rest[..|rest| - 1] == s;
    }
  }

  /** Python's `s.startswith(prefix)`. */
  predicate StartsWith(s: string, prefix: string) {
    |prefix| <= |s| && s[..|prefix|] == prefix
  }

  /** Python's `s.find(c)` for a character known to occur. */
  function IndexOf(s: string, c: char): (i: nat)
    requires c in s
    ensures i < |s| && s[i] == c && c !in s[..i]
  {
    if s[0] == c then 0
    else
      var i := 1 + IndexOf(s[1..], c);
      assert s[..i] == [s[0]] + s[1..][..i - 1];
      i
  }

  /** Python's `s.rfind(c)` for a character known to occur. */
  function LastIndexOf(s: string, c: char): (i: nat)
    requires c in s
    ensures i < |s| && s[i] == c && c !in s[i + 1..]
  {
    if s[|s| - 1] == c then |s| - 1
    else
      assert c in s[..|s| - 1] by {
        var j :| 0 <= j < |s| && s[j] == c;
        assert s[..|s| - 1][j] == c;
      }
      var i := LastIndexOf(s[..|s| - 1], c);
      assert s[i + 1..] == s[..|s| - 1][i + 1..] + [s[|s| - 1]];
      i
  }

  /** `head, tail = s.split(c, 1)` for a string that contains `c`: the split is
      at the first occurrence. */
  function SplitFirst(s: string, c: char): (pair: (string, string))
    requires c in s
    ensures pair.0 + [c] + pair.1 == s && c !in pair.0
  {
    var i := IndexOf(s, c);
    assert s == s[..i] + [c] + s[i + 1..];
    (s[..i], s[i + 1..])
  }

  /** `head, tail = s.rsplit(c, 1)` for a string that contains `c`: the split
      is at the last occurrence. */
  function RSplitOnce(s: string, c: char): (pair: (string, string))
    requires c in s
    ensures pair.0 + [c] + pair.1 == s && c !in pair.1
  {
    var i := LastIndexOf(s, c);
    assert s == s[..i] + [c] + s[i + 1..];
    (s[..i], s[i + 1..])
  }

  /** The inverse of `Split`: the pieces glued with the separator between them. */
  function Join(parts: seq<string>, sep: char): string
    requires |parts| >= 1
  {
    if |parts| == 1 then parts[0] else parts[0] + [sep] + Join(parts[1..], sep)
  }

  /** Python's `s.split(sep)` for a one-character separator: the maximal
      separator-free pieces, in order; the empty string gives `[""]`. */
  function Split(s: string, sep: char): (parts: seq<string>)
    ensures |parts| >= 1
    ensures forall i :: 0 <= i < |parts| ==> sep !in parts[i]
    ensures Join(parts, sep) == s
    decreases |s|
  {
    if sep in s then
      var (head, tail) := SplitFirst(s, sep);
      var rest := Split(tail, sep);
      assert ([head] + rest)[1..] == rest;
      [head] + rest
    else [s]
  }

  /** Splitting the join of separator-free pieces gives the pieces back. */
  lemma {:induction false} SplitJoin(parts: seq<string>, sep: char)
    requires |parts| >= 1
    requires forall i :: 0 <= i < |parts| ==> sep !in parts[i]
    ensures Split(Join(parts, sep), sep) == parts
  {
    if |parts| > 1 {
      var s := Join(parts, sep);
      assert s == parts[0] + [sep] + Join(parts[1..], sep);
      assert sep in s by { assert s[|parts[0]|] == sep; }
      var (head, tail) := SplitFirst(s, sep);
      PrefixBeforeSeparator(parts[0], Join(parts[1..], sep), head, tail, sep);
      SplitJoin(parts[1..], sep);
      assert [parts[0]] + parts[1..] == parts;
    } else {
      assert sep !in parts[0];
    }
  }

  /** Cutting `a + [sep] + b` at its first separator gives `a` and `b` when `a`
      holds no separator. */
  lemma PrefixBeforeSeparator(a: string, b: string, head: string, tail: string, sep: char)
    requires sep !in a && sep !in head
    requires a + [sep] + b == head + [sep] + tail
    ensures head == a && tail == b
  {
    var x := a + [sep] + b;
    assert x[|head|] == sep && x[|a|] == sep;
    assert forall k :: 0 <= k < |a| ==> x[k] == a[k];
    assert forall k :: 0 <= k < |head| ==> x[k] == head[k];
    assert |head| >= |a|;
    assert |head| <= |a|;
    assert head == (a + [sep] + b)[..|a|];
    assert tail == (a + [sep] + b)[|a| + 1..];
  }

  /** Cutting `a + [sep] + b` at its last separator gives `a` and `b` when `b`
      holds no separator. */
  lemma SuffixAfterLastSeparator(a: string, b: string, sep: char)
    requires sep !in b
    ensures sep in a + [sep] + b
    ensures RSplitOnce(a + [sep] + b, sep) == (a, b)
  {
    var s := a + [sep] + b;
    assert s[|a|] == sep;
    assert LastIndexOf(s, sep) == |a|;
    assert s[..|a|] == a;
    assert s[|a| + 1..] == b;
  }

  /** ASCII part of Python's `str.upper()`. */
  function UpperChar(c: char): char {
    if 'a' <= c <= 'z' then (c as int - 32) as char else c
  }

  /** ASCII part of Python's `str.lower()` / `bytes.lower()`. */
  function LowerChar(c: char): char {
    if 'A' <= c <= 'Z' then (c as int + 32) as char else c
  }

  function Upper(s: string): (r: string)
    ensures |r| == |s| && forall i :: 0 <= i < |s| ==> r[i] == UpperChar(s[i])
  {
    if s == [] then [] else [UpperChar(s[0])] + Upper(s[1..])
  }

  function Lower(s: string): (r: string)
    ensures |r| == |s| && forall i :: 0 <= i < |s| ==> r[i] == LowerChar(s[i])
  {
    if s == [] then [] else [LowerChar(s[0])] + Lower(s[1..])
  }

  predicate IsDigit(c: char) { '0' <= c <= '9' }

  function DigitChar(d: nat): char
    requires d < 10
  {
    ('0' as int + d) as char
  }

  function DigitValue(c: char): nat
    requires IsDigit(c)
  {
    c as int - '0' as int
  }

  /** The number a string of decimal digits denotes. */
  function DigitsValue(s: string): nat
    requires forall i :: 0 <= i < |s| ==> IsDigit(s[i])
  {
    if s == [] then 0 else 10 * DigitsValue(s[..|s| - 1]) + DigitValue(s[|s| - 1])
  }

  /** A decimal numeral as Python prints it: digits only, no leading zero
      unless the numeral is `0` itself. */
  ghost predicate Canonical(s: string) {
    |s| >= 1 && (forall i :: 0 <= i < |s| ==> IsDigit(s[i])) && (s[0] == '0' ==> |s| == 1)
  }

  /** Python's `str(n)` for a natural number. */
  function Decimal(n: nat): (r: string)
    ensures Canonical(r)
    ensures DigitsValue(r) == n
  {
    if n < 10 then [DigitChar(n)]
    else
      var r := Decimal(n / 10) + [DigitChar(n % 10)];
      assert r[..|r| - 1] == Decimal(n / 10);
      r
  }

  /** Every canonical numeral is the one `Decimal` prints for its value, so a
      content-length header can be read back without ambiguity. */
  lemma {:induction false} DecimalOfValue(s: string)
    requires Canonical(s)
    ensures Decimal(DigitsValue(s)) == s
  {
    if |s| > 1 {
      var init := s[..|s| - 1];
      assert init[0] == s[0];
      assert Canonical(init);
      DecimalOfValue(init);
      assert init[0] != '0';
      assert DigitsValue(init) >= 1 by {
        if DigitsValue(init) == 0 {
          ZeroValueIsZeros(init);
          assert false;
        }
      }
      var n := DigitsValue(s);
      assert n / 10 == DigitsValue(init) && n % 10 == DigitValue(s[|s| - 1]);
      assert s == init + [s[|s| - 1]];
    }
  }

  lemma {:induction false} ZeroValueIsZeros(s: string)
    requires |s| >= 1 && forall i :: 0 <= i < |s| ==> IsDigit(s[i])
    requires DigitsValue(s) == 0
    ensures s[0] == '0'
  {
    if |s| > 1 {
      ZeroValueIsZeros(s[..|s| - 1]);
    }
  }

  /** Python's `str(i)` for any integer. */
  function IntRepr(i: int): (r: string)
    ensures |r| >= 1
    ensures i < 0 <==> r[0] == '-'
  {
    if i < 0 then "-" + Decimal(-i) else Decimal(i)
  }

  predicate IsLowerHex(c: char) { ('0' <= c <= '9') || ('a' <= c <= 'f') }

  function HexChar(d: nat): (c: char)
    requires d < 16
    ensures IsLowerHex(c)
  {
    if d < 10 then ('0' as int + d) as char else ('a' as int + d - 10) as char
  }

  /** `hashlib`'s `hexdigest()`: two lower-case hexadecimal digits per byte. */
  function HexDigest(b: bytes): (r: string)
    ensures |r| == 2 * |b|
    ensures forall i :: 0 <= i < |r| ==> IsLowerHex(r[i])
  {
    if b == [] then [] else [HexChar(b[0] / 16), HexChar(b[0] % 16)] + HexDigest(b[1..])
  }

  /** Byte `j` of the digest is written as characters `2j` and `2j + 1`: its
      high nibble, then its low nibble. */
  lemma HexDigestDigits(b: bytes)
    ensures forall j :: 0 <= j < |b| ==>
              HexDigest(b)[2 * j] == HexChar(b[j] / 16) && HexDigest(b)[2 * j + 1] == HexChar(b[j] % 16)
  {
    forall j | 0 <= j < |b|
      ensures HexDigest(b)[2 * j] == HexChar(b[j] / 16) && HexDigest(b)[2 * j + 1] == HexChar(b[j] % 16)
    {
      HexDigestAt(b, j);
    }
  }

  lemma {:induction false} HexDigestAt(b: bytes, j: nat)
    requires j < |b|
    ensures HexDigest(b)[2 * j] == HexChar(b[j] / 16) && HexDigest(b)[2 * j + 1] == HexChar(b[j] % 16)
    decreases j
  {
    if j > 0 {
      HexDigestAt(b[1..], j - 1);
      var rest := HexDigest(b[1..]);
      assert HexDigest(b)[2 * j] == rest[2 * (j - 1)];
      assert HexDigest(b)[2 * j + 1] == rest[2 * (j - 1) + 1];
    }
  }

  /** Python's `str.isascii()`. */
  predicate IsAscii(s: string) {
    forall i :: 0 <= i < |s| ==> s[i] as int < 0x80
  }

  lemma ConcatAssoc<T>(a: seq<T>, b: seq<T>, c: seq<T>)
    ensures a + b + c == a + (b + c)
  {
  }

  lemma DropHead<T>(x: T, s: seq<T>)
    ensures ([x] + s)[1..] == s
  {
  }

  lemma AppendNil<T>(s: seq<T>)
    ensures s + [] == s
  {
  }

  lemma DropAppend<T>(a: seq<T>, b: seq<T>)
    ensures (a + b)[|a|..] == b
  {
  }

  lemma DropDrop<T>(s: seq<T>, i: nat, j: nat)
    requires i + j <= |s|
    ensures s[i..][j..] == s[i + j..]
  {
  }
}
