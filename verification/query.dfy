/**
 * How the backend reads a request URL's query string, as a reference for the URLs the
 * client builds: the query is the text after the first `?` (a `#` ends it, since the
 * browser keeps the fragment to itself); it is split at `&`, empty parts are skipped,
 * each part is split at its first `=`, `+` reads as a space and `%XX` escapes of ASCII
 * characters are decoded. When a name repeats, the last value wins.
 */
module Query {
  import opened Wrappers
  import opened Decimal

  /** The text after the first `?`, or "" when there is none. */
  function AfterQuestion(url: string): string {
    if |url| == 0 then ""
    else if url[0] == '?' then url[1..]
    else AfterQuestion(url[1..])
  }

  /** The text before the first `#`. */
  function BeforeHash(s: string): (r: string)
    ensures r <= s
  {
    if |s| == 0 || s[0] == '#' then "" else [s[0]] + BeforeHash(s[1..])
  }

  /** The pieces of `s` between `&` separators. */
  function SplitAmp(s: string): (r: seq<string>)
    ensures |r| > 0
  {
    if |s| == 0 then [""]
    else if s[0] == '&' then [""] + SplitAmp(s[1..])
    else
      var rest := SplitAmp(s[1..]);
      [[s[0]] + rest[0]] + rest[1..]
  }

  predicate IsHex(c: char) {
    '0' <= c <= '9' || 'A' <= c <= 'F' || 'a' <= c <= 'f'
  }

  function HexValue(c: char): (v: nat)
    requires IsHex(c)
    ensures v < 16
  {
    if '0' <= c <= '9' then c as int - '0' as int
    else if 'A' <= c <= 'F' then c as int - 'A' as int + 10
    else c as int - 'a' as int + 10
  }

  /** Form decoding: `+` is a space and `%XX` below 0x80 is the character with that code. */
  function Decode(s: string): string {
    if |s| == 0 then ""
    else if s[0] == '+' then " " + Decode(s[1..])
    else if s[0] == '%' && |s| >= 3 && IsHex(s[1]) && IsHex(s[2])
         && HexValue(s[1]) * 16 + HexValue(s[2]) < 0x80 then
      [(HexValue(s[1]) * 16 + HexValue(s[2])) as char] + Decode(s[3..])
    else [s[0]] + Decode(s[1..])
  }

  /** Without escapes, a `+` anywhere makes the decoded text differ from the written one. */
  lemma {:induction false} DecodeChangesPlus(s: string)
    requires '%' !in s && '+' in s
    ensures Decode(s) != s
  {
    if s[0] == '+' {
      assert Decode(s)[0] == ' ';
    } else {
      assert '+' in s[1..];
      DecodeChangesPlus(s[1..]);
      assert Decode(s) == [s[0]] + Decode(s[1..]);
      assert s == [s[0]] + s[1..];
    }
  }

  /** A part split at its first `=`; without one the value is empty. */
  function SplitEq(part: string): (string, string) {
    if |part| == 0 then ("", "")
    else if part[0] == '=' then ("", part[1..])
    else
      var (name, value) := SplitEq(part[1..]);
      ([part[0]] + name, value)
  }

  /** The decoded name and value of one part. */
  function ParsePart(part: string): (string, string) {
    var (name, value) := SplitEq(part);
    (Decode(name), Decode(value))
  }

  /** The (name, value) pairs of the non-empty parts, in order. */
  function ParseParts(parts: seq<string>): seq<(string, string)> {
    if |parts| == 0 then []
    else if parts[0] == "" then ParseParts(parts[1..])
    else [ParsePart(parts[0])] + ParseParts(parts[1..])
  }

  /** The query parameters the backend sees for `url`. */
  function Params(url: string): seq<(string, string)> {
    ParseParts(SplitAmp(BeforeHash(AfterQuestion(url))))
  }

  /** The value of the last parameter called `name`. */
  function Lookup(params: seq<(string, string)>, name: string): Option<string> {
    if |params| == 0 then None
    else if params[|params| - 1].0 == name then Some(params[|params| - 1].1)
    else Lookup(params[..|params| - 1], name)
  }

  /** Decimal digits and nothing else, read as a number. */
  function ReadNat(s: string): Option<nat> {
    if |s| > 0 && forall i :: 0 <= i < |s| ==> IsDigit(s[i]) then Some(DigitsValue(s, 10)) else None
  }

  /** An `int` parameter: an optional sign, then decimal digits; anything else fails validation. */
  function ReadInt(s: string): Option<int> {
    if |s| > 0 && (s[0] == '-' || s[0] == '+') then
      match ReadNat(s[1..])
      case Some(n) => var v: int := n; Some(if s[0] == '-' then -v else v)
      case None => None
    else ReadNat(s)
  }

  // ---------------------------------------------------------------------------
  // Reading back what was written

  /** Text that survives the split into parts: it neither ends a part nor the query. */
  predicate Unbroken(s: string) {
    forall i :: 0 <= i < |s| ==> s[i] != '&' && s[i] != '#'
  }

  /** Text that the reading returns as it is: unbroken, and nothing in it is decoded. */
  predicate Plain(s: string) {
    Unbroken(s) && forall i :: 0 <= i < |s| ==> s[i] != '+' && s[i] != '%'
  }

  lemma {:induction false} DecodePlain(s: string)
    requires Plain(s)
    ensures Decode(s) == s
  {
    if |s| > 0 {
      DecodePlain(s[1..]);
    }
  }

  lemma {:induction false} AfterQuestionSkips(p: string, q: string)
    requires '?' !in p
    ensures AfterQuestion(p + "?" + q) == q
  {
    if |p| == 0 {
      assert p + "?" + q == "?" + q;
    } else {
      assert (p + "?" + q)[1..] == p[1..] + "?" + q;
      AfterQuestionSkips(p[1..], q);
    }
  }

  /** A URL without a query carries no parameters. */
  lemma {:induction false} NoQuery(url: string)
    requires '?' !in url
    ensures AfterQuestion(url) == "" && Params(url) == []
  {
    if |url| > 0 {
      NoQuery(url[1..]);
    }
    assert BeforeHash("") == "";
    PartsEmpty();
  }

  lemma {:induction false} BeforeHashWhole(s: string)
    requires '#' !in s
    ensures BeforeHash(s) == s
  {
    if |s| > 0 {
      BeforeHashWhole(s[1..]);
    }
  }

  lemma {:induction false} SplitAmpCons(a: string, b: string)
    requires '&' !in a
    ensures SplitAmp(a + "&" + b) == [a] + SplitAmp(b)
  {
    if |a| == 0 {
      assert a + "&" + b == "&" + b;
    } else {
      assert (a + "&" + b)[1..] == a[1..] + "&" + b;
      SplitAmpCons(a[1..], b);
      assert [a[0]] + a[1..] == a;
    }
  }

  lemma {:induction false} SplitAmpWhole(a: string)
    requires '&' !in a
    ensures SplitAmp(a) == [a]
  {
    if |a| > 0 {
      SplitAmpWhole(a[1..]);
      assert [a[0]] + a[1..] == a;
    }
  }

  lemma {:induction false} SplitEqFirst(name: string, value: string)
    requires '=' !in name
    ensures SplitEq(name + "=" + value) == (name, value)
  {
    if |name| == 0 {
      assert name + "=" + value == "=" + value;
    } else {
      assert (name + "=" + value)[1..] == name[1..] + "=" + value;
      SplitEqFirst(name[1..], value);
      assert [name[0]] + name[1..] == name;
    }
  }

  /** The parameters of a URL whose path has no `?` and whose query has no `#`. */
  lemma ParamsOfQuery(path: string, query: string)
    requires '?' !in path && '#' !in query
    ensures Params(path + "?" + query) == ParseParts(SplitAmp(query))
  {
    AfterQuestionSkips(path, query);
    BeforeHashWhole(query);
  }

  /** A leading `name=value&` is read as one parameter. */
  lemma PartsCons(name: string, value: string, rest: string)
    requires Unbroken(name) && Unbroken(value) && '=' !in name
    ensures ParseParts(SplitAmp(name + "=" + value + "&" + rest))
            == [(Decode(name), Decode(value))] + ParseParts(SplitAmp(rest))
  {
    var part := name + "=" + value;
    assert '&' !in part by {
      assert forall i :: 0 <= i < |part| ==> part[i] == (if i < |name| then name[i] else if i == |name| then '=' else value[i - |name| - 1]);
    }
    SplitAmpCons(part, rest);
    assert part + "&" + rest == name + "=" + value + "&" + rest;
    var parts := [part] + SplitAmp(rest);
    assert parts[1..] == SplitAmp(rest);
    assert part != "" by { assert part[|name|] == '='; }
    SplitEqFirst(name, value);
  }

  /** A final `name=value` is read as one parameter. */
  lemma PartsLast(name: string, value: string)
    requires Unbroken(name) && Unbroken(value) && '=' !in name
    ensures ParseParts(SplitAmp(name + "=" + value)) == [(Decode(name), Decode(value))]
  {
    var part := name + "=" + value;
    assert '&' !in part by {
      assert forall i :: 0 <= i < |part| ==> part[i] == (if i < |name| then name[i] else if i == |name| then '=' else value[i - |name| - 1]);
    }
    SplitAmpWhole(part);
    assert part != "" by { assert part[|name|] == '='; }
    assert [part][1..] == [];
    SplitEqFirst(name, value);
  }

  lemma PartsEmpty()
    ensures ParseParts(SplitAmp("")) == []
  {
  }

  // ---------------------------------------------------------------------------
  // Escaping

  /** The characters a value cannot carry unescaped: separators, and what the reading decodes. */
  predicate Reserved(c: char) {
    c == '%' || c == '&' || c == '+' || c == '#'
  }

  function HexDigit(n: nat): (c: char)
    requires n < 16
    ensures IsHex(c) && HexValue(c) == n
  {
    if n < 10 then ('0' as int + n) as char else ('A' as int + n - 10) as char
  }

  function EscapeChar(c: char): string {
    if Reserved(c) then ['%', HexDigit(c as int / 16), HexDigit(c as int % 16)] else [c]
  }

  /** `s` with every reserved character written as a `%XX` escape. */
  function Escape(s: string): (r: string)
    ensures Unbroken(r)
  {
    if |s| == 0 then "" else EscapeChar(s[0]) + Escape(s[1..])
  }

  lemma DecodeEscapeChar(c: char, t: string)
    ensures Decode(EscapeChar(c) + t) == [c] + Decode(t)
  {
    if Reserved(c) {
      var e := EscapeChar(c) + t;
      assert e[3..] == t;
      assert HexValue(e[1]) * 16 + HexValue(e[2]) == c as int;
    } else {
      assert ([c] + t)[1..] == t;
    }
  }

  /** Decoding undoes escaping. */
  lemma {:induction false} DecodeEscape(s: string)
    ensures Decode(Escape(s)) == s
  {
    if |s| > 0 {
      DecodeEscapeChar(s[0], Escape(s[1..]));
      DecodeEscape(s[1..]);
      assert [s[0]] + s[1..] == s;
    }
  }

  /** An integer's decimal text reads back as that integer. */
  lemma ReadIntOfIntToString(n: int)
    ensures ReadInt(IntToString(n)) == Some(n)
  {
    var t := IntToString(n);
    if n < 0 {
      assert t == "-" + NatToString(-n);
      assert t[1..] == NatToString(-n);
      ReadNatOfNatToString(-n);
    } else {
      ReadNatOfNatToString(n);
      assert IsDigit(t[0]);
    }
  }

  lemma ReadNatOfNatToString(m: nat)
    ensures ReadNat(NatToString(m)) == Some(m)
  {
    NatToStringValue(m);
  }

  /** Reading a two-parameter query by name: each name gives its value, any other name nothing. */
  lemma LookupPair(n1: string, v1: string, n2: string, v2: string, other: string)
    requires n1 != n2
    ensures Lookup([(n1, v1), (n2, v2)], n1) == Some(v1)
    ensures Lookup([(n1, v1), (n2, v2)], n2) == Some(v2)
    ensures other != n1 && other != n2 ==> Lookup([(n1, v1), (n2, v2)], other) == None
  {
    var ps := [(n1, v1), (n2, v2)];
    assert ps[..1] == [(n1, v1)];
    assert [(n1, v1)][..0] == [];
    if other != n1 && other != n2 {
      assert Lookup([(n1, v1)], other) == Lookup([], other);
      assert Lookup(ps, other) == Lookup([(n1, v1)], other);
    }
  }
}
