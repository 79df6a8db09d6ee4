/**
 * The parts of the `http` crate that the request serialiser and the argument
 * parser rely on: methods and versions with their text, the URI components
 * that are read, header names and values with their validation, and the
 * header map that the request builder fills.
 */
module HttpTypes {
  import opened Results
  import opened Bytes

  /** The request methods of `http::Method`, displayed by name. */
  datatype Method = OPTIONS | GET | POST | PUT | DELETE | HEAD | TRACE | CONNECT | PATCH

  function MethodText(m: Method): (t: string)
    ensures t != [] && forall i :: 0 <= i < |t| ==> 'A' <= t[i] <= 'Z'
  {
    match m
    case OPTIONS => "OPTIONS"
    case GET => "GET"
    case POST => "POST"
    case PUT => "PUT"
    case DELETE => "DELETE"
    case HEAD => "HEAD"
    case TRACE => "TRACE"
    case CONNECT => "CONNECT"
    case PATCH => "PATCH"
  }

  /** The protocol versions of `http::Version`; its `Debug` text is the HTTP-version token. */
  datatype Version = H09 | H10 | H11 | H2 | H3

  function VersionText(v: Version): (t: string)
    ensures |t| == 8 && t[..5] == "HTTP/"
    ensures forall i :: 0 <= i < |t| ==> 0x20 < t[i] as int < 0x7f
  {
    match v
    case H09 => "HTTP/0.9"
    case H10 => "HTTP/1.0"
    case H11 => "HTTP/1.1"
    case H2 => "HTTP/2.0"
    case H3 => "HTTP/3.0"
  }

  /** A visible ASCII character other than space, as the host of a parsed URI has. */
  predicate IsHostChar(c: char)
  {
    0x20 < c as int < 0x7f
  }

  /** What a parsed `http::Uri` guarantees of the components read here. */
  predicate ValidUri(scheme: Option<string>, host: Option<string>, port: Option<nat>, path: string, query: Option<string>)
  {
    && (host.Some? ==> forall i :: 0 <= i < |host.value| ==> IsHostChar(host.value[i]))
    && (port.Some? ==> port.value < 0x1_0000)
    && (forall i :: 0 <= i < |path| ==> path[i] !in " \r\n?#")
  }

  /** A parsed URI: `path` is what `Uri::path` returns, without the query. */
  datatype RawUri = Uri(scheme: Option<string>, host: Option<string>, port: Option<nat>, path: string, query: Option<string>)

  type Uri = u: RawUri | ValidUri(u.scheme, u.host, u.port, u.path, u.query)
    witness Uri(None, None, None, "/", None)

  /** A token character of a field name (tchar). */
  predicate IsTchar(c: char)
  {
    || 'a' <= c <= 'z' || 'A' <= c <= 'Z' || '0' <= c <= '9'
    || c == '!' || c == '#' || c == '$' || c == '%' || c == '&' || c == '\'' || c == '*' || c == '+'
    || c == '-' || c == '.' || c == '^' || c == '_' || c == '`' || c == '|' || c == '~'
  }

  predicate IsToken(s: string)
  {
    forall i :: 0 <= i < |s| ==> IsTchar(s[i])
  }

  function ToLower(c: char): char
  {
    if 'A' <= c <= 'Z' then (c as int + 32) as char else c
  }

  /** A header name as `HeaderName` holds it: a non-empty token in lower case. */
  predicate ValidHeaderName(n: string)
  {
    n != [] && IsToken(n) && forall i :: 0 <= i < |n| ==> !('A' <= n[i] <= 'Z')
  }

  /** The text of an `http::HeaderName`; `ValidHeaderName` is what the type guarantees. */
  type HeaderName = string

  /** The text with every ASCII capital letter lower-cased. */
  function ToLowerAll(s: string): (t: string)
    ensures |t| == |s| && forall i :: 0 <= i < |s| ==> t[i] == ToLower(s[i])
  {
    seq(|s|, i requires 0 <= i < |s| => ToLower(s[i]))
  }

  /** `HeaderName::from_str`: accepts a non-empty token and normalises it to lower case. */
  function HeaderNameFromStr(s: string): (r: Option<HeaderName>)
    ensures r.Some? <==> s != [] && IsToken(s)
    ensures r.Some? ==> ValidHeaderName(r.value)
    ensures r.Some? ==> |r.value| == |s| && forall i :: 0 <= i < |s| ==> ToLower(r.value[i]) == ToLower(s[i])
  {
    if s != [] && IsToken(s) then Some(ToLowerAll(s)) else None
  }

  /** A byte `HeaderValue::from_str` accepts: visible ASCII, space, tab or any byte from 0x80. */
  predicate IsFieldByte(b: byte)
  {
    b == TAB || (SP <= b && b != 0x7f)
  }

  /** A byte `HeaderValue::to_str` accepts: visible ASCII, space or tab. */
  predicate IsVisibleByte(b: byte)
  {
    b == TAB || (SP <= b < 0x7f)
  }

  /** The bytes of an `http::HeaderValue`; `ValidHeaderValue` is what the type guarantees. */
  type HeaderValue = seq<byte>

  predicate ValidHeaderValue(v: HeaderValue)
  {
    forall i :: 0 <= i < |v| ==> IsFieldByte(v[i])
  }

  predicate IsFieldChar(c: char)
  {
    c == '\t' || (0x20 <= c as int && c as int != 0x7f)
  }

  /** `HeaderValue::from_str`: the UTF-8 bytes of the text, when each of them is a field byte. */
  function HeaderValueFromStr(s: string): (r: Option<HeaderValue>)
    ensures r.Some? ==> r.value == Utf8(s) && ValidHeaderValue(r.value)
  {
    var b := Utf8(s);
    if forall i :: 0 <= i < |b| ==> IsFieldByte(b[i]) then Some(b) else None
  }

  /** `HeaderValue::from_str` fails exactly on text holding a control character. */
  lemma {:induction false} HeaderValueFromStrChars(s: string)
    ensures HeaderValueFromStr(s).Some? <==> forall i :: 0 <= i < |s| ==> IsFieldChar(s[i])
  {
    if s != [] {
      HeaderValueFromStrChars(s[1..]);
      var h, t := Utf8Char(s[0]), Utf8(s[1..]);
      assert Utf8(s) == h + t;
      if forall i :: 0 <= i < |s| ==> IsFieldChar(s[i]) {
        assert forall i :: 0 <= i < |s[1..]| ==> IsFieldChar(s[1..][i]) by {
          forall i | 0 <= i < |s[1..]| ensures IsFieldChar(s[1..][i]) { assert s[1..][i] == s[i + 1]; }
        }
        assert IsFieldChar(s[0]);
        forall i | 0 <= i < |h + t| ensures IsFieldByte((h + t)[i]) {
          if i >= |h| { assert (h + t)[i] == t[i - |h|]; }
        }
      } else {
        var k :| 0 <= k < |s| && !IsFieldChar(s[k]);
        if k == 0 {
          assert (s[0] as int) < 0x80;
          assert (h + t)[0] == s[0] as int;
          assert !IsFieldByte((h + t)[0]);
        } else {
          assert !IsFieldChar(s[1..][k - 1]);
          var j :| 0 <= j < |t| && !IsFieldByte(t[j]);
          assert (h + t)[|h| + j] == t[j];
        }
      }
    }
  }

  /** The text of a value of visible bytes, one character per byte. */
  function AsciiText(v: seq<byte>): (t: string)
    requires forall i :: 0 <= i < |v| ==> v[i] < 0x80
    ensures IsAscii(t) && |t| == |v|
  {
    seq(|v|, i requires 0 <= i < |v| => v[i] as char)
  }

  /** A value `to_str` accepts. */
  predicate Visible(v: HeaderValue)
  {
    forall i :: 0 <= i < |v| ==> IsVisibleByte(v[i])
  }

  /** `HeaderValue::to_str`: the value as text when every byte is visible ASCII, else `ToStrError`. */
  function ToStr(v: HeaderValue): (r: Option<string>)
    ensures r.Some? <==> forall i :: 0 <= i < |v| ==> IsVisibleByte(v[i])
  {
    if Visible(v) then Some(AsciiText(v)) else None
  }

  /** Text that `to_str` returns is written back as exactly the value's bytes. */
  lemma ToStrBytes(v: HeaderValue)
    requires ToStr(v).Some?
    ensures Utf8(ToStr(v).value) == v
  {
    Utf8Ascii(ToStr(v).value);
  }

  /**
   * `http::HeaderMap`: one entry per distinct name, in the order in which each
   * name was first inserted, holding that name's values in insertion order.
   */
  type Entry = (HeaderName, seq<HeaderValue>)

  datatype HeaderMap = HeaderMap(entries: seq<Entry>)

  function Names(es: seq<Entry>): seq<HeaderName>
  {
    if es == [] then [] else [es[0].0] + Names(es[1..])
  }

  /** The (name, value) pairs of one entry. */
  function EntryPairs(e: Entry): seq<(HeaderName, HeaderValue)>
  {
    seq(|e.1|, i requires 0 <= i < |e.1| => (e.0, e.1[i]))
  }

  function Flatten(es: seq<Entry>): seq<(HeaderName, HeaderValue)>
  {
    if es == [] then [] else EntryPairs(es[0]) + Flatten(es[1..])
  }

  /** What the types of the pairs guarantee: valid names and values. */
  predicate ValidPairs(fs: seq<(HeaderName, HeaderValue)>)
  {
    forall i :: 0 <= i < |fs| ==> ValidHeaderName(fs[i].0) && ValidHeaderValue(fs[i].1)
  }

  /** `HeaderMap::iter`: every (name, value) pair, entry by entry. */
  function Iter(m: HeaderMap): seq<(HeaderName, HeaderValue)>
  {
    Flatten(m.entries)
  }

  function AppendTo(es: seq<Entry>, name: HeaderName, value: HeaderValue): seq<Entry>
  {
    if es == [] then [(name, [value])]
    else if es[0].0 == name then [(name, es[0].1 + [value])] + es[1..]
    else [es[0]] + AppendTo(es[1..], name, value)
  }

  /** `HeaderMap::append`, which `request::Builder::header` and `Extend` both use. */
  function Append(m: HeaderMap, name: HeaderName, value: HeaderValue): HeaderMap
  {
    HeaderMap(AppendTo(m.entries, name, value))
  }

  /** `Extend<(HeaderName, HeaderValue)>` for `HeaderMap`: appends the pairs in order. */
  function Extend(m: HeaderMap, hs: seq<(HeaderName, HeaderValue)>): HeaderMap
    decreases |hs|
  {
    if hs == [] then m else Extend(Append(m, hs[0].0, hs[0].1), hs[1..])
  }

  lemma {:induction false} NamesAppendTo(es: seq<Entry>, name: HeaderName, value: HeaderValue)
    ensures Names(AppendTo(es, name, value)) == if name in Names(es) then Names(es) else Names(es) + [name]
  {
    if es != [] && es[0].0 != name {
      NamesAppendTo(es[1..], name, value);
    }
  }

  /** Appending a value under a name the map does not hold yet adds it at the end of the iteration. */
  lemma {:induction false} AppendNewName(es: seq<Entry>, name: HeaderName, value: HeaderValue)
    requires name !in Names(es)
    ensures Flatten(AppendTo(es, name, value)) == Flatten(es) + [(name, value)]
  {
    if es == [] {
      assert EntryPairs((name, [value])) == [(name, value)];
    } else {
      AppendNewName(es[1..], name, value);
    }
  }

  /** Appending never loses or duplicates a pair: the iteration gains exactly the new pair. */
  lemma {:induction false} AppendPairs(es: seq<Entry>, name: HeaderName, value: HeaderValue)
    ensures multiset(Flatten(AppendTo(es, name, value))) == multiset(Flatten(es)) + multiset{(name, value)}
  {
    if es == [] {
      assert EntryPairs((name, [value])) == [(name, value)];
    } else if es[0].0 == name {
      assert EntryPairs((name, es[0].1 + [value])) == EntryPairs(es[0]) + [(name, value)];
    } else {
      AppendPairs(es[1..], name, value);
    }
  }

  /** The names of `hs` are pairwise distinct and none of them is in `names`. */
  predicate FreshNames(names: seq<HeaderName>, hs: seq<(HeaderName, HeaderValue)>)
  {
    (forall i, j :: 0 <= i < j < |hs| ==> hs[i].0 != hs[j].0) &&
    (forall i :: 0 <= i < |hs| ==> hs[i].0 !in names)
  }

  lemma FreshNamesTail(names: seq<HeaderName>, hs: seq<(HeaderName, HeaderValue)>)
    requires hs != [] && FreshNames(names, hs)
    ensures FreshNames(names + [hs[0].0], hs[1..])
  {
    forall i | 0 <= i < |hs| - 1
      ensures hs[1..][i].0 !in names + [hs[0].0]
    {
      assert hs[1..][i] == hs[i + 1];
    }
  }

  lemma PairsAssoc(a: seq<(HeaderName, HeaderValue)>, hs: seq<(HeaderName, HeaderValue)>)
    requires hs != []
    ensures a + [hs[0]] + hs[1..] == a + hs
  {
    assert [hs[0]] + hs[1..] == hs;
  }

  /** Extending by pairs whose names are new and distinct appends them in their own order. */
  lemma {:induction false} ExtendFresh(m: HeaderMap, hs: seq<(HeaderName, HeaderValue)>)
    requires FreshNames(Names(m.entries), hs)
    ensures Iter(Extend(m, hs)) == Iter(m) + hs
    decreases |hs|
  {
    if hs != [] {
      var m' := Append(m, hs[0].0, hs[0].1);
      AppendNewName(m.entries, hs[0].0, hs[0].1);
      NamesAppendTo(m.entries, hs[0].0, hs[0].1);
      FreshNamesTail(Names(m.entries), hs);
      ExtendFresh(m', hs[1..]);
      PairsAssoc(Iter(m), hs);
    }
  }

  /** Extending adds exactly the given pairs to the iteration, whatever their names. */
  lemma {:induction false} ExtendPairs(m: HeaderMap, hs: seq<(HeaderName, HeaderValue)>)
    ensures multiset(Iter(Extend(m, hs))) == multiset(Iter(m)) + multiset(hs)
    decreases |hs|
  {
    if hs != [] {
      AppendPairs(m.entries, hs[0].0, hs[0].1);
      ExtendPairs(Append(m, hs[0].0, hs[0].1), hs[1..]);
      assert hs == [hs[0]] + hs[1..];
    }
  }

  /** The first entry of a map keeps its place, and so its first pair leads the iteration. */
  lemma {:induction false} ExtendKeepsFirst(m: HeaderMap, hs: seq<(HeaderName, HeaderValue)>)
    requires m.entries != [] && |m.entries[0].1| > 0
    ensures Iter(Extend(m, hs)) != [] && Iter(Extend(m, hs))[0] == (m.entries[0].0, m.entries[0].1[0])
    decreases |hs|
  {
    if hs != [] {
      var m' := Append(m, hs[0].0, hs[0].1);
      assert m'.entries[0].0 == m.entries[0].0 && m'.entries[0].1[0] == m.entries[0].1[0];
      ExtendKeepsFirst(m', hs[1..]);
    }
  }
}
