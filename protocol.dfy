/**
 * The HTTP/1.1 request serialiser (`protocol::raw_request`): the request line
 * `method SP path SP version CRLF`, one field line `name: value CRLF` per
 * header pair, and the empty line that ends the header section (message
 * framing of section 2.1 of RFC 9112, request line of its section 3, field
 * lines of its section 5).
 */
module Protocol {
  import opened Results
  import opened Bytes
  import opened HttpTypes

  /** An `http::Request<()>`: only the parts the serialiser reads. */
  datatype Request = Request(requestMethod: Method, uri: Uri, version: Version, headers: HeaderMap)

  /** The one error the serialiser can meet: a header value `to_str` refuses. */
  datatype Error = ToStrError

  /** `method SP request-target SP HTTP-version CRLF`, the target being the URI path alone.
      Method and version names are ASCII, so their UTF-8 encoding is one byte per character. */
  function RequestLine(req: Request): seq<byte>
  {
    AsciiBytes(MethodText(req.requestMethod)) + [SP] + Utf8(req.uri.path) + [SP]
      + AsciiBytes(VersionText(req.version)) + CRLF
  }

  /** `name ": " value CRLF`. */
  function FieldLine(name: HeaderName, value: HeaderValue): seq<byte>
  {
    Utf8(name) + [COLON, SP] + value + CRLF
  }

  /** The field lines of `fs`, in order. */
  function FieldLines(fs: seq<(HeaderName, HeaderValue)>): seq<byte>
  {
    if fs == [] then [] else FieldLines(fs[..|fs| - 1]) + FieldLine(fs[|fs| - 1].0, fs[|fs| - 1].1)
  }

  predicate AllVisible(fs: seq<(HeaderName, HeaderValue)>)
  {
    forall i :: 0 <= i < |fs| ==> Visible(fs[i].1)
  }

  /** The bytes `raw_request` produces for `req`, or its error. */
  function Serialize(req: Request): Result<seq<byte>, Error>
  {
    var fs := Iter(req.headers);
    if AllVisible(fs) then Ok(RequestLine(req) + FieldLines(fs) + CRLF) else Err(ToStrError)
  }

  /** The bytes `write!` emits for the literal pieces of the two format strings. */
  lemma LiteralBytes()
    ensures Utf8(" ") == [SP] && Utf8(": ") == [COLON, SP] && Utf8("\r\n") == CRLF
  {
  }

  /** `Http::raw_request`: `write!` appends each piece of the request line to an empty buffer,
      then each header pair's line, stopping at the first value `to_str` refuses, then the
      empty line. */
  method HttpRawRequest(request: Request) returns (r: Result<seq<byte>, Error>)
    ensures r == Serialize(request)
  {
    var raw: seq<byte> := [];
    raw := raw + AsciiBytes(MethodText(request.requestMethod)) + Utf8(" ") + Utf8(request.uri.path) + Utf8(" ");
    raw := raw + AsciiBytes(VersionText(request.version)) + Utf8("\r\n");
    RequestLineWritten(request);
    var headers := Iter(request.headers);
    var i := 0;
    while i < |headers|
      invariant 0 <= i <= |headers|
      invariant AllVisible(headers[..i])
      invariant raw == RequestLine(request) + FieldLines(headers[..i])
    {
      var name, value := headers[i].0, headers[i].1;
      var text := ToStr(value);
      if text.None? {
        Refused(request, i);
        return Err(ToStrError);
      }
      var line := Utf8(name) + Utf8(": ") + Utf8(text.value) + Utf8("\r\n");
      FieldLineWritten(name, value, text.value);
      FieldLinesStep(headers, i);
      AppendAssoc(RequestLine(request), FieldLines(headers[..i]), line);
      raw := raw + line;
      i := i + 1;
    }
    Accepted(request, headers);
    raw := raw + Utf8("\r\n");
    return Ok(raw);
  }

  /** `protocol::raw_request`, the public entry point: HTTP is the only protocol. */
  method RawRequest(request: Request) returns (r: Result<seq<byte>, Error>)
    ensures r == Serialize(request)
  {
    r := HttpRawRequest(request);
  }

  lemma AppendAssoc(a: seq<byte>, b: seq<byte>, c: seq<byte>)
    ensures a + b + c == a + (b + c)
  {
  }

  /** The bytes `write!` emits for the request line. */
  lemma RequestLineWritten(req: Request)
    ensures [] + AsciiBytes(MethodText(req.requestMethod)) + Utf8(" ") + Utf8(req.uri.path) + Utf8(" ")
      + AsciiBytes(VersionText(req.version)) + Utf8("\r\n") == RequestLine(req)
  {
    LiteralBytes();
  }

  /** The line `write!` emits for a pair whose value `to_str` turned into `text`. */
  lemma FieldLineWritten(name: HeaderName, value: HeaderValue, text: string)
    requires ToStr(value) == Some(text)
    ensures Utf8(name) + Utf8(": ") + Utf8(text) + Utf8("\r\n") == FieldLine(name, value)
  {
    LiteralBytes();
    ToStrBytes(value);
  }

  /** One more pair with a visible value extends the lines written so far by its own line. */
  lemma FieldLinesStep(fs: seq<(HeaderName, HeaderValue)>, i: nat)
    requires i < |fs| && AllVisible(fs[..i]) && Visible(fs[i].1)
    ensures AllVisible(fs[..i + 1])
    ensures FieldLines(fs[..i + 1]) == FieldLines(fs[..i]) + FieldLine(fs[i].0, fs[i].1)
  {
    assert fs[..i + 1][..i] == fs[..i];
  }

  /** A value `to_str` refuses makes the whole request fail. */
  lemma Refused(req: Request, i: nat)
    requires i < |Iter(req.headers)| && ToStr(Iter(req.headers)[i].1).None?
    ensures Serialize(req) == Err(ToStrError)
  {
    assert !Visible(Iter(req.headers)[i].1);
  }

  lemma Accepted(req: Request, fs: seq<(HeaderName, HeaderValue)>)
    requires fs == Iter(req.headers) && AllVisible(fs[..|fs|])
    ensures Serialize(req) == Ok(RequestLine(req) + FieldLines(fs[..|fs|]) + Utf8("\r\n"))
  {
    assert fs[..|fs|] == fs;
    LiteralBytes();
  }

  lemma {:induction false} FieldLinesCons(f: (HeaderName, HeaderValue), fs: seq<(HeaderName, HeaderValue)>)
    ensures FieldLines([f] + fs) == FieldLine(f.0, f.1) + FieldLines(fs)
    decreases |fs|
  {
    if fs != [] {
      assert ([f] + fs)[..|fs|] == [f] + fs[..|fs| - 1];
      FieldLinesCons(f, fs[..|fs| - 1]);
    } else {
      assert ([f] + fs)[..0] == [];
    }
  }

  /** The length of the output: the request line, `|name| + 2 + |value| + 2` per pair, and 2. */
  function FieldsLength(fs: seq<(HeaderName, HeaderValue)>): nat
  {
    if fs == [] then 0 else |fs[0].0| + 2 + |fs[0].1| + 2 + FieldsLength(fs[1..])
  }

  lemma ValidPairsTail(fs: seq<(HeaderName, HeaderValue)>)
    requires fs != [] && ValidPairs(fs)
    ensures ValidPairs(fs[1..])
  {
    forall i | 0 <= i < |fs[1..]| ensures ValidHeaderName(fs[1..][i].0) && ValidHeaderValue(fs[1..][i].1) {
      assert fs[1..][i] == fs[i + 1];
    }
  }

  lemma NameIsAscii(name: HeaderName)
    requires ValidHeaderName(name)
    ensures IsAscii(name) && |Utf8(name)| == |name|
  {
    forall i | 0 <= i < |name| ensures name[i] as int < 0x80 { assert IsTchar(name[i]); }
    Utf8Ascii(name);
  }

  lemma {:induction false} FieldLinesLength(fs: seq<(HeaderName, HeaderValue)>)
    requires ValidPairs(fs)
    ensures |FieldLines(fs)| == FieldsLength(fs)
    decreases |fs|
  {
    if fs != [] {
      FieldLinesCons(fs[0], fs[1..]);
      assert [fs[0]] + fs[1..] == fs;
      ValidPairsTail(fs);
      FieldLinesLength(fs[1..]);
      NameIsAscii(fs[0].0);
    }
  }

  lemma SerializedLength(req: Request)
    requires Serialize(req).Ok? && ValidPairs(Iter(req.headers))
    ensures |Serialize(req).value| == |RequestLine(req)| + FieldsLength(Iter(req.headers)) + 2
  {
    FieldLinesLength(Iter(req.headers));
  }

  predicate EndsWithCrlf(b: seq<byte>)
  {
    |b| >= 2 && b[|b| - 2] == CR && b[|b| - 1] == LF
  }

  lemma {:induction false} FieldLinesEnd(fs: seq<(HeaderName, HeaderValue)>)
    requires fs != []
    ensures EndsWithCrlf(FieldLines(fs))
  {
    var last := fs[|fs| - 1];
    var fl, line := FieldLines(fs[..|fs| - 1]), FieldLine(last.0, last.1);
    assert FieldLines(fs) == fl + line;
    assert line == Utf8(last.0) + [COLON, SP] + last.1 + CRLF;
  }

  /** The output starts with the request line and ends with CRLF CRLF, even with no headers. */
  lemma SerializedFrame(req: Request)
    requires Serialize(req).Ok?
    ensures var b := Serialize(req).value;
      |b| >= 4 && b[..|RequestLine(req)|] == RequestLine(req) && b[|b| - 4..] == [CR, LF, CR, LF]
  {
    var b := Serialize(req).value;
    var fs := Iter(req.headers);
    var rl, fl := RequestLine(req), FieldLines(fs);
    AppendAssoc(rl, fl, CRLF);
    assert b == rl + (fl + CRLF);
    var pre := rl + fl;
    if fs == [] {
      assert pre == rl;
    } else {
      FieldLinesEnd(fs);
    }
    assert EndsWithCrlf(pre);
    assert b == pre + CRLF;
  }

  /** What a reader recovers from the bytes: the three parts of the request line and the
      field lines split at their first `": "`. */
  datatype Message = Message(methodName: seq<byte>, target: seq<byte>, version: seq<byte>, fields: seq<(seq<byte>, seq<byte>)>)

  function ParseRequestLine(line: seq<byte>): Option<(seq<byte>, seq<byte>, seq<byte>)>
  {
    match SplitOn(line, [SP])
    case None => None
    case Some((m, rest)) =>
      match SplitOn(rest, [SP])
      case None => None
      case Some((t, v)) => Some((m, t, v))
  }

  /** Reads CRLF-terminated field lines up to the empty line, which must end the input. */
  function ParseFields(b: seq<byte>): Option<seq<(seq<byte>, seq<byte>)>>
    decreases |b|
  {
    match SplitOn(b, CRLF)
    case None => None
    case Some((line, rest)) =>
      if line == [] then (if rest == [] then Some([]) else None)
      else
        match SplitOn(line, [COLON, SP])
        case None => None
        case Some((n, v)) =>
          match ParseFields(rest)
          case None => None
          case Some(fs) => Some([(n, v)] + fs)
  }

  function ParseMessage(b: seq<byte>): Option<Message>
  {
    match SplitOn(b, CRLF)
    case None => None
    case Some((line, rest)) =>
      match ParseRequestLine(line)
      case None => None
      case Some((m, t, v)) =>
        match ParseFields(rest)
        case None => None
        case Some(fs) => Some(Message(m, t, v, fs))
  }

  /** Each pair as it appears on the wire: the name's bytes and the value's bytes. */
  function WirePairs(fs: seq<(HeaderName, HeaderValue)>): seq<(seq<byte>, seq<byte>)>
  {
    if fs == [] then [] else [(Utf8(fs[0].0), fs[0].1)] + WirePairs(fs[1..])
  }

  lemma NameExcludes(name: HeaderName, x: byte)
    requires ValidHeaderName(name)
    requires x == CR || x == COLON || x == SP
    ensures x !in Utf8(name)
  {
    forall i | 0 <= i < |name| ensures name[i] as int != x {
      assert IsTchar(name[i]);
    }
    Utf8Excludes(name, x);
  }

  lemma {:induction false} ParseFieldLines(fs: seq<(HeaderName, HeaderValue)>)
    requires AllVisible(fs) && ValidPairs(fs)
    ensures ParseFields(FieldLines(fs) + CRLF) == Some(WirePairs(fs))
    decreases |fs|
  {
    if fs == [] {
      assert FieldLines(fs) + CRLF == [] + CRLF + [];
      SplitOnFirst([], CRLF, []);
    } else {
      var (n, v) := fs[0];
      FieldLinesCons(fs[0], fs[1..]);
      assert [fs[0]] + fs[1..] == fs;
      var line := Utf8(n) + [COLON, SP] + v;
      var rest := FieldLines(fs[1..]) + CRLF;
      assert FieldLines(fs) + CRLF == line + CRLF + rest;
      NameExcludes(n, CR);
      NameExcludes(n, COLON);
      assert Visible(fs[0].1);
      assert CR !in v by {
        forall i | 0 <= i < |v| ensures v[i] != CR { assert IsVisibleByte(v[i]); }
      }
      SplitOnFirst(line, CRLF, rest);
      SplitOnFirst(Utf8(n), [COLON, SP], v);
      ValidPairsTail(fs);
      assert AllVisible(fs[1..]) by {
        forall i | 0 <= i < |fs[1..]| ensures Visible(fs[1..][i].1) { assert fs[1..][i] == fs[i + 1]; }
      }
      ParseFieldLines(fs[1..]);
    }
  }

  /** No byte of the method, path or version text is CR or SP. */
  lemma RequestLinePartsExclude(req: Request, x: byte)
    requires x == CR || x == SP
    ensures x !in AsciiBytes(MethodText(req.requestMethod))
    ensures x !in Utf8(req.uri.path)
    ensures x !in AsciiBytes(VersionText(req.version))
  {
    var mt, pt := MethodText(req.requestMethod), req.uri.path;
    forall i | 0 <= i < |mt| ensures mt[i] as int != x { assert IsTchar(mt[i]); }
    forall i | 0 <= i < |pt| ensures pt[i] as int != x { assert pt[i] !in " \r\n?#"; }
    Utf8Excludes(pt, x);
  }

  lemma ParseRequestLineParts(m: seq<byte>, p: seq<byte>, v: seq<byte>)
    requires SP !in m && SP !in p
    ensures ParseRequestLine(m + [SP] + p + [SP] + v) == Some((m, p, v))
  {
    assert m + [SP] + p + [SP] + v == m + [SP] + (p + [SP] + v);
    SplitOnFirst(m, [SP], p + [SP] + v);
    SplitOnFirst(p, [SP], v);
  }

  /** Round trip: reading the output back yields the method, the URI path as the request target,
      the version, and every header pair in iteration order, then the final empty line. */
  lemma RoundTrip(req: Request)
    requires Serialize(req).Ok? && ValidPairs(Iter(req.headers))
    ensures ParseMessage(Serialize(req).value)
      == Some(Message(AsciiBytes(MethodText(req.requestMethod)), Utf8(req.uri.path), AsciiBytes(VersionText(req.version)),
                      WirePairs(Iter(req.headers))))
  {
    var fs := Iter(req.headers);
    var m, p, v := AsciiBytes(MethodText(req.requestMethod)), Utf8(req.uri.path), AsciiBytes(VersionText(req.version));
    var line := m + [SP] + p + [SP] + v;
    var rest := FieldLines(fs) + CRLF;
    assert Serialize(req).value == line + CRLF + rest;
    RequestLinePartsExclude(req, CR);
    RequestLinePartsExclude(req, SP);
    assert CR !in line;
    SplitOnFirst(line, CRLF, rest);
    ParseRequestLineParts(m, p, v);
    ParseFieldLines(fs);
  }

  /** Only the path of the URI reaches the output: scheme, host, port and query do not. */
  lemma OnlyPathWritten(req: Request, uri: Uri)
    requires uri.path == req.uri.path
    ensures Serialize(req.(uri := uri)) == Serialize(req)
  {
  }
}
