/**
 * The command-line front end (`src/main.rs`): the `--header` argument parser,
 * the derivation of the request configuration from the arguments, and the
 * supervisory loop that polls the benchmark status once a second and decides
 * when to stop.
 */
module Cli {
  import opened Results
  import opened Bytes
  import opened HttpTypes
  import opened Protocol

  type u32 = n: nat | n < 0x1_0000_0000

  // ---------------------------------------------------------------------------
  // `parse_header`
  // ---------------------------------------------------------------------------

  /** `str::split_once` with a one-character pattern: the text before and after the first `c`. */
  function SplitOnce(s: string, c: char): (r: Option<(string, string)>)
    ensures r.None? <==> c !in s
    ensures r.Some? ==> s == r.value.0 + [c] + r.value.1 && c !in r.value.0
  {
    if s == [] then None
    else if s[0] == c then Some(([], s[1..]))
    else
      match SplitOnce(s[1..], c)
      case None => None
      case Some((a, b)) => Some(([s[0]] + a, b))
  }

  /** The split happens at the first occurrence: whatever follows, later `c`s included, is the second part. */
  lemma {:induction false} SplitOnceFirst(a: string, c: char, b: string)
    requires c !in a
    ensures SplitOnce(a + [c] + b, c) == Some((a, b))
  {
    if a != [] {
      assert (a + [c] + b)[1..] == a[1..] + [c] + b;
      SplitOnceFirst(a[1..], c, b);
      assert [a[0]] + a[1..] == a;
    }
  }

  /** The `Display` texts of `http::header::InvalidHeaderName` and `InvalidHeaderValue`. */
  const InvalidHeaderNameText := "invalid HTTP header name"
  const InvalidHeaderValueText := "failed to parse header value"
  const HeaderNameError := "Invalid header name: " + InvalidHeaderNameText
  const HeaderValueError := "Invalid header value: " + InvalidHeaderValueText

  /** `parse_header`: `Name:Value` split at the first colon, the name checked before the value. */
  function ParseHeader(header: string): (r: Result<(HeaderName, HeaderValue), string>)
    ensures r.Ok? ==> ValidHeaderName(r.value.0) && ValidHeaderValue(r.value.1)
  {
    match SplitOnce(header, ':')
    case None => Err("Invalid HTTP header")
    case Some((name, value)) =>
      match HeaderNameFromStr(name)
      case None => Err(HeaderNameError)
      case Some(n) =>
        match HeaderValueFromStr(value)
        case None => Err(HeaderValueError)
        case Some(v) => Ok((n, v))
  }

  /** Without a colon the argument is refused, and only then is it refused with this message. */
  lemma ParseHeaderNoColon(header: string)
    ensures ParseHeader(header) == Err("Invalid HTTP header") <==> ':' !in header
  {
  }

  /** For `name:value` with no colon in `name`: the name is everything before the colon and
      the value everything after it, later colons and leading spaces included; an invalid
      name is reported before an invalid value. */
  lemma ParseHeaderSplitsAtFirstColon(name: string, value: string)
    requires ':' !in name
    ensures ParseHeader(name + ":" + value) ==
      if !(name != [] && IsToken(name)) then Err(HeaderNameError)
      else if !(forall i :: 0 <= i < |value| ==> IsFieldChar(value[i])) then Err(HeaderValueError)
      else Ok((HeaderNameFromStr(name).value, Utf8(value)))
  {
    assert name + ":" + value == name + [':'] + value;
    SplitOnceFirst(name, ':', value);
    HeaderValueFromStrChars(value);
  }

  /** An accepted header keeps the name's letters up to case and the value's exact UTF-8 bytes. */
  lemma ParseHeaderAccepted(header: string)
    requires ParseHeader(header).Ok?
    ensures exists name, value ::
      && header == name + ":" + value && ':' !in name
      && ToLowerAll(name) == ParseHeader(header).value.0 && Utf8(value) == ParseHeader(header).value.1
  {
    var (name, value) := SplitOnce(header, ':').value;
    assert header == name + ":" + value;
  }

  // ---------------------------------------------------------------------------
  // `parse_args`
  // ---------------------------------------------------------------------------

  /** A `std::net::SocketAddr`: the address is kept as its text, the port as a number. */
  datatype SocketAddr = SocketAddr(ip: string, port: nat)

  /** The parsed command line (`Args`). */
  datatype Args = Args(
    url: Uri,
    time: u32,
    client: u32,
    proxy: Option<SocketAddr>,
    keep: bool,
    requestMethod: Method,
    http: Version,
    header: seq<(HeaderName, HeaderValue)>)

  /** `core::Config`, as `parse_args` builds it. */
  datatype Config = Config(addrs: seq<SocketAddr>, request: seq<byte>, isKeepalive: bool, clients: u32)

  /** The errors `parse_args` returns: a message, or the serialiser's error. */
  datatype ConfigError = Failure(text: string) | RequestError(error: Error)

  /** The decimal text of a number, as `{}` formats an integer. */
  function DecimalText(n: nat): (t: string)
    ensures t != [] && (forall i :: 0 <= i < |t| ==> '0' <= t[i] <= '9')
    ensures t[0] == '0' ==> n == 0 && t == "0"
    decreases n
  {
    if n < 10 then [('0' as int + n) as char] else DecimalText(n / 10) + [('0' as int + n % 10) as char]
  }

  /** The number a string of decimal digits denotes. */
  function DecimalValue(t: string): nat
    requires forall i :: 0 <= i < |t| ==> '0' <= t[i] <= '9'
  {
    if t == [] then 0 else 10 * DecimalValue(t[..|t| - 1]) + (t[|t| - 1] as int - '0' as int)
  }

  /** The decimal text reads back as the number it was made from. */
  lemma {:induction false} DecimalRoundTrip(n: nat)
    ensures DecimalValue(DecimalText(n)) == n
    decreases n
  {
    var t := DecimalText(n);
    if n >= 10 {
      DecimalRoundTrip(n / 10);
      assert t[..|t| - 1] == DecimalText(n / 10);
    }
  }

  /** The port `format!("{}:{}", host, port)` uses: the URL's, else 80, the default port of HTTP. */
  function EffectivePort(url: Uri): nat
  {
    if url.port.Some? then url.port.value else 80
  }

  /** The text handed to `to_socket_addrs` when no proxy is given. */
  function AddrText(host: string, port: nat): string
  {
    host + ":" + DecimalText(port)
  }

  /** The value of the `Connection` header. */
  function ConnectionValue(isKeepalive: bool): string
  {
    if isKeepalive then "keep-alive" else "close"
  }

  predicate IsVisibleText(s: string)
  {
    forall i :: 0 <= i < |s| ==> 0x20 <= s[i] as int < 0x7f
  }

  /** The header value the request builder makes of visible text: one byte per character. */
  function BuilderValue(s: string): (v: HeaderValue)
    requires IsVisibleText(s)
    ensures |v| == |s| && Visible(v)
  {
    AsciiBytes(s)
  }

  /** `HeaderValue::from_str` accepts visible text as exactly the bytes the builder uses. */
  lemma BuilderValueAccepted(s: string)
    requires IsVisibleText(s)
    ensures HeaderValueFromStr(s) == Some(BuilderValue(s))
  {
    HeaderValueFromStrChars(s);
    Utf8Ascii(s);
  }

  /** `HeaderName::from_str` of a token that lower-cases character by character to `t`. */
  lemma LowerCaseName(s: string, t: string)
    requires s != [] && IsToken(s) && |s| == |t|
    requires forall i :: 0 <= i < |s| ==> ToLower(s[i]) == t[i]
    ensures HeaderNameFromStr(s) == Some(t)
  {
    assert ToLowerAll(s) == t;
  }

  /** `HeaderName::from_str` lower-cases the three names the builder is given. */
  lemma BuilderNames()
    ensures HeaderNameFromStr("User-Agent") == Some("user-agent")
    ensures HeaderNameFromStr("Host") == Some("host")
    ensures HeaderNameFromStr("Connection") == Some("connection")
  {
    LowerCaseName("User-Agent", "user-agent");
    LowerCaseName("Host", "host");
    LowerCaseName("Connection", "connection");
  }

  /** The three pairs every request starts with, in the order `.header` adds them. */
  function BuiltinPairs(host: string, isKeepalive: bool): seq<(HeaderName, HeaderValue)>
    requires IsVisibleText(host)
  {
    [("user-agent", BuilderValue("webbench-rs")),
     ("host", BuilderValue(host)),
     ("connection", BuilderValue(ConnectionValue(isKeepalive)))]
  }

  /** The header map after the three `.header` calls and the `extend` with the `--header` pairs. */
  function RequestHeaders(args: Args, host: string): HeaderMap
    requires IsVisibleText(host)
  {
    var b := BuiltinPairs(host, args.keep && args.http == H11);
    var m := Append(Append(Append(HeaderMap([]), b[0].0, b[0].1), b[1].0, b[1].1), b[2].0, b[2].1);
    Extend(m, args.header)
  }

  function BuildRequest(args: Args, host: string): Request
    requires IsVisibleText(host)
  {
    Request(args.requestMethod, args.url, args.http, RequestHeaders(args, host))
  }

  /** The host of a parsed URI is visible text. */
  lemma HostIsVisible(url: Uri)
    requires url.host.Some?
    ensures IsVisibleText(url.host.value)
  {
    var h := url.host.value;
    forall i | 0 <= i < |h| ensures 0x20 <= h[i] as int < 0x7f { assert IsHostChar(h[i]); }
  }

  /** The address list: the proxy alone, or what resolving `host:port` yields. */
  function Addrs(args: Args, host: string, resolve: string -> Option<seq<SocketAddr>>): Option<seq<SocketAddr>>
  {
    if args.proxy.Some? then Some([args.proxy.value]) else resolve(AddrText(host, EffectivePort(args.url)))
  }

  /** `parse_args`. Name resolution is the parameter `resolve`. */
  function ParseArgs(args: Args, resolve: string -> Option<seq<SocketAddr>>): (r: Result<Config, ConfigError>)
    ensures r == Err(Failure("Invalid host")) <==> args.url.host.None?
  {
    var isKeepalive := args.keep && args.http == H11;
    if args.url.host.None? then Err(Failure("Invalid host"))
    else
      var host := args.url.host.value;
      HostIsVisible(args.url);
      var request := BuildRequest(args, host);
      match Addrs(args, host, resolve)
      case None => Err(Failure("Invalid addrs"))
      case Some(addrs) =>
        match Serialize(request)
        case Err(e) => Err(RequestError(e))
        case Ok(raw) => Ok(Config(addrs, raw, isKeepalive, args.client))
  }

  /** Keep-alive is on exactly when `--keep` is given and the version is HTTP/1.1. */
  lemma KeepaliveRule(args: Args, resolve: string -> Option<seq<SocketAddr>>)
    requires ParseArgs(args, resolve).Ok?
    ensures ParseArgs(args, resolve).value.isKeepalive <==> args.keep && args.http == H11
  {
  }

  /** The `Connection` value says "keep-alive" exactly when keep-alive is on, "close" otherwise. */
  lemma ConnectionRule(isKeepalive: bool)
    ensures ConnectionValue(isKeepalive) == "keep-alive" <==> isKeepalive
    ensures ConnectionValue(isKeepalive) == "close" <==> !isKeepalive
  {
  }

  /** The three built-in pairs have distinct names, so they come out of the map in order. */
  lemma BuiltinIter(args: Args, host: string)
    requires IsVisibleText(host)
    ensures var b := BuiltinPairs(host, args.keep && args.http == H11);
      Iter(Append(Append(Append(HeaderMap([]), b[0].0, b[0].1), b[1].0, b[1].1), b[2].0, b[2].1)) == b
  {
    var b := BuiltinPairs(host, args.keep && args.http == H11);
    var m0 := HeaderMap([]);
    var m1 := Append(m0, b[0].0, b[0].1);
    var m2 := Append(m1, b[1].0, b[1].1);
    AppendNewName(m0.entries, b[0].0, b[0].1);
    NamesAppendTo(m0.entries, b[0].0, b[0].1);
    AppendNewName(m1.entries, b[1].0, b[1].1);
    NamesAppendTo(m1.entries, b[1].0, b[1].1);
    AppendNewName(m2.entries, b[2].0, b[2].1);
  }

  /** The request always leads with `user-agent: webbench-rs`, and carries every built-in
      and every `--header` pair exactly as often as it was added. */
  lemma RequestHeaderPairs(args: Args, host: string)
    requires IsVisibleText(host)
    ensures var fs := Iter(RequestHeaders(args, host));
      fs != [] && fs[0] == ("user-agent", BuilderValue("webbench-rs"))
      && multiset(fs) == multiset(BuiltinPairs(host, args.keep && args.http == H11)) + multiset(args.header)
  {
    var b := BuiltinPairs(host, args.keep && args.http == H11);
    var m := Append(Append(Append(HeaderMap([]), b[0].0, b[0].1), b[1].0, b[1].1), b[2].0, b[2].1);
    BuiltinIter(args, host);
    assert m.entries[0] == ("user-agent", [b[0].1]);
    ExtendKeepsFirst(m, args.header);
    ExtendPairs(m, args.header);
  }

  /** Whatever the `--header` pairs, the request carries the `connection` pair whose value
      agrees with the configured keep-alive flag. */
  lemma KeepaliveMatchesConnection(args: Args, resolve: string -> Option<seq<SocketAddr>>)
    requires ParseArgs(args, resolve).Ok?
    ensures args.url.host.Some?
    ensures var host := args.url.host.value;
      IsVisibleText(host) &&
      ("connection", BuilderValue(ConnectionValue(ParseArgs(args, resolve).value.isKeepalive)))
        in multiset(Iter(RequestHeaders(args, host)))
  {
    var host := args.url.host.value;
    HostIsVisible(args.url);
    var b := BuiltinPairs(host, args.keep && args.http == H11);
    RequestHeaderPairs(args, host);
    KeepaliveRule(args, resolve);
    assert b[2] in multiset(b);
  }

  /** With `--header` names that are distinct and not among the built-in ones, the pairs come
      out as the built-in three followed by the `--header` pairs in command-line order. */
  lemma RequestHeadersFresh(args: Args, host: string)
    requires IsVisibleText(host)
    requires FreshNames(["user-agent", "host", "connection"], args.header)
    ensures Iter(RequestHeaders(args, host)) == BuiltinPairs(host, args.keep && args.http == H11) + args.header
  {
    var b := BuiltinPairs(host, args.keep && args.http == H11);
    var m := Append(Append(Append(HeaderMap([]), b[0].0, b[0].1), b[1].0, b[1].1), b[2].0, b[2].1);
    BuiltinIter(args, host);
    var m0 := HeaderMap([]);
    var m1 := Append(m0, b[0].0, b[0].1);
    var m2 := Append(m1, b[1].0, b[1].1);
    NamesAppendTo(m0.entries, b[0].0, b[0].1);
    NamesAppendTo(m1.entries, b[1].0, b[1].1);
    NamesAppendTo(m2.entries, b[2].0, b[2].1);
    assert Names(m.entries) == ["user-agent", "host", "connection"];
    ExtendFresh(m, args.header);
  }

  /** Two sequences holding the same pairs are visible together or not at all. */
  lemma AllVisibleMultiset(a: seq<(HeaderName, HeaderValue)>, b: seq<(HeaderName, HeaderValue)>)
    requires multiset(a) == multiset(b)
    ensures AllVisible(a) <==> AllVisible(b)
  {
    if AllVisible(a) {
      forall i | 0 <= i < |b| ensures Visible(b[i].1) {
        assert b[i] in multiset(a);
        var j :| 0 <= j < |a| && a[j] == b[i];
      }
    }
    if AllVisible(b) {
      forall i | 0 <= i < |a| ensures Visible(a[i].1) {
        assert a[i] in multiset(b);
        var j :| 0 <= j < |b| && b[j] == a[i];
      }
    }
  }

  /** The built-in pairs are always visible, so serialising the request fails exactly when a
      `--header` value holds a byte `to_str` refuses. */
  lemma RequestSerializes(args: Args, host: string)
    requires IsVisibleText(host)
    ensures Serialize(BuildRequest(args, host)).Ok? <==> AllVisible(args.header)
  {
    var b := BuiltinPairs(host, args.keep && args.http == H11);
    var fs := Iter(RequestHeaders(args, host));
    RequestHeaderPairs(args, host);
    AllVisibleMultiset(fs, b + args.header);
    assert AllVisible(b);
    assert AllVisible(b + args.header) <==> AllVisible(args.header) by {
      if AllVisible(args.header) {
        forall i | 0 <= i < |b + args.header| ensures Visible((b + args.header)[i].1) {
          if i >= 3 { assert (b + args.header)[i] == args.header[i - 3]; }
        }
      }
      if AllVisible(b + args.header) {
        forall i | 0 <= i < |args.header| ensures Visible(args.header[i].1) {
          assert (b + args.header)[i + 3] == args.header[i];
        }
      }
    }
  }

  /** Address choice: a proxy is the only address and needs no resolution; otherwise the
      addresses are those `host:port` resolves to, port 80 when the URL names none, and a failed
      resolution is reported as "Invalid addrs". */
  lemma AddressChoice(args: Args, resolve: string -> Option<seq<SocketAddr>>)
    requires args.url.host.Some?
    ensures var r := ParseArgs(args, resolve);
      && (args.proxy.Some? ==> r != Err(Failure("Invalid addrs")) && (r.Ok? ==> r.value.addrs == [args.proxy.value]))
      && (args.proxy.None? ==>
            var name := args.url.host.value + ":" + DecimalText(if args.url.port.Some? then args.url.port.value else 80);
            && (r == Err(Failure("Invalid addrs")) <==> resolve(name).None?)
            && (r.Ok? ==> r.value.addrs == resolve(name).value))
  {
  }

  /** Without a port in the URL the resolved name ends in ":80". */
  lemma DefaultPortText(url: Uri)
    requires url.host.Some? && url.port.None?
    ensures AddrText(url.host.value, EffectivePort(url)) == url.host.value + ":80"
  {
    assert DecimalText(80) == DecimalText(8) + ['0'];
  }

  /** Once host and addresses are settled, `parse_args` fails only on a `--header` value that
      is not visible ASCII. */
  lemma ParseArgsToStr(args: Args, resolve: string -> Option<seq<SocketAddr>>)
    requires args.url.host.Some? && Addrs(args, args.url.host.value, resolve).Some?
    ensures ParseArgs(args, resolve) == Err(RequestError(ToStrError)) <==> !AllVisible(args.header)
    ensures ParseArgs(args, resolve).Ok? <==> AllVisible(args.header)
  {
    HostIsVisible(args.url);
    RequestSerializes(args, args.url.host.value);
  }

  lemma BuiltinValid(host: string, isKeepalive: bool)
    requires IsVisibleText(host)
    ensures ValidPairs(BuiltinPairs(host, isKeepalive))
  {
    assert ValidHeaderName("user-agent") && ValidHeaderName("host") && ValidHeaderName("connection");
  }

  /** The request built for `host` reads back as the method, the URL path, the version, the
      built-in pairs and the `--header` pairs, when the latter have fresh, distinct names. */
  lemma BuiltRequestRoundTrip(args: Args, host: string)
    requires IsVisibleText(host) && Serialize(BuildRequest(args, host)).Ok?
    requires ValidPairs(args.header)
    requires FreshNames(["user-agent", "host", "connection"], args.header)
    ensures ParseMessage(Serialize(BuildRequest(args, host)).value) == Some(Message(
        AsciiBytes(MethodText(args.requestMethod)), Utf8(args.url.path), AsciiBytes(VersionText(args.http)),
        WirePairs(BuiltinPairs(host, args.keep && args.http == H11) + args.header)))
  {
    var b := BuiltinPairs(host, args.keep && args.http == H11);
    RequestHeadersFresh(args, host);
    BuiltinValid(host, args.keep && args.http == H11);
    ValidPairsConcat(b, args.header);
    RoundTrip(BuildRequest(args, host));
  }

  /** End to end: the configured request bytes read back as the method, the URL path, the
      version, then `user-agent`, `host`, `connection` and the `--header` pairs (when their
      names are fresh and distinct). */
  lemma ParseArgsRequest(args: Args, resolve: string -> Option<seq<SocketAddr>>)
    requires ParseArgs(args, resolve).Ok?
    requires ValidPairs(args.header)
    requires FreshNames(["user-agent", "host", "connection"], args.header)
    ensures ParseMessage(ParseArgs(args, resolve).value.request) == Some(Message(
        AsciiBytes(MethodText(args.requestMethod)), Utf8(args.url.path), AsciiBytes(VersionText(args.http)),
        WirePairs(BuiltinPairs(args.url.host.value, args.keep && args.http == H11) + args.header)))
  {
    HostIsVisible(args.url);
    BuiltRequestRoundTrip(args, args.url.host.value);
  }

  lemma ValidPairsConcat(a: seq<(HeaderName, HeaderValue)>, b: seq<(HeaderName, HeaderValue)>)
    requires ValidPairs(a) && ValidPairs(b)
    ensures ValidPairs(a + b)
  {
    forall i | 0 <= i < |a + b| ensures ValidHeaderName((a + b)[i].0) && ValidHeaderValue((a + b)[i].1) {
      if i >= |a| { assert (a + b)[i] == b[i - |a|]; }
    }
  }

  // ---------------------------------------------------------------------------
  // The polling loop of `main`
  // ---------------------------------------------------------------------------

  /** The counters and flag read from the benchmark status at one poll. */
  datatype Snapshot = Snapshot(failed: u32, success: u32, received: nat, interrupted: bool)

  datatype StopReason = TooManyFailures | Interrupted | TimeUp

  /** `failed as f64 / success as f64 > 0.5` with the quotient taken exactly: a positive count
      over zero is +inf and compares true, zero over zero is NaN and compares false. */
  predicate RatioAboveHalf(failed: nat, success: nat)
  {
    if success == 0 then failed > 0 else (failed as real) / (success as real) > 0.5
  }

  /** The ratio test on naturals: more than half as many failures as successes. */
  predicate TooManyFailuresAt(s: Snapshot)
  {
    2 * s.failed > s.success
  }

  lemma FailureRatioMatchesF64(failed: nat, success: nat)
    ensures RatioAboveHalf(failed, success) <==> 2 * failed > success
  {
    if success > 0 {
      HalfQuotient(failed as real, success as real);
    }
  }

  lemma HalfQuotient(f: real, s: real)
    requires s > 0.0
    ensures f / s > 0.5 <==> 2.0 * f > s
  {
    var q := f / s;
    var d := 2.0 * q - 1.0;
    assert f == q * s;
    assert 2.0 * f - s == d * s;
    if d > 0.0 {
      assert d * s > 0.0;
    } else {
      assert d * s <= 0.0;
    }
  }

  /** The stop rule, checked in this order: too many failures, interruption, time up. */
  function StopRule(s: Snapshot, count: nat): Option<StopReason>
  {
    if TooManyFailuresAt(s) then Some(TooManyFailures)
    else if s.interrupted then Some(Interrupted)
    else if count == 0 then Some(TimeUp)
    else None
  }

  /** Poll `k` (from 0) stops the loop, the countdown standing at `time - k` then. */
  predicate StopsAt(time: nat, statusAt: nat -> Snapshot, k: nat)
  {
    k <= time && StopRule(statusAt(k), time - k).Some?
  }

  /** The loop stops without fail by the poll where the countdown reaches zero. */
  lemma StopsByTimeUp(time: nat, statusAt: nat -> Snapshot)
    ensures StopsAt(time, statusAt, time)
    ensures StopRule(statusAt(time), 0) != None
  {
  }

  /**
   * The polling loop of `main`: `count` starts at `time`; each poll reads the status
   * (`statusAt(k)` at poll `k`) and applies the stop rule; a poll that does not stop
   * sleeps and decrements `count`. Returns the number of polls, why the loop stopped,
   * and the counters read at the last poll.
   */
  method Supervise(time: u32, statusAt: nat -> Snapshot)
    returns (polls: nat, reason: StopReason, success: u32, failed: u32, received: nat)
    ensures 1 <= polls <= time + 1
    ensures forall k :: 0 <= k < polls - 1 ==> !StopsAt(time, statusAt, k)
    ensures StopRule(statusAt(polls - 1), time - (polls - 1)) == Some(reason)
    ensures success == statusAt(polls - 1).success && failed == statusAt(polls - 1).failed
    ensures received == statusAt(polls - 1).received
  {
    var count: nat := time;
    polls := 0;
    while true
      invariant polls + count == time
      invariant forall k :: 0 <= k < polls ==> !StopsAt(time, statusAt, k)
      decreases count
    {
      var status := statusAt(polls);
      var f: nat, s: nat, rcv, interrupted := status.failed, status.success, status.received, status.interrupted;
      polls := polls + 1;
      if 2 * f > s {
        reason := TooManyFailures;
        success, failed, received := status.success, status.failed, rcv;
        break;
      } else if interrupted {
        reason := Interrupted;
        success, failed, received := status.success, status.failed, rcv;
        break;
      } else if count == 0 {
        reason := TimeUp;
        success, failed, received := status.success, status.failed, rcv;
        break;
      }
      count := count - 1;
    }
  }

  /** The poll that stops the loop is the first poll the stop rule fires on, so the result
      depends on the statuses alone. */
  lemma FirstStopUnique(time: nat, statusAt: nat -> Snapshot, p: nat, q: nat)
    requires StopsAt(time, statusAt, p) && StopsAt(time, statusAt, q)
    requires forall k :: 0 <= k < p ==> !StopsAt(time, statusAt, k)
    requires forall k :: 0 <= k < q ==> !StopsAt(time, statusAt, k)
    ensures p == q
  {
  }
}
