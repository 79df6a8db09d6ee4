# webbench-rs request serialiser and command-line rules, in Dafny

This project models two parts of webbench-rs, an HTTP load generator.

The first part is the request serialiser `protocol::raw_request`. It turns an `http::Request<()>` into the bytes sent on the wire:

- the request line `METHOD SP path SP HTTP-version CRLF`;
- one field line `name: value CRLF` per header pair, in the header map's iteration order;
- the empty line `CRLF`.

It fails with the `to_str` error as soon as a header value holds a byte other than visible ASCII, space or tab. This is the message framing of section 2.1 of RFC 9112, with the request line of its section 3 and the field lines of its section 5. The request target is the URI path only: section 3.2.1's origin-form without the query.

The second part is the command-line front end in `src/main.rs`:

- `parse_header` splits a `--header Name:Value` argument at its first colon.
- `parse_args` derives the configuration:
  - keep-alive is on only for `--keep` with HTTP/1.1;
  - the `Connection` value is `keep-alive` or `close`;
  - a URL without a host is refused;
  - the built-in `User-Agent`, `Host` and `Connection` headers come first, then the `--header` pairs;
  - the address list is the proxy alone, or the resolution of `host:port` with port 80 by default.
- The supervisory loop of `main` polls the benchmark status. It stops, in this order:
  1. on too many failures;
  2. on interruption;
  3. when the countdown reaches zero.

Files:

- `results.dfy`: `Option` and `Result`.
- `bytes.dfy`: bytes, the UTF-8 encoding that `write!` produces, and splitting a byte sequence at the first occurrence of a separator.
- `http_types.dfy`: the parts of the `http` crate the code relies on:
  - method and version texts;
  - the URI components read;
  - `HeaderName::from_str` (a token, lower-cased);
  - `HeaderValue::from_str` (every UTF-8 byte at least 0x20 and not 0x7f, or a tab);
  - `HeaderValue::to_str` (visible ASCII, space or tab);
  - `HeaderMap` as an ordered list of entries. `append` adds a value to an existing name's entry, or a new entry at the end. Iteration goes entry by entry.
- `protocol.dfy`: the serialiser.
  - `Serialize` is its specification.
  - `HttpRawRequest` is the imperative method with the header loop.
  - A reader `ParseMessage` takes the bytes apart again for the round-trip lemma.
- `cli.dfy`: `parse_header`, `parse_args` and the polling loop.

Because `append` groups values by name, a `--header Host:x` is listed right after the built-in `host` pair. It is not listed at the end, so the request then carries two `host` lines. `RequestHeaderPairs` states what always holds. `RequestHeadersFresh` and `ParseArgsRequest` state the exact order when the `--header` names are fresh and distinct.

A non-ASCII character in a `--header` value is accepted by `HeaderValue::from_str`, since its UTF-8 bytes are all 0x80 or above. It is later refused by `to_str`. So `parse_args` fails with the serialiser's error on such an argument (`ParseArgsToStr`).

## Model

| member | source | states |
|---|---|---|
| Protocol.HttpRawRequest | src/core/protocol.rs:22-37 | The bytes appended to the empty buffer are exactly `Serialize(request)`. Those are the request line, each header pair's line in iteration order, then CRLF. If any value fails `to_str`, the result is the error and no buffer. |
| Protocol.RawRequest | src/core/protocol.rs:4-7 | The public entry point returns exactly what the HTTP serialiser returns: `Serialize(request)`. |
| Protocol.FieldLineWritten | src/core/protocol.rs:31 | What `write!` emits for one pair whose value `to_str` accepted is `name ": " value CRLF`, where the value part is the value's own bytes. |
| Protocol.Refused | src/core/protocol.rs:31 | One value refused by `to_str` anywhere in the map makes the whole serialisation fail with `ToStrError`. |
| Protocol.SerializedFrame | src/core/protocol.rs:26-34 | The output starts with the request line and ends with CR LF CR LF, also when there are no headers. |
| Protocol.FieldLinesLength | src/core/protocol.rs:30-32 | The field lines of valid pairs have length Σ(\|name\| + 2 + \|value\| + 2). |
| Protocol.SerializedLength | src/core/protocol.rs:23-34 | The output length is \|request line\| + Σ(\|name\| + 2 + \|value\| + 2) + 2. |
| Protocol.ParseFieldLines | src/core/protocol.rs:30-34 | Reading the field lines plus the empty line back, splitting each line at CRLF and then at the first ": ", yields every pair in order. |
| Protocol.RoundTrip | src/core/protocol.rs:26-34 | Reading the output back gives the method text, the URI path, the version text, and every header pair in iteration order. Nothing follows the final empty line. |
| Protocol.OnlyPathWritten | src/core/protocol.rs:26-27 | Replacing the URI by any URI with the same path leaves the output unchanged. Scheme, host, port and query never reach it. |
| HttpTypes.ToStr | src/core/protocol.rs:31 | `to_str` succeeds exactly when every byte is visible ASCII, space or tab. |
| HttpTypes.ToStrBytes | src/core/protocol.rs:31 | The text `to_str` returns is written back as exactly the value's bytes. |
| HttpTypes.HeaderNameFromStr | src/main.rs:59-60 | A name is accepted exactly when it is a non-empty token. The result is lower case and equal to the input up to case. |
| HttpTypes.HeaderValueFromStr | src/main.rs:61-62 | An accepted value is the text's UTF-8 bytes, and each of them is a field byte. |
| HttpTypes.HeaderValueFromStrChars | src/main.rs:61-62 | A value is accepted exactly when no character is a control character other than tab. |
| HttpTypes.AppendNewName | src/main.rs:77-79 | Appending under a name the map lacks adds that pair at the end of the iteration. |
| HttpTypes.AppendPairs | src/main.rs:77-79 | Appending adds exactly the new pair to the iteration's multiset of pairs. |
| HttpTypes.ExtendFresh | src/main.rs:81-84 | Extending by pairs with new, distinct names appends them to the iteration in their own order. |
| HttpTypes.ExtendPairs | src/main.rs:81-84 | Extending adds exactly the given pairs to the iteration's multiset, whatever their names. |
| HttpTypes.ExtendKeepsFirst | src/main.rs:81-84 | Extending never displaces the first pair of the iteration. |
| Cli.SplitOnce | src/main.rs:55 | There is no split exactly when the colon is absent. A split gives `before ++ ":" ++ after` with no colon before. |
| Cli.SplitOnceFirst | src/main.rs:55 | The split is at the first colon, whatever follows it. |
| Cli.ParseHeader | src/main.rs:53-65 | An accepted header has a valid name and a valid value. |
| Cli.ParseHeaderNoColon | src/main.rs:56 | The result is "Invalid HTTP header" exactly when the argument has no colon. |
| Cli.ParseHeaderSplitsAtFirstColon | src/main.rs:54-63 | For `name:value` with no colon in `name`: "Invalid header name: …" if the name is not a non-empty token; else "Invalid header value: …" if the value has a control character; else the lower-cased name and the value's UTF-8 bytes. The value keeps later colons and leading spaces. |
| Cli.ParseHeaderAccepted | src/main.rs:54-63 | An accepted header is `name:value`, with no colon in `name`, the lower-cased `name` and the UTF-8 bytes of `value`. |
| Cli.DecimalText | src/main.rs:87-91 | The port is formatted as non-empty decimal digits with no leading zero. |
| Cli.DecimalRoundTrip | src/main.rs:87-91 | The decimal text of the port reads back as the port. |
| Cli.ParseArgs | src/main.rs:67-104 | The result is "Invalid host" exactly when the URL has no host. |
| Cli.KeepaliveRule | src/main.rs:68 | Keep-alive is on exactly when `--keep` is given and the version is HTTP/1.1. |
| Cli.ConnectionRule | src/main.rs:70 | The `Connection` value is "keep-alive" exactly when keep-alive is on, and "close" exactly when it is off. |
| Cli.KeepaliveMatchesConnection | src/main.rs:68-79 | Whatever the `--header` pairs, a configured request carries a `connection` pair whose value is "keep-alive" or "close" as the configured keep-alive flag says. |
| Cli.BuilderNames | src/main.rs:77-79 | The builder's names "User-Agent", "Host" and "Connection" become "user-agent", "host" and "connection". |
| Cli.BuilderValueAccepted | src/main.rs:77-79 | `HeaderValue::from_str` accepts the built-in values (visible text) as one byte per character. |
| Cli.BuiltinIter | src/main.rs:73-79 | After the three `.header` calls, the map iterates as user-agent, host, connection. |
| Cli.RequestHeaderPairs | src/main.rs:73-84 | The request's first pair is `user-agent: webbench-rs`. Its pairs are exactly the built-in three plus the `--header` pairs, as a multiset. |
| Cli.RequestHeadersFresh | src/main.rs:73-84 | With fresh, distinct `--header` names, the pairs are the built-in three followed by the `--header` pairs in command-line order. |
| Cli.RequestSerializes | src/main.rs:100 | The built request serialises exactly when every `--header` value is visible ASCII. |
| Cli.AddressChoice | src/main.rs:86-96 | With a proxy, the addresses are exactly `[proxy]` and "Invalid addrs" cannot occur. Without one, the name resolved is `host:port` (80 when the URL has no port). "Invalid addrs" happens exactly when that resolution fails. |
| Cli.DefaultPortText | src/main.rs:90 | Without a port in the URL, the resolved name is `host:80`. |
| Cli.ParseArgsToStr | src/main.rs:100 | With host and addresses settled, the result is the `to_str` error exactly when some `--header` value is not visible ASCII. Otherwise it succeeds. |
| Cli.BuiltRequestRoundTrip | src/main.rs:73-100 | The built request's bytes read back as method, URL path, version, the built-in pairs and the `--header` pairs, when the latter have fresh, distinct names. |
| Cli.ParseArgsRequest | src/main.rs:73-100 | When the `--header` names are valid, distinct and not among the built-in ones, the configured request bytes read back as method, URL path, version, `user-agent`, `host` and `connection`, then the `--header` pairs. |
| Cli.FailureRatioMatchesF64 | src/main.rs:136 | The quotient test "failed / success > 0.5" is `2*failed > success`. This holds for exact division with success > 0. It also holds for the two IEEE cases with success = 0: +inf compares true, NaN compares false. |
| Cli.StopsByTimeUp | src/main.rs:142-143 | Whatever the status, the poll at which the countdown is zero stops the loop. |
| Cli.Supervise | src/main.rs:128-148 | The loop polls between 1 and time + 1 times. No poll before the last meets the stop rule. The last poll stops for the first reason of the rule in order: failures, interruption, countdown at zero. The returned counters are the ones read at that poll. |
| Cli.FirstStopUnique | src/main.rs:129-148 | The stopping poll is the first one the rule fires on, so it is determined by the statuses alone. |

## Left out

- The benchmark engine in `src/core/webbench.rs` is not part of this model: `Webbench::new`, `start`, `status`, `stop`, and its workers and atomics.
  - The loop receives the statuses it reads as a parameter `statusAt`.
  - `main` reads `failed`, `success`, `received` and `interrupted`, while the `Status` declared in `src/core/webbench.rs` has only `recived` and `success`. The model follows `main`.
- Name resolution (`to_socket_addrs`) is the parameter `resolve` of `ParseArgs`. `SocketAddr` keeps its address as text, and parsing and printing it are not modelled.
- Command-line parsing by clap is not modelled. `Args` is the parsed value. The `1..` range that clap enforces on `--time` and `--client` is not required by the model.
- `Uri::from_str` is not modelled. A URI is its components, restricted to what the serialiser and `parse_args` rely on. The `path` component stands for what `Uri::path` returns, which is "/" for an absolute URI with no path.
- HttpTypes.HeaderNameFromStr: the crate's 64 KiB limit on a header name is not modelled.
- `http::Method` extension methods are not modelled, only the nine standard methods. The `Method` and `Version` of `crate::core` are not part of this model: the model uses the crate's types directly.
- The request builder's own error, and the `unwrap` of `headers_mut`, are not modelled. Neither can occur for the URIs the model admits: `HostIsVisible` and `BuilderValueAccepted` show that the host value is accepted.
- `write!` into a `Vec<u8>` cannot fail, so its I/O error is not modelled.
- Cli.FailureRatioMatchesF64: the quotient is exact real division, not `f64` division. The argument that rounding cannot move a quotient of two 32-bit counters across 0.5 is not proved.
- The report arithmetic after the loop (`f64` rates, `byte_unit` formatting) is not modelled.
- `print!`/`println!` output, `std::thread::sleep`, and the `from_utf8` check of the request before printing are not modelled.
- The `received` counter (a 64-bit atomic) is an unbounded natural.
