# A verified model of the proxy's parsing and policy core

This project models the four small sequential parts of a forwarding HTTP/HTTPS proxy written in Python. They are:

- **Request-line parser** (`parse_request`): reads the method, target host and target port from the first line a client sends. It returns nothing when that line cannot be parsed.
- **Domain blocklist** (`is_blocked`, `BLOCKED_DOMAINS`): a host is blocked when it is a listed domain or a subdomain of one. The check ignores case and one leading `www.`.
- **Response cache** (`CACHE_STORE`, `CACHE_TIMEOUT`, `get_cache`, `save_cache`): a URL-keyed store of `(data, timestamp, last_modified)`.
  - A hit younger than 5 seconds is served as it is.
  - An older hit comes back with its `Last-Modified` value so that the caller can revalidate.
- **Usage counters**: the four module-global counters and their update functions `increment_total`, `increment_blocked`, `increment_cache` and `add_bytes`.

The modules are:

- `Wrappers`: the `Option` type. `None` plays the part of Python's `(None, None, None)` failure triple and of the `ValueError` raised by `int()`.
- `PyStr`: the Python `str` operations the parser and the filter use: `find`, `split`, `strip`, `lower`, `startswith`, `endswith` and `int()`.
  - `find`, `split`, `lower`, `strip` (and its two halves) and `int()` carry contracts of their own.
  - Lemmas fix the rest exactly. `JoinSplit` makes `split` invertible. `StripPadded` and `StripAllSpace` determine `strip`. `ParseIntWellFormed` and `ParseIntOnlyWellFormed` together say that `int(s) == n` exactly when `s` is a padded, optionally signed, well-formed numeral of value `n`.
  - `startswith` and `endswith` are characterised as "is some prefix followed by text" and "is text followed by some suffix".
  - `strip` takes the whitespace set as a parameter. `str.strip()` (`IsSpace`, Python's `isspace()`) and `int()` (`IntSpace`) skip different characters: `int()` rejects the separators U+001C to U+001F, which `strip()` removes.
- `RequestParser`: `parse_request`, written as pure functions over the decoded text.
- `Filter`: two parts.
  - `Blocked`, the existential specification: some listed domain covers the normalised host.
  - `IsBlocked`, the source's early-return search loop, proved equal to `Blocked`.
- `Cache`: the class `ResponseCache`, whose `store` field is a `map` that `Save` replaces in place. `Get` is a reading function, and the clock is an explicit integer `now`.
- `Stats`: the class `UsageStats`, with one field per counter and one `modifies this` method per update function. A value-level specification sits beside it: `Step` for one call and `Run` for a sequence of calls. Lemmas over that specification prove that no update is lost and that the counters only grow.

Three behaviours of the code differ from what a reader might expect of a proxy; the model follows the code:

- **Scheme removal.** A scheme is meant to be stripped only as a prefix of the target. The code drops everything up to the first `://` found anywhere in the target, so `GET a.com:8080/r?u=http://b.com X` goes to `b.com` on port 80 (`SchemeDropped`).
- **Return value.** `parse_request` returns only `(method, host, port)`, not the raw target or the raw bytes, and so does the model.
- **Port range.** Ports are never range-checked. `int()` accepts a sign, so `CONNECT h:-1 X` parses to port -1 (`ParseIntNegative`).

## Model

| member | source | states |
|---|---|---|
| PyStr.IsSpace | proxy_handler.py:18 | Python's `isspace()`, the set `strip()` removes: it holds space, tab, `\n` and `\r`, and no digit, sign, `:` or `/` |
| PyStr.IntSpace | proxy_handler.py:36 | the whitespace `int()` skips: part of `isspace()`, with space, tab, `\n` and `\r`, but without U+001C to U+001F |
| PyStr.Find | proxy_handler.py:40 | `str.find`: the result is -1 or an index where the pattern occurs, and there is no earlier occurrence |
| PyStr.FindChar | proxy_handler.py:47-48 | finding one character gives -1 exactly when the character is absent; otherwise it gives the index of its first occurrence |
| PyStr.FindCharAfter | proxy_handler.py:54 | in `a + [c] + b` with `c` not in `a`, the first `c` is at index `|a|` |
| PyStr.Split | proxy_handler.py:21 | `str.split(sep)` gives at least one part, and no part contains the separator |
| PyStr.JoinSplit | proxy_handler.py:21 | joining the parts of a split with the separator gives back the original text |
| PyStr.SplitFirstPart | proxy_handler.py:21-23 | there are at least two parts exactly when the separator occurs; the first part is the text before its first occurrence, or the whole text |
| PyStr.SplitNone | proxy_handler.py:17 | text without the separator splits into itself alone |
| PyStr.SplitFirst | proxy_handler.py:17 | `split` of `a + [sep] + b`, with `sep` not in `a`, is `a` followed by the parts of `b` |
| PyStr.SplitHead | proxy_handler.py:25-26 | the first part of `a + b` is `a` when `b` is empty or starts with the separator |
| PyStr.TrimStart | proxy_handler.py:18 | `lstrip`: the result is a suffix of the input, every removed character is whitespace, and the result does not start with whitespace |
| PyStr.TrimEnd | proxy_handler.py:18 | `rstrip`: the result is a prefix of the input, every removed character is whitespace, and the result does not end with whitespace |
| PyStr.Strip | proxy_handler.py:18 | `strip`: the result is no longer than the input and neither starts nor ends with whitespace; `StripPadded` and `StripAllSpace` fix it exactly |
| PyStr.TrimStartPadded | proxy_handler.py:18 | `lstrip` of whitespace followed by text that starts with a non-whitespace character is that text |
| PyStr.TrimEndPadded | proxy_handler.py:18 | `rstrip` of text that ends in a non-whitespace character, followed by whitespace, is that text |
| PyStr.StripPadded | proxy_handler.py:18 | `strip` of whitespace, then a core that neither starts nor ends with whitespace, then whitespace, is exactly the core |
| PyStr.StripAllSpace | proxy_handler.py:18 | `strip` of text made only of whitespace is empty |
| PyStr.TrimStartAppend | proxy_handler.py:18 | `lstrip` of `s + [c]` is `lstrip(s) + [c]`, or empty when both `lstrip(s)` is empty and `c` is whitespace |
| PyStr.StripTrailingSpace | proxy_handler.py:18 | for any text, `strip` ignores an appended whitespace character, such as the `\r` of a CRLF line end |
| PyStr.StripNoop | proxy_handler.py:18 | `strip` leaves unchanged a text that neither starts nor ends with whitespace |
| PyStr.StartsWith | filter.py:17 | `str.startswith`: true exactly when the text is the prefix followed by some text; `Normalize` uses it for the `www.` test |
| PyStr.EndsWith | filter.py:24 | `str.endswith`: true exactly when the text is some text followed by the suffix; `UnderDomain`, `IsBlocked` and `WwwRuleRedundant` use it |
| PyStr.Lower | filter.py:15 | `lower` keeps the length and lower-cases each character in place |
| PyStr.LowerIdempotent | filter.py:15 | lower-casing twice equals lower-casing once |
| PyStr.Decimal | proxy_handler.py:36 | `str(n)` of a natural number is a non-empty string of digits |
| PyStr.DecimalValue | proxy_handler.py:36 | the digits of `str(n)` have the value `n` |
| PyStr.ParseDigits | proxy_handler.py:36 | a number read from bare digits is non-negative, and the digits start with a digit |
| PyStr.ParseSigned | proxy_handler.py:36 | a number is read only when the text starts with a digit, or with `-` or `+` and then a digit |
| PyStr.ParseInt | proxy_handler.py:36 | `int()`: a number is read only from text holding a digit; `ParseIntOnlyWellFormed` states the exact shape |
| PyStr.ParseIntWellFormed | proxy_handler.py:36 | every padded, optionally signed, well-formed numeral reads as its value |
| PyStr.ParseIntOnlyWellFormed | proxy_handler.py:36 | whenever `int()` succeeds, the text is `int()` whitespace around an optional sign and well-formed digits, and the result is their signed value |
| PyStr.LiteralStripped | proxy_handler.py:36 | `strip` over `int()` whitespace leaves exactly the numeral of a well-formed literal |
| PyStr.LiteralSigned | proxy_handler.py:36 | the sign step reads an unsigned, `+` or `-` numeral as its signed value |
| PyStr.ParseIntPlus | proxy_handler.py:36 | a `+` before well-formed digits is accepted and keeps their value, so `CONNECT h:+443 X` gives port 443 |
| PyStr.ParseSignedPlus | proxy_handler.py:36 | the sign step alone: a leading `+` keeps the value of the digits |
| PyStr.RejectedUnpadded | proxy_handler.py:36 | unpadded text that is neither a numeral nor a sign before one makes `int()` fail |
| PyStr.TrailingLetterRejected | proxy_handler.py:36 | `int("80a")` fails |
| PyStr.InnerSpaceRejected | proxy_handler.py:36 | `int("8 0")` fails |
| PyStr.UnderscoresRejected | proxy_handler.py:36 | `int("1__0")` and `int("_1")` fail |
| PyStr.DoubleSignRejected | proxy_handler.py:36 | `int("+-1")` fails |
| PyStr.NoDigitNoNumber | proxy_handler.py:36 | `int()` of a text with no digit, including the empty text, fails |
| PyStr.ParseIntPadded | proxy_handler.py:61 | `int()` skips its own whitespace on either side of well-formed digits |
| PyStr.SeparatorRejected | proxy_handler.py:18 | U+001C before digits is removed by `strip` but makes `int()` fail |
| PyStr.ParseIntUnsigned | proxy_handler.py:36 | `int()` of well-formed unsigned digits is their value |
| PyStr.ParseIntDecimal | proxy_handler.py:36 | `int(str(n)) == n` |
| PyStr.ParseIntMinus | proxy_handler.py:61 | a `-` directly before well-formed digits negates their value |
| PyStr.ParseIntNegative | proxy_handler.py:61 | `int("-" + str(n)) == -n`, so a negative port is accepted |
| RequestParser.FirstLine | proxy_handler.py:17-18 | the first line is the prefix of the text before the first `\n`, or the whole text when there is none |
| RequestParser.ParseRequest | proxy_handler.py:4-67 | a method that is found is non-empty, holds no space and does not start with whitespace; `LaterLinesIgnored` and `CrLfTerminated` reduce it to the request line |
| RequestParser.ParseRequestLine | proxy_handler.py:21-25 | a line without a space gives no request; on success the method is exactly the text before the first space |
| RequestParser.LaterLinesIgnored | proxy_handler.py:17-18 | only the stripped first line is parsed; whatever follows the first `\n` never changes the result |
| RequestParser.CrLfTerminated | proxy_handler.py:17-18 | for any line, ending it with `\r\n` and more text does not change the parse: it parses like the stripped bare line |
| RequestParser.CrLfRequest | proxy_handler.py:17-18 | a whole request whose unpadded first line ends in `\r\n` parses exactly like that line, whatever header lines follow |
| RequestParser.SingleLine | proxy_handler.py:17-18 | one line without surrounding whitespace is parsed as it stands |
| RequestParser.RequestLineTokens | proxy_handler.py:21-38 | for `verb target tail`, the target alone goes to the CONNECT rule when the verb is `CONNECT`, and to the rule for other methods otherwise |
| RequestParser.ParseConnectTarget | proxy_handler.py:32-36 | a CONNECT parse keeps the method `CONNECT`, and its host is the target up to the first `:`; `ConnectDefaultPort` and `ConnectExplicitPort` give the port |
| RequestParser.ConnectDefaultPort | proxy_handler.py:34-36 | a CONNECT target without `:` is the host, with port 443 |
| RequestParser.ConnectExplicitPort | proxy_handler.py:34-36 | `host:port...` gives the host before the first `:` and `int()` of the second segment; when `int()` fails, the whole parse fails |
| RequestParser.ConnectSeparatorRejected | proxy_handler.py:34-36 | a CONNECT port preceded by U+001C fails the parse, because `int()` does not skip that character |
| RequestParser.StripScheme | proxy_handler.py:40-44 | the result is the text after the first `://`, or the whole target when it holds none |
| RequestParser.SchemeDropped | proxy_handler.py:40-44 | everything up to and including the first `://` is dropped, whatever comes before it, `:` included |
| RequestParser.NoColonNoScheme | proxy_handler.py:40 | text without `:` holds no `://` |
| RequestParser.NoSchemeKept | proxy_handler.py:40-42 | a target without `://` is kept whole |
| RequestParser.Authority | proxy_handler.py:46-51 | the authority holds no `/` and is the text after the scheme up to its first `/` |
| RequestParser.AuthorityBeforePath | proxy_handler.py:47-51 | the authority is the text after the scheme and before the first `/` |
| RequestParser.ParseHttpTarget | proxy_handler.py:38-61 | a parse keeps the method, and its host is the authority up to the first `:`; `HttpDefaultPortRule` and `HttpExplicitPortRule` give the port |
| RequestParser.HttpDefaultPortRule | proxy_handler.py:54-58 | an authority without `:` is the host, with port 80 |
| RequestParser.HttpExplicitPortRule | proxy_handler.py:59-61 | `host:rest` gives the host before the first `:` and the port `int(rest)`; when `int()` fails, the whole parse fails |
| RequestParser.ConnectRoundTrip | proxy_handler.py:32-36 | the line `CONNECT host:n version` parses back to `("CONNECT", host, n)` |
| RequestParser.HttpRoundTrip | proxy_handler.py:39-61 | `verb scheme://host:n/path version` parses back to `(verb, host, n)` |
| RequestParser.HttpRoundTripDefaultPort | proxy_handler.py:39-58 | `verb scheme://host/path version` parses back to `(verb, host, 80)` |
| RequestParser.ExampleConnectWithPort | proxy_handler.py:33-36 | `CONNECT example.com:9000 HTTP/1.1` gives `("CONNECT", "example.com", 9000)` |
| RequestParser.ExampleAbsoluteGet | proxy_handler.py:40-58 | `GET http://a.com/page?x=1 HTTP/1.1` gives `("GET", "a.com", 80)` |
| Filter.Normalize | filter.py:15-18 | the normalised host is the lower-cased host, with its first four characters dropped exactly when it starts with `www.` |
| RequestParser.ExampleConnectRequest | proxy_handler.py:4-36 | the whole request `CONNECT example.com:9000 HTTP/1.1\r\n` with any headers gives `("CONNECT", "example.com", 9000)` |
| RequestParser.ExampleGetRequest | proxy_handler.py:4-58 | the whole request `GET http://a.com/page?x=1 HTTP/1.1\r\n` with any headers gives `("GET", "a.com", 80)` |
| Filter.UnderDomain | filter.py:20-25 | the host is the listed domain itself or some text followed by `"."` and the domain, the match `is_blocked` makes; `IsBlocked` and `WwwRuleRedundant` build on it |
| Filter.Blocked | filter.py:11-27 | a blocked host is present and at least as long as the shortest listed domain; `IsBlocked` and `WwwRuleRedundant` characterise it |
| Filter.IsBlocked | filter.py:11-27 | the search loop answers exactly `Blocked`: some listed domain equals the normalised host or is a dot-suffix of it |
| Filter.EmptyNeverBlocked | filter.py:12-13 | the empty host is never blocked; an absent host is excluded by `Blocked` itself |
| Filter.CaseInsensitive | filter.py:15 | a host and its lower-cased form get the same verdict |
| Filter.ListedDomainsWithoutWww | filter.py:3-9 | no listed domain starts with `www.` |
| Filter.ListedDomainBlocked | filter.py:17-21 | a listed domain, in any case and with or without `www.`, is blocked |
| Filter.WwwSubdomain | filter.py:17-24 | dropping a leading `www.` from a subdomain of a listed domain leaves it under that domain |
| Filter.SubdomainBlocked | filter.py:23-25 | a host whose lower-cased form ends with `"." + d` for a listed `d` is blocked |
| Filter.NormalizedUnderDomain | filter.py:17-25 | a listed domain that covers the host after `www.` is stripped also covers it before |
| Filter.WwwRuleRedundant | filter.py:11-27 | blocked exactly when the lower-cased host equals a listed domain or ends with `"." + d` for one (both directions) |
| Filter.ExampleWwwDomain | filter.py:7 | `www.divar.ir` is blocked |
| Filter.ExampleSubdomain | filter.py:23-25 | `Sub.Divar.IR` is blocked |
| Filter.ExampleLookalike | filter.py:23-27 | `notdivar.ir` is not blocked |
| Cache.IsFresh | cache.py:10 | the `time.time() - timestamp < CACHE_TIMEOUT` test: an entry read no later than it was saved is fresh, and one read `CACHE_TIMEOUT` or more seconds later is stale; `FreshnessLapses` and `Get` use it |
| Cache.FreshnessLapses | cache.py:4-10 | an entry is fresh when saved and stale `CACHE_TIMEOUT` seconds later, and once stale it stays stale |
| Cache.ResponseCache.constructor | cache.py:3 | the store starts empty |
| Cache.ResponseCache.Get | cache.py:6-15 | a miss gives `(None, None)`; a fresh hit gives `(data, None)`; a stale hit gives `(data, last_modified)`; data is returned exactly for stored URLs and is never empty; reading changes nothing |
| Cache.ResponseCache.Save | cache.py:17-19 | empty data leaves the store unchanged. Otherwise the URL's entry is overwritten with `(data, now, last_modified)`, every other URL reads as before, and the URL is a fresh hit returning `(data, None)` for the next 5 seconds |
| Stats.Step | stats.py:7-21 | one call raises the three increment counters' sum by exactly 1 and leaves the byte counter alone, or moves only the byte counter, by exactly `count`; with a non-negative count no counter decreases |
| Stats.Run | stats.py:7-21 | over any sequence of calls, the request, blocked and cache-hit counters never decrease |
| Stats.RunTallies | stats.py:7-21 | after any sequence of calls, each counter has grown by exactly its number of increments and the byte counter by the sum of the counts |
| Stats.BytesAddedNonNegative | stats.py:19-21 | non-negative counts add up to a non-negative total |
| Stats.Monotone | stats.py:7-21 | with non-negative byte counts, no counter ever decreases over any sequence of calls |
| Stats.UsageStats.constructor | stats.py:2-5 | all four counters start at 0 |
| Stats.UsageStats.IncrementTotal | stats.py:7-9 | the request counter grows by 1 and nothing else changes |
| Stats.UsageStats.IncrementBlocked | stats.py:11-13 | the blocked counter grows by 1 and nothing else changes |
| Stats.UsageStats.IncrementCache | stats.py:15-17 | the cache-hit counter grows by 1 and nothing else changes |
| Stats.UsageStats.AddBytes | stats.py:19-21 | the byte counter grows by `count` and nothing else changes |

## Left out

- UTF-8 decoding of the received bytes (proxy_handler.py:14) is not modelled. The parser takes the decoded text, so the decode-error path to `(None, None, None)` is not represented.
- `handle_request` (socket receive, logging and closing), `main.py` (listener and one thread per connection), `logger.py` and `get_stats_html` are I/O or HTML formatting and are not part of this model.
- The diagnostic `print` calls in `parse_request` and `save_cache` are output only and are left out.
- `time.time()` is a float wall clock; the model takes an integer `now` argument instead.
- Thread safety of the shared cache and counters is not modelled; the model is sequential.
- PyStr.Lower lower-cases ASCII letters only, whereas Python's `str.lower` covers all of Unicode.
- PyStr.ParseInt accepts ASCII digits only. Python's `int()` also accepts other Unicode decimal digits and limits a number to 4300 digits.
- Cache.ResponseCache.Save treats only empty data as falsy. The data is always a byte sequence, so Python's `None` data is not represented.
- Stats.UsageStats.AddBytes keeps the byte counter as an unbounded integer, because `add_bytes` accepts any integer, negative ones included. Monotonicity is therefore proved only for non-negative counts.
- Rate limiting, CONNECT tunnelling, the HTTP relay, 304 revalidation and the stats-page routing are not in these source files, so they are not modelled.
