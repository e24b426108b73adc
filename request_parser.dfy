/**
 * The request-line parser of the proxy's connection handler
 * (`parse_request`): from the text a client sent, the method, the target
 * host and the target port, or nothing when the line cannot be parsed.
 *
 * The rule lemmas below are direct proofs, not inductions. They carry
 * `{:induction false}` only to stop Dafny adding induction hypotheses over
 * their string and number parameters, which makes the solver's work much larger.
 */
module RequestParser {
  import opened Wrappers
  import opened PyStr

  /** What `parse_request` returns on success: `(method, host, port)`; `verb` is the request method. */
  datatype Request = Request(verb: string, host: string, port: int)

  const ConnectMethod: string := "CONNECT"
  /** Port used for a CONNECT target without `:port`. */
  const TunnelDefaultPort: int := 443
  /** Port used for any other request whose authority has no `:port`. */
  const HttpDefaultPort: int := 80

  /** The first line of the text, before any `\n`. */
  function FirstLine(text: string): (line: string)
    ensures '\n' !in line
    ensures |line| <= |text| && line == text[..|line|]
    ensures |line| < |text| ==> text[|line|] == '\n'
  {
    var k := Find(text, ['\n']);
    FindChar(text, '\n');
    SplitFirstPart(text, '\n');
    var line := Split(text, '\n')[0];
    assert k == -1 ==> line == text;
    assert k != -1 ==> line == text[..k] && |line| == k;
    line
  }

  /**
   * Parses everything the client sent, of which only the first line matters.
   * A method that is found never starts with whitespace and holds no space.
   */
  function ParseRequest(text: string): (r: Option<Request>)
    ensures r.Some? ==> |r.value.verb| > 0 && !IsSpace(r.value.verb[0]) && ' ' !in r.value.verb
  {
    var line := Strip(FirstLine(text), IsSpace);
    var r := ParseRequestLine(line);
    if r.Some? then
      assert line[..|r.value.verb|] == r.value.verb && line[|r.value.verb|] == ' ';
      assert IsSpace(' ');
      r
    else r
  }

  /**
   * Parses a stripped request line: the method is the text before the first
   * space, the target the text between the first and second spaces.
   */
  function ParseRequestLine(line: string): (r: Option<Request>)
    ensures ' ' !in line ==> r == None
    ensures r.Some? ==>
      var m := r.value.verb;
      |m| < |line| && line[..|m|] == m && line[|m|] == ' ' && ' ' !in m
  {
    var parts := Split(line, ' ');
    FindChar(line, ' ');
    SplitFirstPart(line, ' ');
    if |parts| < 2 then None
    else
      var verb := parts[0];
      var url := parts[1];
      if verb == ConnectMethod then ParseConnectTarget(url)
      else ParseHttpTarget(verb, url)
  }

  /** A CONNECT target is `host[:port]`, the port defaulting to 443. */
  function ParseConnectTarget(url: string): (r: Option<Request>)
    ensures r.Some? ==> r.value.verb == ConnectMethod
    ensures r.Some? ==>
      var h := r.value.host;
      ':' !in h && |h| <= |url| && h == url[..|h|] && (|h| < |url| ==> url[|h|] == ':')
  {
    var address := Split(url, ':');
    FindChar(url, ':');
    SplitFirstPart(url, ':');
    if |address| < 2 then Some(Request(ConnectMethod, address[0], TunnelDefaultPort))
    else
      match ParseInt(address[1])
      case None => None
      case Some(port) => Some(Request(ConnectMethod, address[0], port))
  }

  /**
   * The target with everything up to and including the first `://` removed:
   * the target itself when it holds no `://`, otherwise the text after the
   * first one.
   */
  function StripScheme(url: string): (r: string)
    ensures |r| <= |url| && r == url[|url| - |r|..]
    ensures Find(url, "://") == -1 <==> |r| == |url|
    ensures |r| < |url| ==> OccursAt(url, "://", |url| - |r| - 3)
    ensures forall j :: 0 <= j < |url| - |r| - 3 ==> !OccursAt(url, "://", j)
  {
    var i := Find(url, "://");
    if i == -1 then url else url[i + 3..]
  }

  /** The authority of a target: what follows the scheme, up to the first `/`. */
  function Authority(url: string): (a: string)
    ensures '/' !in a
    ensures var rest := StripScheme(url); |a| <= |rest| && a == rest[..|a|] && (|a| < |rest| ==> rest[|a|] == '/')
  {
    var rest := StripScheme(url);
    var j := Find(rest, "/");
    FindChar(rest, '/');
    if j == -1 then rest else rest[..j]
  }

  /** Any other method: the authority is `host[:port]`, the port defaulting to 80. */
  function ParseHttpTarget(verb: string, url: string): (r: Option<Request>)
    ensures r.Some? ==> r.value.verb == verb
    ensures r.Some? ==>
      var base, h := Authority(url), r.value.host;
      ':' !in h && |h| <= |base| && h == base[..|h|] && (|h| < |base| ==> base[|h|] == ':')
  {
    var base := Authority(url);
    var k := Find(base, ":");
    FindChar(base, ':');
    if k == -1 then
      assert ':' !in base;
      Some(Request(verb, base, HttpDefaultPort))
    else
      var host := base[..k];
      assert ':' !in host && |host| == k && base[k] == ':';
      match ParseInt(base[k + 1..])
      case None => None
      case Some(port) => Some(Request(verb, host, port))
  }

  /** Only the first line, stripped, is examined: later lines never matter. */
  lemma LaterLinesIgnored(line: string, rest: string)
    requires '\n' !in line
    ensures ParseRequest(line + "\n" + rest) == ParseRequestLine(Strip(line, IsSpace))
    ensures ParseRequest(line + "\n" + rest) == ParseRequest(line)
  {
    SplitFirst(line, '\n', rest);
    SplitNone(line, '\n');
  }

  /**
   * A line `verb target tail`, where `tail` is empty or starts with a space,
   * is parsed by the CONNECT rule or by the rule for other methods,
   * according to the verb alone.
   */
  lemma {:induction false} RequestLineTokens(verb: string, target: string, tail: string)
    requires ' ' !in verb && ' ' !in target
    requires tail == [] || tail[0] == ' '
    ensures ParseRequestLine(verb + " " + target + tail) ==
      if verb == ConnectMethod then ParseConnectTarget(target) else ParseHttpTarget(verb, target)
  {
    assert verb + " " + target + tail == verb + [' '] + (target + tail);
    SplitFirst(verb, ' ', target + tail);
    SplitHead(target, ' ', tail);
  }

  /** `CONNECT host` without a port goes to port 443. */
  lemma {:induction false} ConnectDefaultPort(target: string)
    requires ':' !in target
    ensures ParseConnectTarget(target) == Some(Request(ConnectMethod, target, TunnelDefaultPort))
  {
    SplitNone(target, ':');
  }

  /**
   * `CONNECT host:port...`: the host is the text before the first `:`, the
   * port is `int()` of the second `:`-separated segment, and a port that
   * `int()` rejects fails the whole parse.
   */
  lemma {:induction false} ConnectExplicitPort(host: string, port: string, more: string)
    requires ':' !in host && ':' !in port
    requires more == [] || more[0] == ':'
    ensures ParseConnectTarget(host + ":" + port + more) ==
      match ParseInt(port)
      case None => None
      case Some(n) => Some(Request(ConnectMethod, host, n))
  {
    assert host + ":" + port + more == host + [':'] + (port + more);
    SplitFirst(host, ':', port + more);
    SplitHead(port, ':', more);
  }

  /**
   * A CONNECT port preceded by U+001C is rejected: `int()` does not skip
   * that separator, although `strip()` would.
   */
  lemma {:induction false} ConnectSeparatorRejected(host: string, digits: string)
    requires ':' !in host && ValidDigits(digits)
    ensures ParseConnectTarget(host + ":" + (['\U{1C}'] + digits)) == None
  {
    assert ':' !in ['\U{1C}'] + digits by {
      assert forall i :: 0 <= i < |digits| ==> IsDigit(digits[i]) || digits[i] == '_';
    }
    assert host + ":" + (['\U{1C}'] + digits) == host + ":" + (['\U{1C}'] + digits) + [];
    ConnectExplicitPort(host, ['\U{1C}'] + digits, []);
    SeparatorRejected(digits);
  }

  /**
   * Everything up to and including the first `://` is dropped, wherever it
   * is: `before` may be a scheme, or a host, port and path whose query holds
   * another URL.
   */
  lemma {:induction false} SchemeDropped(before: string, after: string)
    requires forall j :: !OccursAt(before, "://", j)
    ensures StripScheme(before + "://" + after) == after
  {
    var url := before + "://" + after;
    assert OccursAt(url, "://", |before|) by {
      assert url[|before|..|before| + 3] == "://";
    }
    forall j | 0 <= j < |before| ensures !OccursAt(url, "://", j) {
      if j + 3 <= |before| {
        assert url[j..j + 3] == before[j..j + 3];
        assert !OccursAt(before, "://", j);
      } else {
        var k := |before| - j;
        assert url[j..j + 3][k] == url[|before|] == ':';
        assert "://"[k] == '/';
      }
    }
    assert url[|before| + 3..] == after;
  }

  /** Text without a `:` holds no `://`. */
  lemma NoColonNoScheme(s: string)
    requires ':' !in s
    ensures forall j :: !OccursAt(s, "://", j)
  {
    forall j ensures !OccursAt(s, "://", j) {
      if 0 <= j && j + 3 <= |s| {
        assert s[j..j + 3][0] == s[j];
      }
    }
  }

  /** Without `://` the whole target is kept. */
  lemma {:induction false} NoSchemeKept(url: string)
    requires Find(url, "://") == -1
    ensures StripScheme(url) == url
  {
  }

  /** The authority ends at the first `/` after the scheme. */
  lemma {:induction false} AuthorityBeforePath(url: string, authority: string, path: string)
    requires StripScheme(url) == authority + path
    requires '/' !in authority && (path == [] || path[0] == '/')
    ensures Authority(url) == authority
  {
    assert (authority + path)[..|authority|] == authority;
  }

  /** An authority without `:` is the host, and the port is 80. */
  lemma {:induction false} HttpDefaultPortRule(verb: string, url: string)
    requires ':' !in Authority(url)
    ensures ParseHttpTarget(verb, url) == Some(Request(verb, Authority(url), HttpDefaultPort))
  {
    FindChar(Authority(url), ':');
  }

  /**
   * An authority `host:rest` gives the host before the first `:` and the port
   * `int(rest)`; a port that `int()` rejects fails the whole parse.
   */
  lemma {:induction false} HttpExplicitPortRule(verb: string, url: string, host: string, port: string)
    requires Authority(url) == host + ":" + port && ':' !in host
    ensures ParseHttpTarget(verb, url) ==
      match ParseInt(port)
      case None => None
      case Some(n) => Some(Request(verb, host, n))
  {
    var base := Authority(url);
    assert base == host + [':'] + port;
    FindCharAfter(host, ':', port);
    var k := Find(base, ":");
    assert k == |host| && base[..k] == host && base[k + 1..] == port;
  }

  /** The request line a client writes for `CONNECT host:port` parses back to that host and port. */
  lemma {:induction false} ConnectRoundTrip(host: string, port: nat, version: string)
    requires ' ' !in host && ':' !in host && ' ' !in version
    ensures ParseRequestLine("CONNECT " + host + ":" + Decimal(port) + " " + version)
      == Some(Request(ConnectMethod, host, port))
  {
    var target := host + ":" + Decimal(port);
    assert "CONNECT " + host + ":" + Decimal(port) + " " + version == "CONNECT" + " " + target + (" " + version);
    assert ' ' !in Decimal(port);
    RequestLineTokens("CONNECT", target, " " + version);
    assert target == host + ":" + Decimal(port) + [];
    ConnectExplicitPort(host, Decimal(port), []);
    assert ':' !in Decimal(port);
    ParseIntDecimal(port);
  }

  /** An absolute-form target `scheme://host:port/path` parses back to that host and port. */
  lemma {:induction false} HttpRoundTrip(verb: string, scheme: string, host: string, port: nat, path: string, version: string)
    requires verb != ConnectMethod && ' ' !in verb
    requires ' ' !in scheme && forall j :: !OccursAt(scheme, "://", j)
    requires ' ' !in host && ':' !in host && '/' !in host
    requires (path == [] || path[0] == '/') && ' ' !in path && ' ' !in version
    ensures ParseRequestLine(verb + " " + scheme + "://" + host + ":" + Decimal(port) + path + " " + version)
      == Some(Request(verb, host, port))
  {
    var authority := host + ":" + Decimal(port);
    var url := scheme + "://" + (authority + path);
    assert ' ' !in Decimal(port) && '/' !in Decimal(port);
    assert verb + " " + scheme + "://" + host + ":" + Decimal(port) + path + " " + version
      == verb + " " + url + (" " + version);
    RequestLineTokens(verb, url, " " + version);
    SchemeDropped(scheme, authority + path);
    AuthorityBeforePath(url, authority, path);
    HttpExplicitPortRule(verb, url, host, Decimal(port));
    ParseIntDecimal(port);
  }

  /** An absolute-form target `scheme://host/path` without a port parses to that host and port 80. */
  lemma {:induction false} HttpRoundTripDefaultPort(verb: string, scheme: string, host: string, path: string, version: string)
    requires verb != ConnectMethod && ' ' !in verb
    requires ' ' !in scheme && forall j :: !OccursAt(scheme, "://", j)
    requires ' ' !in host && ':' !in host && '/' !in host
    requires (path == [] || path[0] == '/') && ' ' !in path && ' ' !in version
    ensures ParseRequestLine(verb + " " + scheme + "://" + host + path + " " + version)
      == Some(Request(verb, host, HttpDefaultPort))
  {
    var url := scheme + "://" + (host + path);
    assert verb + " " + scheme + "://" + host + path + " " + version == verb + " " + url + (" " + version);
    RequestLineTokens(verb, url, " " + version);
    SchemeDropped(scheme, host + path);
    AuthorityBeforePath(url, host, path);
    HttpDefaultPortRule(verb, url);
  }

  /** A request line ended by CRLF parses like the bare line: the `\r` is stripped and later lines never matter. */
  lemma {:induction false} CrLfTerminated(line: string, rest: string)
    requires '\n' !in line
    ensures ParseRequest(line + "\r\n" + rest) == ParseRequest(line)
    ensures ParseRequest(line + "\r\n" + rest) == ParseRequestLine(Strip(line, IsSpace))
  {
    var first := line + ['\r'];
    assert line + "\r\n" + rest == first + "\n" + rest;
    LaterLinesIgnored(first, rest);
    LaterLinesIgnored(line, rest);
    StripTrailingSpace(line, '\r', IsSpace);
  }

  /** `str(9000)`, for the CONNECT example below. */
  lemma DecimalNineThousand()
    ensures Decimal(9000) == "9000"
  {
    assert Decimal(9) == "9";
    assert Decimal(90) == "90";
    assert Decimal(900) == "900";
  }

  /** The CONNECT example line, cut into the pieces `ConnectRoundTrip` takes. */
  lemma ConnectExampleText()
    ensures "CONNECT example.com:9000 HTTP/1.1" == "CONNECT " + "example.com" + ":" + "9000" + " " + "HTTP/1.1"
  {
  }

  /** The GET example line, cut into the pieces `HttpRoundTripDefaultPort` takes. */
  lemma GetExampleText()
    ensures "GET http://a.com/page?x=1 HTTP/1.1" == "GET" + " " + "http" + "://" + "a.com" + "/page?x=1" + " " + "HTTP/1.1"
  {
  }

  /** A single line without surrounding whitespace is parsed as it stands. */
  lemma {:induction false} SingleLine(line: string)
    requires '\n' !in line
    requires line == [] || (!IsSpace(line[0]) && !IsSpace(line[|line| - 1]))
    ensures ParseRequest(line) == ParseRequestLine(line)
  {
    SplitNone(line, '\n');
    StripNoop(line, IsSpace);
  }

  /**
   * A whole request whose first line is unpadded and ends in CRLF, with any
   * header lines after it, parses exactly like that request line.
   */
  lemma CrLfRequest(line: string, rest: string)
    requires '\n' !in line
    requires |line| > 0 && !IsSpace(line[0]) && !IsSpace(line[|line| - 1])
    ensures ParseRequest(line + "\r\n" + rest) == ParseRequestLine(line)
  {
    CrLfTerminated(line, rest);
    StripNoop(line, IsSpace);
  }

  /**
   * The CONNECT example request line. By `CrLfRequest`, a whole request
   * starting with this line and CRLF gives the same result, whatever headers follow.
   */
  lemma ExampleConnectWithPort()
    ensures ParseRequestLine("CONNECT example.com:9000 HTTP/1.1") == Some(Request("CONNECT", "example.com", 9000))
  {
    DecimalNineThousand();
    ConnectExampleText();
    ConnectRoundTrip("example.com", 9000, "HTTP/1.1");
  }

  /**
   * The absolute-form GET example request line. By `CrLfRequest`, a whole
   * request starting with this line and CRLF gives the same result.
   */
  lemma ExampleAbsoluteGet()
    ensures ParseRequestLine("GET http://a.com/page?x=1 HTTP/1.1") == Some(Request("GET", "a.com", 80))
  {
    GetExampleText();
    NoColonNoScheme("http");
    HttpRoundTripDefaultPort("GET", "http", "a.com", "/page?x=1", "HTTP/1.1");
  }

  /** The whole CONNECT example request, header lines included, parses to its target. */
  lemma ExampleConnectRequest(headers: string)
    ensures ParseRequest("CONNECT example.com:9000 HTTP/1.1" + "\r\n" + headers)
      == Some(Request("CONNECT", "example.com", 9000))
  {
    var line := "CONNECT example.com:9000 HTTP/1.1";
    assert line[0] == 'C' && line[|line| - 1] == '1';
    CrLfRequest(line, headers);
    ExampleConnectWithPort();
  }

  /** The whole GET example request, header lines included, parses to its target. */
  lemma ExampleGetRequest(headers: string)
    ensures ParseRequest("GET http://a.com/page?x=1 HTTP/1.1" + "\r\n" + headers)
      == Some(Request("GET", "a.com", 80))
  {
    var line := "GET http://a.com/page?x=1 HTTP/1.1";
    assert line[0] == 'G' && line[|line| - 1] == '1';
    CrLfRequest(line, headers);
    ExampleAbsoluteGet();
  }
}
