/** SeleniumServer: the HTTP side of the client. A request path becomes a URL
    on the server, a raw reply is split into its header fields and body, and
    the reply is interpreted by its status class and content type. The
    transport (cURL) is replaced by a script of replies, one consumed per
    request, and every request sent is logged. */
module SeleniumServer {
  import opened Wrappers
  import opened Php
  import opened Values
  import opened SeleniumException

  /** The server URL, stored without trailing slashes, and the Location header
      of the last 3xx reply (None until there is one). */
  datatype Server = Server(url: string, lastRedirectLocation: Option<string>)

  /** `new SeleniumServer($serverUrl)` */
  function NewServer(url: string): (s: Server)
    ensures s.lastRedirectLocation.None?
    ensures |s.url| <= |url| && s.url == url[..|s.url|]
    ensures s.url == [] || s.url[|s.url| - 1] != '/'
    ensures forall i :: |s.url| <= i < |url| ==> url[i] == '/'
  {
    Server(RTrim(url, '/'), None)
  }

  /** Constructing a server from the URL of another gives the same URL. */
  lemma NewServerIdempotent(url: string)
    ensures NewServer(NewServer(url).url).url == NewServer(url).url
  {
  }

  // ---------------------------------------------------------------------------
  // Request URLs
  // ---------------------------------------------------------------------------

  /** The URL a request for `path` goes to: the path itself when it already
      contains the server URL (a session path taken from a redirect), the
      server URL, one slash and the path without its leading slashes otherwise. */
  function RequestUrl(server: Server, path: string): (url: string)
    ensures Contains(path, server.url) ==> url == path
    ensures !Contains(path, server.url) ==>
      |url| > |server.url| && url[..|server.url|] == server.url && url[|server.url|] == '/'
  {
    if Contains(path, server.url) then path
    else
      var url := server.url + "/" + LTrim(path, '/');
      assert url[..|server.url|] == server.url;
      url
  }

  /** A relative path is appended to the server URL with exactly one slash
      between the two, and the rest of the URL is the path with its leading
      slashes removed. */
  lemma RequestUrlJoin(base: string, path: string)
    requires !Contains(path, NewServer(base).url)
    ensures var n := |NewServer(base).url|;
      var url := RequestUrl(NewServer(base), path);
      && n < |url| && url[..n] == NewServer(base).url && url[n] == '/'
      && (n == 0 || url[n - 1] != '/')
      && (n + 1 == |url| || url[n + 1] != '/')
      && |url| - n - 1 <= |path| && url[n + 1..] == path[|path| - (|url| - n - 1)..]
      && (forall i :: 0 <= i < |path| - (|url| - n - 1) ==> path[i] == '/')
  {
    var s := NewServer(base).url;
    var rest := LTrim(path, '/');
    var url := s + "/" + rest;
    assert url[..|s|] == s;
    assert url[|s| + 1..] == rest;
    assert url[|s|] == '/';
    assert |s| + 1 < |url| ==> url[|s| + 1] == rest[0];
  }

  /** A path that contains the server URL anywhere, not only at its start
      (say `/x?next=<server URL>`), is used as it is. */
  lemma RequestUrlOfAbsolute(server: Server, path: string, p: nat)
    requires server.url != [] && OccursAt(path, server.url, p)
    ensures RequestUrl(server, path) == path
  {
    assert StrPos(path, server.url).Some?;
  }

  /** In particular a path that starts with the (non-empty) server URL is
      used as it is. */
  lemma RequestUrlOfPrefixed(server: Server, rest: string)
    requires server.url != []
    ensures RequestUrl(server, server.url + rest) == server.url + rest
  {
    StrPosOfPrefix(server.url, rest);
  }

  /** Composing a URL twice changes nothing once the server URL is non-empty. */
  lemma RequestUrlIdempotent(server: Server, path: string)
    requires server.url != []
    ensures RequestUrl(server, RequestUrl(server, path)) == RequestUrl(server, path)
  {
    if !Contains(path, server.url) {
      RequestUrlOfPrefixed(server, "/" + LTrim(path, '/'));
    }
  }

  // ---------------------------------------------------------------------------
  // Splitting a raw reply
  // ---------------------------------------------------------------------------

  const CrLfCrLf: string := "\r\n\r\n"
  const LfLf: string := "\n\n"

  /** The header block and the body of a raw reply: split at the first blank
      line, written "\r\n\r\n" when that occurs anywhere and "\n\n" otherwise;
      no body when there is no blank line at all. */
  function SplitMessage(raw: string): (r: (string, Option<string>))
    ensures Contains(raw, CrLfCrLf) ==>
      && r.1.Some? && raw == r.0 + CrLfCrLf + r.1.value
      && forall j: nat :: j < |r.0| ==> !OccursAt(raw, CrLfCrLf, j)
    ensures !Contains(raw, CrLfCrLf) && Contains(raw, LfLf) ==>
      && r.1.Some? && raw == r.0 + LfLf + r.1.value
      && forall j: nat :: j < |r.0| ==> !OccursAt(raw, LfLf, j)
    ensures !Contains(raw, CrLfCrLf) && !Contains(raw, LfLf) ==> r == (raw, None)
  {
    var separator := if Contains(raw, CrLfCrLf) then CrLfCrLf else LfLf;
    ExplodeFirst(separator, raw)
  }

  /** One header line as the foreach reads it: trimmed, skipped when empty(),
      and otherwise split at its first colon into a name and a trimmed value
      (empty when there is no colon). */
  function ParseField(line: string): Option<(string, string)> {
    var trimmed := Trim(line);
    if IsEmptyString(trimmed) then None
    else
      var (name, value) := ExplodeFirst(":", trimmed);
      Some((name, Trim(value.GetOr(""))))
  }

  /** The header array built from the lines after the status line; a later
      line overwrites an earlier one with the same name. */
  function HeaderFields(lines: seq<string>): map<string, string> {
    if lines == [] then map[]
    else
      var earlier := HeaderFields(lines[..|lines| - 1]);
      match ParseField(lines[|lines| - 1])
      case None => earlier
      case Some((name, value)) => earlier[name := value]
  }

  /** splitHeadersAndBody($response) */
  function SplitHeadersAndBody(raw: string): (r: (map<string, string>, Option<string>))
    ensures r.1.None? <==> !Contains(raw, CrLfCrLf) && !Contains(raw, LfLf)
  {
    var (head, body) := SplitMessage(raw);
    var lines := Explode('\n', head);
    (HeaderFields(lines[1..]), body)
  }

  // ---------------------------------------------------------------------------
  // Header blocks as a server writes them
  // ---------------------------------------------------------------------------

  /** A header field the parser reads back unchanged: a name that does not
      start with white space and has no colon, a value without white space at
      either end, neither spanning lines. */
  predicate WellFormedField(name: string, value: string) {
    && name != [] && !IsTrimChar(name[0]) && ':' !in name && '\n' !in name
    && '\n' !in value
    && (value == [] || (!IsTrimChar(value[0]) && !IsTrimChar(value[|value| - 1])))
  }

  /** "Name: value" */
  function FieldLine(name: string, value: string): string {
    name + ": " + value
  }

  /** The lines of a header block after the status line, each but the last
      still carrying the "\r" of its "\r\n". */
  function FieldParts(fields: seq<(string, string)>): (parts: seq<string>)
    requires fields != []
    ensures |parts| == |fields|
    ensures forall i :: 0 <= i < |fields| - 1 ==> parts[i] == FieldLine(fields[i].0, fields[i].1) + "\r"
    ensures parts[|fields| - 1] == FieldLine(fields[|fields| - 1].0, fields[|fields| - 1].1)
  {
    var line := FieldLine(fields[0].0, fields[0].1);
    if |fields| == 1 then [line] else [line + "\r"] + FieldParts(fields[1..])
  }

  /** A header block: the status line and then each field, lines separated
      by "\r\n". */
  function RenderHead(statusLine: string, fields: seq<(string, string)>): string {
    if fields == [] then statusLine else Join([statusLine + "\r"] + FieldParts(fields), '\n')
  }

  /** The fields as a PHP array built by assigning them in order. */
  function FieldMap(fields: seq<(string, string)>): map<string, string> {
    if fields == [] then map[]
    else FieldMap(fields[..|fields| - 1])[fields[|fields| - 1].0 := fields[|fields| - 1].1]
  }

  /** The trimmed form of a well-formed field line, with or without its "\r". */
  lemma TrimFieldLine(name: string, value: string, cr: bool)
    requires WellFormedField(name, value)
    ensures Trim(FieldLine(name, value) + (if cr then "\r" else ""))
      == (if value == [] then name + ":" else FieldLine(name, value))
  {
    var line := FieldLine(name, value);
    var s := line + (if cr then "\r" else "");
    assert s[0] == name[0];
    assert TrimStart(s, IsTrimChar) == s;
    if cr {
      assert s[..|s| - 1] == line;
    }
    assert TrimEnd(s, IsTrimChar) == TrimEnd(line, IsTrimChar);
    if value == [] {
      var named := name + ":";
      assert line[|line| - 1] == ' ';
      assert line[..|line| - 1] == named;
      assert named[|named| - 1] == ':';
      assert TrimEnd(named, IsTrimChar) == named;
    } else {
      assert line[|line| - 1] == value[|value| - 1];
    }
  }

  /** Trimming a value behind its separating space gives the value back. */
  lemma TrimFieldValue(value: string)
    requires value == [] || (!IsTrimChar(value[0]) && !IsTrimChar(value[|value| - 1]))
    ensures Trim(if value == [] then "" else " " + value) == value
  {
    if value != [] {
      var after := " " + value;
      assert after[1..] == value;
      assert TrimStart(after, IsTrimChar) == value;
    }
  }

  /** A well-formed field line, with or without its "\r", is read back as
      its name and value. */
  lemma ParseFieldLine(line: string, name: string, value: string)
    requires WellFormedField(name, value)
    requires line == FieldLine(name, value) || line == FieldLine(name, value) + "\r"
    ensures ParseField(line) == Some((name, value))
  {
    var cr := line != FieldLine(name, value);
    assert line == FieldLine(name, value) + (if cr then "\r" else "");
    TrimFieldLine(name, value, cr);
    assert Trim(line) == (if value == [] then name + ":" else FieldLine(name, value));
    var after := if value == [] then "" else " " + value;
    var trimmed := name + [':'] + after;
    assert trimmed == Trim(line);
    StrPosOfChar(name, ':', after);
    assert trimmed[..|name|] == name;
    assert trimmed[|name| + 1..] == after;
    assert ExplodeFirst(":", trimmed) == (name, Some(after));
    TrimFieldValue(value);
  }

  /** Lines that are well-formed fields, each possibly followed by "\r", are
      read back as those fields. */
  lemma {:induction false} HeaderFieldsOfLines(lines: seq<string>, fields: seq<(string, string)>)
    requires |lines| == |fields|
    requires forall i :: 0 <= i < |fields| ==> ParseField(lines[i]) == Some(fields[i])
    ensures HeaderFields(lines) == FieldMap(fields)
    decreases |lines|
  {
    if lines != [] {
      var n := |lines| - 1;
      assert ParseField(lines[n]) == Some(fields[n]);
      HeaderFieldsOfLines(lines[..n], fields[..n]);
    }
  }

  /** A well-formed field line, with or without its "\r", has no line feed. */
  lemma FieldLineSingleLine(line: string, name: string, value: string)
    requires WellFormedField(name, value)
    requires line == FieldLine(name, value) || line == FieldLine(name, value) + "\r"
    ensures '\n' !in line
  {
    var sep := ": ";
    assert '\n' !in sep;
    assert '\n' !in name + sep;
    assert '\n' !in FieldLine(name, value);
  }

  /** No line of a rendered header block spans lines. */
  lemma FieldPartsSingleLine(fields: seq<(string, string)>)
    requires fields != []
    requires forall i :: 0 <= i < |fields| ==> WellFormedField(fields[i].0, fields[i].1)
    ensures forall i :: 0 <= i < |fields| ==> '\n' !in FieldParts(fields)[i]
  {
    var parts := FieldParts(fields);
    forall i | 0 <= i < |fields|
      ensures '\n' !in parts[i]
    {
      FieldLineSingleLine(parts[i], fields[i].0, fields[i].1);
    }
  }

  /** Each line of a rendered header block parses back as its field. */
  lemma FieldPartsParse(fields: seq<(string, string)>)
    requires fields != []
    requires forall i :: 0 <= i < |fields| ==> WellFormedField(fields[i].0, fields[i].1)
    ensures forall i :: 0 <= i < |fields| ==> ParseField(FieldParts(fields)[i]) == Some(fields[i])
  {
    var parts := FieldParts(fields);
    forall i | 0 <= i < |fields|
      ensures ParseField(parts[i]) == Some(fields[i])
    {
      ParseFieldLine(parts[i], fields[i].0, fields[i].1);
    }
  }

  /** No line of a rendered header block, the status line included, spans
      lines. */
  lemma HeadPartsSingleLine(statusLine: string, fields: seq<(string, string)>)
    requires fields != [] && '\n' !in statusLine
    requires forall i :: 0 <= i < |fields| ==> WellFormedField(fields[i].0, fields[i].1)
    ensures forall i :: 0 <= i < |fields| + 1 ==> '\n' !in ([statusLine + "\r"] + FieldParts(fields))[i]
  {
    FieldPartsSingleLine(fields);
    PrependSingleLine(statusLine + "\r", FieldParts(fields));
  }

  /** Putting a line without line feeds in front of such lines keeps them so. */
  lemma PrependSingleLine(first: string, lines: seq<string>)
    requires '\n' !in first
    requires forall i :: 0 <= i < |lines| ==> '\n' !in lines[i]
    ensures forall i :: 0 <= i < |lines| + 1 ==> '\n' !in ([first] + lines)[i]
  {
    var parts := [first] + lines;
    forall i | 0 <= i < |parts|
      ensures '\n' !in parts[i]
    {
      if i > 0 {
        assert parts[i] == lines[i - 1];
      }
    }
  }

  /** Exploding a rendered header block at its line feeds gives back the
      status line and the field lines. */
  lemma ExplodeRenderedHead(statusLine: string, fields: seq<(string, string)>)
    requires fields != [] && '\n' !in statusLine
    requires forall i :: 0 <= i < |fields| ==> WellFormedField(fields[i].0, fields[i].1)
    ensures Explode('\n', RenderHead(statusLine, fields))[1..] == FieldParts(fields)
  {
    var parts := [statusLine + "\r"] + FieldParts(fields);
    HeadPartsSingleLine(statusLine, fields);
    ExplodeJoin(parts, '\n');
    assert parts[1..] == FieldParts(fields);
  }

  /** A rendered header block is read back as its fields; the status line is
      dropped. */
  lemma HeadersOfRenderedHead(statusLine: string, fields: seq<(string, string)>)
    requires '\n' !in statusLine
    requires forall i :: 0 <= i < |fields| ==> WellFormedField(fields[i].0, fields[i].1)
    ensures HeaderFields(Explode('\n', RenderHead(statusLine, fields))[1..]) == FieldMap(fields)
  {
    if fields == [] {
      ExplodeJoin([statusLine], '\n');
    } else {
      ExplodeRenderedHead(statusLine, fields);
      FieldPartsParse(fields);
      HeaderFieldsOfLines(FieldParts(fields), fields);
    }
  }

  /** The reply Selenium gives to a new-session request: a status line, one
      Location field and a body, split back into exactly those. */
  lemma SplitRedirect(statusLine: string, location: string, body: string)
    requires '\n' !in statusLine
    requires WellFormedField("Location", location)
    ensures SplitHeadersAndBody(statusLine + "\r\n" + FieldLine("Location", location) + CrLfCrLf + body)
      == (map["Location" := location], Some(body))
  {
    var head := RenderHead(statusLine, [("Location", location)]);
    var field := FieldLine("Location", location);
    var parts := [statusLine + "\r", field];
    assert FieldParts([("Location", location)]) == [field];
    assert [statusLine + "\r"] + [field] == parts;
    assert parts[1..] == [field];
    assert Join([field], '\n') == field;
    assert Join(parts, '\n') == (statusLine + "\r") + ['\n'] + field;
    assert head == (statusLine + "\r") + ['\n'] + field;
    var raw := head + CrLfCrLf + body;
    assert raw == statusLine + "\r\n" + field + CrLfCrLf + body;
    var s := |statusLine|;
    forall k | 0 <= k < |head| && k != s + 1
      ensures raw[k] != '\n'
    {
      if k < s {
        assert raw[k] == statusLine[k];
      } else if k > s + 1 {
        assert raw[k] == field[k - s - 2];
      }
    }
    assert raw[s + 3] == 'o';
    assert raw[|head|] == '\r';
    forall j: nat | j < |head|
      ensures !OccursAt(raw, CrLfCrLf, j)
    {
      assert raw[j + 1] != '\n' || raw[j + 3] != '\n';
    }
    assert OccursAt(raw, CrLfCrLf, |head|) by {
      assert raw[|head|..|head| + 4] == CrLfCrLf;
    }
    StrPosOfFirst(raw, CrLfCrLf, |head|);
    assert raw[|head| + 4..] == body;
    assert SplitMessage(raw) == (head, Some(body));
    HeadersOfRenderedHead(statusLine, [("Location", location)]);
  }

  // ---------------------------------------------------------------------------
  // Interpreting a reply
  // ---------------------------------------------------------------------------

  /** `(int)substr($statusCode, 0, 1)`: the first decimal digit of the status. */
  function StatusClass(status: nat): int {
    StringToInt(NatToString(status)[..1])
  }

  /** For a three-digit HTTP status the class is its hundreds digit. */
  lemma StatusClassOfThreeDigits(status: nat)
    requires 100 <= status <= 999
    ensures StatusClass(status) == status / 100
  {
    FirstDigitOfThreeDigits(status);
  }

  /** What the transport hands back for one request: either cURL could not
      connect, or a reply arrived with its status, its content type, its raw
      text (header block and body), and what json_decode() makes of its
      trimmed body. */
  datatype Reply =
    | Unreachable(error: string)
    | Received(status: nat, contentType: string, raw: string, decoded: Value)

  /** The outcome of one reply: the value returned or the exception thrown,
      and the server afterwards. */
  datatype Handled = Handled(result: Result<Value, Failure>, server: Server)

  /** The JSON envelope of a reply: a loosely non-zero `status` throws a
      SeleniumException built from `message` (null when unset) and `status`;
      otherwise the reply stands for its `value` (null when unset). */
  function Unwrap(decoded: Value): (r: Result<Value, Failure>)
    ensures r.Err? <==> !LooseEqualsZero(Get(decoded, "status"))
    ensures r.Err? ==> r.error.Selenium? || r.error.Fatal?
  {
    if !LooseEqualsZero(Get(decoded, "status")) then
      Err(New(Get(decoded, "message"), Get(decoded, "status")))
    else
      Ok(Get(decoded, "value"))
  }

  /** What the envelope throws or gives: a loosely non-zero `status` with a
      non-empty string message throws that message with the status cast to
      int; with no message it throws the one synthesized for the status; a
      loosely zero `status` gives the `value` entry (null when unset). */
  lemma UnwrapCases(decoded: Value)
    ensures var status := Get(decoded, "status");
      var message := Get(decoded, "message");
      && (LooseEqualsZero(status) ==> Unwrap(decoded) == Ok(Get(decoded, "value")))
      && (!LooseEqualsZero(status) && message.Str? && !IsEmptyString(message.s) ==>
            Unwrap(decoded) == Err(Selenium(message.s, ToInt(status))))
      && (!LooseEqualsZero(status) && IsEmpty(message) ==>
            Unwrap(decoded) == Err(Selenium(DefaultMessage(ToInt(status)), ToInt(status))))
  {
    var status := Get(decoded, "status");
    if !LooseEqualsZero(status) {
      assert Unwrap(decoded) == Err(New(Get(decoded, "message"), status));
    }
  }

  /** An envelope whose status is a non-zero code of the table and which
      carries no message throws "<summary> (<code>): <description>". */
  lemma UnwrapKnownCode(decoded: Value, i: nat)
    requires i < |Rows| && Rows[i].code != 0
    requires Get(decoded, "status") == Int(Rows[i].code) && IsEmpty(Get(decoded, "message"))
    ensures Unwrap(decoded)
      == Err(Selenium(Rows[i].summary + " (" + IntToString(Rows[i].code) + "): " + Rows[i].description, Rows[i].code))
  {
    NewKnownCode(Get(decoded, "message"), i);
  }

  /** `$headers['Location']` of a raw reply: null when there is no such field. */
  function RedirectTarget(raw: string): Option<string> {
    var headers := SplitHeadersAndBody(raw).0;
    if "Location" in headers then Some(headers["Location"]) else None
  }

  /** doRequest() after curl_exec(): a failed connection throws; a 3xx reply
      records its Location field; a 4xx reply throws with the status and body;
      a JSON reply whose `status` is loosely non-zero throws a
      SeleniumException built from its `message` and `status`, and otherwise
      gives its `value`; any other reply gives its body. */
  function Receive(server: Server, reply: Reply): (h: Handled)
    ensures h.server.url == server.url
    ensures h.server != server ==> reply.Received? && StatusClass(reply.status) == 3
    ensures reply.Received? && StatusClass(reply.status) == 3 ==>
      h.server.lastRedirectLocation == RedirectTarget(reply.raw)
  {
    match reply
    case Unreachable(error) =>
      Handled(Err(Generic("Failed to connect to Selenium server: " + error)), server)
    case Received(status, contentType, raw, decoded) =>
      var body := SplitHeadersAndBody(raw).1;
      var category := StatusClass(status);
      var after := if category == 3 then server.(lastRedirectLocation := RedirectTarget(raw)) else server;
      if category == 4 then
        Handled(Err(Generic("Selenium returned HTTP " + NatToString(status) + ": " + body.GetOr(""))), after)
      else if Contains(contentType, "json") then
        Handled(Unwrap(decoded), after)
      else
        Handled(Ok(if body.Some? then Str(body.value) else Null), after)
  }

  /** A 3xx reply carrying a Location field makes that field the last
      redirect location. */
  lemma ReceiveRedirect(server: Server, status: nat, contentType: string,
                        statusLine: string, location: string, body: string, decoded: Value)
    requires 300 <= status <= 399
    requires '\n' !in statusLine && WellFormedField("Location", location)
    ensures Receive(server, Received(status, contentType,
      statusLine + "\r\n" + FieldLine("Location", location) + CrLfCrLf + body, decoded)).server.lastRedirectLocation
      == Some(location)
  {
    StatusClassOfThreeDigits(status);
    RedirectTargetOfRedirect(statusLine, location, body);
  }

  /** The Location field of a redirect reply is its redirect target. */
  lemma RedirectTargetOfRedirect(statusLine: string, location: string, body: string)
    requires '\n' !in statusLine && WellFormedField("Location", location)
    ensures RedirectTarget(statusLine + "\r\n" + FieldLine("Location", location) + CrLfCrLf + body)
      == Some(location)
  {
    SplitRedirect(statusLine, location, body);
  }

  /** A 4xx reply always throws a plain exception naming the status. */
  lemma ReceiveClientError(server: Server, status: nat, contentType: string, raw: string, decoded: Value)
    requires 400 <= status <= 499
    ensures var h := Receive(server, Received(status, contentType, raw, decoded));
      && h.server == server
      && h.result == Err(Generic("Selenium returned HTTP " + NatToString(status) + ": "
                                 + SplitHeadersAndBody(raw).1.GetOr("")))
  {
    StatusClassOfThreeDigits(status);
    ReceiveOfClass4(server, Received(status, contentType, raw, decoded));
  }

  /** Any reply of class 4 throws, leaving the server object as it was. */
  lemma ReceiveOfClass4(server: Server, reply: Reply)
    requires reply.Received? && StatusClass(reply.status) == 4
    ensures Receive(server, reply)
      == Handled(Err(Generic("Selenium returned HTTP " + NatToString(reply.status) + ": "
                             + SplitHeadersAndBody(reply.raw).1.GetOr(""))), server)
  {
  }

  /** Outside 4xx, a JSON reply throws a SeleniumException exactly when its
      `status` is non-zero, and gives its `value` otherwise. */
  lemma ReceiveJson(server: Server, status: nat, contentType: string, raw: string, decoded: Value)
    requires 100 <= status <= 999 && status / 100 != 4 && Contains(contentType, "json")
    ensures Receive(server, Received(status, contentType, raw, decoded)).result == Unwrap(decoded)
  {
    StatusClassOfThreeDigits(status);
  }

  // ---------------------------------------------------------------------------
  // The scripted transport
  // ---------------------------------------------------------------------------

  datatype HttpMethod = HttpGet | HttpPost | HttpDelete

  /** One request as sent: the method, the full URL and the JSON body. */
  datatype Request = Request(verb: HttpMethod, url: string, body: Option<Value>)

  /** The client's view of the server: the server object, the replies still
      to come, and the requests sent so far. When no reply is left the
      connection fails. */
  datatype Conn = Conn(server: Server, replies: seq<Reply>, log: seq<Request>)

  /** The result of an operation and the connection after it. */
  datatype Outcome<T> = Outcome(result: Result<T, Failure>, conn: Conn)

  /** The outcome with its value transformed; a failure passes through. */
  function MapOutcome<T, U>(o: Outcome<T>, f: T -> U): (r: Outcome<U>)
    ensures r.conn == o.conn
    ensures r.result.Ok? <==> o.result.Ok?
    ensures o.result.Err? ==> r.result == Err(o.result.error)
  {
    match o.result
    case Ok(v) => Outcome(Ok(f(v)), o.conn)
    case Err(e) => Outcome(Err(e), o.conn)
  }

  /** doRequest(): sends one request and interprets the reply. */
  function Exchange(conn: Conn, verb: HttpMethod, path: string, body: Option<Value>): (o: Outcome<Value>)
    ensures o.conn.log == conn.log + [Request(verb, RequestUrl(conn.server, path), body)]
    ensures o.conn.replies == if conn.replies == [] then [] else conn.replies[1..]
    ensures o.conn.server.url == conn.server.url
    ensures o.result.Ok? || o.result.error.Selenium? ==> |o.conn.replies| < |conn.replies|
  {
    var reply := if conn.replies == [] then Unreachable("") else conn.replies[0];
    var h := Receive(conn.server, reply);
    var rest := if conn.replies == [] then [] else conn.replies[1..];
    Outcome(h.result, Conn(h.server, rest, conn.log + [Request(verb, RequestUrl(conn.server, path), body)]))
  }

  /** get($path) */
  function SendGet(conn: Conn, path: string): Outcome<Value> {
    Exchange(conn, HttpGet, path, None)
  }

  /** post($path, $params): a missing (null) parameter array is sent as an
      empty JSON array. */
  function SendPost(conn: Conn, path: string, params: Value): Outcome<Value> {
    Exchange(conn, HttpPost, path, Some(if params.Null? then Arr([]) else params))
  }

  /** delete($path) */
  function SendDelete(conn: Conn, path: string): Outcome<Value> {
    Exchange(conn, HttpDelete, path, None)
  }

  /** Each request method sends exactly one request to the composed URL:
      GET and DELETE without a body, POST with its parameters or, for null,
      an empty array. */
  lemma SendShapes(conn: Conn, path: string, params: Value)
    ensures var url := RequestUrl(conn.server, path);
      && SendGet(conn, path).conn.log == conn.log + [Request(HttpGet, url, None)]
      && SendDelete(conn, path).conn.log == conn.log + [Request(HttpDelete, url, None)]
      && SendPost(conn, path, params).conn.log[|conn.log|].body.Some?
      && SendPost(conn, path, params).conn.log[|conn.log|].body.value
         == (if params.Null? then Arr([]) else params)
      && |SendPost(conn, path, params).conn.log| == |conn.log| + 1
  {
  }

  /** With no reply left, every request fails as an unreachable server and
      leaves the redirect location alone. */
  lemma SendWhenExhausted(conn: Conn, verb: HttpMethod, path: string, body: Option<Value>)
    requires conn.replies == []
    ensures Exchange(conn, verb, path, body).result
      == Err(Generic("Failed to connect to Selenium server: "))
    ensures Exchange(conn, verb, path, body).conn.server == conn.server
  {
    var prefix := "Failed to connect to Selenium server: ";
    assert prefix + "" == prefix;
  }
}
