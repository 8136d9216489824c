/** WebDriver: one Selenium session. It opens the session when constructed,
    sends every page-level command below the session path, and can be closed,
    after which it holds no server and every command is a PHP fatal error. */
module WebDriver {
  import opened Wrappers
  import opened Php
  import opened Values
  import opened SeleniumException
  import opened SeleniumServer
  import opened HasWebElements

  /** The driver's state: the merged session options, the session path, the
      base URL (null until set) and whether the session was closed. The server
      object itself travels in the connection. */
  datatype Driver = Driver(options: seq<(Key, Value)>, sessionPath: string, baseUrl: Option<string>, closed: bool)

  // ---------------------------------------------------------------------------
  // Opening and closing the session
  // ---------------------------------------------------------------------------

  /** getDefaultOptions() */
  function DefaultOptions(): (opts: seq<(Key, Value)>)
    ensures UniqueKeys(opts)
    ensures forall i :: 0 <= i < |opts| ==> opts[i].0.StrKey?
  {
    var opts := Assoc([("browserName", Str("firefox")), ("version", Str("")),
                       ("javascriptEnabled", Bool(true)), ("nativeEvents", Bool(false))]).entries;
    assert opts[0].0 == StrKey("browserName") && opts[1].0 == StrKey("version");
    assert opts[2].0 == StrKey("javascriptEnabled") && opts[3].0 == StrKey("nativeEvents");
    opts
  }

  /** `array_merge($this->getDefaultOptions(), $options)` */
  function MergedOptions(options: seq<(Key, Value)>): seq<(Key, Value)> {
    ArrayMerge(DefaultOptions(), options)
  }

  /** The session capabilities: every option the caller gives wins over the
      default, every default the caller leaves out is kept, and the defaults
      come first in their own order. */
  lemma MergedOptionsOverride(options: seq<(Key, Value)>, k: string)
    requires UniqueKeys(options)
    ensures Lookup(MergedOptions(options), StrKey(k))
      == if HasKey(options, StrKey(k)) then Lookup(options, StrKey(k)) else Lookup(DefaultOptions(), StrKey(k))
    ensures |MergedOptions(options)| >= |DefaultOptions()|
    ensures forall i :: 0 <= i < |DefaultOptions()| ==> MergedOptions(options)[i].0 == DefaultOptions()[i].0
  {
    ArrayMergeOverrides(DefaultOptions(), options, k);
    ArrayMergeKeepsOrder(DefaultOptions(), options);
  }

  /** The session path the server's last redirect names, without trailing
      slashes; the empty path when there was none. */
  function SessionPathFrom(server: Server): (path: string)
    ensures path == [] || path[|path| - 1] != '/'
    ensures server.lastRedirectLocation.None? ==> path == []
    ensures server.lastRedirectLocation.Some? ==>
      |path| <= |server.lastRedirectLocation.value| && server.lastRedirectLocation.value[..|path|] == path
    ensures server.lastRedirectLocation.Some? ==>
      forall i :: |path| <= i < |server.lastRedirectLocation.value| ==> server.lastRedirectLocation.value[i] == '/'
  {
    RTrim(server.lastRedirectLocation.GetOr(""), '/')
  }

  /** The parameters of the session-opening POST. */
  function SessionRequest(options: seq<(Key, Value)>): Value {
    Assoc([("desiredCapabilities", Arr(MergedOptions(options)))])
  }

  /** `new WebDriver($server, $options)`: POST /session with the merged options
      as desired capabilities, then take the session path from the server's
      last redirect location. A failing POST makes the constructor throw. */
  function Open(conn: Conn, options: seq<(Key, Value)>): (o: Outcome<Driver>)
    ensures o.result.Ok? ==> !o.result.value.closed && o.result.value.baseUrl.None?
    ensures o.result.Ok? ==> o.result.value.options == MergedOptions(options)
    ensures o.conn.log == conn.log + [Request(HttpPost, RequestUrl(conn.server, "/session"),
                                              Some(SessionRequest(options)))]
  {
    var resp := SendPost(conn, "/session", SessionRequest(options));
    match resp.result
    case Err(e) => Outcome(Err(e), resp.conn)
    case Ok(_) =>
      Outcome(Ok(Driver(MergedOptions(options), SessionPathFrom(resp.conn.server), None, false)), resp.conn)
  }

  /** When Selenium answers the session request with a redirect whose
      Location is `location`, the driver's session path is that location
      without trailing slashes. */
  lemma OpenFollowsRedirect(conn: Conn, options: seq<(Key, Value)>, status: nat, contentType: string,
                            statusLine: string, location: string, body: string, decoded: Value)
    requires 300 <= status <= 399
    requires '\n' !in statusLine && WellFormedField("Location", location)
    requires !Contains(contentType, "json") || LooseEqualsZero(Get(decoded, "status"))
    requires conn.replies != [] && conn.replies[0] == Received(status, contentType,
      statusLine + "\r\n" + FieldLine("Location", location) + CrLfCrLf + body, decoded)
    ensures Open(conn, options).result.Ok?
    ensures Open(conn, options).result.value.sessionPath == RTrim(location, '/')
  {
    var raw := statusLine + "\r\n" + FieldLine("Location", location) + CrLfCrLf + body;
    ReceiveRedirect(conn.server, status, contentType, statusLine, location, body, decoded);
    StatusClassOfThreeDigits(status);
  }

  /** The scope the driver's finders search: its session's page. */
  function ScopeOf(d: Driver): Scope {
    Session(d.sessionPath, d.closed)
  }

  /** closeSession(): DELETE the session path; only when that succeeds does
      the driver drop its server. On a closed driver the call is a fatal
      error. */
  function Close(conn: Conn, d: Driver): (o: Outcome<Driver>)
    ensures o.result.Ok? ==> o.result.value == d.(closed := true)
  {
    if d.closed then Outcome(Err(NonObjectCall("delete")), conn)
    else MapOutcome(SendDelete(conn, d.sessionPath), (_: Value) => d.(closed := true))
  }

  /** isClosed() */
  predicate IsClosed(d: Driver) {
    d.closed
  }

  /** Closing an open driver sends one DELETE to the session path and closes
      it exactly when that request succeeds; closing twice fails without a
      request. */
  lemma CloseClosesOnSuccess(conn: Conn, d: Driver)
    ensures !d.closed ==>
      && Close(conn, d).conn.log == conn.log + [Request(HttpDelete, RequestUrl(conn.server, d.sessionPath), None)]
      && (Close(conn, d).result.Ok? <==> SendDelete(conn, d.sessionPath).result.Ok?)
      && (Close(conn, d).result.Ok? ==> IsClosed(Close(conn, d).result.value))
    ensures d.closed ==> Close(conn, d) == Outcome(Err(NonObjectCall("delete")), conn)
  {
  }

  // ---------------------------------------------------------------------------
  // Session requests
  // ---------------------------------------------------------------------------

  /** sessionGet($path) */
  function SessionGet(conn: Conn, d: Driver, path: string): Outcome<Value> {
    if d.closed then Outcome(Err(NonObjectCall("get")), conn) else SendGet(conn, d.sessionPath + path)
  }

  /** sessionPost($path, $params) */
  function SessionPost(conn: Conn, d: Driver, path: string, params: Value): Outcome<Value> {
    if d.closed then Outcome(Err(NonObjectCall("post")), conn) else SendPost(conn, d.sessionPath + path, params)
  }

  /** sessionDelete($path) */
  function SessionDelete(conn: Conn, d: Driver, path: string): Outcome<Value> {
    if d.closed then Outcome(Err(NonObjectCall("delete")), conn) else SendDelete(conn, d.sessionPath + path)
  }

  /** The driver's makeRelativePostRequest() and createWebElement() are its
      session requests: searching the driver's scope posts below the session
      path, and found elements are created under it. */
  lemma ScopeIsSession(conn: Conn, d: Driver, relPath: string, params: Value, id: Value)
    ensures RelativePost(conn, ScopeOf(d), relPath, params) == SessionPost(conn, d, relPath, params)
    ensures Create(ScopeOf(d), id) == NewHandle(d.sessionPath, id)
  {
  }

  /** A closed driver sends nothing: every session request fails with a PHP
      fatal error and leaves the connection as it was. */
  lemma ClosedSendsNothing(conn: Conn, d: Driver, path: string, params: Value)
    requires IsClosed(d)
    ensures SessionGet(conn, d, path).conn == conn && SessionGet(conn, d, path).result.error.Fatal?
    ensures SessionPost(conn, d, path, params).conn == conn && SessionPost(conn, d, path, params).result.error.Fatal?
    ensures SessionDelete(conn, d, path).conn == conn && SessionDelete(conn, d, path).result.error.Fatal?
  {
  }

  // ---------------------------------------------------------------------------
  // Base URL
  // ---------------------------------------------------------------------------

  /** setBaseUrl($baseUrl): stored without trailing slashes. */
  function SetBaseUrl(d: Driver, baseUrl: string): (r: Driver)
    ensures r.baseUrl.Some? && |r.baseUrl.value| <= |baseUrl|
    ensures r.baseUrl.value == baseUrl[..|r.baseUrl.value|]
    ensures r.baseUrl.value == [] || r.baseUrl.value[|r.baseUrl.value| - 1] != '/'
    ensures forall i :: |r.baseUrl.value| <= i < |baseUrl| ==> baseUrl[i] == '/'
    ensures r == d.(baseUrl := r.baseUrl)
  {
    d.(baseUrl := Some(RTrim(baseUrl, '/')))
  }

  /** getBaseUrl() */
  function GetBaseUrl(d: Driver): Option<string> {
    d.baseUrl
  }

  /** Setting the base URL twice is the same as setting it once. */
  lemma SetBaseUrlIdempotent(d: Driver, baseUrl: string)
    ensures SetBaseUrl(SetBaseUrl(d, baseUrl), GetBaseUrl(SetBaseUrl(d, baseUrl)).value)
      == SetBaseUrl(d, baseUrl)
  {
  }

  /** `strpos($url, '://') == false`: PHP's loose comparison also counts a
      scheme separator at position 0 as "not found". */
  predicate LooksRelative(url: string) {
    StrPos(url, "://") == None || StrPos(url, "://") == Some(0)
  }

  /** filterUrl($url): with a truthy base URL, a relative URL is appended to
      it, with a slash between unless the URL starts with one; anything else
      is passed through. */
  function FilterUrl(baseUrl: Option<string>, url: string): (r: string)
    ensures r == url || (baseUrl.Some? && |r| > |baseUrl.value| && r[..|baseUrl.value|] == baseUrl.value)
  {
    if baseUrl.Some? && !IsEmptyString(baseUrl.value) && LooksRelative(url) then
      if |url| > 0 && url[0] == '/' then baseUrl.value + url else baseUrl.value + "/" + url
    else url
  }

  /** A URL with a scheme separator after its first character, and none at
      its start, is never touched, and neither is any URL while no base URL
      is set. */
  lemma FilterUrlKeepsAbsolute(baseUrl: Option<string>, url: string, p: nat)
    requires 0 < p && OccursAt(url, "://", p) && !OccursAt(url, "://", 0)
    ensures FilterUrl(baseUrl, url) == url
    ensures FilterUrl(None, url) == url
  {
  }

  /** With a truthy base URL, a URL without a scheme separator becomes the
      base, one slash, and the URL with at most one leading slash removed, so
      a base set by setBaseUrl() and a path with one leading slash meet at
      exactly one slash. */
  lemma FilterUrlJoinsRelative(baseUrl: string, url: string)
    requires !IsEmptyString(baseUrl) && !Contains(url, "://")
    ensures var r := FilterUrl(Some(baseUrl), url);
      && r[..|baseUrl|] == baseUrl
      && r[|baseUrl|] == '/'
      && r[|baseUrl| + 1..] == (if |url| > 0 && url[0] == '/' then url[1..] else url)
  {
    assert StrPos(url, "://") == None;
    var r := FilterUrl(Some(baseUrl), url);
    if |url| > 0 && url[0] == '/' {
      assert r == baseUrl + url;
      assert r[|baseUrl| + 1..] == url[1..];
    } else {
      assert r == baseUrl + "/" + url;
      assert r[|baseUrl| + 1..] == url;
    }
  }

  /** The loose `== false` also takes a URL that starts with "://" for a
      relative one: it is appended to a truthy base with a slash between. */
  lemma FilterUrlLeadingSeparator(baseUrl: string, rest: string)
    requires !IsEmptyString(baseUrl)
    ensures FilterUrl(Some(baseUrl), "://" + rest) == baseUrl + "/://" + rest
  {
    StrPosOfPrefix("://", rest);
    assert ("://" + rest)[0] == ':';
    assert baseUrl + "/" + ("://" + rest) == baseUrl + "/://" + rest;
  }

  /** A falsy base URL (null, "" or "0") leaves every URL alone. */
  lemma FilterUrlWithoutBase(baseUrl: Option<string>, url: string)
    requires baseUrl.None? || IsEmptyString(baseUrl.value)
    ensures FilterUrl(baseUrl, url) == url
  {
  }

  // ---------------------------------------------------------------------------
  // Page commands
  // ---------------------------------------------------------------------------

  /** A command whose reply is discarded. */
  function Discard(o: Outcome<Value>): (r: Outcome<Value>)
    ensures r.conn == o.conn && (r.result.Ok? <==> o.result.Ok?)
    ensures r.result.Ok? ==> r.result.value == Null
  {
    MapOutcome(o, (_: Value) => Null)
  }

  /** visit($url): POST /url with the filtered URL. */
  function Visit(conn: Conn, d: Driver, url: string): Outcome<Value> {
    Discard(SessionPost(conn, d, "/url", Assoc([("url", Str(FilterUrl(d.baseUrl, url)))])))
  }

  /** getUrl() */
  function GetUrl(conn: Conn, d: Driver): Outcome<Value> {
    SessionGet(conn, d, "/url")
  }

  /** getPageTitle() */
  function GetPageTitle(conn: Conn, d: Driver): Outcome<Value> {
    SessionGet(conn, d, "/title")
  }

  /** getPageSourceCode() */
  function GetPageSourceCode(conn: Conn, d: Driver): Outcome<Value> {
    SessionGet(conn, d, "/source")
  }

  /** back() */
  function Back(conn: Conn, d: Driver): Outcome<Value> {
    Discard(SessionPost(conn, d, "/back", Null))
  }

  /** forward() */
  function Forward(conn: Conn, d: Driver): Outcome<Value> {
    Discard(SessionPost(conn, d, "/forward", Null))
  }

  /** refresh() */
  function Refresh(conn: Conn, d: Driver): Outcome<Value> {
    Discard(SessionPost(conn, d, "/refresh", Null))
  }

  /** getAlertText() */
  function GetAlertText(conn: Conn, d: Driver): Outcome<Value> {
    SessionGet(conn, d, "/alert_text")
  }

  /** acceptAlert() */
  function AcceptAlert(conn: Conn, d: Driver): Outcome<Value> {
    Discard(SessionPost(conn, d, "/accept_alert", Null))
  }

  /** dismissAlert() */
  function DismissAlert(conn: Conn, d: Driver): Outcome<Value> {
    Discard(SessionPost(conn, d, "/dismiss_alert", Null))
  }

  /** answerPrompt($answer): type the answer, then accept; a failure of the
      first request stops before the second. */
  function AnswerPrompt(conn: Conn, d: Driver, answer: Value): Outcome<Value> {
    var typed := SessionPost(conn, d, "/alert_text", Assoc([("text", answer)]));
    match typed.result
    case Err(e) => Outcome(Err(e), typed.conn)
    case Ok(_) => AcceptAlert(typed.conn, d)
  }

  /** clearCookies() */
  function ClearCookies(conn: Conn, d: Driver): Outcome<Value> {
    Discard(SessionDelete(conn, d, "/cookie"))
  }

  /** The request an open driver's session command sends. */
  function SessionRequestTo(conn: Conn, d: Driver, verb: HttpMethod, path: string, body: Option<Value>): Request {
    Request(verb, RequestUrl(conn.server, d.sessionPath + path), body)
  }

  /** Each page command of an open driver sends exactly its one request, with
      its own method, path below the session and parameters. */
  lemma PageCommandsSendOneRequest(conn: Conn, d: Driver, url: string)
    requires !IsClosed(d)
    ensures Visit(conn, d, url).conn.log
      == conn.log + [SessionRequestTo(conn, d, HttpPost, "/url", Some(Assoc([("url", Str(FilterUrl(d.baseUrl, url)))])))]
    ensures GetUrl(conn, d).conn.log == conn.log + [SessionRequestTo(conn, d, HttpGet, "/url", None)]
    ensures GetPageTitle(conn, d).conn.log == conn.log + [SessionRequestTo(conn, d, HttpGet, "/title", None)]
    ensures GetPageSourceCode(conn, d).conn.log == conn.log + [SessionRequestTo(conn, d, HttpGet, "/source", None)]
    ensures Back(conn, d).conn.log == conn.log + [SessionRequestTo(conn, d, HttpPost, "/back", Some(Arr([])))]
    ensures Forward(conn, d).conn.log == conn.log + [SessionRequestTo(conn, d, HttpPost, "/forward", Some(Arr([])))]
    ensures Refresh(conn, d).conn.log == conn.log + [SessionRequestTo(conn, d, HttpPost, "/refresh", Some(Arr([])))]
  {
  }

  /** The alert commands of an open driver, and clearCookies(). */
  lemma AlertCommandsSendOneRequest(conn: Conn, d: Driver)
    requires !IsClosed(d)
    ensures GetAlertText(conn, d).conn.log == conn.log + [SessionRequestTo(conn, d, HttpGet, "/alert_text", None)]
    ensures AcceptAlert(conn, d).conn.log
      == conn.log + [SessionRequestTo(conn, d, HttpPost, "/accept_alert", Some(Arr([])))]
    ensures DismissAlert(conn, d).conn.log
      == conn.log + [SessionRequestTo(conn, d, HttpPost, "/dismiss_alert", Some(Arr([])))]
    ensures ClearCookies(conn, d).conn.log == conn.log + [SessionRequestTo(conn, d, HttpDelete, "/cookie", None)]
  {
  }

  /** answerPrompt() sends the answer and then, only if that succeeded, the
      acceptance. */
  lemma AnswerPromptSequence(conn: Conn, d: Driver, answer: Value)
    requires !IsClosed(d)
    ensures var typed := SessionPost(conn, d, "/alert_text", Assoc([("text", answer)]));
      && typed.conn.log == conn.log + [SessionRequestTo(conn, d, HttpPost, "/alert_text", Some(Assoc([("text", answer)])))]
      && (typed.result.Err? ==> AnswerPrompt(conn, d, answer) == Outcome(Err(typed.result.error), typed.conn))
      && (typed.result.Ok? ==>
            AnswerPrompt(conn, d, answer).conn.log
              == typed.conn.log + [SessionRequestTo(typed.conn, d, HttpPost, "/accept_alert", Some(Arr([])))])
  {
  }

  // ---------------------------------------------------------------------------
  // Screenshots
  // ---------------------------------------------------------------------------

  /** The part of `s` after the last `c`, if `c` occurs in it. */
  function AfterLast(s: string, c: char): (r: Option<string>)
    ensures r.None? <==> c !in s
    ensures r.Some? ==> |r.value| < |s| && s[|s| - |r.value| - 1] == c
    ensures r.Some? ==> r.value == s[|s| - |r.value|..] && c !in r.value
  {
    if s == [] then None
    else if s[|s| - 1] == c then Some([])
    else match AfterLast(s[..|s| - 1], c)
      case None => None
      case Some(t) => Some(t + [s[|s| - 1]])
  }

  /** The part after the last `c` is the one suffix preceded by `c` that
      holds no `c`. */
  lemma AfterLastIs(s: string, c: char, r: string)
    requires |r| < |s| && s[|s| - |r| - 1] == c && r == s[|s| - |r|..] && c !in r
    ensures AfterLast(s, c) == Some(r)
  {
    assert c in s;
    var a := AfterLast(s, c).value;
    assert forall i :: |s| - |r| <= i < |s| ==> s[i] != c by {
      forall i | |s| - |r| <= i < |s|
        ensures s[i] != c
      {
        assert s[i] == r[i - (|s| - |r|)];
      }
    }
    assert forall i :: |s| - |a| <= i < |s| ==> s[i] != c by {
      forall i | |s| - |a| <= i < |s|
        ensures s[i] != c
      {
        assert s[i] == a[i - (|s| - |a|)];
      }
    }
    assert s[|s| - |a| - 1] == c;
  }

  /** What follows the last slash, or everything when there is none. */
  function LastComponent(s: string): (b: string)
    ensures '/' !in b && |b| <= |s| && b == s[|s| - |b|..]
    ensures |b| < |s| ==> s[|s| - |b| - 1] == '/'
  {
    match AfterLast(s, '/')
    case None => s
    case Some(b) => b
  }

  /** basename(): the last path component, ignoring trailing slashes. */
  function Basename(path: string): (b: string)
    ensures '/' !in b
    ensures var t := RTrim(path, '/'); |b| <= |t| && b == t[|t| - |b|..]
    ensures var t := RTrim(path, '/'); |b| < |t| ==> t[|t| - |b| - 1] == '/'
  {
    LastComponent(RTrim(path, '/'))
  }

  /** What follows the last dot of a basename; empty when it has none. */
  function DotSuffix(b: string): (e: string)
    ensures '.' !in e
    ensures e != [] ==> |e| < |b| && b[|b| - |e| - 1] == '.' && e == b[|b| - |e|..]
    ensures e == [] ==> '.' !in b || b[|b| - 1] == '.'
  {
    match AfterLast(b, '.')
    case None => ""
    case Some(e) => e
  }

  /** pathinfo($path, PATHINFO_EXTENSION): what follows the last dot of the
      basename; empty when it has none. */
  function Extension(path: string): (e: string)
    ensures '.' !in e
    ensures var b := Basename(path); e == [] ==> '.' !in b || b[|b| - 1] == '.'
  {
    DotSuffix(Basename(path))
  }

  /** The screenshot guard: the extension, lower-cased, is "png". */
  predicate IsPngPath(path: string)
    ensures IsPngPath(path) ==> |Extension(path)| == 3
  {
    ToLower(Extension(path)) == "png"
  }

  function NotPngMessage(path: string): string {
    "Can only take PNG screenshots. This doesn't seem like a path to a PNG: " + path
  }

  /** The exception screenshot() throws for a path it refuses. */
  function NotPngFailure(path: string): (f: Failure)
    ensures f == Selenium(NotPngMessage(path), 0)
  {
    WithMessage(NotPngMessage(path))
  }

  /** screenshot($pngFile): reject a path that is not a PNG file before any
      request; otherwise GET /screenshot and give the base64 data to write. */
  function Screenshot(conn: Conn, d: Driver, path: string): (o: Outcome<Value>)
    ensures !IsPngPath(path) ==> o == Outcome(Err(Selenium(NotPngMessage(path), 0)), conn)
    ensures IsPngPath(path) ==> o == SessionGet(conn, d, "/screenshot")
  {
    if !IsPngPath(path) then Outcome(Err(NotPngFailure(path)), conn)
    else SessionGet(conn, d, "/screenshot")
  }

  /** A three-letter extension reading "png" in any letter case holds no
      slash and no dot. */
  lemma PngLetters(ext: string)
    requires |ext| == 3 && ToLower(ext) == "png"
    ensures '/' !in ext && '.' !in ext
  {
    assert LowerChar(ext[0]) == 'p' && LowerChar(ext[1]) == 'n' && LowerChar(ext[2]) == 'g';
  }

  /** A path ending in a dot and a tail with neither slash nor dot has that
      tail as its extension. */
  lemma ExtensionOfSuffix(stem: string, ext: string)
    requires ext != [] && '/' !in ext && '.' !in ext
    ensures Extension(stem + "." + ext) == ext
  {
    var path := stem + "." + ext;
    assert path[|path| - |ext| - 1] == '.';
    assert path[|path| - |ext|..] == ext;
    DottedTailIsExtension(path, ext);
  }

  /** The same, stated on the path's characters rather than its pieces. */
  lemma DottedTailIsExtension(path: string, ext: string)
    requires ext != [] && '/' !in ext && '.' !in ext
    requires |ext| < |path| && path[|path| - |ext| - 1] == '.' && path[|path| - |ext|..] == ext
    ensures Extension(path) == ext
  {
    var n := |ext| + 1;
    assert forall i :: |path| - n <= i < |path| ==> path[i] != '/' by {
      forall i | |path| - n < i < |path|
        ensures path[i] != '/'
      {
        assert path[i] == ext[i - (|path| - |ext|)];
      }
    }
    assert path[|path| - 1] == ext[|ext| - 1];
    LongBasename(path, n);
    var b := Basename(path);
    SuffixOfSuffix(path, b, ext);
    AfterLastIs(b, '.', ext);
  }

  /** A suffix of `s` at least one longer than the suffix `e` ends in the
      character before `e` and then `e`. */
  lemma SuffixOfSuffix(s: string, b: string, e: string)
    requires |e| < |b| <= |s| && b == s[|s| - |b|..] && e == s[|s| - |e|..]
    ensures b[|b| - |e| - 1] == s[|s| - |e| - 1] && b[|b| - |e|..] == e
  {
    assert b[|b| - |e|..] == e by {
      forall j | 0 <= j < |e|
        ensures b[|b| - |e| + j] == e[j]
      {
        assert b[|b| - |e| + j] == s[|s| - |e| + j];
      }
    }
  }

  /** A path that does not end in a slash and whose last `n` characters hold
      none has a basename of at least `n` characters. */
  lemma LongBasename(path: string, n: nat)
    requires 0 < |path| && n <= |path| && path[|path| - 1] != '/'
    requires forall i :: |path| - n <= i < |path| ==> path[i] != '/'
    ensures var b := Basename(path); n <= |b| <= |path| && b == path[|path| - |b|..]
  {
    assert RTrim(path, '/') == path;
  }

  /** A path ending in ".png", in any letter case, passes the guard. */
  lemma PngSuffixIsPng(stem: string, ext: string)
    requires |ext| == 3 && ToLower(ext) == "png"
    ensures IsPngPath(stem + "." + ext)
  {
    PngLetters(ext);
    ExtensionOfSuffix(stem, ext);
  }

  /** Conversely, a path that passes the guard ends, once trailing slashes
      are dropped, in a dot and three letters reading "png" in some case. */
  lemma PngPathHasPngSuffix(path: string)
    requires IsPngPath(path)
    ensures var t := RTrim(path, '/');
      |t| >= 4 && t[|t| - 4] == '.' && ToLower(t[|t| - 3..]) == "png"
  {
    var t := RTrim(path, '/');
    var b := Basename(path);
    var e := Extension(path);
    assert |e| == 3;
    SuffixChain(t, b, e);
  }

  /** A suffix of a suffix is a suffix, with the character before it. */
  lemma SuffixChain(t: string, b: string, e: string)
    requires |e| < |b| <= |t| && b == t[|t| - |b|..] && e == b[|b| - |e|..]
    ensures t[|t| - |e| - 1] == b[|b| - |e| - 1] && t[|t| - |e|..] == e
  {
    assert t[|t| - |e|..] == e by {
      forall j | 0 <= j < |e|
        ensures t[|t| - |e| + j] == e[j]
      {
        assert e[j] == b[|b| - |e| + j];
      }
    }
  }

  // ---------------------------------------------------------------------------
  // JavaScript
  // ---------------------------------------------------------------------------

  /** The JSON wire form of an element: `{ELEMENT: <id>}`. */
  function ElementRef(h: Handle): Value {
    Assoc([("ELEMENT", Str(h.id))])
  }

  /** webElementsToRequest(): every element, at any depth, replaced by its
      wire form; keys and everything else unchanged. */
  function ToRequest(v: Value): (r: Value)
    ensures NoElements(r)
    ensures !v.Arr? && !v.Elem? ==> r == v
    ensures v.Arr? ==>
      && r.Arr? && |r.entries| == |v.entries|
      && forall i :: 0 <= i < |v.entries| ==>
           && r.entries[i].0 == v.entries[i].0
           && (!v.entries[i].1.Arr? && !v.entries[i].1.Elem? ==> r.entries[i].1 == v.entries[i].1)
    decreases v
  {
    match v
    case Arr(es) => Arr(seq(|es|, i requires 0 <= i < |es| => (es[i].0, ToRequest(es[i].1))))
    case Elem(h) => ElementRef(h)
    case _ => v
  }

  /** webElementsFromResponse(): every array with a set `ELEMENT` entry, at any
      depth, replaced by the element it names, created in the session. */
  function FromResponse(sessionPath: string, v: Value): (r: Value)
    ensures v.Arr? && IsSet(v, "ELEMENT") ==>
      r.Elem? && r.handle.sessionPath == sessionPath && r.handle.id == ToString(Get(v, "ELEMENT"))
    ensures !v.Arr? ==> r == v
    ensures v.Arr? && !IsSet(v, "ELEMENT") ==>
      && r.Arr? && |r.entries| == |v.entries|
      && forall i :: 0 <= i < |v.entries| ==>
           && r.entries[i].0 == v.entries[i].0
           && (!v.entries[i].1.Arr? ==> r.entries[i].1 == v.entries[i].1)
    decreases v
  {
    match v
    case Arr(es) =>
      if IsSet(v, "ELEMENT") then Elem(NewHandle(sessionPath, Get(v, "ELEMENT")))
      else Arr(seq(|es|, i requires 0 <= i < |es| => (es[i].0, FromResponse(sessionPath, es[i].1))))
    case _ => v
  }

  /** runJavascript($script, $args): POST /execute with the script and the
      arguments in wire form, and the reply with elements restored. */
  function RunJavascript(conn: Conn, d: Driver, script: Value, args: seq<(Key, Value)>): Outcome<Value> {
    var sent := SessionPost(conn, d, "/execute", Assoc([("script", script), ("args", ToRequest(Arr(args)))]));
    MapOutcome(sent, (r: Value) => FromResponse(d.sessionPath, r))
  }

  /** No element object is left in a request. */
  predicate NoElements(v: Value)
    decreases v
  {
    match v
    case Arr(es) => forall i :: 0 <= i < |es| ==> NoElements(es[i].1)
    case Elem(_) => false
    case _ => true
  }

  /** A value the wire form can carry back: elements of this session, well
      formed, and no array whose own `ELEMENT` entry is set. */
  predicate Carried(sessionPath: string, v: Value)
    decreases v
  {
    match v
    case Arr(es) => !IsSet(v, "ELEMENT") && forall i :: 0 <= i < |es| ==> Carried(sessionPath, es[i].1)
    case Elem(h) => h.sessionPath == sessionPath && ValidHandle(h)
    case _ => true
  }

  lemma {:induction false} ToRequestHasNoElements(v: Value)
    ensures NoElements(ToRequest(v))
    decreases v
  {
    match v
    case Arr(es) =>
      forall i | 0 <= i < |es|
        ensures NoElements(ToRequest(v).entries[i].1)
      {
        ToRequestHasNoElements(es[i].1);
      }
    case Elem(h) =>
      assert ToRequest(v).entries[0].1 == Str(h.id);
    case _ =>
  }

  /** Whether a stored value is null is the same for two arrays with the
      same keys whose values are null at the same places. */
  lemma {:induction false} LookupNullity(es: seq<(Key, Value)>, ms: seq<(Key, Value)>, k: Key)
    requires |es| == |ms|
    requires forall i :: 0 <= i < |es| ==> ms[i].0 == es[i].0 && (ms[i].1 == Null <==> es[i].1 == Null)
    ensures Lookup(ms, k).GetOr(Null) == Null <==> Lookup(es, k).GetOr(Null) == Null
  {
    if es != [] && es[0].0 != k {
      LookupNullity(es[1..], ms[1..], k);
    }
  }

  /** Elements survive the trip through JavaScript: turning a value into its
      wire form and back gives the same value. */
  lemma {:induction false} FromResponseOfToRequest(sessionPath: string, v: Value)
    requires Carried(sessionPath, v)
    ensures FromResponse(sessionPath, ToRequest(v)) == v
    decreases v
  {
    match v
    case Arr(es) =>
      var w := ToRequest(v);
      assert !IsSet(w, "ELEMENT") by {
        forall i | 0 <= i < |es|
          ensures w.entries[i].0 == es[i].0 && (w.entries[i].1 == Null <==> es[i].1 == Null)
        {
          assert w.entries[i] == (es[i].0, ToRequest(es[i].1));
        }
        LookupNullity(es, w.entries, StrKey("ELEMENT"));
      }
      forall i | 0 <= i < |es|
        ensures FromResponse(sessionPath, w.entries[i].1) == es[i].1
      {
        FromResponseOfToRequest(sessionPath, es[i].1);
      }
    case Elem(h) =>
      var w := ElementRef(h);
      assert w.entries[0] == (StrKey("ELEMENT"), Str(h.id));
      assert Get(w, "ELEMENT") == Str(h.id);
    case _ =>
  }

  /** runJavascript() with element arguments sends no element object, and a
      reply that echoes the arguments' wire form gives back the arguments. */
  lemma RunJavascriptCarriesElements(conn: Conn, d: Driver, script: Value, args: seq<(Key, Value)>)
    requires !IsClosed(d) && Carried(d.sessionPath, Arr(args))
    ensures NoElements(ToRequest(Arr(args)))
    ensures FromResponse(d.sessionPath, ToRequest(Arr(args))) == Arr(args)
    ensures RunJavascript(conn, d, script, args).conn.log
      == conn.log + [SessionRequestTo(conn, d, HttpPost, "/execute",
                                      Some(Assoc([("script", script), ("args", ToRequest(Arr(args)))])))]
  {
    ToRequestHasNoElements(Arr(args));
    FromResponseOfToRequest(d.sessionPath, Arr(args));
  }
}
