/** HasWebElements: the finders shared by the driver (searching the whole page
    of its session) and by elements (searching below themselves). */
module HasWebElements {
  import opened Wrappers
  import opened Php
  import opened Values
  import opened SeleniumException
  import opened SeleniumServer
  import opened WebElement

  /** Where a search starts: the page of a session, whose driver may have been
      closed, or an element. */
  datatype Scope =
    | Session(sessionPath: string, closed: bool)
    | Within(handle: Handle)

  /** PHP's fatal error for calling `methodName` on the null a closed driver
      keeps as its server. */
  function NonObjectCall(methodName: string): Failure {
    Fatal("Call to a member function " + methodName + "() on a non-object")
  }

  /** A closed driver cannot post a search. */
  const ClosedSessionError: Failure := NonObjectCall("post")

  /** makeRelativePostRequest($relPath, $params) of the scope. */
  function RelativePost(conn: Conn, scope: Scope, relPath: string, params: Value): (o: Outcome<Value>)
    ensures |o.conn.replies| <= |conn.replies|
    ensures o.result.Ok? || o.result.error.Selenium? ==> |o.conn.replies| < |conn.replies|
  {
    match scope
    case Session(path, closed) =>
      if closed then Outcome(Err(ClosedSessionError), conn) else SendPost(conn, path + relPath, params)
    case Within(h) => MakeRelativePostRequest(conn, h, relPath, params)
  }

  /** createWebElement($id) of the scope: always rooted at the session path. */
  function Create(scope: Scope, id: Value): (h: Handle)
    ensures ValidHandle(h) && h.id == ToString(id)
    ensures h.sessionPath == SessionPathOf(scope)
  {
    match scope
    case Session(path, _) => NewHandle(path, id)
    case Within(e) => CreateWebElement(e, id)
  }

  /** The session path below which a scope creates elements. */
  function SessionPathOf(scope: Scope): string {
    match scope
    case Session(path, _) => path
    case Within(e) => e.sessionPath
  }

  /** The search parameters `{using: <strategy>, value: <selector>}`. */
  function Locator(using: string, value: string): Value {
    Assoc([("using", Str(using)), ("value", Str(value))])
  }

  /** The JSON reply of a successful command: `{status: 0, value: <value>}`. */
  function SuccessEnvelope(value: Value): Value {
    Assoc([("status", Int(0)), ("value", value)])
  }

  /** A JSON reply outside 4xx to a search of an open scope is decided by its
      envelope: the search gives what the envelope gives. */
  lemma RelativePostOfJson(conn: Conn, scope: Scope, relPath: string, params: Value,
                           status: nat, contentType: string, raw: string, decoded: Value)
    requires scope.Session? ==> !scope.closed
    requires conn.replies != [] && conn.replies[0] == Received(status, contentType, raw, decoded)
    requires 100 <= status <= 999 && status / 100 != 4 && Contains(contentType, "json")
    ensures RelativePost(conn, scope, relPath, params).result == Unwrap(decoded)
  {
    ReceiveJson(conn.server, status, contentType, raw, decoded);
  }

  /** The success envelope gives its value. */
  lemma UnwrapSuccess(value: Value)
    ensures Unwrap(SuccessEnvelope(value)) == Ok(value)
  {
    var e := SuccessEnvelope(value);
    assert e.entries[0] == (StrKey("status"), Int(0));
    assert e.entries[1] == (StrKey("value"), value);
    assert HasKey(e.entries, StrKey("status")) && HasKey(e.entries, StrKey("value"));
  }

  // ---------------------------------------------------------------------------
  // find, findAll, tryFind
  // ---------------------------------------------------------------------------

  /** POST /element with a locator, and the element named by the reply's
      `ELEMENT` entry. */
  function FindBy(conn: Conn, scope: Scope, using: string, value: string): (o: Outcome<Handle>)
    ensures |o.conn.replies| <= |conn.replies|
    ensures o.result.Ok? || o.result.error.Selenium? ==> |o.conn.replies| < |conn.replies|
  {
    MapOutcome(RelativePost(conn, scope, "/element", Locator(using, value)),
               (r: Value) => Create(scope, Get(r, "ELEMENT")))
  }

  /** find($cssSelector) */
  function Find(conn: Conn, scope: Scope, css: string): (o: Outcome<Handle>)
    ensures o.result.Ok? ==> ValidHandle(o.result.value) && o.result.value.sessionPath == SessionPathOf(scope)
    ensures |o.conn.log| == |conn.log| + (if scope.Session? && scope.closed then 0 else 1)
  {
    FindBy(conn, scope, "css selector", css)
  }

  /** A successful find() sends one POST to the scope's /element path carrying
      the CSS locator, and returns the element the reply names, created under
      the scope's session. */
  lemma FindSendsLocator(conn: Conn, scope: Scope, css: string)
    requires scope.Session? ==> !scope.closed
    ensures var o := Find(conn, scope, css);
      var path := match scope case Session(p, _) => p case Within(h) => h.elementPath;
      && o.conn.log == conn.log + [Request(HttpPost, RequestUrl(conn.server, path + "/element"),
                                           Some(Locator("css selector", css)))]
      && (o.result.Ok? ==> o.result.value.sessionPath == SessionPathOf(scope))
  {
  }

  /** When the server answers a find() with `{status: 0, value: {ELEMENT: x}}`,
      the element returned is `x`, created under the scope's session. */
  lemma FindNamesReplyElement(conn: Conn, scope: Scope, css: string,
                              status: nat, contentType: string, raw: string, x: Value)
    requires scope.Session? ==> !scope.closed
    requires conn.replies != []
    requires conn.replies[0] == Received(status, contentType, raw, SuccessEnvelope(Assoc([("ELEMENT", x)])))
    requires 100 <= status <= 999 && status / 100 != 4 && Contains(contentType, "json")
    ensures var o := Find(conn, scope, css);
      && o.result.Ok?
      && o.result.value.id == ToString(x)
      && o.result.value.sessionPath == SessionPathOf(scope)
      && ValidHandle(o.result.value)
  {
    var v := Assoc([("ELEMENT", x)]);
    RelativePostOfJson(conn, scope, "/element", Locator("css selector", css),
                       status, contentType, raw, SuccessEnvelope(v));
    UnwrapSuccess(v);
    assert v.entries[0] == (StrKey("ELEMENT"), x);
    assert HasKey(v.entries, StrKey("ELEMENT"));
  }

  /** A closed driver cannot search: the call fails before any request. */
  lemma FindOnClosedSession(conn: Conn, sessionPath: string, css: string)
    ensures Find(conn, Session(sessionPath, true), css) == Outcome(Err(ClosedSessionError), conn)
  {
  }

  /** The elements named by a findAll() reply: one per entry of an array reply,
      in order; none when the reply is not an array. */
  function ElementsOf(scope: Scope, reply: Value): (hs: seq<Handle>)
    ensures reply.Arr? ==> |hs| == |reply.entries|
    ensures reply.Arr? ==> forall i :: 0 <= i < |hs| ==> hs[i] == Create(scope, Get(reply.entries[i].1, "ELEMENT"))
    ensures !reply.Arr? ==> hs == []
  {
    match reply
    case Arr(es) => seq(|es|, i requires 0 <= i < |es| => Create(scope, Get(es[i].1, "ELEMENT")))
    case _ => []
  }

  /** findAll($cssSelector) */
  function FindAll(conn: Conn, scope: Scope, css: string): (o: Outcome<seq<Handle>>)
    ensures o.result.Ok? ==> forall i :: 0 <= i < |o.result.value| ==>
      ValidHandle(o.result.value[i]) && o.result.value[i].sessionPath == SessionPathOf(scope)
  {
    MapOutcome(RelativePost(conn, scope, "/elements", Locator("css selector", css)),
               (r: Value) => ElementsOf(scope, r))
  }

  /** When the server answers a findAll() with `{status: 0, value: [..]}`, the
      result has one element per entry, in order, each the entry's `ELEMENT`
      created under the scope's session. */
  lemma FindAllNamesEntries(conn: Conn, scope: Scope, css: string,
                            status: nat, contentType: string, raw: string, es: seq<(Key, Value)>)
    requires scope.Session? ==> !scope.closed
    requires conn.replies != []
    requires conn.replies[0] == Received(status, contentType, raw, SuccessEnvelope(Arr(es)))
    requires 100 <= status <= 999 && status / 100 != 4 && Contains(contentType, "json")
    ensures var o := FindAll(conn, scope, css);
      && o.result.Ok?
      && |o.result.value| == |es|
      && forall i :: 0 <= i < |es| ==>
           && o.result.value[i].id == ToString(Get(es[i].1, "ELEMENT"))
           && o.result.value[i].sessionPath == SessionPathOf(scope)
  {
    RelativePostOfJson(conn, scope, "/elements", Locator("css selector", css),
                       status, contentType, raw, SuccessEnvelope(Arr(es)));
    UnwrapSuccess(Arr(es));
  }

  /** tryFind($cssSelector): the first of findAll(), or null when it found none. */
  function TryFind(conn: Conn, scope: Scope, css: string): (o: Outcome<Option<Handle>>)
    ensures o.result.Ok? && o.result.value.Some? ==> o.result.value.value.sessionPath == SessionPathOf(scope)
  {
    MapOutcome(FindAll(conn, scope, css), (hs: seq<Handle>) => if hs == [] then None else Some(hs[0]))
  }

  /** tryFind() fails exactly when findAll() fails, gives null exactly when
      findAll() found nothing, and otherwise the first element found. */
  lemma TryFindIsFirstOfFindAll(conn: Conn, scope: Scope, css: string)
    ensures TryFind(conn, scope, css).conn == FindAll(conn, scope, css).conn
    ensures TryFind(conn, scope, css).result.Ok? <==> FindAll(conn, scope, css).result.Ok?
    ensures FindAll(conn, scope, css).result.Ok? ==>
      && (TryFind(conn, scope, css).result.value.None? <==> FindAll(conn, scope, css).result.value == [])
      && (TryFind(conn, scope, css).result.value.Some? ==>
            TryFind(conn, scope, css).result.value.value == FindAll(conn, scope, css).result.value[0])
  {
  }

  // ---------------------------------------------------------------------------
  // findByText
  // ---------------------------------------------------------------------------

  const XPathHead: string := "//*[contains(text(),'"
  const XPathTail: string := "')]"

  /** The XPath expression findByText() searches with. */
  function TextXPath(text: string): string {
    XPathHead + AddSlashes(text) + XPathTail
  }

  /** findByText($text) */
  function FindByText(conn: Conn, scope: Scope, text: string): (o: Outcome<Handle>)
    ensures |o.conn.replies| <= |conn.replies|
    ensures o.result.Ok? || o.result.error.Selenium? ==> |o.conn.replies| < |conn.replies|
  {
    FindBy(conn, scope, "xpath", TextXPath(text))
  }

  /** findByText() sends one POST to /element below the scope carrying
      `{using: "xpath", value: <the XPath for text>}`; a closed session sends
      nothing. */
  lemma FindByTextSendsXPath(conn: Conn, scope: Scope, text: string)
    ensures var o := FindByText(conn, scope, text);
      var path := match scope case Session(p, _) => p case Within(h) => h.elementPath;
      && (scope.Session? && scope.closed ==> o.conn.log == conn.log && o.result.Err?)
      && (!(scope.Session? && scope.closed) ==>
            o.conn.log == conn.log + [Request(HttpPost, RequestUrl(conn.server, path + "/element"),
                                              Some(Locator("xpath", TextXPath(text))))])
  {
  }

  /** The XPath expression embeds the text so that stripslashes() recovers it,
      and text with nothing to escape is embedded verbatim. */
  lemma TextXPathEmbedsText(text: string)
    ensures var x := TextXPath(text);
      && |x| >= |XPathHead| + |XPathTail|
      && x[..|XPathHead|] == XPathHead
      && x[|x| - |XPathTail|..] == XPathTail
      && StripSlashes(x[|XPathHead|..|x| - |XPathTail|]) == text
    ensures (forall i :: 0 <= i < |text| ==> !NeedsSlash(text[i])) ==>
      TextXPath(text) == XPathHead + text + XPathTail
  {
    var x := TextXPath(text);
    var middle := AddSlashes(text);
    assert x[..|XPathHead|] == XPathHead;
    assert x[|x| - |XPathTail|..] == XPathTail;
    assert x[|XPathHead|..|x| - |XPathTail|] == middle;
    StripSlashesOfAddSlashes(text);
  }

  // ---------------------------------------------------------------------------
  // findByLabel
  // ---------------------------------------------------------------------------

  /** PHP 5's loose `$tag == 'label'`: a string compares as a string, an
      integer with the (int) cast of 'label' (0), a boolean with its truth
      (true), null as the empty string; an array or object never equals it. */
  predicate LooseEqualsLabel(tag: Value) {
    match tag
    case Null => false
    case Bool(b) => b
    case Int(i) => i == 0
    case Str(s) => s == "label"
    case Arr(_) => false
    case Elem(_) => false
  }

  function NotALabelMessage(labelText: string, tag: Value): string {
    "Tag with text '" + labelText + "' was not a label but a " + ToString(tag)
  }

  function NoForMessage(labelText: string): string {
    "Label with text '" + labelText + "' has no for attribute"
  }

  /** findByLabel($labelText): find the label by its text; unless its tag is
      'label', ask for the tag a second time and throw naming it; throw when
      its `for` attribute is empty(); otherwise find `#<for>` in this scope. */
  function FindByLabel(conn: Conn, scope: Scope, labelText: string): (o: Outcome<Handle>)
    ensures o.result.Ok? ==> ValidHandle(o.result.value) && o.result.value.sessionPath == SessionPathOf(scope)
  {
    var found := FindByText(conn, scope, labelText);
    match found.result
    case Err(e) => Outcome(Err(e), found.conn)
    case Ok(labelElem) => FollowLabel(found.conn, scope, labelText, labelElem)
  }

  /** findByLabel() once the element with the label text was found. */
  function FollowLabel(conn: Conn, scope: Scope, labelText: string, labelElem: Handle): (o: Outcome<Handle>)
    ensures o.result.Ok? ==> ValidHandle(o.result.value) && o.result.value.sessionPath == SessionPathOf(scope)
  {
    var tag := GetTagName(conn, labelElem);
    match tag.result
    case Err(e) => Outcome(Err(e), tag.conn)
    case Ok(name) =>
      if !LooseEqualsLabel(name) then
        var again := GetTagName(tag.conn, labelElem);
        match again.result
        case Err(e) => Outcome(Err(e), again.conn)
        case Ok(name2) => Outcome(Err(WithMessage(NotALabelMessage(labelText, name2))), again.conn)
      else
        var target := GetAttribute(tag.conn, labelElem, "for");
        match target.result
        case Err(e) => Outcome(Err(e), target.conn)
        case Ok(id) =>
          if IsEmpty(id) then Outcome(Err(WithMessage(NoForMessage(labelText))), target.conn)
          else Find(target.conn, scope, "#" + ToString(id))
  }

  /** Once the label was found, its tag read as 'label' and its non-empty
      `for` attribute read, findByLabel() is find('#<for>') in the same scope,
      whether that search succeeds or throws. */
  lemma FindByLabelFollowsFor(conn: Conn, scope: Scope, labelText: string)
    requires FindByText(conn, scope, labelText).result.Ok?
    requires var found := FindByText(conn, scope, labelText);
      var tag := GetTagName(found.conn, found.result.value);
      && tag.result.Ok? && LooseEqualsLabel(tag.result.value)
      && var target := GetAttribute(tag.conn, found.result.value, "for");
      target.result.Ok? && !IsEmpty(target.result.value)
    ensures var found := FindByText(conn, scope, labelText);
      var tag := GetTagName(found.conn, found.result.value);
      var target := GetAttribute(tag.conn, found.result.value, "for");
      FindByLabel(conn, scope, labelText) == Find(target.conn, scope, "#" + ToString(target.result.value))
  {
  }

  /** findByLabel() succeeds only through a label: the element it returns is
      what find('#<for>') returns after the label was found, its tag read as
      'label' and its non-empty `for` attribute read. */
  lemma FindByLabelOnlyThroughLabel(conn: Conn, scope: Scope, labelText: string)
    requires FindByLabel(conn, scope, labelText).result.Ok?
    ensures var found := FindByText(conn, scope, labelText);
      && found.result.Ok?
      && var tag := GetTagName(found.conn, found.result.value);
      && tag.result.Ok? && LooseEqualsLabel(tag.result.value)
      && var target := GetAttribute(tag.conn, found.result.value, "for");
      && target.result.Ok? && !IsEmpty(target.result.value)
      && FindByLabel(conn, scope, labelText) == Find(target.conn, scope, "#" + ToString(target.result.value))
  {
  }

  /** A tag that is not 'label' is fetched a second time for the message, and
      the failure is a SeleniumException with code 0 naming that second tag. */
  lemma FindByLabelNotALabel(conn: Conn, scope: Scope, labelText: string)
    requires FindByText(conn, scope, labelText).result.Ok?
    requires var found := FindByText(conn, scope, labelText);
      var tag := GetTagName(found.conn, found.result.value);
      tag.result.Ok? && !LooseEqualsLabel(tag.result.value)
    ensures var found := FindByText(conn, scope, labelText);
      var tag := GetTagName(found.conn, found.result.value);
      var again := GetTagName(tag.conn, found.result.value);
      && FindByLabel(conn, scope, labelText).conn == again.conn
      && |again.conn.log| == |found.conn.log| + 2
      && (again.result.Ok? ==>
            FindByLabel(conn, scope, labelText).result
              == Err(Selenium(NotALabelMessage(labelText, again.result.value), 0)))
  {
  }

  /** A label whose `for` attribute is empty() fails with a SeleniumException
      with code 0, after three requests and without searching further. */
  lemma FindByLabelNoFor(conn: Conn, scope: Scope, labelText: string)
    requires FindByText(conn, scope, labelText).result.Ok?
    requires var found := FindByText(conn, scope, labelText);
      var tag := GetTagName(found.conn, found.result.value);
      && tag.result.Ok? && LooseEqualsLabel(tag.result.value)
      && var target := GetAttribute(tag.conn, found.result.value, "for");
      target.result.Ok? && IsEmpty(target.result.value)
    ensures FindByLabel(conn, scope, labelText).result == Err(Selenium(NoForMessage(labelText), 0))
    ensures |FindByLabel(conn, scope, labelText).conn.log| == |FindByText(conn, scope, labelText).conn.log| + 2
  {
  }

  // ---------------------------------------------------------------------------
  // waitForText
  // ---------------------------------------------------------------------------

  /** getDefaultWaitTimeout(), in seconds. */
  const DefaultWaitTimeout: int := 5

  /** `$timeout ?: $this->getDefaultWaitTimeout()`: a missing or zero timeout
      means the default. */
  function EffectiveTimeout(timeout: int): (t: int)
    ensures timeout != 0 ==> t == timeout
    ensures timeout == 0 ==> t == DefaultWaitTimeout
  {
    if timeout != 0 then timeout else DefaultWaitTimeout
  }

  /** The pause before an attempt, in microseconds, after `passed`
      microseconds: a tenth of the time passed, at most one second;
      usleep() refuses a negative pause. */
  function SleepFor(passed: int): (us: int)
    ensures 0 <= us <= 1_000_000
    ensures passed > 0 ==> us <= passed
  {
    if passed <= 0 then 0 else if passed / 10 < 1_000_000 then passed / 10 else 1_000_000
  }

  /** The pause is min(1 s, passed / 10), truncated to whole microseconds:
      a full second once ten seconds have passed, and otherwise the tenth of
      the time passed rounded down. */
  lemma SleepForIsTenth(passed: int)
    ensures passed >= 10_000_000 ==> SleepFor(passed) == 1_000_000
    ensures 0 < passed < 10_000_000 ==>
      SleepFor(passed) * 10 <= passed < (SleepFor(passed) + 1) * 10
    ensures passed <= 0 ==> SleepFor(passed) == 0
  {
  }

  /** `strpos($haystack, $needle) !== false` for the decoded text of an
      element: an array or object haystack makes PHP 5's strpos() refuse its
      parameter and return null, which is not false; any other value is
      searched as its string form. */
  predicate StrPosFinds(haystack: Value, needle: string) {
    haystack.Arr? || haystack.Elem? || Contains(ToString(haystack), needle)
  }

  /** One try of the loop body: find the element by text, read its text, and
      report it when the text occurs in it. A SeleniumException that only says
      the element is missing or invisible means "not yet" (None); any other
      failure is raised. */
  function Attempt(conn: Conn, scope: Scope, text: string): (o: Outcome<Option<Handle>>)
    ensures |o.conn.replies| <= |conn.replies|
    ensures o.result == Ok(None) ==> |o.conn.replies| < |conn.replies|
    ensures o.result.Err? ==> !IsDueToElementMissingOrInvisible(o.result.error)
  {
    var found := FindByText(conn, scope, text);
    match found.result
    case Err(e) =>
      if IsDueToElementMissingOrInvisible(e) then Outcome(Ok(None), found.conn) else Outcome(Err(e), found.conn)
    case Ok(h) =>
      var read := GetText(found.conn, h);
      match read.result
      case Err(e) =>
        if IsDueToElementMissingOrInvisible(e) then Outcome(Ok(None), read.conn) else Outcome(Err(e), read.conn)
      case Ok(t) =>
        Outcome(Ok(if StrPosFinds(t, text) then Some(h) else None), read.conn)
  }

  /** A findByText() failure ends the try: a "missing or invisible" one as
      "not yet", any other one raised as it is. */
  lemma AttemptFindFails(conn: Conn, scope: Scope, text: string)
    requires FindByText(conn, scope, text).result.Err?
    ensures var found := FindByText(conn, scope, text);
      var e := found.result.error;
      Attempt(conn, scope, text)
        == Outcome(if IsDueToElementMissingOrInvisible(e) then Ok(None) else Err(e), found.conn)
  {
  }

  /** A getText() failure after the element was found ends the try the same
      way: "missing or invisible" as "not yet", anything else raised. */
  lemma AttemptReadFails(conn: Conn, scope: Scope, text: string)
    requires FindByText(conn, scope, text).result.Ok?
    requires var found := FindByText(conn, scope, text);
      GetText(found.conn, found.result.value).result.Err?
    ensures var found := FindByText(conn, scope, text);
      var read := GetText(found.conn, found.result.value);
      var e := read.result.error;
      Attempt(conn, scope, text)
        == Outcome(if IsDueToElementMissingOrInvisible(e) then Ok(None) else Err(e), read.conn)
  {
  }

  /** A text read that does not hold the searched text means "not yet". */
  lemma AttemptTextMissing(conn: Conn, scope: Scope, text: string)
    requires FindByText(conn, scope, text).result.Ok?
    requires var found := FindByText(conn, scope, text);
      var read := GetText(found.conn, found.result.value);
      read.result.Ok? && !StrPosFinds(read.result.value, text)
    ensures var found := FindByText(conn, scope, text);
      Attempt(conn, scope, text) == Outcome(Ok(None), GetText(found.conn, found.result.value).conn)
  {
  }

  function TimeoutMessage(text: string, limit: int): string {
    "Element with text '" + text + "' failed to appear in " + IntToString(limit) + " sec"
  }

  /** How the waiting ended. */
  datatype Ending = Appeared | Raised | TimedOut

  /** The end of waitForText(): the element or the exception, the connection,
      the pauses slept (one per attempt) and how it ended. */
  datatype Waited = Waited(result: Result<Handle, Failure>, conn: Conn, sleeps: seq<int>, ending: Ending)

  /** What the loop relies on about one attempt: it consumes no reply it was
      not given, an attempt that finds nothing consumes one, and it raises
      only failures other than "missing or invisible". */
  predicate AttemptShape(conn: Conn, o: Outcome<Option<Handle>>) {
    && |o.conn.replies| <= |conn.replies|
    && (o.result == Ok(None) ==> |o.conn.replies| < |conn.replies|)
    && (o.result.Err? ==> !IsDueToElementMissingOrInvisible(o.result.error))
  }

  /** The loop of waitForText() from its k-th reading of the clock on, for
      any way `attempt` of trying once; `clock(0)` is the start time, in
      microseconds. Before each attempt it sleeps a tenth of the time passed,
      and it goes on while the time passed is within the timeout. */
  function WaitFrom(attempt: Conn -> Outcome<Option<Handle>>, conn: Conn, text: string, limit: int,
                    clock: nat -> int, k: nat, sleeps: seq<int>): Waited
    requires forall c :: AttemptShape(c, attempt(c))
    decreases |conn.replies|
  {
    var passed := clock(k) - clock(0);
    var slept := sleeps + [SleepFor(passed)];
    var a := attempt(conn);
    assert AttemptShape(conn, a);
    match a.result
    case Err(e) => Waited(Err(e), a.conn, slept, Raised)
    case Ok(Some(h)) => Waited(Ok(h), a.conn, slept, Appeared)
    case Ok(None) =>
      if passed <= limit * 1_000_000 then WaitFrom(attempt, a.conn, text, limit, clock, k + 1, slept)
      else Waited(Err(WithMessage(TimeoutMessage(text, limit))), a.conn, slept, TimedOut)
  }

  /** The attempt of waitForText(): find the element by `text` in `scope`. */
  function TextAttempt(scope: Scope, text: string): (attempt: Conn -> Outcome<Option<Handle>>)
    ensures forall c :: AttemptShape(c, attempt(c))
  {
    c => Attempt(c, scope, text)
  }

  /** waitForText($text, $timeout) with the clock readings `clock`. */
  function WaitForText(conn: Conn, scope: Scope, text: string, timeout: int, clock: nat -> int): (w: Waited)
    ensures w.result.Ok? <==> w.ending == Appeared
    ensures w.ending == Raised ==> w.result.Err? && !IsDueToElementMissingOrInvisible(w.result.error)
  {
    WaitEnding(TextAttempt(scope, text), conn, text, EffectiveTimeout(timeout), clock, 1, []);
    WaitFrom(TextAttempt(scope, text), conn, text, EffectiveTimeout(timeout), clock, 1, [])
  }

  /** A zero timeout waits exactly as the default of 5 seconds does. */
  lemma WaitForTextDefaultTimeout(conn: Conn, scope: Scope, text: string, clock: nat -> int)
    ensures WaitForText(conn, scope, text, 0, clock) == WaitForText(conn, scope, text, DefaultWaitTimeout, clock)
    ensures DefaultWaitTimeout == 5
  {
  }

  /** Every run makes at least one attempt and sleeps between 0 and 1 second
      before each. */
  lemma {:induction false} WaitSleeps(attempt: Conn -> Outcome<Option<Handle>>, conn: Conn, text: string,
                                      limit: int, clock: nat -> int, k: nat, sleeps: seq<int>)
    requires forall c :: AttemptShape(c, attempt(c))
    ensures var w := WaitFrom(attempt, conn, text, limit, clock, k, sleeps);
      && |w.sleeps| > |sleeps| && w.sleeps[..|sleeps|] == sleeps
      && (forall i :: |sleeps| <= i < |w.sleeps| ==> 0 <= w.sleeps[i] <= 1_000_000)
    decreases |conn.replies|
  {
    var passed := clock(k) - clock(0);
    var slept := sleeps + [SleepFor(passed)];
    var a := attempt(conn);
    assert AttemptShape(conn, a);
    if a.result == Ok(None) && passed <= limit * 1_000_000 {
      WaitSleeps(attempt, a.conn, text, limit, clock, k + 1, slept);
      var w := WaitFrom(attempt, a.conn, text, limit, clock, k + 1, slept);
      assert w.sleeps[..|slept|] == slept;
      assert w.sleeps[..|sleeps|] == slept[..|sleeps|];
    }
  }

  /** The pause recorded at position i, before the attempt at clock reading
      k + i - |sleeps|, is SleepFor of the time passed at that reading. */
  lemma {:induction false} WaitSleepAt(attempt: Conn -> Outcome<Option<Handle>>, conn: Conn, text: string,
                                       limit: int, clock: nat -> int, k: nat, sleeps: seq<int>, i: nat, j: nat)
    requires forall c :: AttemptShape(c, attempt(c))
    requires |sleeps| <= i < |WaitFrom(attempt, conn, text, limit, clock, k, sleeps).sleeps|
    requires j == k + i - |sleeps|
    ensures WaitFrom(attempt, conn, text, limit, clock, k, sleeps).sleeps[i] == SleepFor(clock(j) - clock(0))
    decreases |conn.replies|
  {
    var passed := clock(k) - clock(0);
    var slept := sleeps + [SleepFor(passed)];
    var a := attempt(conn);
    assert AttemptShape(conn, a);
    if a.result == Ok(None) && passed <= limit * 1_000_000 {
      if i == |sleeps| {
        WaitSleeps(attempt, a.conn, text, limit, clock, k + 1, slept);
        var w := WaitFrom(attempt, a.conn, text, limit, clock, k + 1, slept);
        assert w.sleeps[..|slept|] == slept;
        assert w.sleeps[i] == slept[i];
      } else {
        WaitSleepAt(attempt, a.conn, text, limit, clock, k + 1, slept, i, j);
      }
    }
  }

  /** WaitSleepAt for a loop started at clock reading 1 with no pauses yet. */
  lemma WaitSleepFromStart(attempt: Conn -> Outcome<Option<Handle>>, conn: Conn, text: string,
                           limit: int, clock: nat -> int, i: nat)
    requires forall c :: AttemptShape(c, attempt(c))
    requires i < |WaitFrom(attempt, conn, text, limit, clock, 1, []).sleeps|
    ensures WaitFrom(attempt, conn, text, limit, clock, 1, []).sleeps[i] == SleepFor(clock(1 + i) - clock(0))
  {
    WaitSleepAt(attempt, conn, text, limit, clock, 1, [], i, 1 + i);
  }

  /** The loop goes on only while the time passed at the top of an attempt is
      within the timeout, and times out only after an attempt at which it was
      not: the clock readings k .. k+n-2 of a run of n attempts were within
      the limit, and on a timeout reading k+n-1 (`last`) was past it. */
  lemma {:induction false} WaitWithinLimit(attempt: Conn -> Outcome<Option<Handle>>, conn: Conn, text: string,
                                           limit: int, clock: nat -> int, k: nat, sleeps: seq<int>, last: int)
    requires forall c :: AttemptShape(c, attempt(c))
    requires last == k + |WaitFrom(attempt, conn, text, limit, clock, k, sleeps).sleeps| - |sleeps| - 1
    ensures var w := WaitFrom(attempt, conn, text, limit, clock, k, sleeps);
      var n := |w.sleeps| - |sleeps|;
      && n >= 1
      && (forall j :: k <= j < k + n - 1 ==> clock(j) - clock(0) <= limit * 1_000_000)
      && (w.ending == TimedOut ==> last >= 0 && clock(last) - clock(0) > limit * 1_000_000)
    decreases |conn.replies|
  {
    var passed := clock(k) - clock(0);
    var slept := sleeps + [SleepFor(passed)];
    var a := attempt(conn);
    assert AttemptShape(conn, a);
    if a.result == Ok(None) && passed <= limit * 1_000_000 {
      WaitWithinLimit(attempt, a.conn, text, limit, clock, k + 1, slept, last);
    }
  }

  /** A run returns an element exactly when one appeared, raises only
      failures other than "missing or invisible", and on a timeout throws a
      SeleniumException with code 0 naming the text and the timeout. */
  lemma {:induction false} WaitEnding(attempt: Conn -> Outcome<Option<Handle>>, conn: Conn, text: string,
                                      limit: int, clock: nat -> int, k: nat, sleeps: seq<int>)
    requires forall c :: AttemptShape(c, attempt(c))
    ensures var w := WaitFrom(attempt, conn, text, limit, clock, k, sleeps);
      && (w.result.Ok? <==> w.ending == Appeared)
      && (w.ending == Raised ==> w.result.Err? && !IsDueToElementMissingOrInvisible(w.result.error))
      && (w.ending == TimedOut ==> w.result == Err(Selenium(TimeoutMessage(text, limit), 0)))
    decreases |conn.replies|
  {
    var passed := clock(k) - clock(0);
    var slept := sleeps + [SleepFor(passed)];
    var a := attempt(conn);
    assert AttemptShape(conn, a);
    if a.result == Ok(None) && passed <= limit * 1_000_000 {
      WaitEnding(attempt, a.conn, text, limit, clock, k + 1, slept);
    }
  }

  /** Whatever ends a run early comes from one attempt: a returned element is
      the one some attempt reported, and a raised failure the one some attempt
      raised, with the connection that attempt left. */
  lemma {:induction false} WaitFromAttempt(attempt: Conn -> Outcome<Option<Handle>>, conn: Conn, text: string,
                                           limit: int, clock: nat -> int, k: nat, sleeps: seq<int>)
    requires forall c :: AttemptShape(c, attempt(c))
    ensures var w := WaitFrom(attempt, conn, text, limit, clock, k, sleeps);
      && (w.ending == Appeared ==>
            w.result.Ok? && exists c :: attempt(c) == Outcome(Ok(Some(w.result.value)), w.conn))
      && (w.ending == Raised ==>
            w.result.Err? && exists c :: attempt(c) == Outcome(Err(w.result.error), w.conn))
    decreases |conn.replies|
  {
    var passed := clock(k) - clock(0);
    var slept := sleeps + [SleepFor(passed)];
    var a := attempt(conn);
    assert AttemptShape(conn, a);
    var w := WaitFrom(attempt, conn, text, limit, clock, k, sleeps);
    match a.result
    case Err(e) =>
      assert w == Waited(Err(e), a.conn, slept, Raised);
      assert attempt(conn) == Outcome(Err(w.result.error), w.conn);
    case Ok(Some(h)) =>
      assert w == Waited(Ok(h), a.conn, slept, Appeared);
      assert attempt(conn) == Outcome(Ok(Some(w.result.value)), w.conn);
    case Ok(None) =>
      if passed <= limit * 1_000_000 {
        assert w == WaitFrom(attempt, a.conn, text, limit, clock, k + 1, slept);
        WaitFromAttempt(attempt, a.conn, text, limit, clock, k + 1, slept);
      }
  }

  /** The loop of waitForText(), for any attempt, written as a loop; it ends
      for every finite script of replies, since each attempt that does not
      end it consumes a reply. */
  method RunWait(attempt: Conn -> Outcome<Option<Handle>>, conn: Conn, text: string, limit: int, clock: nat -> int)
    returns (w: Waited)
    requires forall c :: AttemptShape(c, attempt(c))
    ensures w == WaitFrom(attempt, conn, text, limit, clock, 1, [])
  {
    var c := conn;
    var k: nat := 1;
    var sleeps: seq<int> := [];
    while true
      invariant WaitFrom(attempt, c, text, limit, clock, k, sleeps) == WaitFrom(attempt, conn, text, limit, clock, 1, [])
      decreases |c.replies|
    {
      var passed := clock(k) - clock(0);
      sleeps := sleeps + [SleepFor(passed)];
      var a := attempt(c);
      assert AttemptShape(c, a);
      if a.result.Err? {
        return Waited(Err(a.result.error), a.conn, sleeps, Raised);
      }
      if a.result.value.Some? {
        return Waited(Ok(a.result.value.value), a.conn, sleeps, Appeared);
      }
      if passed > limit * 1_000_000 {
        return Waited(Err(WithMessage(TimeoutMessage(text, limit))), a.conn, sleeps, TimedOut);
      }
      c := a.conn;
      k := k + 1;
    }
  }

  /** waitForText() as the loop it is written as. */
  method WaitForTextLoop(conn: Conn, scope: Scope, text: string, timeout: int, clock: nat -> int)
    returns (w: Waited)
    ensures w == WaitForText(conn, scope, text, timeout, clock)
    ensures w.ending == Raised ==> w.result.Err? && !IsDueToElementMissingOrInvisible(w.result.error)
  {
    w := RunWait(TextAttempt(scope, text), conn, text, EffectiveTimeout(timeout), clock);
    WaitEnding(TextAttempt(scope, text), conn, text, EffectiveTimeout(timeout), clock, 1, []);
  }

  /** waitForText() makes at least one attempt and pauses before each: the
      pause before attempt i is a tenth of the time passed at clock reading
      i + 1, at most one second. */
  lemma WaitForTextPaces(conn: Conn, scope: Scope, text: string, timeout: int, clock: nat -> int)
    ensures var w := WaitForText(conn, scope, text, timeout, clock);
      && |w.sleeps| >= 1
      && (forall i :: 0 <= i < |w.sleeps| ==> 0 <= w.sleeps[i] <= 1_000_000)
  {
    var none: seq<int> := [];
    WaitSleeps(TextAttempt(scope, text), conn, text, EffectiveTimeout(timeout), clock, 1, none);
    assert |none| == 0;
  }

  /** The pause before waitForText()'s attempt i+1 is min(1 s, passed / 10)
      for the time passed at clock reading i+1. */
  lemma WaitForTextPauseAt(conn: Conn, scope: Scope, text: string, timeout: int, clock: nat -> int, i: nat)
    requires i < |WaitForText(conn, scope, text, timeout, clock).sleeps|
    ensures WaitForText(conn, scope, text, timeout, clock).sleeps[i] == SleepFor(clock(1 + i) - clock(0))
  {
    WaitSleepFromStart(TextAttempt(scope, text), conn, text, EffectiveTimeout(timeout), clock, i);
  }

  /** waitForText() retries only while the time passed is within the timeout
      (a zero timeout meaning 5 seconds): clock readings 1 .. n-1 of a run of
      n attempts were within it, and a timeout comes only after reading n was
      past it. */
  lemma WaitForTextRespectsTimeout(conn: Conn, scope: Scope, text: string, timeout: int, clock: nat -> int)
    ensures var w := WaitForText(conn, scope, text, timeout, clock);
      var limit := EffectiveTimeout(timeout);
      && (forall j :: 1 <= j < |w.sleeps| ==> clock(j) - clock(0) <= limit * 1_000_000)
      && (w.ending == TimedOut ==> clock(|w.sleeps|) - clock(0) > limit * 1_000_000)
  {
    var w := WaitForText(conn, scope, text, timeout, clock);
    WaitWithinLimit(TextAttempt(scope, text), conn, text, EffectiveTimeout(timeout), clock, 1, [], |w.sleeps|);
  }

  /** waitForText() returns an element exactly when one appeared, and on a
      timeout throws a SeleniumException with code 0 naming the text and the
      effective timeout. */
  lemma WaitForTextEnding(conn: Conn, scope: Scope, text: string, timeout: int, clock: nat -> int)
    ensures var w := WaitForText(conn, scope, text, timeout, clock);
      && (w.result.Ok? <==> w.ending == Appeared)
      && (w.ending == TimedOut ==>
            w.result == Err(Selenium(TimeoutMessage(text, EffectiveTimeout(timeout)), 0)))
  {
    WaitEnding(TextAttempt(scope, text), conn, text, EffectiveTimeout(timeout), clock, 1, []);
  }

  /** waitForText() returns only an element that one attempt reported, and
      raises only a failure one attempt raised: with AttemptFindsText the
      element was found by findByText() and its text holds the searched text,
      and with AttemptFindFails and AttemptReadFails the failure is a
      findByText() or getText() failure other than "missing or invisible". */
  lemma WaitForTextFromAttempt(conn: Conn, scope: Scope, text: string, timeout: int, clock: nat -> int)
    ensures var w := WaitForText(conn, scope, text, timeout, clock);
      && (w.ending == Appeared ==>
            w.result.Ok? && exists c :: Attempt(c, scope, text) == Outcome(Ok(Some(w.result.value)), w.conn))
      && (w.ending == Raised ==>
            w.result.Err? && exists c :: Attempt(c, scope, text) == Outcome(Err(w.result.error), w.conn))
  {
    var attempt := TextAttempt(scope, text);
    var w := WaitFrom(attempt, conn, text, EffectiveTimeout(timeout), clock, 1, []);
    assert WaitForText(conn, scope, text, timeout, clock) == w;
    WaitFromAttempt(attempt, conn, text, EffectiveTimeout(timeout), clock, 1, []);
    if w.ending == Appeared {
      var c :| attempt(c) == Outcome(Ok(Some(w.result.value)), w.conn);
      assert Attempt(c, scope, text) == attempt(c);
    } else if w.ending == Raised {
      var c :| attempt(c) == Outcome(Err(w.result.error), w.conn);
      assert Attempt(c, scope, text) == attempt(c);
    }
  }

  /** A first findByText() failure other than "missing or invisible" ends
      waitForText() at once with that very failure, after one pause. */
  lemma WaitRaisesFindFailure(conn: Conn, scope: Scope, text: string, timeout: int, clock: nat -> int)
    requires FindByText(conn, scope, text).result.Err?
    requires !IsDueToElementMissingOrInvisible(FindByText(conn, scope, text).result.error)
    ensures var w := WaitForText(conn, scope, text, timeout, clock);
      && w.result == Err(FindByText(conn, scope, text).result.error)
      && |w.sleeps| == 1 && w.ending == Raised
  {
    AttemptFindFails(conn, scope, text);
    WaitRaisesAtOnce(conn, scope, text, timeout, clock);
  }

  /** An attempt that reports an element has read its text and strpos()
      found `text` in it. The empty text is reported only for an array or
      object text, since PHP 5's strpos() finds no empty needle. */
  lemma AttemptFindsText(conn: Conn, scope: Scope, text: string)
    requires Attempt(conn, scope, text).result.Ok? && Attempt(conn, scope, text).result.value.Some?
    ensures var found := FindByText(conn, scope, text);
      && found.result.Ok?
      && Attempt(conn, scope, text).result.value.value == found.result.value
      && GetText(found.conn, found.result.value).result.Ok?
      && StrPosFinds(GetText(found.conn, found.result.value).result.value, text)
      && (text == [] ==> GetText(found.conn, found.result.value).result.value.Arr?
                         || GetText(found.conn, found.result.value).result.value.Elem?)
  {
  }

  /** Conversely, an element found whose text strpos() finds `text` in is
      reported, after exactly the two requests. */
  lemma AttemptReportsText(conn: Conn, scope: Scope, text: string)
    requires FindByText(conn, scope, text).result.Ok?
    requires var found := FindByText(conn, scope, text);
      var read := GetText(found.conn, found.result.value);
      read.result.Ok? && StrPosFinds(read.result.value, text)
    ensures var found := FindByText(conn, scope, text);
      var read := GetText(found.conn, found.result.value);
      Attempt(conn, scope, text) == Outcome(Ok(Some(found.result.value)), read.conn)
  {
  }

  /** A failure other than "missing or invisible" on the first attempt ends
      the wait at once with that failure, after one pause. */
  lemma WaitRaisesAtOnce(conn: Conn, scope: Scope, text: string, timeout: int, clock: nat -> int)
    requires Attempt(conn, scope, text).result.Err?
    ensures var w := WaitForText(conn, scope, text, timeout, clock);
      && w.result == Err(Attempt(conn, scope, text).result.error)
      && |w.sleeps| == 1 && w.ending == Raised
  {
  }
}
