/** WebElement: one element of the page, addressed through its handle. Every
    accessor is a single request on the element path; the element keeps its
    own reference to the server, so it does not check whether the driver's
    session was closed. */
module WebElement {
  import opened Wrappers
  import opened Php
  import opened Values
  import opened SeleniumException
  import opened SeleniumServer

  /** getSeleniumId(): the opaque id Selenium assigned. */
  function GetSeleniumId(h: Handle): string {
    h.id
  }

  /** elementGet($path) */
  function ElementGet(conn: Conn, h: Handle, suffix: string): Outcome<Value> {
    SendGet(conn, h.elementPath + suffix)
  }

  /** elementPost($path, $params) */
  function ElementPost(conn: Conn, h: Handle, suffix: string, params: Value): Outcome<Value> {
    SendPost(conn, h.elementPath + suffix, params)
  }

  /** makeRelativePostRequest(): a finder request below this element. */
  function MakeRelativePostRequest(conn: Conn, h: Handle, relPath: string, params: Value): Outcome<Value> {
    ElementPost(conn, h, relPath, params)
  }

  /** createWebElement($id): a sub-element lives in the same session as this
      one; its path is built from the session path, not from this element's. */
  function CreateWebElement(h: Handle, id: Value): (e: Handle)
    ensures e.sessionPath == h.sessionPath && ValidHandle(e)
    ensures e.id == ToString(id)
  {
    NewHandle(h.sessionPath, id)
  }

  /** Elements found below elements are not nested: creating from a created
      element is the same as creating from the original. */
  lemma CreateWebElementFlat(h: Handle, a: Value, b: Value)
    ensures CreateWebElement(CreateWebElement(h, a), b) == CreateWebElement(h, b)
    ensures GetSeleniumId(CreateWebElement(h, b)) == ToString(b)
  {
  }

  // ---------------------------------------------------------------------------
  // Accessors
  // ---------------------------------------------------------------------------

  /** getTagName(): GET /name */
  function GetTagName(conn: Conn, h: Handle): Outcome<Value> {
    ElementGet(conn, h, "/name")
  }

  /** getText(): GET /text */
  function GetText(conn: Conn, h: Handle): Outcome<Value> {
    ElementGet(conn, h, "/text")
  }

  /** getAttribute($name): GET /attribute/<name> */
  function GetAttribute(conn: Conn, h: Handle, name: string): Outcome<Value> {
    ElementGet(conn, h, "/attribute/" + name)
  }

  /** getId(): the HTML id attribute. */
  function GetId(conn: Conn, h: Handle): Outcome<Value> {
    GetAttribute(conn, h, "id")
  }

  /** isEnabled(): GET /enabled */
  function IsEnabled(conn: Conn, h: Handle): Outcome<Value> {
    ElementGet(conn, h, "/enabled")
  }

  /** isDisabled(): the boolean negation of isEnabled(). */
  function IsDisabled(conn: Conn, h: Handle): Outcome<Value> {
    MapOutcome(IsEnabled(conn, h), (v: Value) => Bool(!Truthy(v)))
  }

  /** isHidden(): the boolean negation of GET /displayed */
  function IsHidden(conn: Conn, h: Handle): Outcome<Value> {
    MapOutcome(ElementGet(conn, h, "/displayed"), (v: Value) => Bool(!Truthy(v)))
  }

  /** isSelected(): GET /selected */
  function IsSelected(conn: Conn, h: Handle): Outcome<Value> {
    ElementGet(conn, h, "/selected")
  }

  /** click(): POST /click with no parameters; returns nothing. */
  function Click(conn: Conn, h: Handle): Outcome<Value> {
    MapOutcome(ElementPost(conn, h, "/click", Null), (_: Value) => Null)
  }

  /** clear(): POST /clear with no parameters; returns nothing. */
  function Clear(conn: Conn, h: Handle): Outcome<Value> {
    MapOutcome(ElementPost(conn, h, "/clear", Null), (_: Value) => Null)
  }

  /** The key sequence fillIn() sends: an array as it is, anything else as a
      one-element list holding its string form. */
  function KeySequence(text: Value): (keys: Value)
    ensures keys.Arr?
  {
    if text.Arr? then text else Arr([(IntKey(0), Str(ToString(text)))])
  }

  /** fillIn($text): POST /value with `{value: <key sequence>}`; returns nothing. */
  function FillIn(conn: Conn, h: Handle, text: Value): Outcome<Value> {
    MapOutcome(ElementPost(conn, h, "/value", Assoc([("value", KeySequence(text))])), (_: Value) => Null)
  }

  // ---------------------------------------------------------------------------
  // Properties
  // ---------------------------------------------------------------------------

  /** The one request an element GET sends. */
  function GetRequest(conn: Conn, h: Handle, suffix: string): Request {
    Request(HttpGet, RequestUrl(conn.server, h.elementPath + suffix), None)
  }

  /** Each reading accessor sends exactly one GET, to the element path plus its
      own suffix, and consumes one reply. */
  lemma AccessorsSendOneGet(conn: Conn, h: Handle, name: string)
    ensures GetTagName(conn, h).conn.log == conn.log + [GetRequest(conn, h, "/name")]
    ensures GetText(conn, h).conn.log == conn.log + [GetRequest(conn, h, "/text")]
    ensures GetAttribute(conn, h, name).conn.log == conn.log + [GetRequest(conn, h, "/attribute/" + name)]
    ensures IsEnabled(conn, h).conn.log == conn.log + [GetRequest(conn, h, "/enabled")]
    ensures IsHidden(conn, h).conn.log == conn.log + [GetRequest(conn, h, "/displayed")]
    ensures IsSelected(conn, h).conn.log == conn.log + [GetRequest(conn, h, "/selected")]
    ensures |GetText(conn, h).conn.replies| == if conn.replies == [] then 0 else |conn.replies| - 1
  {
  }

  /** getId() asks for the `id` attribute. */
  lemma GetIdIsIdAttribute(conn: Conn, h: Handle)
    ensures GetId(conn, h).conn.log == conn.log + [GetRequest(conn, h, "/attribute/id")]
  {
    assert "/attribute/" + "id" == "/attribute/id";
  }

  /** isDisabled() sends the same request as isEnabled(), fails exactly when it
      fails, and otherwise answers the opposite truth value. */
  lemma IsDisabledNegatesEnabled(conn: Conn, h: Handle)
    ensures IsDisabled(conn, h).conn == IsEnabled(conn, h).conn
    ensures IsDisabled(conn, h).result.Ok? <==> IsEnabled(conn, h).result.Ok?
    ensures IsEnabled(conn, h).result.Ok? ==>
      IsDisabled(conn, h).result.value.Bool?
      && (Truthy(IsDisabled(conn, h).result.value) <==> !Truthy(IsEnabled(conn, h).result.value))
    ensures IsEnabled(conn, h).result.Err? ==> IsDisabled(conn, h).result == IsEnabled(conn, h).result
  {
  }

  /** isHidden() sends the GET /displayed, fails exactly when it fails, and
      otherwise answers the opposite truth value of the reply. */
  lemma IsHiddenNegatesDisplayed(conn: Conn, h: Handle)
    ensures var shown := ElementGet(conn, h, "/displayed");
      && IsHidden(conn, h).conn == shown.conn
      && (IsHidden(conn, h).result.Ok? <==> shown.result.Ok?)
      && (shown.result.Ok? ==>
            IsHidden(conn, h).result.value.Bool?
            && (Truthy(IsHidden(conn, h).result.value) <==> !Truthy(shown.result.value)))
      && (shown.result.Err? ==> IsHidden(conn, h).result == shown.result)
  {
  }

  /** The one request a parameterless element POST sends: the missing
      parameters go out as an empty array. */
  function EmptyPostRequest(conn: Conn, h: Handle, suffix: string): Request {
    Request(HttpPost, RequestUrl(conn.server, h.elementPath + suffix), Some(Arr([])))
  }

  /** click() and clear() each send one POST without parameters, to /click and
      /clear below the element, and return nothing. */
  lemma ClickAndClearPost(conn: Conn, h: Handle)
    ensures Click(conn, h).conn.log == conn.log + [EmptyPostRequest(conn, h, "/click")]
    ensures Clear(conn, h).conn.log == conn.log + [EmptyPostRequest(conn, h, "/clear")]
    ensures Click(conn, h).result.Ok? ==> Click(conn, h).result.value == Null
    ensures Clear(conn, h).result.Ok? ==> Clear(conn, h).result.value == Null
  {
  }

  /** fillIn() sends exactly one POST to /value whose `value` entry is the key
      sequence: an array unchanged, or the text as a one-element list, so the
      typed text (special keys included) reaches the server unaltered. */
  lemma FillInSendsText(conn: Conn, h: Handle, text: Value)
    ensures var log := FillIn(conn, h, text).conn.log;
      && |log| == |conn.log| + 1 && log[..|conn.log|] == conn.log
      && log[|conn.log|].verb == HttpPost
      && log[|conn.log|].url == RequestUrl(conn.server, h.elementPath + "/value")
      && log[|conn.log|].body == Some(Assoc([("value", KeySequence(text))]))
    ensures Get(Assoc([("value", KeySequence(text))]), "value") == KeySequence(text)
    ensures text.Arr? ==> KeySequence(text) == text
    ensures text.Str? ==> KeySequence(text).entries == [(IntKey(0), text)]
    ensures FillIn(conn, h, text).result.Ok? ==> FillIn(conn, h, text).result.value == Null
  {
    var body := Assoc([("value", KeySequence(text))]);
    assert body.entries[0] == (StrKey("value"), KeySequence(text));
  }
}
