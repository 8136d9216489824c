# A verified model of the Xi Selenium WebDriver client

This project models the core of a PHP client for Selenium's JSON wire
protocol. The model is written in Dafny and comes with proofs about it. The
modelled client works at three levels:

- **SeleniumServer** composes request URLs, splits raw HTTP replies into
  header fields and body, and interprets a reply by its status class and
  content type.
- **WebDriver** opens a session, sends page-level commands below the session
  path, and can be closed.
- **WebElement** addresses one element of the page.

Both the driver and its elements can search for elements (**HasWebElements**).
Failures are `SeleniumException`s, whose message may be synthesized from the
status table embedded in the class. `Keys` holds the special key codes.

The transport is a script. A connection (`SeleniumServer.Conn`) carries the
server object, the replies still to come, and the log of requests sent so far.
Each request consumes one reply. Each reply carries its status code, its
content type, its raw text, and the value that `json_decode` would have
produced from its body. When the script is exhausted, the request fails the
way an unreachable server does. Every property below is therefore stated
about the requests an operation sends and the replies it reads.

The modules follow the source files:

- `wrappers.dfy`: `Option` and `Result`.
- `php.dfy`: the PHP string built-ins the client relies on: `trim`, `rtrim`,
  `ltrim`, `strpos`, `explode`, `addslashes`, `strtolower`, and the
  integer/string casts.
- `values.dfy`: PHP values as decoded from JSON, element handles, PHP's
  `empty()`, `isset`, casts and loose comparisons, and `array_merge`.
- `selenium_exception.dfy`, `server.dfy`, `keys.dfy`, `web_element.dfy`,
  `has_web_elements.dfy` and `web_driver.dfy`: one module per class.

The source targets PHP 5. Where PHP versions differ, the model follows PHP 5:
`strpos` with an empty needle returns `false`. A loose comparison between a
string and 0 is modelled by the string's (int) cast. PHP 5 compares a numeric
string numerically instead, and "## Left out" says where the two differ.

## Model

| member | source | states |
|---|---|---|
| SeleniumServer.NewServer | library/Xi/Test/Selenium/SeleniumServer.php:24-29 | the server URL is the given URL minus its trailing slashes only (a prefix not ending in '/', every dropped character a '/'), and no redirect location is recorded yet |
| SeleniumServer.RequestUrlJoin | library/Xi/Test/Selenium/SeleniumServer.php:76-80 | a path that does not contain the server URL is appended to it with exactly one slash between them, the rest being the path with its leading slashes removed |
| SeleniumServer.RequestUrl | library/Xi/Test/Selenium/SeleniumServer.php:76-80 | a path containing the server URL is kept; any other URL starts with the server URL followed by a slash |
| SeleniumServer.RequestUrlOfAbsolute | library/Xi/Test/Selenium/SeleniumServer.php:76-77 | a path that contains the server URL anywhere, not only at its start, is used unchanged |
| SeleniumServer.RequestUrlOfPrefixed | library/Xi/Test/Selenium/SeleniumServer.php:76-77 | a path that starts with the server URL is used unchanged |
| SeleniumServer.RequestUrlIdempotent | library/Xi/Test/Selenium/SeleniumServer.php:76-80 | composing a URL from a composed URL changes nothing |
| SeleniumServer.SplitMessage | library/Xi/Test/Selenium/SeleniumServer.php:120-131 | the separator is "\r\n\r\n" when it occurs anywhere and "\n\n" otherwise; head and body are split at its first occurrence, and there is no body when there is no separator |
| SeleniumServer.SplitHeadersAndBody | library/Xi/Test/Selenium/SeleniumServer.php:118-146 | splitHeadersAndBody() gives no body exactly when the reply holds neither "\r\n\r\n" nor "\n\n" |
| SeleniumServer.HeadersOfRenderedHead | library/Xi/Test/Selenium/SeleniumServer.php:133-145 | the status line is skipped and each rendered "Name: value" line yields its field, later lines overriding earlier ones: header rendering and splitHeadersAndBody are inverse |
| SeleniumServer.ParseFieldLine | library/Xi/Test/Selenium/SeleniumServer.php:135-143 | a header line, trimmed, splits at its first colon into the name and the trimmed value |
| SeleniumServer.SplitRedirect | library/Xi/Test/Selenium/SeleniumServer.php:118-146 | a redirect reply whose head holds one Location field splits into exactly that field and the body after the blank line |
| SeleniumServer.StatusClassOfThreeDigits | library/Xi/Test/Selenium/SeleniumServer.php:90-91 | the status category, the (int) cast of the first digit, is the hundreds digit of a three-digit status |
| SeleniumServer.Unwrap | library/Xi/Test/Selenium/SeleniumServer.php:99-106 | a JSON envelope fails exactly when its status is loosely non-zero, with a SeleniumException built from its message and status; otherwise the result is its value |
| SeleniumServer.UnwrapCases | library/Xi/Test/Selenium/SeleniumServer.php:101-105 | a loosely zero status gives the value entry; a non-zero status throws the string message with the status cast to int, or, without a message, the message synthesized for that code |
| SeleniumServer.UnwrapKnownCode | library/Xi/Test/Selenium/SeleniumServer.php:101-103 | a table code without a message throws "<summary> (<code>): <description>" with that code |
| SeleniumServer.Receive | library/Xi/Test/Selenium/SeleniumServer.php:84-106 | interpreting a reply keeps the server URL, changes the server only on a 3xx reply, and on a 3xx reply records the reply's Location field (null when absent) |
| SeleniumServer.ReceiveRedirect | library/Xi/Test/Selenium/SeleniumServer.php:93-94 | a 3xx reply with a Location field makes that field the last redirect location |
| SeleniumServer.ReceiveClientError | library/Xi/Test/Selenium/SeleniumServer.php:95-96 | a 4xx reply throws a plain exception "Selenium returned HTTP <status>: <body>" and leaves the server alone |
| SeleniumServer.ReceiveJson | library/Xi/Test/Selenium/SeleniumServer.php:99-106 | any status outside 4xx (1xx-3xx and 5xx-9xx) with a content type mentioning json is decided by the envelope alone |
| SeleniumServer.Exchange | library/Xi/Test/Selenium/SeleniumServer.php:61-115 | a request appends exactly one logged request to the composed URL, consumes one reply, keeps the server URL, and succeeds or raises a SeleniumException only by consuming a reply |
| SeleniumServer.SendShapes | library/Xi/Test/Selenium/SeleniumServer.php:36-59 | GET and DELETE send no body; POST sends its parameters, or an empty array for null |
| SeleniumServer.SendWhenExhausted | library/Xi/Test/Selenium/SeleniumServer.php:84-86 | when the server cannot be reached the request throws "Failed to connect to Selenium server: " and the redirect location is untouched |
| SeleniumServer.MapOutcome | library/Xi/Test/Selenium/SeleniumServer.php:61-115 | transforming a result keeps the connection and lets an exception through unchanged |
| SeleniumException.ErrorCodesAreRows | library/Xi/Test/Selenium/SeleniumException.php:56-99 | getErrorCodes() parses the embedded table into exactly its 22 rows, indexed by their codes 0, 7-13, 15, 17, 19, 21, 23-32 |
| SeleniumException.TableParsesToRows | library/Xi/Test/Selenium/SeleniumException.php:85-96 | each non-empty trimmed line splits at the first two whitespace runs into code, summary and description, recovering every row |
| SeleniumException.CodeTable | library/Xi/Test/Selenium/SeleniumException.php:85-98 | the code table holds exactly the codes of its rows, each mapped to a row with that code |
| SeleniumException.ErrorCodes | library/Xi/Test/Selenium/SeleniumException.php:56-99 | every entry of getErrorCodes() is indexed by its own code |
| SeleniumException.NamedCodesMatchTable | library/Xi/Test/Selenium/SeleniumException.php:9-29 | each class constant is the code of the table row its name is the summary of |
| SeleniumException.New | library/Xi/Test/Selenium/SeleniumException.php:33-44 | the code is cast to int; an empty() message is replaced by a non-empty synthesized one; any other scalar message is kept as its string form |
| SeleniumException.NewKnownCode | library/Xi/Test/Selenium/SeleniumException.php:36-39 | with no message, a code of the table gives "<summary> (<code>): <description>" |
| SeleniumException.NewUnknownCode | library/Xi/Test/Selenium/SeleniumException.php:40-41 | with no message, a code outside the table gives "Selenium exception (<code>)" |
| SeleniumException.WithMessage | library/Xi/Test/Selenium/SeleniumException.php:33-44 | a non-empty literal message is kept as is, with code 0 |
| SeleniumException.MissingOrInvisibleBySummary | library/Xi/Test/Selenium/SeleniumException.php:51-54 | the classifier accepts exactly the exceptions whose code's table summary is NoSuchElement or ElementNotVisible |
| Keys.DecodeEncode | library/Xi/Test/Selenium/Keys.php:13-25 | the three-byte UTF-8 form of a code point decodes back to it |
| Keys.EncodeDecode | library/Xi/Test/Selenium/Keys.php:13-25 | a valid three-byte UTF-8 sequence is the encoding of what it decodes to |
| Keys.KeysEncode | library/Xi/Test/Selenium/Keys.php:13-25 | every key constant is the UTF-8 encoding of its private-use code point U+E000..U+E03D |
| Keys.KeysDecode | library/Xi/Test/Selenium/Keys.php:13-25 | each of the 13 key constants is a three-byte sequence EE 80 xx that decodes to its code point, all within U+E000..U+E03D |
| Keys.KeysDistinct | library/Xi/Test/Selenium/Keys.php:24-25 | the key constants are pairwise distinct except COMMAND and META, which are the same key |
| WebElement.CreateWebElement | library/Xi/Test/Selenium/WebElement.php:17-23 | a created element keeps the session path, its id is the string form of the id, and its path is session path + "/element/" + id |
| WebElement.CreateWebElementFlat | library/Xi/Test/Selenium/WebElement.php:137-140 | elements created below an element are rooted at the session, not nested, and getSeleniumId() returns the id given |
| Values.ElementPathDeterminesId | library/Xi/Test/Selenium/WebElement.php:17-23 | within one session two element paths are equal exactly when the ids' string forms are |
| WebElement.AccessorsSendOneGet | library/Xi/Test/Selenium/WebElement.php:47-93 | getTagName, getText, getAttribute, isEnabled, isHidden and isSelected each send one GET to the element path plus their own suffix |
| WebElement.GetIdIsIdAttribute | library/Xi/Test/Selenium/WebElement.php:38-41 | getId() reads the "id" attribute |
| WebElement.IsHiddenNegatesDisplayed | library/Xi/Test/Selenium/WebElement.php:90-93 | isHidden() sends isDisplayed()'s request, fails exactly when it fails and otherwise answers the opposite truth value |
| WebElement.ClickAndClearPost | library/Xi/Test/Selenium/WebElement.php:98-123 | click() and clear() each send one POST to the element's /click or /clear with an empty array as body, and succeed with null |
| WebElement.IsDisabledNegatesEnabled | library/Xi/Test/Selenium/WebElement.php:82-85 | isDisabled() sends isEnabled()'s request, fails exactly when it fails and otherwise answers the opposite truth value |
| WebElement.FillInSendsText | library/Xi/Test/Selenium/WebElement.php:109-115 | fillIn() posts {value: keys} to /value, keys being an array unchanged or anything else as a one-element list of its string form |
| HasWebElements.RelativePost | library/Xi/Test/Selenium/HasWebElements.php:116 | a finder request of either scope consumes at most one reply, and exactly one whenever it succeeds or raises a SeleniumException |
| HasWebElements.Create | library/Xi/Test/Selenium/WebDriver.php:295-298 | every scope creates well-formed elements whose id is the string form of the reply's id |
| HasWebElements.Find | library/Xi/Test/Selenium/HasWebElements.php:16-20 | find() returns a well-formed element of the scope's session and sends one request unless the session is closed |
| HasWebElements.FindNamesReplyElement | library/Xi/Test/Selenium/HasWebElements.php:16-20 | when the server answers {status: 0, value: {ELEMENT: x}}, find() returns the element whose id is the string form of x in the scope's session |
| HasWebElements.FindSendsLocator | library/Xi/Test/Selenium/HasWebElements.php:16-20 | find() sends one POST to /element below the scope carrying {using: "css selector", value: selector}, and the element it returns belongs to the scope's session |
| HasWebElements.FindOnClosedSession | library/Xi/Test/Selenium/WebDriver.php:305-308 | a closed driver's find() is a fatal error that sends nothing |
| HasWebElements.FindAll | library/Xi/Test/Selenium/HasWebElements.php:41-49 | every element findAll() returns is well-formed and belongs to the scope's session |
| HasWebElements.FindAllNamesEntries | library/Xi/Test/Selenium/HasWebElements.php:41-49 | when the server answers {status: 0, value: [..]}, findAll() returns one element per entry, in order, each with the string form of the entry's ELEMENT as id |
| HasWebElements.TryFind | library/Xi/Test/Selenium/HasWebElements.php:29-33 | an element tryFind() returns belongs to the scope's session |
| HasWebElements.TryFindIsFirstOfFindAll | library/Xi/Test/Selenium/HasWebElements.php:29-33 | tryFind() fails exactly when findAll() fails, is null exactly when findAll() found nothing, and otherwise is the first element found |
| HasWebElements.TextXPathEmbedsText | library/Xi/Test/Selenium/HasWebElements.php:58-63 | the XPath of findByText() is //*[contains(text(),'…')] around the addslashes() of the text, which stripslashes() turns back into the text |
| HasWebElements.FindByTextSendsXPath | library/Xi/Test/Selenium/HasWebElements.php:58-63 | findByText() sends one POST to /element below the scope carrying {using: "xpath", value: the XPath of the text}, and sends nothing from a closed session |
| HasWebElements.FindByText | library/Xi/Test/Selenium/HasWebElements.php:58-63 | findByText() consumes at most one reply, and exactly one when it succeeds or raises a SeleniumException |
| HasWebElements.FindByLabel | library/Xi/Test/Selenium/HasWebElements.php:72-83 | an element findByLabel() returns is well-formed and belongs to the scope's session |
| HasWebElements.FindByLabelFollowsFor | library/Xi/Test/Selenium/HasWebElements.php:72-83 | once the label was found, its tag read as 'label' and its non-empty for attribute read, findByLabel() is find('#' + for) in the same scope, success or failure alike |
| HasWebElements.FindByLabelOnlyThroughLabel | library/Xi/Test/Selenium/HasWebElements.php:72-83 | findByLabel() returns an element only after finding the label, reading its tag as 'label' and its non-empty for attribute, and then it is find('#' + for) |
| HasWebElements.FindByLabelNotALabel | library/Xi/Test/Selenium/HasWebElements.php:75-77 | a tag other than 'label' is read a second time and the SeleniumException names that second reading |
| HasWebElements.FindByLabelNoFor | library/Xi/Test/Selenium/HasWebElements.php:78-81 | an empty for attribute throws "Label with text '…' has no for attribute" without searching further |
| HasWebElements.WaitForTextDefaultTimeout | library/Xi/Test/Selenium/HasWebElements.php:91-93 | waitForText() with a zero timeout is waitForText() with getDefaultWaitTimeout() = 5 seconds |
| HasWebElements.SleepFor | library/Xi/Test/Selenium/HasWebElements.php:96-98 | each pause is between 0 and 1 second and never longer than the time passed |
| HasWebElements.SleepForIsTenth | library/Xi/Test/Selenium/HasWebElements.php:96-98 | the pause is a full second once 10 seconds have passed, a tenth of the time passed rounded down to microseconds before that, and none when no time passed |
| HasWebElements.Attempt | library/Xi/Test/Selenium/HasWebElements.php:100-111 | one try raises only failures other than "missing or invisible", and a try that finds nothing consumes a reply |
| HasWebElements.AttemptFindsText | library/Xi/Test/Selenium/HasWebElements.php:100-106 | an element is reported only after its text was read and strpos() found the searched text in it; an array or object text counts as found, since PHP 5's strpos() gives null for it, and only such a text reports the empty text |
| HasWebElements.AttemptFindFails | library/Xi/Test/Selenium/HasWebElements.php:100-111 | when findByText() fails, the try reports "not yet" for a missing or invisible element and otherwise raises that very failure, leaving the connection findByText() left |
| HasWebElements.AttemptReadFails | library/Xi/Test/Selenium/HasWebElements.php:100-111 | when the element was found but getText() fails, the try reports "not yet" for a missing or invisible element and otherwise raises that very failure, leaving the connection getText() left |
| HasWebElements.AttemptTextMissing | library/Xi/Test/Selenium/HasWebElements.php:100-106 | when the text was read and strpos() does not find the searched text, the try reports "not yet" |
| HasWebElements.AttemptReportsText | library/Xi/Test/Selenium/HasWebElements.php:100-106 | conversely, once the element was found and its text read and found to hold the searched text, the try returns that element |
| HasWebElements.RunWait | library/Xi/Test/Selenium/HasWebElements.php:95-113 | the do-while loop computes the same outcome as the recursive definition of the wait, and ends for every script |
| HasWebElements.WaitForTextLoop | library/Xi/Test/Selenium/HasWebElements.php:91-114 | waitForText() as a loop agrees with its definition and raises only failures other than "missing or invisible" |
| HasWebElements.WaitForText | library/Xi/Test/Selenium/HasWebElements.php:91-114 | waitForText() returns an element exactly when one appeared, and any failure it raises was not "missing or invisible" |
| HasWebElements.WaitForTextPaces | library/Xi/Test/Selenium/HasWebElements.php:95-98 | waitForText() tries at least once and pauses between 0 and 1 second before each try |
| HasWebElements.WaitForTextPauseAt | library/Xi/Test/Selenium/HasWebElements.php:95-98 | the pause before try i+1 is min(1 s, passed / 10) for the time passed at that clock reading |
| HasWebElements.WaitForTextRespectsTimeout | library/Xi/Test/Selenium/HasWebElements.php:96-112 | it retries only while the time passed is within the timeout, and times out only after a reading past it |
| HasWebElements.WaitForTextEnding | library/Xi/Test/Selenium/HasWebElements.php:104-113 | it returns an element exactly when one appeared, and a timeout throws "Element with text '…' failed to appear in <timeout> sec" with code 0 |
| HasWebElements.WaitRaisesAtOnce | library/Xi/Test/Selenium/HasWebElements.php:107-110 | any other failure ends the wait at once with that failure |
| HasWebElements.WaitRaisesFindFailure | library/Xi/Test/Selenium/HasWebElements.php:100-111 | a first findByText() failure other than "missing or invisible" ends the wait after one pause with that very failure |
| HasWebElements.WaitFromAttempt | library/Xi/Test/Selenium/HasWebElements.php:95-113 | a wait loop that returns an element returns one some try reported, and one that raises raises a failure some try raised, with the connection that try left |
| HasWebElements.WaitForTextFromAttempt | library/Xi/Test/Selenium/HasWebElements.php:95-113 | waitForText() returns only an element a try reported and raises only a failure a try raised, with the connection that try left |
| WebDriver.MergedOptionsOverride | library/Xi/Test/Selenium/WebDriver.php:39 | the session options are the defaults overridden key by key by the caller's options, the defaults keeping their places at the front |
| WebDriver.DefaultOptions | library/Xi/Test/Selenium/WebDriver.php:315-323 | the four default options have distinct string keys |
| WebDriver.Open | library/Xi/Test/Selenium/WebDriver.php:36-42 | constructing a driver sends exactly one POST /session with {desiredCapabilities: merged options}, and an opened driver is not closed and has no base URL |
| WebDriver.SessionPathFrom | library/Xi/Test/Selenium/WebDriver.php:262-268 | the session path is the last redirect location minus its trailing slashes only (a prefix not ending in '/', every dropped character a '/'), and empty when there was none |
| WebDriver.OpenFollowsRedirect | library/Xi/Test/Selenium/WebDriver.php:262-268 | when the server answers with a redirect to a location, the session path is that location with trailing slashes removed |
| WebDriver.Close | library/Xi/Test/Selenium/WebDriver.php:274-278 | a successful close yields the same driver, closed |
| WebDriver.CloseClosesOnSuccess | library/Xi/Test/Selenium/WebDriver.php:274-288 | closing sends one DELETE of the session path and closes exactly when it succeeds; closing again is a fatal error without a request |
| WebDriver.ClosedSendsNothing | library/Xi/Test/Selenium/WebDriver.php:300-313 | on a closed driver every session request is a fatal error and sends nothing |
| WebDriver.ScopeIsSession | library/Xi/Test/Selenium/WebDriver.php:290-298 | the driver's finders post below its session path and create elements under it |
| WebDriver.SetBaseUrl | library/Xi/Test/Selenium/WebDriver.php:67-70 | the base URL is the given URL minus its trailing slashes only, nothing else about the driver changing |
| WebDriver.SetBaseUrlIdempotent | library/Xi/Test/Selenium/WebDriver.php:67-78 | setting the base URL to what getBaseUrl() returns changes nothing |
| WebDriver.FilterUrl | library/Xi/Test/Selenium/WebDriver.php:248-260 | visit() URLs are passed through or start with the base URL |
| WebDriver.FilterUrlKeepsAbsolute | library/Xi/Test/Selenium/WebDriver.php:248-260 | a URL with "://" after its first character is passed through, as is any URL without a base URL |
| WebDriver.FilterUrlJoinsRelative | library/Xi/Test/Selenium/WebDriver.php:248-256 | with a truthy base, a URL without "://" becomes base + "/" + the URL minus one leading slash |
| WebDriver.FilterUrlWithoutBase | library/Xi/Test/Selenium/WebDriver.php:250 | a base URL of null, "" or "0" leaves every URL alone |
| WebDriver.FilterUrlLeadingSeparator | library/Xi/Test/Selenium/WebDriver.php:250-254 | with a truthy base, a URL starting with "://" counts as relative, because the loose == false also matches position 0, and is joined as base + "/" + URL |
| WebDriver.Discard | library/Xi/Test/Selenium/WebDriver.php:141-160 | a command whose reply is discarded returns nothing and keeps the request's outcome and connection |
| WebDriver.PageCommandsSendOneRequest | library/Xi/Test/Selenium/WebDriver.php:85-160 | visit (with the filtered URL), getUrl, getPageTitle, getPageSourceCode, back, forward and refresh each send their one request below the session |
| WebDriver.AlertCommandsSendOneRequest | library/Xi/Test/Selenium/WebDriver.php:166-205 | getAlertText, acceptAlert, dismissAlert and clearCookies each send their one request below the session |
| WebDriver.AnswerPromptSequence | library/Xi/Test/Selenium/WebDriver.php:193-197 | answerPrompt() posts the answer and accepts only if that succeeded |
| WebDriver.AfterLast | library/Xi/Test/Selenium/WebDriver.php:123 | what follows the last occurrence of a character: a suffix preceded by it and free of it |
| WebDriver.Basename | library/Xi/Test/Selenium/WebDriver.php:123 | the basename is the slash-free last component of the path with trailing slashes ignored |
| WebDriver.DotSuffix | library/Xi/Test/Selenium/WebDriver.php:123 | the extension of a basename is the dot-free part after its last dot, preceded by that dot; it is empty only when the basename has no dot or ends in one |
| WebDriver.DottedTailIsExtension | library/Xi/Test/Selenium/WebDriver.php:123 | a path ending in a dot and a tail free of dots and slashes has exactly that tail as its extension |
| WebDriver.Extension | library/Xi/Test/Selenium/WebDriver.php:123 | pathinfo()'s extension is dot-free, and empty only when the basename has no dot or ends in one |
| WebDriver.IsPngPath | library/Xi/Test/Selenium/WebDriver.php:123 | an accepted path has a three-letter extension |
| WebDriver.Screenshot | library/Xi/Test/Selenium/WebDriver.php:121-136 | a path whose lower-cased extension is not "png" throws before any request; otherwise it is one GET /screenshot |
| WebDriver.PngSuffixIsPng | library/Xi/Test/Selenium/WebDriver.php:123-125 | every path ending in ".png", in any letter case, is accepted |
| WebDriver.PngPathHasPngSuffix | library/Xi/Test/Selenium/WebDriver.php:123-125 | every accepted path ends, trailing slashes aside, in a dot and "png" in some letter case |
| WebDriver.ToRequestHasNoElements | library/Xi/Test/Selenium/WebDriver.php:221-231 | webElementsToRequest() leaves no element object at any depth |
| WebDriver.ToRequest | library/Xi/Test/Selenium/WebDriver.php:221-231 | the wire form holds no element object; an array keeps its length and keys, and each entry that is neither an array nor an element is left as it is; a value that is neither an array nor an element is left as it is |
| WebDriver.FromResponse | library/Xi/Test/Selenium/WebDriver.php:233-245 | an array with a set ELEMENT becomes an element of this session with that id; other arrays keep their keys and length, and each entry that is not an array is left as it is; anything else is left as it is |
| WebDriver.FromResponseOfToRequest | library/Xi/Test/Selenium/WebDriver.php:221-245 | webElementsFromResponse() inverts webElementsToRequest() on values holding this session's elements and no array with a set ELEMENT entry |
| WebDriver.RunJavascriptCarriesElements | library/Xi/Test/Selenium/WebDriver.php:214-219 | runJavascript() posts {script, args} with the arguments in wire form, which carries element arguments back unchanged |
| Php.RTrim | library/Xi/Test/Selenium/WebDriver.php:69 | rtrim with one character drops exactly the trailing run of it |
| Php.LTrim | library/Xi/Test/Selenium/SeleniumServer.php:79 | ltrim with one character drops exactly the leading run of it |
| Php.ExplodeJoin | library/Xi/Test/Selenium/SeleniumServer.php:133 | explode() on a joined list of parts free of the delimiter gives the parts back |
| Php.ExplodeFirst | library/Xi/Test/Selenium/SeleniumServer.php:127 | explode() with limit 2 splits at the first occurrence of the separator, or not at all |
| Php.StringToIntOfIntToString | library/Xi/Test/Selenium/SeleniumException.php:34 | the (int) cast inverts integer-to-string conversion |
| Php.StripSlashesOfAddSlashes | library/Xi/Test/Selenium/HasWebElements.php:60 | stripslashes() undoes addslashes() |
| Values.ArrayMergeOverrides | library/Xi/Test/Selenium/WebDriver.php:39 | array_merge() with string keys takes each key from the second array when it has it and from the first otherwise |

## Left out

- cURL, `json_decode`, `json_encode`: the network exchange is a script of replies. Each reply carries its status code, content type, raw text and decoded body as data. Request bodies are logged as values, not as JSON text.
- `SeleniumServer::enableDebug` and cURL's verbose output: they only affect diagnostics.
- Floating-point numbers: decoded JSON numbers are integers in the model, so no reply carries a fractional number.
- Values.LooseEqualsZero: compares a string with 0 through its (int) cast. PHP 5 compares a numeric string such as "0.5" or "1e3" as a number, so a reply whose status is the string "0.5" throws in PHP but unwraps as a success here. Statuses are integers in every reply the server sends, and modelling PHP's numeric-string grammar and float conversion is outside this model.
- String offsets on a non-array reply (`$response['status']` on a string) are not modelled. A non-array envelope reads as null, as a decoded `null` does.
- Numeric header names: PHP would store them under integer keys. The model keeps every header name a string.
- `WebDriver::__destruct`: it only warns and closes at garbage collection.
- The file writing in `screenshot()` (`fopen`, the base64 filter, `fwrite`). The model returns the base64 data that would be written.
- `microtime()` and `usleep()`: the clock is a parameter, a sequence of readings in microseconds, and the pauses are recorded rather than slept. A timeout is a whole number of seconds.
- `WebElement::elementDelete`: nothing in the modelled core calls it.
- The PHPUnit glue and the test-only helpers are outside this model.
- Values.ToString: an element object has no string form in PHP, and converting one is a fatal error. The model gives it the empty string.
- WebDriver.FilterUrl: the source's dead `return $this->baseUrl . $url;` after the if/else is unreachable and not modelled. The loose `strpos(...) == false` also counts "://" at position 0 as relative. The model keeps this as written (WebDriver.FilterUrlLeadingSeparator).
- HasWebElements.FindByLabel: the final `find('#' . $for)` runs in the same scope as the label search, following the code. For an element scope this searches below that element, not the whole page.
- SeleniumServer.Exchange: an exhausted script stands for a connection failure with an empty cURL error text.
- Php.AddSlashes: the model makes no claim that the escaped text is safe inside an XPath string literal. `addslashes` escapes with backslashes, which XPath 1.0 does not treat as an escape.
- HasWebElements.SleepFor: the pause is `min(1 s, passed / 10)` truncated to microseconds. A clock running backwards (a negative time passed) gives no pause.
