/** SeleniumException: the failures the client raises, the JSON Wire Protocol
    status-code table, the message the exception synthesizes when it is given
    none, and the "element missing or invisible" classification. */
module SeleniumException {
  import opened Wrappers
  import opened Php
  import opened Values

  /** What a call can raise. */
  datatype Failure =
    /** A SeleniumException: a message and a wire-protocol status code. */
    | Selenium(message: string, code: int)
    /** A plain \Exception: an HTTP 4xx reply or a failed connection. */
    | Generic(message: string)
    /** A PHP error that is not an exception, such as a method called on null. */
    | Fatal(message: string)

  // ---------------------------------------------------------------------------
  // Named status codes
  // ---------------------------------------------------------------------------

  const NoSuchElement: int := 7
  const NoSuchFrame: int := 8
  const UnknownCommand: int := 9
  const StaleElementReference: int := 10
  const ElementNotVisible: int := 11
  const InvalidElementState: int := 12
  const UnknownError: int := 13
  const ElementIsNotSelectable: int := 15
  const JavaScriptError: int := 17
  const XPathLookupError: int := 19
  const Timeout: int := 21
  const NoSuchWindow: int := 23
  const InvalidCookieDomain: int := 24
  const UnableToSetCookie: int := 25
  const UnexpectedAlertOpen: int := 26
  const NoAlertOpenError: int := 27
  const ScriptTimeout: int := 28
  const InvalidElementCoordinates: int := 29
  const IMENotAvailable: int := 30
  const IMEEngineActivationFailed: int := 31
  const InvalidSelector: int := 32

  /** Each class constant with its name. */
  const NamedCodes: seq<(string, int)> := [
    ("NoSuchElement", NoSuchElement),
    ("NoSuchFrame", NoSuchFrame),
    ("UnknownCommand", UnknownCommand),
    ("StaleElementReference", StaleElementReference),
    ("ElementNotVisible", ElementNotVisible),
    ("InvalidElementState", InvalidElementState),
    ("UnknownError", UnknownError),
    ("ElementIsNotSelectable", ElementIsNotSelectable),
    ("JavaScriptError", JavaScriptError),
    ("XPathLookupError", XPathLookupError),
    ("Timeout", Timeout),
    ("NoSuchWindow", NoSuchWindow),
    ("InvalidCookieDomain", InvalidCookieDomain),
    ("UnableToSetCookie", UnableToSetCookie),
    ("UnexpectedAlertOpen", UnexpectedAlertOpen),
    ("NoAlertOpenError", NoAlertOpenError),
    ("ScriptTimeout", ScriptTimeout),
    ("InvalidElementCoordinates", InvalidElementCoordinates),
    ("IMENotAvailable", IMENotAvailable),
    ("IMEEngineActivationFailed", IMEEngineActivationFailed),
    ("InvalidSelector", InvalidSelector)
  ]

  // ---------------------------------------------------------------------------
  // The status table
  // ---------------------------------------------------------------------------

  /** One row of the status table: code, summary and description. */
  datatype Row = Row(code: int, summary: string, description: string)

  /** The rows of the embedded status table, one constant each. Long
      descriptions are written as concatenations of short literals: this only
      helps the verifier read their characters and does not change the text. */
  const SuccessRow: Row := Row(0, "Success",
    "The command " + "executed " + "successfully.")
  const NoSuchElementRow: Row := Row(7, "NoSuchElement",
    "An element " + "could not be " + "located on the " + "page using the " +
    "given search " + "parameters.")
  const NoSuchFrameRow: Row := Row(8, "NoSuchFrame",
    "A request to " + "switch to a " + "frame could not " + "be satisfied " +
    "because the " + "frame could not " + "be found.")
  const UnknownCommandRow: Row := Row(9, "UnknownCommand",
    "The requested " + "resource could " + "not be found, " + "or a request " +
    "was received " + "using an HTTP " + "method that is " + "not supported " +
    "by the mapped " + "resource.")
  const StaleElementReferenceRow: Row := Row(10, "StaleElementReference",
    "An element " + "command failed " + "because the " + "referenced " +
    "element is no " + "longer attached " + "to the DOM.")
  const ElementNotVisibleRow: Row := Row(11, "ElementNotVisible",
    "An element " + "command could " + "not be " + "completed " + "because the " +
    "element is not " + "visible on the " + "page.")
  const InvalidElementStateRow: Row := Row(12, "InvalidElementState",
    "An element " + "command could " + "not be " + "completed " + "because the " +
    "element is in " + "an invalid " + "state (e.g. " + "attempting to " +
    "click a " + "disabled " + "element).")
  const UnknownErrorRow: Row := Row(13, "UnknownError",
    "An unknown " + "server-side " + "error occurred " + "while " +
    "processing the " + "command.")
  const ElementIsNotSelectableRow: Row := Row(15, "ElementIsNotSelectable",
    "An attempt was " + "made to select " + "an element that " + "cannot be " +
    "selected.")
  const JavaScriptErrorRow: Row := Row(17, "JavaScriptError",
    "An error " + "occurred while " + "executing user " + "supplied " +
    "JavaScript.")
  const XPathLookupErrorRow: Row := Row(19, "XPathLookupError",
    "An error " + "occurred while " + "searching for " + "an element by " + "XPath.")
  const TimeoutRow: Row := Row(21, "Timeout",
    "An operation " + "did not " + "complete before " + "its timeout " + "expired.")
  const NoSuchWindowRow: Row := Row(23, "NoSuchWindow",
    "A request to " + "switch to a " + "different " + "window could " + "not be " +
    "satisfied " + "because the " + "window could " + "not be found.")
  const InvalidCookieDomainRow: Row := Row(24, "InvalidCookieDomain",
    "An illegal " + "attempt was " + "made to set a " + "cookie under a " +
    "different " + "domain than the " + "current page.")
  const UnableToSetCookieRow: Row := Row(25, "UnableToSetCookie",
    "A request to " + "set a cookie's " + "value could not " + "be satisfied.")
  const UnexpectedAlertOpenRow: Row := Row(26, "UnexpectedAlertOpen",
    "A modal dialog " + "was open, " + "blocking this " + "operation")
  const NoAlertOpenErrorRow: Row := Row(27, "NoAlertOpenError",
    "An attempt was " + "made to operate " + "on a modal " + "dialog when one " +
    "was not open.")
  const ScriptTimeoutRow: Row := Row(28, "ScriptTimeout",
    "A script did " + "not complete " + "before its " + "timeout expired.")
  const InvalidElementCoordinatesRow: Row := Row(29, "InvalidElementCoordinates",
    "The coordinates " + "provided to an " + "interactions " + "operation are " +
    "invalid.")
  const IMENotAvailableRow: Row := Row(30, "IMENotAvailable",
    "IME was not " + "available.")
  const IMEEngineActivationFailedRow: Row := Row(31, "IMEEngineActivationFailed",
    "An IME engine " + "could not be " + "started.")
  const InvalidSelectorRow: Row := Row(32, "InvalidSelector",
    "Argument was an " + "invalid " + "selector (e.g. " + "XPath/CSS).")

  /** The rows of the embedded status table, in order. */
  const Rows: seq<Row> := [
    SuccessRow,
    NoSuchElementRow,
    NoSuchFrameRow,
    UnknownCommandRow,
    StaleElementReferenceRow,
    ElementNotVisibleRow,
    InvalidElementStateRow,
    UnknownErrorRow,
    ElementIsNotSelectableRow,
    JavaScriptErrorRow,
    XPathLookupErrorRow,
    TimeoutRow,
    NoSuchWindowRow,
    InvalidCookieDomainRow,
    UnableToSetCookieRow,
    UnexpectedAlertOpenRow,
    NoAlertOpenErrorRow,
    ScriptTimeoutRow,
    InvalidElementCoordinatesRow,
    IMENotAvailableRow,
    IMEEngineActivationFailedRow,
    InvalidSelectorRow
  ]

  /** How a row is laid out in the embedded table text: code, a tab, summary,
      a tab and a space, description. */
  function RenderLine(r: Row): string {
    IntToString(r.code) + "\t" + (r.summary + "\t " + r.description)
  }

  function RenderLines(rows: seq<Row>): (lines: seq<string>)
    ensures |lines| == |rows|
    ensures forall i :: 0 <= i < |rows| ==> lines[i] == RenderLine(rows[i])
  {
    seq(|rows|, i requires 0 <= i < |rows| => RenderLine(rows[i]))
  }

  /** The table text embedded in the class: one rendered row per line. */
  function TableText(): string {
    Join(RenderLines(Rows), '\n')
  }

  /** The longest prefix containing no white space. */
  function Word(s: string): (w: string)
    ensures |w| <= |s|
  {
    if |s| > 0 && !IsSpace(s[0]) then [s[0]] + Word(s[1..]) else []
  }

  /** Word(s) is a prefix of `s` without white space, followed by white space
      or the end of `s`. */
  lemma {:induction false} WordIsLongestPrefix(s: string)
    ensures Word(s) == s[..|Word(s)|]
    ensures forall i :: 0 <= i < |Word(s)| ==> !IsSpace(Word(s)[i])
    ensures |Word(s)| == |s| || IsSpace(s[|Word(s)|])
    decreases |s|
  {
    if |s| > 0 && !IsSpace(s[0]) {
      WordIsLongestPrefix(s[1..]);
      assert Word(s) == [s[0]] + Word(s[1..]);
    }
  }

  /** One trimmed line, split as by preg_split('/\s+/', $line, 3) into code,
      summary and description; a missing piece reads as null, i.e. "". */
  function ParseLine(line: string): Row {
    var code := Word(line);
    var rest := line[|code|..];
    if rest == [] then Row(StringToInt(code), "", "")
    else
      var afterCode := TrimStart(rest, IsSpace);
      var summary := Word(afterCode);
      var tail := afterCode[|summary|..];
      if tail == [] then Row(StringToInt(code), summary, "")
      else Row(StringToInt(code), summary, TrimStart(tail, IsSpace))
  }

  /** Every line is trimmed; lines that are then empty() are skipped. */
  function ParseLines(lines: seq<string>): seq<Row> {
    if lines == [] then []
    else
      var t := Trim(lines[0]);
      (if IsEmptyString(t) then [] else [ParseLine(t)]) + ParseLines(lines[1..])
  }

  /** The table text split at newlines and parsed line by line. */
  function ParseTable(text: string): seq<Row> {
    ParseLines(Explode('\n', text))
  }

  /** Rows indexed by code; a later row with the same code replaces an earlier one. */
  function CodeTable(rows: seq<Row>): (table: map<int, Row>)
    ensures forall c :: c in table <==> exists i :: 0 <= i < |rows| && rows[i].code == c
    ensures forall c :: c in table ==> table[c].code == c && table[c] in rows
  {
    if rows == [] then map[]
    else CodeTable(rows[..|rows| - 1])[rows[|rows| - 1].code := rows[|rows| - 1]]
  }

  /** getErrorCodes() */
  function ErrorCodes(): (table: map<int, Row>)
    ensures forall c :: c in table ==> table[c].code == c
  {
    CodeTable(ParseTable(TableText()))
  }

  // ---------------------------------------------------------------------------
  // Parsing the rendered table gives the rows back
  // ---------------------------------------------------------------------------

  /** A row that survives rendering and parsing: a non-negative code, a
      summary without white space, and a description on one line that starts
      with no white space and ends with nothing trim() strips. */
  predicate WellFormedRow(r: Row) {
    && r.code >= 0
    && |r.summary| > 0
    && (forall i :: 0 <= i < |r.summary| ==> !IsSpace(r.summary[i]))
    && |r.description| > 0
    && '\n' !in r.description
    && !IsSpace(r.description[0])
    && !IsTrimChar(r.description[|r.description| - 1])
  }

  /** The longest white-space-free prefix of `a + b` is `a` when `a` has no
      white space and `b` is empty or starts with white space. */
  lemma {:induction false} WordOfConcat(a: string, b: string)
    requires forall i :: 0 <= i < |a| ==> !IsSpace(a[i])
    requires b == [] || IsSpace(b[0])
    ensures Word(a + b) == a
    decreases |a|
  {
    if a == [] {
      assert a + b == b;
    } else {
      assert (a + b)[0] == a[0];
      assert (a + b)[1..] == a[1..] + b;
      WordOfConcat(a[1..], b);
    }
  }

  /** Skipping a run of white space before a non-space character. */
  lemma {:induction false} TrimSpaceRun(run: string, b: string)
    requires forall i :: 0 <= i < |run| ==> IsSpace(run[i])
    requires b == [] || !IsSpace(b[0])
    ensures TrimStart(run + b, IsSpace) == b
    decreases |run|
  {
    if run == [] {
      assert run + b == b;
    } else {
      assert (run + b)[1..] == run[1..] + b;
      TrimSpaceRun(run[1..], b);
    }
  }

  /** A line of code, tab, summary, tab and space, description splits into
      exactly those three pieces. */
  lemma ParseLineOfPieces(code: string, summary: string, description: string)
    requires forall i :: 0 <= i < |code| ==> !IsSpace(code[i])
    requires |summary| > 0 && forall i :: 0 <= i < |summary| ==> !IsSpace(summary[i])
    requires |description| > 0 && !IsSpace(description[0])
    ensures ParseLine(code + "\t" + (summary + "\t " + description)) == Row(StringToInt(code), summary, description)
  {
    var afterCode := summary + "\t " + description;
    assert afterCode[0] == summary[0];
    CodeStep(code, afterCode);
    SummaryStep(summary, description);
    ParseLineSteps(code + "\t" + afterCode, code, afterCode, summary, "\t " + description, description);
  }

  /** The code word of a line, then a tab, then the rest. */
  lemma CodeStep(code: string, afterCode: string)
    requires forall i :: 0 <= i < |code| ==> !IsSpace(code[i])
    requires afterCode != [] && !IsSpace(afterCode[0])
    ensures Word(code + "\t" + afterCode) == code
    ensures (code + "\t" + afterCode)[|code|..] == "\t" + afterCode != []
    ensures TrimStart("\t" + afterCode, IsSpace) == afterCode
  {
    var rest := "\t" + afterCode;
    assert rest[0] == '\t';
    WordOfConcat(code, rest);
    assert code + "\t" + afterCode == code + rest;
    assert (code + rest)[|code|..] == rest;
    TrimSpaceRun("\t", afterCode);
  }

  /** The summary word, then a tab and a space, then the description. */
  lemma SummaryStep(summary: string, description: string)
    requires forall i :: 0 <= i < |summary| ==> !IsSpace(summary[i])
    requires description != [] && !IsSpace(description[0])
    ensures Word(summary + "\t " + description) == summary
    ensures (summary + "\t " + description)[|summary|..] == "\t " + description != []
    ensures TrimStart("\t " + description, IsSpace) == description
  {
    var tail := "\t " + description;
    assert tail[0] == '\t';
    WordOfConcat(summary, tail);
    assert summary + "\t " + description == summary + tail;
    assert (summary + tail)[|summary|..] == tail;
    var run := "\t ";
    assert forall i :: 0 <= i < |run| ==> IsSpace(run[i]);
    TrimSpaceRun(run, description);
  }

  /** ParseLine, read off from its intermediate results. */
  lemma ParseLineSteps(line: string, code: string, afterCode: string, summary: string, tail: string, description: string)
    requires Word(line) == code && line[|code|..] != []
    requires TrimStart(line[|code|..], IsSpace) == afterCode
    requires Word(afterCode) == summary && afterCode[|summary|..] == tail && tail != []
    requires TrimStart(tail, IsSpace) == description
    ensures ParseLine(line) == Row(StringToInt(code), summary, description)
  {
  }

  /** Parsing one rendered row gives the row back. */
  lemma ParseRenderLine(r: Row)
    requires WellFormedRow(r)
    ensures ParseLine(RenderLine(r)) == r
  {
    var code := IntToString(r.code);
    forall i | 0 <= i < |code|
      ensures !IsSpace(code[i])
    {
      assert IsDigit(code[i]);
    }
    ParseLineOfPieces(code, r.summary, r.description);
    StringToIntOfIntToString(r.code);
  }

  /** A rendered row is a single line that trim() leaves alone and that
      empty() does not drop. */
  lemma RenderLineShape(r: Row)
    requires WellFormedRow(r)
    ensures '\n' !in RenderLine(r)
    ensures Trim(RenderLine(r)) == RenderLine(r)
    ensures !IsEmptyString(RenderLine(r))
  {
    var line := RenderLine(r);
    var code := IntToString(r.code);
    assert IsDigit(code[0]);
    assert '\n' !in r.summary by {
      forall i | 0 <= i < |r.summary|
        ensures r.summary[i] != '\n'
      {
        assert !IsSpace(r.summary[i]);
      }
    }
    assert '\n' !in code by {
      forall i | 0 <= i < |code|
        ensures code[i] != '\n'
      {
        assert IsDigit(code[i]);
      }
    }
    assert line[0] == code[0];
    assert line[|line| - 1] == r.description[|r.description| - 1];
    TrimOfTrimmed(line);
  }

  /** Lines that trim() leaves alone and empty() does not drop parse one row each. */
  lemma {:induction false} ParseLinesOfKept(lines: seq<string>, rows: seq<Row>)
    requires |lines| == |rows|
    requires forall i :: 0 <= i < |lines| ==> Trim(lines[i]) == lines[i] && !IsEmptyString(lines[i])
    requires forall i :: 0 <= i < |lines| ==> ParseLine(lines[i]) == rows[i]
    ensures ParseLines(lines) == rows
    decreases |lines|
  {
    if lines != [] {
      ParseLinesOfKept(lines[1..], rows[1..]);
      ParseLinesStep(lines[0], lines[1..], rows[0], rows[1..]);
      assert lines == [lines[0]] + lines[1..];
      assert rows == [rows[0]] + rows[1..];
    }
  }

  /** One step of ParseLinesOfKept: the first line parses to the first row. */
  lemma ParseLinesStep(line: string, rest: seq<string>, row: Row, rows: seq<Row>)
    requires Trim(line) == line && !IsEmptyString(line)
    requires ParseLine(line) == row
    requires ParseLines(rest) == rows
    ensures ParseLines([line] + rest) == [row] + rows
  {
    var lines := [line] + rest;
    assert lines[0] == line && lines[1..] == rest;
  }

  /** Parsing the rendered table text gives back exactly the rows rendered. */
  lemma ParseTableOfRender(rows: seq<Row>)
    requires |rows| >= 1
    requires forall i :: 0 <= i < |rows| ==> WellFormedRow(rows[i])
    ensures ParseTable(Join(RenderLines(rows), '\n')) == rows
  {
    var lines := RenderLines(rows);
    forall i | 0 <= i < |lines|
      ensures '\n' !in lines[i]
      ensures Trim(lines[i]) == lines[i] && !IsEmptyString(lines[i])
      ensures ParseLine(lines[i]) == rows[i]
    {
      RenderLineShape(rows[i]);
      ParseRenderLine(rows[i]);
    }
    ExplodeJoin(lines, '\n');
    ParseLinesOfKept(lines, rows);
  }

  /** With distinct codes, the table maps each row's code to that row and
      holds no other code. */
  lemma {:induction false} CodeTableOfDistinct(rows: seq<Row>)
    requires forall i, j :: 0 <= i < j < |rows| ==> rows[i].code != rows[j].code
    ensures forall i :: 0 <= i < |rows| ==> rows[i].code in CodeTable(rows) && CodeTable(rows)[rows[i].code] == rows[i]
    ensures forall c :: c in CodeTable(rows) ==> exists i :: 0 <= i < |rows| && rows[i].code == c
    decreases |rows|
  {
    if rows != [] {
      var init := rows[..|rows| - 1];
      CodeTableOfDistinct(init);
      forall i | 0 <= i < |rows| - 1
        ensures rows[i] == init[i]
      {
      }
    }
  }

  lemma SuccessRowWellFormed()
    ensures WellFormedRow(SuccessRow)
  {
    assert forall i :: 0 <= i < |SuccessRow.summary| ==> !IsSpace(SuccessRow.summary[i]);
    assert '\n' !in "The command ";
    assert '\n' !in "executed ";
    assert '\n' !in "successfully.";
    assert SuccessRow.description[|SuccessRow.description| - 1] == '.';
  }

  lemma NoSuchElementDescriptionOneLine()
    ensures '\n' !in NoSuchElementRow.description
  {
    assert '\n' !in "An element ";
    assert '\n' !in "could not be ";
    assert '\n' !in "located on the ";
    assert '\n' !in "page using the ";
    assert '\n' !in "given search ";
    assert '\n' !in "parameters.";
  }

  lemma NoSuchElementRowWellFormed()
    ensures WellFormedRow(NoSuchElementRow)
  {
    NoSuchElementDescriptionOneLine();
    assert forall i :: 0 <= i < |NoSuchElementRow.summary| ==> !IsSpace(NoSuchElementRow.summary[i]);
    assert NoSuchElementRow.description[|NoSuchElementRow.description| - 1] == '.';
  }

  lemma NoSuchFrameDescriptionOneLine()
    ensures '\n' !in NoSuchFrameRow.description
  {
    assert '\n' !in "A request to ";
    assert '\n' !in "switch to a ";
    assert '\n' !in "frame could not ";
    assert '\n' !in "be satisfied ";
    assert '\n' !in "because the ";
    assert '\n' !in "frame could not ";
    assert '\n' !in "be found.";
  }

  lemma NoSuchFrameRowWellFormed()
    ensures WellFormedRow(NoSuchFrameRow)
  {
    NoSuchFrameDescriptionOneLine();
    assert forall i :: 0 <= i < |NoSuchFrameRow.summary| ==> !IsSpace(NoSuchFrameRow.summary[i]);
    assert NoSuchFrameRow.description[|NoSuchFrameRow.description| - 1] == '.';
  }

  lemma UnknownCommandDescriptionHead()
    ensures '\n' !in "The requested " + "resource could " + "not be found, " + "or a request " + "was received "
  {
    assert '\n' !in "The requested ";
    assert '\n' !in "resource could ";
    assert '\n' !in "not be found, ";
    assert '\n' !in "or a request ";
    assert '\n' !in "was received ";
  }

  lemma UnknownCommandDescriptionOneLine()
    ensures '\n' !in UnknownCommandRow.description
  {
    UnknownCommandDescriptionHead();
    assert '\n' !in "using an HTTP ";
    assert '\n' !in "method that is ";
    assert '\n' !in "not supported ";
    assert '\n' !in "by the mapped ";
    assert '\n' !in "resource.";
  }

  lemma UnknownCommandRowWellFormed()
    ensures WellFormedRow(UnknownCommandRow)
  {
    UnknownCommandDescriptionOneLine();
    assert forall i :: 0 <= i < |UnknownCommandRow.summary| ==> !IsSpace(UnknownCommandRow.summary[i]);
    assert UnknownCommandRow.description[|UnknownCommandRow.description| - 1] == '.';
  }

  lemma StaleElementReferenceDescriptionOneLine()
    ensures '\n' !in StaleElementReferenceRow.description
  {
    assert '\n' !in "An element ";
    assert '\n' !in "command failed ";
    assert '\n' !in "because the ";
    assert '\n' !in "referenced ";
    assert '\n' !in "element is no ";
    assert '\n' !in "longer attached ";
    assert '\n' !in "to the DOM.";
  }

  lemma StaleElementReferenceRowWellFormed()
    ensures WellFormedRow(StaleElementReferenceRow)
  {
    StaleElementReferenceDescriptionOneLine();
    assert forall i :: 0 <= i < |StaleElementReferenceRow.summary| ==> !IsSpace(StaleElementReferenceRow.summary[i]);
    assert StaleElementReferenceRow.description[|StaleElementReferenceRow.description| - 1] == '.';
  }

  lemma ElementNotVisibleDescriptionOneLine()
    ensures '\n' !in ElementNotVisibleRow.description
  {
    assert '\n' !in "An element ";
    assert '\n' !in "command could ";
    assert '\n' !in "not be ";
    assert '\n' !in "completed ";
    assert '\n' !in "because the ";
    assert '\n' !in "element is not ";
    assert '\n' !in "visible on the ";
    assert '\n' !in "page.";
  }

  lemma ElementNotVisibleRowWellFormed()
    ensures WellFormedRow(ElementNotVisibleRow)
  {
    ElementNotVisibleDescriptionOneLine();
    assert forall i :: 0 <= i < |ElementNotVisibleRow.summary| ==> !IsSpace(ElementNotVisibleRow.summary[i]);
    assert ElementNotVisibleRow.description[|ElementNotVisibleRow.description| - 1] == '.';
  }

  lemma InvalidElementStateDescriptionHead()
    ensures '\n' !in "An element " + "command could " + "not be " + "completed " + "because the " + "element is in "
  {
    assert '\n' !in "An element ";
    assert '\n' !in "command could ";
    assert '\n' !in "not be ";
    assert '\n' !in "completed ";
    assert '\n' !in "because the ";
    assert '\n' !in "element is in ";
  }

  lemma InvalidElementStateDescriptionOneLine()
    ensures '\n' !in InvalidElementStateRow.description
  {
    InvalidElementStateDescriptionHead();
    assert '\n' !in "an invalid ";
    assert '\n' !in "state (e.g. ";
    assert '\n' !in "attempting to ";
    assert '\n' !in "click a ";
    assert '\n' !in "disabled ";
    assert '\n' !in "element).";
  }

  lemma InvalidElementStateRowWellFormed()
    ensures WellFormedRow(InvalidElementStateRow)
  {
    InvalidElementStateDescriptionOneLine();
    assert forall i :: 0 <= i < |InvalidElementStateRow.summary| ==> !IsSpace(InvalidElementStateRow.summary[i]);
    assert InvalidElementStateRow.description[|InvalidElementStateRow.description| - 1] == '.';
  }

  lemma UnknownErrorRowWellFormed()
    ensures WellFormedRow(UnknownErrorRow)
  {
    assert forall i :: 0 <= i < |UnknownErrorRow.summary| ==> !IsSpace(UnknownErrorRow.summary[i]);
    assert '\n' !in "An unknown ";
    assert '\n' !in "server-side ";
    assert '\n' !in "error occurred ";
    assert '\n' !in "while ";
    assert '\n' !in "processing the ";
    assert '\n' !in "command.";
    assert UnknownErrorRow.description[|UnknownErrorRow.description| - 1] == '.';
  }

  lemma ElementIsNotSelectableRowWellFormed()
    ensures WellFormedRow(ElementIsNotSelectableRow)
  {
    assert forall i :: 0 <= i < |ElementIsNotSelectableRow.summary| ==> !IsSpace(ElementIsNotSelectableRow.summary[i]);
    assert '\n' !in "An attempt was ";
    assert '\n' !in "made to select ";
    assert '\n' !in "an element that ";
    assert '\n' !in "cannot be ";
    assert '\n' !in "selected.";
    assert ElementIsNotSelectableRow.description[|ElementIsNotSelectableRow.description| - 1] == '.';
  }

  lemma JavaScriptErrorRowWellFormed()
    ensures WellFormedRow(JavaScriptErrorRow)
  {
    assert forall i :: 0 <= i < |JavaScriptErrorRow.summary| ==> !IsSpace(JavaScriptErrorRow.summary[i]);
    assert '\n' !in "An error ";
    assert '\n' !in "occurred while ";
    assert '\n' !in "executing user ";
    assert '\n' !in "supplied ";
    assert '\n' !in "JavaScript.";
    assert JavaScriptErrorRow.description[|JavaScriptErrorRow.description| - 1] == '.';
  }

  lemma XPathLookupErrorRowWellFormed()
    ensures WellFormedRow(XPathLookupErrorRow)
  {
    assert forall i :: 0 <= i < |XPathLookupErrorRow.summary| ==> !IsSpace(XPathLookupErrorRow.summary[i]);
    assert '\n' !in "An error ";
    assert '\n' !in "occurred while ";
    assert '\n' !in "searching for ";
    assert '\n' !in "an element by ";
    assert '\n' !in "XPath.";
    assert XPathLookupErrorRow.description[|XPathLookupErrorRow.description| - 1] == '.';
  }

  lemma TimeoutRowWellFormed()
    ensures WellFormedRow(TimeoutRow)
  {
    assert forall i :: 0 <= i < |TimeoutRow.summary| ==> !IsSpace(TimeoutRow.summary[i]);
    assert '\n' !in "An operation ";
    assert '\n' !in "did not ";
    assert '\n' !in "complete before ";
    assert '\n' !in "its timeout ";
    assert '\n' !in "expired.";
    assert TimeoutRow.description[|TimeoutRow.description| - 1] == '.';
  }

  lemma NoSuchWindowDescriptionOneLine()
    ensures '\n' !in NoSuchWindowRow.description
  {
    assert '\n' !in "A request to ";
    assert '\n' !in "switch to a ";
    assert '\n' !in "different ";
    assert '\n' !in "window could ";
    assert '\n' !in "not be ";
    assert '\n' !in "satisfied ";
    assert '\n' !in "because the ";
    assert '\n' !in "window could ";
    assert '\n' !in "not be found.";
  }

  lemma NoSuchWindowRowWellFormed()
    ensures WellFormedRow(NoSuchWindowRow)
  {
    NoSuchWindowDescriptionOneLine();
    assert forall i :: 0 <= i < |NoSuchWindowRow.summary| ==> !IsSpace(NoSuchWindowRow.summary[i]);
    assert NoSuchWindowRow.description[|NoSuchWindowRow.description| - 1] == '.';
  }

  lemma InvalidCookieDomainDescriptionOneLine()
    ensures '\n' !in InvalidCookieDomainRow.description
  {
    assert '\n' !in "An illegal ";
    assert '\n' !in "attempt was ";
    assert '\n' !in "made to set a ";
    assert '\n' !in "cookie under a ";
    assert '\n' !in "different ";
    assert '\n' !in "domain than the ";
    assert '\n' !in "current page.";
  }

  lemma InvalidCookieDomainRowWellFormed()
    ensures WellFormedRow(InvalidCookieDomainRow)
  {
    InvalidCookieDomainDescriptionOneLine();
    assert forall i :: 0 <= i < |InvalidCookieDomainRow.summary| ==> !IsSpace(InvalidCookieDomainRow.summary[i]);
    assert InvalidCookieDomainRow.description[|InvalidCookieDomainRow.description| - 1] == '.';
  }

  lemma UnableToSetCookieRowWellFormed()
    ensures WellFormedRow(UnableToSetCookieRow)
  {
    assert forall i :: 0 <= i < |UnableToSetCookieRow.summary| ==> !IsSpace(UnableToSetCookieRow.summary[i]);
    assert '\n' !in "A request to ";
    assert '\n' !in "set a cookie's ";
    assert '\n' !in "value could not ";
    assert '\n' !in "be satisfied.";
    assert UnableToSetCookieRow.description[|UnableToSetCookieRow.description| - 1] == '.';
  }

  lemma UnexpectedAlertOpenRowWellFormed()
    ensures WellFormedRow(UnexpectedAlertOpenRow)
  {
    assert forall i :: 0 <= i < |UnexpectedAlertOpenRow.summary| ==> !IsSpace(UnexpectedAlertOpenRow.summary[i]);
    assert '\n' !in "A modal dialog ";
    assert '\n' !in "was open, ";
    assert '\n' !in "blocking this ";
    assert '\n' !in "operation";
    assert UnexpectedAlertOpenRow.description[|UnexpectedAlertOpenRow.description| - 1] == 'n';
  }

  lemma NoAlertOpenErrorRowWellFormed()
    ensures WellFormedRow(NoAlertOpenErrorRow)
  {
    assert forall i :: 0 <= i < |NoAlertOpenErrorRow.summary| ==> !IsSpace(NoAlertOpenErrorRow.summary[i]);
    assert '\n' !in "An attempt was ";
    assert '\n' !in "made to operate ";
    assert '\n' !in "on a modal ";
    assert '\n' !in "dialog when one ";
    assert '\n' !in "was not open.";
    assert NoAlertOpenErrorRow.description[|NoAlertOpenErrorRow.description| - 1] == '.';
  }

  lemma ScriptTimeoutRowWellFormed()
    ensures WellFormedRow(ScriptTimeoutRow)
  {
    assert forall i :: 0 <= i < |ScriptTimeoutRow.summary| ==> !IsSpace(ScriptTimeoutRow.summary[i]);
    assert '\n' !in "A script did ";
    assert '\n' !in "not complete ";
    assert '\n' !in "before its ";
    assert '\n' !in "timeout expired.";
    assert ScriptTimeoutRow.description[|ScriptTimeoutRow.description| - 1] == '.';
  }

  lemma InvalidElementCoordinatesRowWellFormed()
    ensures WellFormedRow(InvalidElementCoordinatesRow)
  {
    assert forall i :: 0 <= i < |InvalidElementCoordinatesRow.summary| ==> !IsSpace(InvalidElementCoordinatesRow.summary[i]);
    assert '\n' !in "The coordinates ";
    assert '\n' !in "provided to an ";
    assert '\n' !in "interactions ";
    assert '\n' !in "operation are ";
    assert '\n' !in "invalid.";
    assert InvalidElementCoordinatesRow.description[|InvalidElementCoordinatesRow.description| - 1] == '.';
  }

  lemma IMENotAvailableRowWellFormed()
    ensures WellFormedRow(IMENotAvailableRow)
  {
    assert forall i :: 0 <= i < |IMENotAvailableRow.summary| ==> !IsSpace(IMENotAvailableRow.summary[i]);
    assert '\n' !in "IME was not ";
    assert '\n' !in "available.";
    assert IMENotAvailableRow.description[|IMENotAvailableRow.description| - 1] == '.';
  }

  lemma IMEEngineActivationFailedRowWellFormed()
    ensures WellFormedRow(IMEEngineActivationFailedRow)
  {
    assert forall i :: 0 <= i < |IMEEngineActivationFailedRow.summary| ==> !IsSpace(IMEEngineActivationFailedRow.summary[i]);
    assert '\n' !in "An IME engine ";
    assert '\n' !in "could not be ";
    assert '\n' !in "started.";
    assert IMEEngineActivationFailedRow.description[|IMEEngineActivationFailedRow.description| - 1] == '.';
  }

  lemma InvalidSelectorRowWellFormed()
    ensures WellFormedRow(InvalidSelectorRow)
  {
    assert forall i :: 0 <= i < |InvalidSelectorRow.summary| ==> !IsSpace(InvalidSelectorRow.summary[i]);
    assert '\n' !in "Argument was an ";
    assert '\n' !in "invalid ";
    assert '\n' !in "selector (e.g. ";
    assert '\n' !in "XPath/CSS).";
    assert InvalidSelectorRow.description[|InvalidSelectorRow.description| - 1] == '.';
  }

  /** The rows of the embedded table are well-formed. */
  lemma RowsWellFormed()
    ensures forall i :: 0 <= i < |Rows| ==> WellFormedRow(Rows[i])
  {
    SuccessRowWellFormed();
    NoSuchElementRowWellFormed();
    NoSuchFrameRowWellFormed();
    UnknownCommandRowWellFormed();
    StaleElementReferenceRowWellFormed();
    ElementNotVisibleRowWellFormed();
    InvalidElementStateRowWellFormed();
    UnknownErrorRowWellFormed();
    ElementIsNotSelectableRowWellFormed();
    JavaScriptErrorRowWellFormed();
    XPathLookupErrorRowWellFormed();
    TimeoutRowWellFormed();
    NoSuchWindowRowWellFormed();
    InvalidCookieDomainRowWellFormed();
    UnableToSetCookieRowWellFormed();
    UnexpectedAlertOpenRowWellFormed();
    NoAlertOpenErrorRowWellFormed();
    ScriptTimeoutRowWellFormed();
    InvalidElementCoordinatesRowWellFormed();
    IMENotAvailableRowWellFormed();
    IMEEngineActivationFailedRowWellFormed();
    InvalidSelectorRowWellFormed();
  }

  /** The embedded table text parses back to the rows it was written from. */
  lemma TableParsesToRows()
    ensures ParseTable(TableText()) == Rows
  {
    RowsWellFormed();
    ParseTableOfRender(Rows);
  }

  /** Strictly increasing codes are pairwise distinct. */
  lemma {:induction false} IncreasingCodesDistinct(rows: seq<Row>)
    requires forall i :: 0 <= i < |rows| - 1 ==> rows[i].code < rows[i + 1].code
    ensures forall i, j :: 0 <= i < j < |rows| ==> rows[i].code < rows[j].code
    decreases |rows|
  {
    if rows != [] {
      IncreasingCodesDistinct(rows[1..]);
      forall j | 1 <= j < |rows|
        ensures rows[0].code < rows[j].code
      {
        if j > 1 {
          assert rows[1..][0].code < rows[1..][j - 1].code;
        }
      }
    }
  }

  /** The codes of the table, in the order the rows list them. */
  const TableCodes: seq<int> := [0, 7, 8, 9, 10, 11, 12, 13, 15, 17, 19, 21, 23, 24, 25, 26, 27, 28, 29, 30, 31, 32]

  /** Row by row, the table's codes are TableCodes. */
  lemma RowCodes()
    ensures |Rows| == |TableCodes| == 22
    ensures forall i :: 0 <= i < |Rows| ==> Rows[i].code == TableCodes[i]
  {
  }

  /** The table's codes are pairwise distinct. */
  lemma RowCodesDistinct()
    ensures forall i, j :: 0 <= i < j < |Rows| ==> Rows[i].code < Rows[j].code
  {
    RowCodes();
    IncreasingCodesDistinct(Rows);
  }

  /** getErrorCodes() is the table of the rows by code. */
  lemma ErrorCodesOfRows()
    ensures ErrorCodes() == CodeTable(Rows)
  {
    TableParsesToRows();
  }

  /** getErrorCodes() indexes the 22 rows of the table by their codes, which
      are 0, 7 to 13, 15, 17, 19, 21 and 23 to 32, and holds nothing else. */
  lemma ErrorCodesAreRows()
    ensures |Rows| == 22
    ensures forall i :: 0 <= i < |Rows| ==> Rows[i].code in ErrorCodes() && ErrorCodes()[Rows[i].code] == Rows[i]
    ensures forall c :: c in ErrorCodes() <==> c in TableCodes
  {
    var table := ErrorCodes();
    ErrorCodesOfRows();
    RowCodes();
    RowCodesDistinct();
    CodeTableOfDistinct(Rows);
    forall c
      ensures c in table <==> c in TableCodes
    {
      if c in TableCodes {
        var i :| 0 <= i < |TableCodes| && TableCodes[i] == c;
        assert Rows[i].code == c;
      }
      if c in table {
        var i :| 0 <= i < |Rows| && Rows[i].code == c;
        assert TableCodes[i] == c;
      }
    }
  }

  /** The class constants list the table's rows after Success, in order. */
  lemma NamedCodesAlign()
    ensures |NamedCodes| == |Rows| - 1
    ensures forall i :: 0 <= i < |NamedCodes| ==> NamedCodes[i] == (Rows[i + 1].summary, Rows[i + 1].code)
  {
  }

  /** Each class constant is the code of the table row whose summary is the
      constant's name. */
  lemma NamedCodesMatchTable()
    ensures forall i :: 0 <= i < |NamedCodes| ==>
      NamedCodes[i].1 in ErrorCodes() && ErrorCodes()[NamedCodes[i].1].summary == NamedCodes[i].0
  {
    var table := ErrorCodes();
    ErrorCodesAreRows();
    NamedCodesAlign();
    forall i | 0 <= i < |NamedCodes|
      ensures NamedCodes[i].1 in table && table[NamedCodes[i].1].summary == NamedCodes[i].0
    {
      assert Rows[i + 1].code == NamedCodes[i].1 && Rows[i + 1].summary == NamedCodes[i].0;
    }
  }

  /** Only the NoSuchElement and ElementNotVisible rows carry those summaries. */
  lemma SummaryRows()
    ensures forall i :: 0 <= i < |Rows| ==> (Rows[i].summary == "NoSuchElement" <==> i == 1)
    ensures forall i :: 0 <= i < |Rows| ==> (Rows[i].summary == "ElementNotVisible" <==> i == 5)
  {
  }

  // ---------------------------------------------------------------------------
  // The constructor and the classifier
  // ---------------------------------------------------------------------------

  /** The message synthesized for a code when none is given. */
  function DefaultMessage(code: int): string {
    var codes := ErrorCodes();
    if code in codes then codes[code].summary + " (" + IntToString(code) + "): " + codes[code].description
    else "Selenium exception (" + IntToString(code) + ")"
  }

  /** `new SeleniumException($message, $code)`: the code is cast to int; an
      empty() message is replaced by one built from the table; any other
      message is kept as its string form (an array or object message is
      rejected by PHP's Exception constructor). */
  function New(message: Value, code: Value): (f: Failure)
    ensures f.Selenium? <==> IsEmpty(message) || !(message.Arr? || message.Elem?)
    ensures f.Selenium? ==> f.code == ToInt(code) && f.message != ""
    ensures f.Selenium? && !IsEmpty(message) ==> f.message == ToString(message)
  {
    var c := ToInt(code);
    if IsEmpty(message) then
      Selenium(DefaultMessage(c), c)
    else if message.Arr? || message.Elem? then
      Fatal("Wrong parameters for Xi\\Test\\Selenium\\SeleniumException")
    else
      assert ToString(message) != "" by {
        if message.Int? {
          assert IntToString(message.i)[0] == '-' || IsDigit(IntToString(message.i)[0]);
        }
      }
      Selenium(ToString(message), c)
  }

  /** A SeleniumException with a literal message and the default code 0. */
  function WithMessage(message: string): (f: Failure)
    requires !IsEmptyString(message)
    ensures f == Selenium(message, 0)
  {
    New(Str(message), Int(0))
  }

  /** With no message, a code of the table gives "<summary> (<code>): <description>". */
  lemma NewKnownCode(message: Value, i: nat)
    requires IsEmpty(message) && i < |Rows|
    ensures New(message, Int(Rows[i].code))
      == Selenium(Rows[i].summary + " (" + IntToString(Rows[i].code) + "): " + Rows[i].description, Rows[i].code)
  {
    DefaultMessageOfRow(i);
  }

  /** The message synthesized for a code of the table. */
  lemma DefaultMessageOfRow(i: nat)
    requires i < |Rows|
    ensures DefaultMessage(Rows[i].code) == Rows[i].summary + " (" + IntToString(Rows[i].code) + "): " + Rows[i].description
  {
    var r := Rows[i];
    var table := ErrorCodes();
    ErrorCodesAreRows();
    assert r.code in table && table[r.code] == r;
  }

  /** With no message, a code outside the table gives "Selenium exception (<code>)". */
  lemma NewUnknownCode(message: Value, code: Value)
    requires IsEmpty(message)
    requires ToInt(code) !in TableCodes
    ensures New(message, code) == Selenium("Selenium exception (" + IntToString(ToInt(code)) + ")", ToInt(code))
  {
    ErrorCodesAreRows();
  }

  /** isDueToElementMissingOrInvisible(): the code is NoSuchElement or ElementNotVisible. */
  predicate IsDueToElementMissingOrInvisible(f: Failure) {
    f.Selenium? && f.code in [NoSuchElement, ElementNotVisible]
  }

  /** The classifier picks exactly the failures whose table summary is
      NoSuchElement or ElementNotVisible. */
  lemma MissingOrInvisibleBySummary(f: Failure)
    requires f.Selenium?
    ensures IsDueToElementMissingOrInvisible(f) <==>
      (f.code in ErrorCodes()
        && (ErrorCodes()[f.code].summary == "NoSuchElement" || ErrorCodes()[f.code].summary == "ElementNotVisible"))
  {
    var table := ErrorCodes();
    ErrorCodesAreRows();
    RowCodes();
    if f.code in table {
      var i :| 0 <= i < |TableCodes| && TableCodes[i] == f.code;
      assert Rows[i].code == f.code && table[f.code] == Rows[i];
      MissingOrInvisibleRow(i);
    } else {
      assert f.code != Rows[1].code && f.code != Rows[5].code;
    }
  }

  /** The row at index `i` is named NoSuchElement or ElementNotVisible exactly
      when its code is one of those two. */
  lemma MissingOrInvisibleRow(i: nat)
    requires i < |Rows|
    ensures Rows[i].code in [NoSuchElement, ElementNotVisible]
      <==> (Rows[i].summary == "NoSuchElement" || Rows[i].summary == "ElementNotVisible")
  {
    RowCodes();
    SummaryRows();
  }
}
