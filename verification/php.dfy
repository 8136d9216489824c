/** The PHP built-in string functions the client relies on, as pure functions
    over `string`. PHP strings are byte strings; the model stores one byte per
    `char`. Where PHP versions differ, the PHP 5 behaviour is modelled. */
module Php {
  import opened Wrappers

  // ---------------------------------------------------------------------------
  // Character classes
  // ---------------------------------------------------------------------------

  /** The characters trim() strips when given no list: " \t\n\r\0\x0B". */
  predicate IsTrimChar(c: char) {
    c == ' ' || c == '\t' || c == '\n' || c == '\r' || c == '\0' || c == '\U{000B}'
  }

  /** White space in the sense of C's isspace() and PCRE's `\s`:
      " \t\n\r\x0B\x0C". */
  predicate IsSpace(c: char) {
    c == ' ' || c == '\t' || c == '\n' || c == '\r' || c == '\U{000B}' || c == '\U{000C}'
  }

  predicate IsDigit(c: char) {
    '0' <= c <= '9'
  }

  predicate AllDigits(s: string) {
    forall i :: 0 <= i < |s| ==> IsDigit(s[i])
  }

  // ---------------------------------------------------------------------------
  // trim(), ltrim(), rtrim()
  // ---------------------------------------------------------------------------

  /** Drops the longest prefix whose characters all satisfy `strip`. */
  function TrimStart(s: string, strip: char -> bool): (r: string)
    ensures |r| <= |s|
    decreases |s|
  {
    if |s| > 0 && strip(s[0]) then TrimStart(s[1..], strip) else s
  }

  /** Drops the longest suffix whose characters all satisfy `strip`. */
  function TrimEnd(s: string, strip: char -> bool): (r: string)
    ensures |r| <= |s|
    decreases |s|
  {
    if |s| > 0 && strip(s[|s| - 1]) then TrimEnd(s[..|s| - 1], strip) else s
  }

  /** TrimStart keeps a suffix of `s` that starts with a kept character, and
      every character it drops satisfies `strip`. */
  lemma {:induction false} TrimStartIsLongestStrip(s: string, strip: char -> bool)
    ensures TrimStart(s, strip) == s[|s| - |TrimStart(s, strip)|..]
    ensures TrimStart(s, strip) == [] || !strip(TrimStart(s, strip)[0])
    ensures forall i :: 0 <= i < |s| - |TrimStart(s, strip)| ==> strip(s[i])
    decreases |s|
  {
    if |s| > 0 && strip(s[0]) {
      TrimStartIsLongestStrip(s[1..], strip);
    }
  }

  /** TrimEnd keeps a prefix of `s` that ends with a kept character, and every
      character it drops satisfies `strip`. */
  lemma {:induction false} TrimEndIsLongestStrip(s: string, strip: char -> bool)
    ensures TrimEnd(s, strip) == s[..|TrimEnd(s, strip)|]
    ensures TrimEnd(s, strip) == [] || !strip(TrimEnd(s, strip)[|TrimEnd(s, strip)| - 1])
    ensures forall i :: |TrimEnd(s, strip)| <= i < |s| ==> strip(s[i])
    decreases |s|
  {
    if |s| > 0 && strip(s[|s| - 1]) {
      TrimEndIsLongestStrip(s[..|s| - 1], strip);
    }
  }

  /** trim($s) */
  function Trim(s: string): string {
    TrimEnd(TrimStart(s, IsTrimChar), IsTrimChar)
  }

  /** rtrim($s, $c) for a one-character list: the longest prefix of `s` that
      does not end in `c`, everything after it being `c`. */
  function RTrim(s: string, c: char): (r: string)
    ensures |r| <= |s| && r == s[..|r|]
    ensures r == [] || r[|r| - 1] != c
    ensures forall i :: |r| <= i < |s| ==> s[i] == c
  {
    var strip := x => x == c;
    TrimEndIsLongestStrip(s, strip);
    TrimEnd(s, strip)
  }

  /** ltrim($s, $c) for a one-character list: the longest suffix of `s` that
      does not start with `c`, everything before it being `c`. */
  function LTrim(s: string, c: char): (r: string)
    ensures |r| <= |s| && r == s[|s| - |r|..]
    ensures r == [] || r[0] != c
    ensures forall i :: 0 <= i < |s| - |r| ==> s[i] == c
  {
    var strip := x => x == c;
    TrimStartIsLongestStrip(s, strip);
    TrimStart(s, strip)
  }

  /** A string with no strippable character at either end is its own trim. */
  lemma TrimOfTrimmed(s: string)
    requires s == [] || (!IsTrimChar(s[0]) && !IsTrimChar(s[|s| - 1]))
    ensures Trim(s) == s
  {
  }

  // ---------------------------------------------------------------------------
  // empty() on strings
  // ---------------------------------------------------------------------------

  /** PHP's empty() on a string: true for "" and for "0". */
  predicate IsEmptyString(s: string) {
    s == "" || s == "0"
  }

  // ---------------------------------------------------------------------------
  // strpos()
  // ---------------------------------------------------------------------------

  /** `needle` occurs in `haystack` starting at index `i`. */
  predicate OccursAt(haystack: string, needle: string, i: nat) {
    i + |needle| <= |haystack| && haystack[i..i + |needle|] == needle
  }

  /** The first occurrence of `needle` at or after index `i`. */
  function FindFrom(haystack: string, needle: string, i: nat): (r: Option<nat>)
    ensures r.Some? ==> i <= r.value && OccursAt(haystack, needle, r.value)
    ensures r.Some? ==> forall j: nat :: i <= j < r.value ==> !OccursAt(haystack, needle, j)
    ensures r.None? ==> forall j: nat :: i <= j ==> !OccursAt(haystack, needle, j)
    decreases |haystack| - i
  {
    if i + |needle| > |haystack| then None
    else if haystack[i..i + |needle|] == needle then Some(i)
    else FindFrom(haystack, needle, i + 1)
  }

  /** strpos($haystack, $needle): the index of the first occurrence, or false
      (None). In PHP 5 an empty needle gives false with a warning. */
  function StrPos(haystack: string, needle: string): (r: Option<nat>)
    ensures r.Some? ==> needle != [] && OccursAt(haystack, needle, r.value)
    ensures r.Some? ==> forall j: nat :: j < r.value ==> !OccursAt(haystack, needle, j)
    ensures r.None? <==> needle == [] || forall j: nat :: !OccursAt(haystack, needle, j)
  {
    if needle == [] then None else FindFrom(haystack, needle, 0)
  }

  /** strpos($haystack, $needle) !== false */
  predicate Contains(haystack: string, needle: string) {
    StrPos(haystack, needle).Some?
  }

  /** An occurrence with none before it is the one strpos() reports. */
  lemma StrPosOfFirst(haystack: string, needle: string, i: nat)
    requires needle != [] && OccursAt(haystack, needle, i)
    requires forall j: nat :: j < i ==> !OccursAt(haystack, needle, j)
    ensures StrPos(haystack, needle) == Some(i)
  {
  }

  /** A one-character needle occurs first where that character first occurs. */
  lemma StrPosOfChar(prefix: string, c: char, rest: string)
    requires c !in prefix
    ensures StrPos(prefix + [c] + rest, [c]) == Some(|prefix|)
  {
    var s := prefix + [c] + rest;
    assert OccursAt(s, [c], |prefix|) by {
      assert s[|prefix|..|prefix| + 1] == [c];
    }
    forall j: nat | j < |prefix|
      ensures !OccursAt(s, [c], j)
    {
      assert s[j] == prefix[j];
    }
    StrPosOfFirst(s, [c], |prefix|);
  }

  /** A non-empty string occurs at the start of anything it prefixes. */
  lemma StrPosOfPrefix(prefix: string, rest: string)
    requires prefix != []
    ensures StrPos(prefix + rest, prefix) == Some(0)
  {
    assert OccursAt(prefix + rest, prefix, 0) by {
      assert (prefix + rest)[..|prefix|] == prefix;
    }
  }

  // ---------------------------------------------------------------------------
  // explode()
  // ---------------------------------------------------------------------------

  /** The first index of `c` in `s`. */
  function IndexOf(s: string, c: char): (r: Option<nat>)
    ensures r.Some? ==> r.value < |s| && s[r.value] == c && c !in s[..r.value]
    ensures r.None? ==> c !in s
  {
    if s == [] then None
    else if s[0] == c then Some(0)
    else
      match IndexOf(s[1..], c)
      case None => None
      case Some(i) =>
        assert s[..i + 1] == [s[0]] + s[1..][..i];
        Some(i + 1)
  }

  /** implode($d, $parts) for a one-character glue. */
  function Join(parts: seq<string>, d: char): string {
    if |parts| == 0 then []
    else if |parts| == 1 then parts[0]
    else parts[0] + [d] + Join(parts[1..], d)
  }

  /** explode($d, $s) for a one-character delimiter: the pieces between the
      delimiters, at least one. */
  function Explode(d: char, s: string): (parts: seq<string>)
    ensures |parts| >= 1
    ensures Join(parts, d) == s
    ensures forall i :: 0 <= i < |parts| ==> d !in parts[i]
    decreases |s|
  {
    match IndexOf(s, d)
    case None => [s]
    case Some(i) =>
      var rest := Explode(d, s[i + 1..]);
      assert s == s[..i] + [d] + s[i + 1..];
      [s[..i]] + rest
  }

  /** Joining delimiter-free pieces and exploding again gives the pieces back. */
  lemma {:induction false} ExplodeJoin(parts: seq<string>, d: char)
    requires |parts| >= 1
    requires forall i :: 0 <= i < |parts| ==> d !in parts[i]
    ensures Explode(d, Join(parts, d)) == parts
    decreases |parts|
  {
    if |parts| > 1 {
      var s := Join(parts, d);
      var p := parts[0];
      assert s == p + [d] + Join(parts[1..], d);
      assert s[|p|] == d;
      assert s[..|p|] == p;
      IndexOfFirst(s, d, |p|);
      assert s[|p| + 1..] == Join(parts[1..], d);
      ExplodeJoin(parts[1..], d);
    }
  }

  /** An index holding `c` with no `c` before it is the first index of `c`. */
  lemma IndexOfFirst(s: string, c: char, i: nat)
    requires i < |s| && s[i] == c && c !in s[..i]
    ensures IndexOf(s, c) == Some(i)
  {
  }

  /** explode($sep, $s, 2): the text before the first `sep`, and the text after
      it when `sep` occurs. */
  function ExplodeFirst(sep: string, s: string): (r: (string, Option<string>))
    ensures r.1.None? ==> r.0 == s
    ensures r.1.Some? ==> s == r.0 + sep + r.1.value
    ensures r.1.Some? ==> forall j: nat :: j < |r.0| ==> !OccursAt(s, sep, j)
    ensures r.1.Some? <==> Contains(s, sep)
  {
    match StrPos(s, sep)
    case None => (s, None)
    case Some(i) =>
      assert s == s[..i] + s[i..i + |sep|] + s[i + |sep|..];
      (s[..i], Some(s[i + |sep|..]))
  }

  // ---------------------------------------------------------------------------
  // Integers and their decimal text
  // ---------------------------------------------------------------------------

  function DigitChar(d: nat): (c: char)
    requires d < 10
    ensures IsDigit(c) && c as int - '0' as int == d
  {
    ('0' as int + d) as char
  }

  /** The decimal digits of `n`, without leading zeros. */
  function NatToString(n: nat): (r: string)
    ensures |r| >= 1 && AllDigits(r)
    ensures |r| > 1 ==> r[0] != '0'
    decreases n
  {
    if n < 10 then [DigitChar(n)] else NatToString(n / 10) + [DigitChar(n % 10)]
  }

  /** PHP's string conversion of an integer, e.g. in "$code". */
  function IntToString(i: int): string {
    if i < 0 then "-" + NatToString(-i) else NatToString(i)
  }

  /** The number a run of decimal digits denotes. */
  function DigitsValue(ds: string): nat
    requires AllDigits(ds)
  {
    if ds == [] then 0
    else DigitsValue(ds[..|ds| - 1]) * 10 + (ds[|ds| - 1] as int - '0' as int)
  }

  /** The longest prefix of `s` made of decimal digits. */
  function LeadingDigits(s: string): (r: string)
    ensures |r| <= |s| && r == s[..|r|] && AllDigits(r)
    ensures |r| == |s| || !IsDigit(s[|r|])
  {
    if |s| > 0 && IsDigit(s[0]) then [s[0]] + LeadingDigits(s[1..]) else []
  }

  /** PHP's (int) cast of a string: leading white space, an optional sign and
      the longest run of digits after it; 0 when there are no digits. */
  function StringToInt(s: string): int {
    var t := TrimStart(s, IsSpace);
    if |t| > 0 && t[0] == '-' then -(DigitsValue(LeadingDigits(t[1..])) as int)
    else if |t| > 0 && t[0] == '+' then DigitsValue(LeadingDigits(t[1..]))
    else DigitsValue(LeadingDigits(t))
  }

  /** Reading back the digits of `n` gives `n`. */
  lemma {:induction false} NatToStringValue(n: nat)
    ensures DigitsValue(NatToString(n)) == n
    decreases n
  {
    var s := NatToString(n);
    if n >= 10 {
      NatToStringValue(n / 10);
      assert s[..|s| - 1] == NatToString(n / 10);
    }
  }

  /** A string made only of digits is its own longest digit prefix. */
  lemma LeadingDigitsOfDigits(s: string)
    requires AllDigits(s)
    ensures LeadingDigits(s) == s
  {
  }

  /** The (int) cast inverts PHP's integer-to-string conversion. */
  lemma StringToIntOfIntToString(i: int)
    ensures StringToInt(IntToString(i)) == i
  {
    var s := IntToString(i);
    var digits := NatToString(if i < 0 then -i else i);
    assert !IsSpace(s[0]) by {
      if i >= 0 {
        assert IsDigit(s[0]);
      }
    }
    assert TrimStart(s, IsSpace) == s;
    LeadingDigitsOfDigits(digits);
    NatToStringValue(if i < 0 then -i else i);
    if i < 0 {
      assert s[1..] == digits;
    } else {
      assert s[0] != '-' && s[0] != '+' by {
        assert IsDigit(s[0]);
      }
    }
  }

  /** The first character of the decimal text of `n` is that of `n / 10`. */
  lemma FirstDigitShift(n: nat)
    requires n >= 10
    ensures NatToString(n)[0] == NatToString(n / 10)[0]
  {
  }

  /** The (int) cast of a single digit is that digit's value. */
  lemma StringToIntOfDigit(d: nat)
    requires d < 10
    ensures StringToInt([DigitChar(d)]) == d
  {
    var s := [DigitChar(d)];
    assert !IsSpace(s[0]);
    assert TrimStart(s, IsSpace) == s;
    assert s[0] != '-' && s[0] != '+';
    LeadingDigitsOfDigits(s);
    assert s[..0] == [];
    assert DigitsValue(s) == d;
  }

  /** The first decimal digit of a three-digit number is its hundreds digit. */
  lemma FirstDigitOfThreeDigits(n: nat)
    requires 100 <= n <= 999
    ensures StringToInt(NatToString(n)[..1]) == n / 100
  {
    FirstDigitShift(n);
    FirstDigitShift(n / 10);
    assert n / 10 / 10 == n / 100;
    assert NatToString(n)[..1] == [DigitChar(n / 100)];
    StringToIntOfDigit(n / 100);
  }

  // ---------------------------------------------------------------------------
  // addslashes(), stripslashes()
  // ---------------------------------------------------------------------------

  /** The characters addslashes() escapes: ', ", \ and NUL. */
  predicate NeedsSlash(c: char) {
    c == '\'' || c == '"' || c == '\\' || c == '\0'
  }

  /** The escape addslashes() writes for one character: a backslash before
      a quote or backslash, the two characters `\0` for NUL. */
  function EscapeChar(c: char): string {
    if c == '\0' then ['\\', '0']
    else if NeedsSlash(c) then ['\\', c]
    else [c]
  }

  /** addslashes($s) */
  function AddSlashes(s: string): (r: string)
    ensures |r| >= |s|
    ensures '\0' !in r
    ensures r == s <==> forall i :: 0 <= i < |s| ==> !NeedsSlash(s[i])
  {
    if s == [] then []
    else
      var rest := AddSlashes(s[1..]);
      assert (forall i :: 0 <= i < |s| ==> !NeedsSlash(s[i]))
        <==> !NeedsSlash(s[0]) && forall i :: 0 <= i < |s[1..]| ==> !NeedsSlash(s[1..][i]);
      assert s == [s[0]] + s[1..];
      assert EscapeChar(s[0]) + rest == s ==> |EscapeChar(s[0])| == 1 by {
        if |EscapeChar(s[0])| == 2 {
          assert |EscapeChar(s[0]) + rest| > |s|;
        }
      }
      EscapeChar(s[0]) + rest
  }

  /** stripslashes($s): drops each unescaped backslash, turning `\0` back into NUL. */
  function StripSlashes(s: string): string
    decreases |s|
  {
    if s == [] then []
    else if s[0] != '\\' then [s[0]] + StripSlashes(s[1..])
    else if |s| == 1 then []
    else (if s[1] == '0' then ['\0'] else [s[1]]) + StripSlashes(s[2..])
  }

  /** stripslashes() undoes addslashes(). */
  lemma {:induction false} StripSlashesOfAddSlashes(s: string)
    ensures StripSlashes(AddSlashes(s)) == s
    decreases |s|
  {
    if s != [] {
      var rest := AddSlashes(s[1..]);
      var e := EscapeChar(s[0]);
      StripSlashesOfAddSlashes(s[1..]);
      if |e| == 2 {
        assert (e + rest)[2..] == rest;
      } else {
        assert (e + rest)[1..] == rest;
      }
    }
  }

  // ---------------------------------------------------------------------------
  // strtolower()
  // ---------------------------------------------------------------------------

  function LowerChar(c: char): char {
    if 'A' <= c <= 'Z' then (c as int + 32) as char else c
  }

  /** strtolower($s), ASCII letters only. */
  function ToLower(s: string): (r: string)
    ensures |r| == |s|
    ensures forall i :: 0 <= i < |s| ==> r[i] == LowerChar(s[i])
  {
    if s == [] then [] else [LowerChar(s[0])] + ToLower(s[1..])
  }
}
