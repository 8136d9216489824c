/** Keys: the special key codes of the JSON Wire Protocol, written as the
    three-byte UTF-8 encodings (section 3 of RFC 3629) of code points in the
    Unicode private-use area. Each `char` of a string stands for one byte. */
module Keys {
  import opened Wrappers

  /** A byte value as the `char` that stores it. */
  function Byte(b: nat): char
    requires b < 256
  {
    b as char
  }

  /** The byte stored in a `char`. */
  function ByteOf(c: char): nat {
    c as nat
  }

  /** A code point that UTF-8 writes in exactly three bytes: U+0800..U+FFFF
      without the surrogates U+D800..U+DFFF (section 3 of RFC 3629). */
  predicate ThreeByteCodePoint(cp: int) {
    0x800 <= cp <= 0xFFFF && !(0xD800 <= cp <= 0xDFFF)
  }

  /** The three-byte UTF-8 form of `cp`: 1110xxxx 10xxxxxx 10xxxxxx. */
  function Encode3(cp: int): (s: string)
    requires ThreeByteCodePoint(cp)
    ensures |s| == 3
    ensures 0xE0 <= ByteOf(s[0]) <= 0xEF
    ensures 0x80 <= ByteOf(s[1]) <= 0xBF && 0x80 <= ByteOf(s[2]) <= 0xBF
  {
    [Byte(0xE0 + cp / 0x1000), Byte(0x80 + (cp / 0x40) % 0x40), Byte(0x80 + cp % 0x40)]
  }

  /** Decodes a three-byte UTF-8 sequence; None when `s` is not one: a wrong
      length, a wrong lead or continuation byte, an overlong form or a
      surrogate (section 3 of RFC 3629). */
  function Decode3(s: string): (r: Option<int>)
    ensures r.Some? ==> ThreeByteCodePoint(r.value)
  {
    if |s| != 3 then None
    else if !(0xE0 <= ByteOf(s[0]) <= 0xEF) then None
    else if !(0x80 <= ByteOf(s[1]) <= 0xBF && 0x80 <= ByteOf(s[2]) <= 0xBF) then None
    else
      var cp := (ByteOf(s[0]) - 0xE0) * 0x1000 + (ByteOf(s[1]) - 0x80) * 0x40 + (ByteOf(s[2]) - 0x80);
      if ThreeByteCodePoint(cp) then Some(cp) else None
  }

  /** Decoding the encoding of a code point gives the code point back. */
  lemma DecodeEncode(cp: int)
    requires ThreeByteCodePoint(cp)
    ensures Decode3(Encode3(cp)) == Some(cp)
  {
    var s := Encode3(cp);
    assert ByteOf(s[0]) - 0xE0 == cp / 0x1000;
    assert ByteOf(s[1]) - 0x80 == (cp / 0x40) % 0x40;
    assert ByteOf(s[2]) - 0x80 == cp % 0x40;
    assert cp == (cp / 0x1000) * 0x1000 + ((cp / 0x40) % 0x40) * 0x40 + cp % 0x40;
  }

  /** A decodable sequence is the encoding of what it decodes to. */
  lemma EncodeDecode(s: string)
    requires Decode3(s).Some?
    ensures Encode3(Decode3(s).value) == s
  {
    var cp := Decode3(s).value;
    var b0, b1, b2 := ByteOf(s[0]) - 0xE0, ByteOf(s[1]) - 0x80, ByteOf(s[2]) - 0x80;
    assert cp == b0 * 0x1000 + b1 * 0x40 + b2;
    assert cp / 0x40 == b0 * 0x40 + b1;
    assert cp % 0x40 == b2;
    assert (cp / 0x40) % 0x40 == b1;
    assert cp / 0x1000 == b0;
    var e := Encode3(cp);
    assert e[0] == s[0] && e[1] == s[1] && e[2] == s[2];
  }

  // ---------------------------------------------------------------------------
  // The key constants, byte by byte
  // ---------------------------------------------------------------------------

  const ReleaseModifiers: string := ['\U{EE}', '\U{80}', '\U{80}']
  const Backspace: string := ['\U{EE}', '\U{80}', '\U{83}']
  const Tab: string := ['\U{EE}', '\U{80}', '\U{84}']
  const Return: string := ['\U{EE}', '\U{80}', '\U{86}']
  const Enter: string := ['\U{EE}', '\U{80}', '\U{87}']
  const Shift: string := ['\U{EE}', '\U{80}', '\U{88}']
  const Control: string := ['\U{EE}', '\U{80}', '\U{89}']
  const Alt: string := ['\U{EE}', '\U{80}', '\U{8A}']
  const Escape: string := ['\U{EE}', '\U{80}', '\U{8C}']
  const Space: string := ['\U{EE}', '\U{80}', '\U{8D}']
  const Delete: string := ['\U{EE}', '\U{80}', '\U{97}']
  const Command: string := ['\U{EE}', '\U{80}', '\U{BD}']
  const Meta: string := ['\U{EE}', '\U{80}', '\U{BD}']

  /** Every constant with its name, in declaration order. */
  const AllKeys: seq<(string, string)> := [
    ("RELEASE_MODIFIERS", ReleaseModifiers),
    ("BACKSPACE", Backspace),
    ("TAB", Tab),
    ("RETURN_", Return),
    ("ENTER", Enter),
    ("SHIFT", Shift),
    ("CONTROL", Control),
    ("ALT", Alt),
    ("ESCAPE", Escape),
    ("SPACE", Space),
    ("DELETE", Delete),
    ("COMMAND", Command),
    ("META", Meta)
  ]

  /** The JSON Wire Protocol code point of each constant, in the same order. */
  const KeyCodePoints: seq<int> := [
    0xE000, 0xE003, 0xE004, 0xE006, 0xE007, 0xE008, 0xE009,
    0xE00A, 0xE00C, 0xE00D, 0xE017, 0xE03D, 0xE03D
  ]

  /** Each constant is well-formed three-byte UTF-8 of the form EE 80 xx and
      decodes to its code point, which lies in U+E000..U+E03D of the
      private-use area. */
  lemma KeysDecode()
    ensures |AllKeys| == |KeyCodePoints| == 13
    ensures forall i :: 0 <= i < |AllKeys| ==>
      |AllKeys[i].1| == 3 && ByteOf(AllKeys[i].1[0]) == 0xEE && ByteOf(AllKeys[i].1[1]) == 0x80
      && 0x80 <= ByteOf(AllKeys[i].1[2]) <= 0xBF
    ensures forall i :: 0 <= i < |AllKeys| ==> Decode3(AllKeys[i].1) == Some(KeyCodePoints[i])
    ensures forall i :: 0 <= i < |KeyCodePoints| ==> 0xE000 <= KeyCodePoints[i] <= 0xE03D
  {
  }

  /** Each constant is the UTF-8 encoding of its code point. */
  lemma KeysEncode()
    ensures forall i :: 0 <= i < |AllKeys| ==> Encode3(KeyCodePoints[i]) == AllKeys[i].1
  {
    KeysDecode();
    forall i | 0 <= i < |AllKeys|
      ensures Encode3(KeyCodePoints[i]) == AllKeys[i].1
    {
      EncodeDecode(AllKeys[i].1);
    }
  }

  /** The constants are pairwise distinct except COMMAND and META, which are
      the same key. */
  lemma KeysDistinct()
    ensures Command == Meta
    ensures forall i, j :: 0 <= i < j < |AllKeys| ==>
      (AllKeys[i].1 == AllKeys[j].1 <==> AllKeys[i].0 == "COMMAND" && AllKeys[j].0 == "META")
  {
    KeysDecode();
    forall i, j | 0 <= i < j < |AllKeys|
      ensures AllKeys[i].1 == AllKeys[j].1 <==> AllKeys[i].0 == "COMMAND" && AllKeys[j].0 == "META"
    {
      if AllKeys[i].1 == AllKeys[j].1 {
        assert KeyCodePoints[i] == KeyCodePoints[j];
      }
    }
  }
}
