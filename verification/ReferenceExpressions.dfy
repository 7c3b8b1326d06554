/** How migration 0045 writes a variable name as an expression and reads it back
    (migrations/versions/0045_normalize_variable_io_and_input_payloads.py:82-113).
    Strings are sequences of code points, because a Python `str` may hold a lone surrogate. */
module ReferenceExpressions {
  import opened Options

  type CodePoint = c: int | 0 <= c < 0x110000

  type PyStr = seq<CodePoint>

  function Ascii(s: string): PyStr {
    seq(|s|, i requires 0 <= i < |s| => if s[i] < '\U{80}' then s[i] as int else 0)
  }

  predicate IsSurrogate(c: CodePoint) {
    0xD800 <= c <= 0xDFFF
  }

  predicate HasSurrogate(s: PyStr) {
    exists i :: 0 <= i < |s| && IsSurrogate(s[i])
  }

  // ---- the parts of Python and JSON that are taken as they are --------------------------------

  /** Outside ASCII, which characters may start or continue an identifier; and what
      `ast.literal_eval` makes of a text that is not a plain double-quoted string: the string it
      denotes, if it denotes one. */
  datatype Python = Python(
    letterStarts: CodePoint -> bool,
    letterContinues: CodePoint -> bool,
    otherLiteral: PyStr -> Option<PyStr>)

  const KEYWORDS := {
    "False", "None", "True", "and", "as", "assert", "async", "await", "break", "class", "continue", "def",
    "del", "elif", "else", "except", "finally", "for", "from", "global", "if", "import", "in", "is", "lambda",
    "nonlocal", "not", "or", "pass", "raise", "return", "try", "while", "with", "yield"}

  const RESERVED := {"input_variables", "len", "true", "false", "none", "True", "False", "None"}

  predicate AsciiStarts(c: CodePoint) {
    0x41 <= c <= 0x5A || c == 0x5F || 0x61 <= c <= 0x7A
  }

  predicate Starts(py: Python, c: CodePoint) {
    if c < 0x80 then AsciiStarts(c) else !IsSurrogate(c) && py.letterStarts(c)
  }

  predicate Continues(py: Python, c: CodePoint) {
    if c < 0x80 then AsciiStarts(c) || 0x30 <= c <= 0x39 else !IsSurrogate(c) && py.letterContinues(c)
  }

  predicate IsIdentifier(py: Python, s: PyStr) {
    s != [] && Starts(py, s[0]) && forall i :: 1 <= i < |s| ==> Continues(py, s[i])
  }

  predicate OneOf(s: PyStr, words: set<string>) {
    exists w :: w in words && Ascii(w) == s
  }

  predicate IsSafeName(py: Python, s: PyStr) {
    IsIdentifier(py, s) && !OneOf(s, KEYWORDS) && !OneOf(s, RESERVED)
  }

  // ---- json.dumps(name, ensure_ascii=False) --------------------------------------------------------

  const QUOTE: CodePoint := 0x22
  const BACKSLASH: CodePoint := 0x5C

  function HexDigit(n: int): CodePoint
    requires 0 <= n < 16
  {
    if n < 10 then 0x30 + n else 0x61 + n - 10
  }

  function EscapeChar(c: CodePoint): PyStr {
    if c == QUOTE then [BACKSLASH, QUOTE]
    else if c == BACKSLASH then [BACKSLASH, BACKSLASH]
    else if c == 0x08 then [BACKSLASH, 0x62]
    else if c == 0x0C then [BACKSLASH, 0x66]
    else if c == 0x0A then [BACKSLASH, 0x6E]
    else if c == 0x0D then [BACKSLASH, 0x72]
    else if c == 0x09 then [BACKSLASH, 0x74]
    else if c < 0x20 then [BACKSLASH, 0x75, 0x30, 0x30, HexDigit(c / 16), HexDigit(c % 16)]
    else [c]
  }

  function Escape(s: PyStr): PyStr {
    if s == [] then [] else EscapeChar(s[0]) + Escape(s[1..])
  }

  function Quoted(s: PyStr): PyStr {
    [QUOTE] + Escape(s) + [QUOTE]
  }

  // ---- ast.literal_eval of a double-quoted string ------------------------------------------------------

  function HexValue(c: CodePoint): Option<int> {
    if 0x30 <= c <= 0x39 then Some(c - 0x30)
    else if 0x61 <= c <= 0x66 then Some(c - 0x61 + 10)
    else if 0x41 <= c <= 0x46 then Some(c - 0x41 + 10)
    else None
  }

  /** The character denoted by the start of `s`, and how much of `s` it takes. */
  function NextChar(s: PyStr): Option<(CodePoint, nat)>
    requires s != []
  {
    if s[0] == QUOTE || s[0] == 0x0A || s[0] == 0x0D || s[0] == 0 then None
    else if s[0] != BACKSLASH then Some((s[0], 1))
    else if |s| < 2 then None
    else if s[1] == QUOTE || s[1] == BACKSLASH then Some((s[1], 2))
    else if s[1] == 0x62 then Some((0x08, 2))
    else if s[1] == 0x66 then Some((0x0C, 2))
    else if s[1] == 0x6E then Some((0x0A, 2))
    else if s[1] == 0x72 then Some((0x0D, 2))
    else if s[1] == 0x74 then Some((0x09, 2))
    else if s[1] == 0x75 && |s| >= 6 && s[2] == 0x30 && s[3] == 0x30
            && HexValue(s[4]).Some? && HexValue(s[5]).Some?
      then Some((HexValue(s[4]).value * 16 + HexValue(s[5]).value, 6))
    else None
  }

  function Unescape(s: PyStr): Option<PyStr>
    decreases |s|
  {
    if s == [] then Some([])
    else
      var next := NextChar(s);
      if next.None? || next.value.1 > |s| || next.value.1 == 0 then None
      else
        var rest := Unescape(s[next.value.1..]);
        if rest.None? then None else Some([next.value.0] + rest.value)
  }

  /** `ast.literal_eval`, as far as it yields a string. Source text with a lone surrogate cannot
      be encoded, which raises a ValueError. */
  function LiteralString(py: Python, text: PyStr): Option<PyStr> {
    if HasSurrogate(text) then None
    else if |text| >= 2 && text[0] == QUOTE && text[|text| - 1] == QUOTE
            && Unescape(text[1..|text| - 1]).Some?
      then Unescape(text[1..|text| - 1])
    else py.otherLiteral(text)
  }

  // ---- the two functions of the migration -----------------------------------------------------------------

  /** "input_variables[". */
  const PREFIX: PyStr := [105, 110, 112, 117, 116, 95, 118, 97, 114, 105, 97, 98, 108, 101, 115, 91]
  const CLOSE: CodePoint := 0x5D

  function Indexed(literal: PyStr): PyStr {
    PREFIX + literal + [CLOSE]
  }

  function EncodeName(py: Python, name: PyStr): PyStr {
    if IsSafeName(py, name) then name else Indexed(Quoted(name))
  }

  function DecodeExpression(py: Python, e: PyStr): Option<PyStr> {
    if IsSafeName(py, e) then Some(e)
    else if !(PREFIX <= e) || e[|e| - 1] != CLOSE || |e| <= |PREFIX| then None
    else LiteralString(py, e[|PREFIX|..|e| - 1])
  }

  // ---- round trip --------------------------------------------------------------------------------------------

  lemma UnescapeChar(c: CodePoint, rest: PyStr)
    ensures NextChar(EscapeChar(c) + rest) == Some((c, |EscapeChar(c)|))
  {
  }

  lemma {:induction false} UnescapeEscape(s: PyStr)
    ensures Unescape(Escape(s)) == Some(s)
  {
    if s != [] {
      var head, rest := EscapeChar(s[0]), Escape(s[1..]);
      UnescapeChar(s[0], rest);
      UnescapeEscape(s[1..]);
      assert (head + rest)[|head|..] == rest;
      assert [s[0]] + s[1..] == s;
    }
  }

  lemma {:induction false} EscapeSurrogates(s: PyStr)
    ensures HasSurrogate(Escape(s)) <==> HasSurrogate(s)
  {
    if s != [] {
      EscapeSurrogates(s[1..]);
      var head, rest := EscapeChar(s[0]), Escape(s[1..]);
      assert forall i :: 0 <= i < |rest| ==> (head + rest)[i + |head|] == rest[i];
      assert forall i :: 1 <= i < |s| ==> s[i] == s[1..][i - 1];
      if HasSurrogate(s[1..]) {
        var i :| 0 <= i < |s[1..]| && IsSurrogate(s[1..][i]);
        assert IsSurrogate(s[i + 1]);
        var j :| 0 <= j < |rest| && IsSurrogate(rest[j]);
        assert IsSurrogate((head + rest)[j + |head|]);
      }
      if IsSurrogate(s[0]) { assert (head + rest)[0] == s[0]; }
    }
  }

  lemma IndexedIsUnsafe(py: Python, literal: PyStr)
    ensures !IsSafeName(py, Indexed(literal))
    ensures PREFIX <= Indexed(literal)
    ensures Indexed(literal)[|PREFIX|..|Indexed(literal)| - 1] == literal
  {
    assert Indexed(literal)[15] == 91;
    assert !Continues(py, 91);
  }

  lemma QuotedLiteral(py: Python, name: PyStr)
    ensures LiteralString(py, Quoted(name)) == if HasSurrogate(name) then None else Some(name)
  {
    var text := Quoted(name);
    EscapeSurrogates(name);
    UnescapeEscape(name);
    assert text[1..|text| - 1] == Escape(name);
    assert HasSurrogate(text) <==> HasSurrogate(Escape(name)) by {
      assert forall i :: 0 <= i < |Escape(name)| ==> text[i + 1] == Escape(name)[i];
      if HasSurrogate(Escape(name)) {
        var i :| 0 <= i < |Escape(name)| && IsSurrogate(Escape(name)[i]);
        assert IsSurrogate(text[i + 1]);
      }
      if HasSurrogate(text) {
        var i :| 0 <= i < |text| && IsSurrogate(text[i]);
        assert text[i] == Escape(name)[i - 1];
      }
    }
  }

  /** A name survives being written as an expression and read back exactly when it holds no lone
      surrogate, whatever Python's identifier tables say. */
  lemma NameRoundTrip(py: Python, name: PyStr)
    ensures DecodeExpression(py, EncodeName(py, name)) == Some(name) <==> !HasSurrogate(name)
    ensures HasSurrogate(name) ==> DecodeExpression(py, EncodeName(py, name)) == None
  {
    if IsSafeName(py, name) {
      if i :| 0 <= i < |name| && IsSurrogate(name[i]) {
        assert Starts(py, name[i]) || Continues(py, name[i]);
      }
    } else {
      IndexedIsUnsafe(py, Quoted(name));
      QuotedLiteral(py, name);
    }
  }

  /** The failing family is inhabited. */
  lemma SurrogateNameIsLost(py: Python)
    ensures DecodeExpression(py, EncodeName(py, [0xD800])) == None
  {
    assert IsSurrogate([0xD800][0]);
    NameRoundTrip(py, [0xD800]);
  }
}
