/** The two spellings of a JSON location, `/a~1b/[]` (machine) and `$.a[]` (display),
    and the parser that accepts both (core/metadata/json_utils.py). */
module JsonPath {
  import opened Options
  import opened Text

  const ITEM := "[]"

  // ---- token escaping ----------------------------------------------------

  /** `s.replace(c, r)` for a one-character pattern. */
  function ReplaceChar(s: string, c: char, r: string): string {
    if s == [] then []
    else (if s[0] == c then r else [s[0]]) + ReplaceChar(s[1..], c, r)
  }

  /** `s.replace(a + b, r)` for a two-character pattern: leftmost, non-overlapping. */
  function ReplacePair(s: string, a: char, b: char, r: string): string {
    if |s| < 2 then s
    else if s[0] == a && s[1] == b then r + ReplacePair(s[2..], a, b, r)
    else [s[0]] + ReplacePair(s[1..], a, b, r)
  }

  function EncodeToken(t: string): string {
    ReplaceChar(ReplaceChar(t, '~', "~0"), '/', "~1")
  }

  function DecodeToken(t: string): string {
    ReplacePair(ReplacePair(t, '~', '1', "/"), '~', '0', "~")
  }

  predicate HasPair(s: string, a: char, b: char) {
    exists i :: 0 <= i < |s| - 1 && s[i] == a && s[i + 1] == b
  }

  lemma {:induction false} UnescapeTilde(t: string)
    ensures ReplacePair(ReplaceChar(t, '~', "~0"), '~', '0', "~") == t
  {
    if t != [] {
      var e := ReplaceChar(t[1..], '~', "~0");
      UnescapeTilde(t[1..]);
      if t[0] == '~' {
        assert ("~0" + e)[2..] == e;
      } else {
        assert ([t[0]] + e)[1..] == e;
      }
    }
  }

  lemma {:induction false} UnescapeSlash(s: string)
    requires !HasPair(s, '~', '1')
    ensures ReplacePair(ReplaceChar(s, '/', "~1"), '~', '1', "/") == s
  {
    if s != [] {
      var e := ReplaceChar(s[1..], '/', "~1");
      assert forall i :: 0 <= i < |s[1..]| ==> s[1..][i] == s[i + 1];
      UnescapeSlash(s[1..]);
      if s[0] == '/' {
        assert ("~1" + e)[2..] == e;
      } else {
        assert ([s[0]] + e)[1..] == e;
      }
    }
  }

  lemma {:induction false} TildesPaired(t: string)
    ensures !HasPair(ReplaceChar(t, '~', "~0"), '~', '1')
  {
    if t != [] {
      TildesPaired(t[1..]);
      var e := ReplaceChar(t[1..], '~', "~0");
      var head := if t[0] == '~' then "~0" else [t[0]];
      assert forall i :: |head| <= i < |head + e| ==> (head + e)[i] == e[i - |head|];
    }
  }

  lemma TokenRoundTrip(t: string)
    ensures DecodeToken(EncodeToken(t)) == t
  {
    TildesPaired(t);
    UnescapeSlash(ReplaceChar(t, '~', "~0"));
    UnescapeTilde(t);
  }

  lemma {:induction false} ReplaceCharFacts(s: string, c: char, r: string, d: char)
    requires r != [] && (d == c || d !in r)
    requires d !in r
    ensures s != [] ==> ReplaceChar(s, c, r) != []
    ensures d in ReplaceChar(s, c, r) ==> d in s && d != c
  {
    if s != [] { ReplaceCharFacts(s[1..], c, r, d); }
  }

  lemma {:induction false} ReplaceCharAppend(a: string, b: string, c: char, r: string)
    ensures ReplaceChar(a + b, c, r) == ReplaceChar(a, c, r) + ReplaceChar(b, c, r)
  {
    if a == [] {
      assert a + b == b;
    } else {
      assert (a + b)[1..] == a[1..] + b;
      ReplaceCharAppend(a[1..], b, c, r);
    }
  }

  lemma EncodeFacts(t: string)
    ensures '/' !in EncodeToken(t)
    ensures t != [] <==> EncodeToken(t) != []
  {
    ReplaceCharFacts(t, '~', "~0", '\0');
    ReplaceCharFacts(ReplaceChar(t, '~', "~0"), '/', "~1", '/');
  }

  lemma EncodeAppend(a: string, b: string)
    ensures EncodeToken(a + b) == EncodeToken(a) + EncodeToken(b)
  {
    ReplaceCharAppend(a, b, '~', "~0");
    ReplaceCharAppend(ReplaceChar(a, '~', "~0"), ReplaceChar(b, '~', "~0"), '/', "~1");
  }

  lemma EncodeChar(c: char)
    ensures EncodeToken([c]) == if c == '~' then "~0" else if c == '/' then "~1" else [c]
  {
    if c == '~' {
      assert ReplaceChar([c], '~', "~0") == "~0";
      assert "~0"[1..] == "0" && "0"[1..] == "";
      assert ReplaceChar("0", '/', "~1") == "0";
    } else {
      assert [c][1..] == "";
      assert ReplaceChar([c], '~', "~0") == [c];
      assert ReplaceChar([c], '/', "~1") == if c == '/' then "~1" else [c];
    }
  }

  /** White space is never escaped, so stripping commutes with escaping. */
  lemma {:induction false} StripCommutesWithEncode(t: string)
    ensures RStrip(EncodeToken(t)) == EncodeToken(RStrip(t))
  {
    if t != [] {
      var n := |t| - 1;
      var last := [t[n]];
      assert t == t[..n] + last;
      EncodeAppend(t[..n], last);
      EncodeChar(t[n]);
      var e := EncodeToken(t);
      assert e[|e| - 1] == EncodeToken(last)[|EncodeToken(last)| - 1];
      if IsSpace(t[n]) {
        assert e[..|e| - 1] == EncodeToken(t[..n]);
        StripCommutesWithEncode(t[..n]);
      }
    }
  }

  // ---- machine paths --------------------------------------------------------

  function EncodeAll(tokens: seq<string>): (r: seq<string>)
    ensures |r| == |tokens|
    ensures forall i :: 0 <= i < |tokens| ==> r[i] == EncodeToken(tokens[i])
  {
    if tokens == [] then [] else [EncodeToken(tokens[0])] + EncodeAll(tokens[1..])
  }

  function Machine(tokens: seq<string>): string {
    if tokens == [] then "/" else "/" + Join(EncodeAll(tokens), '/')
  }

  /** The comprehension over `raw.split("/")[1:]`: empty parts are skipped. */
  function DecodeParts(parts: seq<string>): seq<string> {
    if parts == [] then []
    else (if parts[0] == "" then [] else [DecodeToken(parts[0])]) + DecodeParts(parts[1..])
  }

  function Parse(path: Option<string>): seq<string> {
    if path.None? then []
    else
      var raw := Strip(path.value);
      if raw == "" || raw == "$" || raw == "/" then []
      else if raw[0] == '$' then ParseDisplay(raw, true)
      else if raw[0] == '/' then DecodeParts(Split(raw, '/')[1..])
      else ParseDisplay(raw, false)
  }

  /** What survives of a machine path when it is stripped: the last token loses trailing space. */
  function StripLast(tokens: seq<string>): seq<string> {
    if tokens == [] then [] else tokens[..|tokens| - 1] + [RStrip(tokens[|tokens| - 1])]
  }

  lemma {:induction false} EncodeAllSnoc(init: seq<string>, last: string)
    ensures EncodeAll(init + [last]) == EncodeAll(init) + [EncodeToken(last)]
  {
  }

  /** Machine paths of a non-empty token list, as a prefix ending in "/" and the last token. */
  lemma MachineSnoc(init: seq<string>, last: string)
    ensures Machine(init + [last])
         == (if init == [] then "/" else Machine(init) + "/") + EncodeToken(last)
  {
    EncodeAllSnoc(init, last);
    JoinSnoc(EncodeAll(init), EncodeToken(last), '/');
  }

  lemma StripMachine(tokens: seq<string>)
    ensures Strip(Machine(tokens)) == Machine(StripLast(tokens))
  {
    if tokens != [] {
      var init, last := tokens[..|tokens| - 1], tokens[|tokens| - 1];
      assert tokens == init + [last];
      var front := if init == [] then "/" else Machine(init) + "/";
      MachineSnoc(init, last);
      MachineSnoc(init, RStrip(last));
      RStripAppend(front, EncodeToken(last));
      StripCommutesWithEncode(last);
    }
  }

  lemma {:induction false} DecodeEncoded(tokens: seq<string>)
    ensures DecodeParts(EncodeAll(tokens)) == DropEmpty(tokens)
  {
    if tokens != [] {
      EncodeFacts(tokens[0]);
      TokenRoundTrip(tokens[0]);
      DecodeEncoded(tokens[1..]);
      assert EncodeAll(tokens)[1..] == EncodeAll(tokens[1..]);
    }
  }

  lemma SplitMachine(tokens: seq<string>)
    requires tokens != []
    ensures Split(Machine(tokens), '/') == [""] + EncodeAll(tokens)
  {
    forall p | p in EncodeAll(tokens) ensures '/' !in p {
      var i :| 0 <= i < |tokens| && p == EncodeToken(tokens[i]);
      EncodeFacts(tokens[i]);
    }
    SplitJoin(EncodeAll(tokens), '/');
    assert Machine(tokens)[1..] == Join(EncodeAll(tokens), '/');
  }

  /** What parsing a machine path gives back, for every token list. */
  lemma ParseMachine(tokens: seq<string>)
    ensures Parse(Some(Machine(tokens))) == DropEmpty(StripLast(tokens))
  {
    StripMachine(tokens);
    var kept := StripLast(tokens);
    if kept != [] {
      SplitMachine(kept);
      DecodeEncoded(kept);
      if Machine(kept) == "/" {
        assert EncodeAll(kept) == [""] by {
          assert Split("/", '/') == ["", ""];
        }
        EncodeFacts(kept[0]);
        assert kept == [""];
        assert DropEmpty(kept) == [];
      }
    }
  }

  predicate NoTrailingSpace(tokens: seq<string>) {
    tokens != [] && tokens[|tokens| - 1] != [] ==>
      !IsSpace(tokens[|tokens| - 1][|tokens[|tokens| - 1]| - 1])
  }

  lemma {:induction false} DropEmptyFixed(tokens: seq<string>)
    ensures |DropEmpty(tokens)| <= |tokens|
    ensures |DropEmpty(tokens)| == |tokens| <==> "" !in tokens
    ensures "" !in tokens ==> DropEmpty(tokens) == tokens
  {
    if tokens != [] { DropEmptyFixed(tokens[1..]); }
  }

  /** A machine path parses back exactly when no token is empty and the last one keeps its end. */
  lemma MachineRoundTrip(tokens: seq<string>)
    ensures Parse(Some(Machine(tokens))) == tokens
       <==> "" !in tokens && NoTrailingSpace(tokens)
  {
    hide Parse, Machine, DropEmpty, RStrip;
    ParseMachine(tokens);
    DropEmptyFixed(StripLast(tokens));
    if tokens != [] {
      RStripPrefix(tokens[|tokens| - 1]);
      if "" !in tokens && NoTrailingSpace(tokens) {
        assert StripLast(tokens) == tokens;
      }
      if DropEmpty(StripLast(tokens)) == tokens {
        assert StripLast(tokens) == tokens;
        assert tokens[|tokens| - 1] == StripLast(tokens)[|tokens| - 1];
      }
    }
  }

  lemma {:induction false} EncodeAllInjective(a: seq<string>, b: seq<string>)
    requires EncodeAll(a) == EncodeAll(b)
    ensures a == b
  {
    forall i | 0 <= i < |a| ensures a[i] == b[i] {
      TokenRoundTrip(a[i]);
      TokenRoundTrip(b[i]);
      assert EncodeAll(a)[i] == EncodeAll(b)[i];
    }
  }

  /** Two token lists share a machine path only when they are the root and the single empty key. */
  lemma MachineInjective(a: seq<string>, b: seq<string>)
    ensures Machine(a) == Machine(b)
       <==> a == b || (a == [] && b == [""]) || (a == [""] && b == [])
  {
    assert EncodeAll([""]) == [""];
    var a' := if a == [] then [""] else a;
    var b' := if b == [] then [""] else b;
    assert Machine(a') == Machine(a) && Machine(b') == Machine(b);
    SplitMachine(a');
    SplitMachine(b');
    if Machine(a) == Machine(b) {
      assert ([""] + EncodeAll(a'))[1..] == EncodeAll(a');
      assert ([""] + EncodeAll(b'))[1..] == EncodeAll(b');
      EncodeAllInjective(a', b');
    }
  }

  // ---- display paths --------------------------------------------------------

  function Body(tokens: seq<string>): string {
    if tokens == [] then []
    else (if tokens[0] == ITEM then ITEM else "." + tokens[0]) + Body(tokens[1..])
  }

  function Display(tokens: seq<string>): string {
    "$" + Body(tokens)
  }

  function LStripDots(s: string): string {
    if s != [] && s[0] == '.' then LStripDots(s[1..]) else s
  }

  function Flush(buffer: string): seq<string> {
    if buffer == [] then [] else [buffer]
  }

  predicate StartsWithItem(s: string) {
    |s| >= 2 && s[0] == '[' && s[1] == ']'
  }

  /** The tokens the scanner emits from input `s` with `buffer` pending. */
  function Scan(s: string, buffer: string): seq<string>
    decreases |s|
  {
    if s == [] then Flush(buffer)
    else if StartsWithItem(s) then
      Flush(buffer) + [ITEM] + Scan(if |s| > 2 && s[2] == '.' then s[3..] else s[2..], [])
    else if s[0] == '.' then Flush(buffer) + Scan(s[1..], [])
    else Scan(s[1..], buffer + [s[0]])
  }

  function ParseDisplay(path: string, allowRootPrefix: bool): seq<string> {
    var stripped := Strip(path);
    var noRoot := if allowRootPrefix && stripped != [] && stripped[0] == '$' then stripped[1..] else stripped;
    Scan(LStripDots(noRoot), [])
  }

  /** One round of the scanner, in terms of positions in the whole path. */
  lemma ScanSplit(raw: string, index: nat, buffer: string)
    requires index < |raw|
    ensures Scan(raw[index..], buffer) ==
      if StartsWithItem(raw[index..]) then
        var next := if index + 2 < |raw| && raw[index + 2] == '.' then index + 3 else index + 2;
        Flush(buffer) + [ITEM] + Scan(raw[next..], [])
      else if raw[index] == '.' then Flush(buffer) + Scan(raw[index + 1..], [])
      else Scan(raw[index + 1..], buffer + [raw[index]])
  {
    var rest := raw[index..];
    assert rest[1..] == raw[index + 1..];
    if StartsWithItem(rest) {
      assert rest[2..] == raw[index + 2..];
      if |rest| > 2 { assert rest[3..] == raw[index + 3..]; }
    }
  }

  lemma ScanEnd(buffer: string)
    ensures Scan([], buffer) == Flush(buffer)
  {
  }

  /** The index/buffer loop of the parser, which computes `Scan`. */
  method ScanDisplay(raw: string) returns (tokens: seq<string>)
    ensures tokens == Scan(raw, [])
    ensures "" !in tokens
  {
    hide Scan;
    tokens := [];
    var buffer := "";
    var index := 0;
    while index < |raw|
      invariant 0 <= index <= |raw|
      invariant Scan(raw, []) == tokens + Scan(raw[index..], buffer)
      invariant "" !in tokens
    {
      ScanSplit(raw, index, buffer);
      if StartsWithItem(raw[index..]) {
        ghost var next := if index + 2 < |raw| && raw[index + 2] == '.' then index + 3 else index + 2;
        Assoc(tokens, Flush(buffer) + [ITEM], Scan(raw[next..], []));
        tokens := tokens + (Flush(buffer) + [ITEM]);
        buffer := [];
        index := index + 2;
        if index < |raw| && raw[index] == '.' {
          index := index + 1;
        }
      } else if raw[index] == '.' {
        Assoc(tokens, Flush(buffer), Scan(raw[index + 1..], []));
        tokens := tokens + Flush(buffer);
        buffer := [];
        index := index + 1;
      } else {
        buffer := buffer + [raw[index]];
        index := index + 1;
      }
    }
    assert raw[index..] == [];
    ScanEnd(buffer);
    tokens := tokens + Flush(buffer);
  }

  /** A token that the display spelling keeps in one piece. */
  predicate Plain(t: string) {
    t != [] && '.' !in t && !HasPair(t, '[', ']')
  }

  predicate Displayable(tokens: seq<string>) {
    forall t :: t in tokens ==> t == ITEM || Plain(t)
  }

  predicate Boundary(r: string) {
    r == [] || r[0] == '.' || r[0] == '['
  }

  lemma {:induction false} ScanToken(t: string, r: string, buffer: string)
    requires '.' !in t && !HasPair(t, '[', ']') && Boundary(r)
    ensures Scan(t + r, buffer) == Scan(r, buffer + t)
  {
    if t == [] {
      assert t + r == r && buffer + t == buffer;
    } else {
      var s := t + r;
      assert s[1..] == t[1..] + r;
      assert !StartsWithItem(s);
      assert forall i :: 0 <= i < |t[1..]| ==> t[1..][i] == t[i + 1];
      ScanToken(t[1..], r, buffer + [t[0]]);
      assert buffer + [t[0]] + t[1..] == buffer + t;
    }
  }

  lemma ScanItem(more: string, buffer: string)
    ensures Scan(ITEM + more, buffer) == Flush(buffer) + [ITEM] + Scan(more, [])
  {
    var s := ITEM + more;
    assert StartsWithItem(s) && s[2..] == more;
    if more != [] && more[0] == '.' {
      assert s[3..] == more[1..];
      assert Scan(more, []) == Flush([]) + Scan(more[1..], []);
    }
  }

  lemma BodyBoundary(tokens: seq<string>, tail: string)
    requires tail == "" || tail == "."
    ensures Boundary(Body(tokens) + tail)
  {
  }

  lemma {:induction false} ScanBody(tokens: seq<string>, tail: string, buffer: string)
    requires Displayable(tokens) && (tail == "" || tail == ".")
    ensures Scan(Body(tokens) + tail, buffer) == Flush(buffer) + tokens
  {
    if tokens == [] {
      assert Body(tokens) + tail == tail;
    } else {
      ScanBody(tokens[1..], tail, if tokens[0] == ITEM then [] else tokens[0]);
      ScanStep(tokens, tail, buffer);
    }
  }

  lemma ScanStep(tokens: seq<string>, tail: string, buffer: string)
    requires tokens != [] && (tokens[0] == ITEM || Plain(tokens[0])) && (tail == "" || tail == ".")
    requires var pending := if tokens[0] == ITEM then [] else tokens[0];
      Scan(Body(tokens[1..]) + tail, pending) == Flush(pending) + tokens[1..]
    ensures Scan(Body(tokens) + tail, buffer) == Flush(buffer) + tokens
  {
    var t, rest := tokens[0], tokens[1..];
    var more := Body(rest) + tail;
    assert tokens == [t] + rest;
    if t == ITEM {
      Assoc(ITEM, Body(rest), tail);
      ScanItem(more, buffer);
    } else {
      Assoc("." + t, Body(rest), tail);
      Assoc(".", t, more);
      BodyBoundary(rest, tail);
      ScanPlain(t, more, buffer);
    }
  }

  lemma ScanPlain(t: string, more: string, buffer: string)
    requires Plain(t) && Boundary(more)
    ensures Scan("." + (t + more), buffer) == Flush(buffer) + Scan(more, t)
  {
    ScanToken(t, more, []);
    assert [] + t == t;
    assert ("." + (t + more))[1..] == t + more;
  }

  lemma {:induction false} LeadingDots(s: string)
    ensures Scan(LStripDots(s), []) == Scan(s, [])
  {
    if s != [] && s[0] == '.' { LeadingDots(s[1..]); }
  }

  lemma {:induction false} BodySnoc(init: seq<string>, last: string)
    ensures Body(init + [last]) == Body(init) + (if last == ITEM then ITEM else "." + last)
  {
    if init == [] {
      assert init + [last] == [last];
      assert Body([last][1..]) == [];
    } else {
      assert (init + [last])[1..] == init[1..] + [last];
      BodySnoc(init[1..], last);
    }
  }

  /** Stripping a display path trims only the last token, and can leave a dangling dot. */
  lemma StripDisplay(tokens: seq<string>) returns (kept: seq<string>, tail: string)
    requires Displayable(tokens)
    ensures StrippedForm(tokens, kept, tail)
  {
    if tokens == [] {
      kept, tail := [], "";
    } else {
      var init, last := tokens[..|tokens| - 1], tokens[|tokens| - 1];
      assert tokens == init + [last];
      BodySnoc(init, last);
      if last == ITEM {
        kept, tail := tokens, "";
        assert Body(tokens) + "" == Body(tokens);
      } else {
        assert last in tokens && Plain(last);
        kept, tail := StripPlain(init, last);
      }
    }
  }

  lemma StripPlain(init: seq<string>, last: string) returns (kept: seq<string>, tail: string)
    requires Displayable(init) && Plain(last) && last != ITEM
    ensures StrippedForm(init + [last], kept, tail)
  {
    StripAtLast(init, last);
    RStripPrefix(last);
    var short := RStrip(last);
    assert (init + [last])[|init|] == last;
    if short == [] {
      kept, tail := init, ".";
      assert "." + short == ".";
    } else {
      kept, tail := init + [short], "";
      PlainPrefix(last, short);
      BodySnoc(init, short);
      assert Body(kept) + "" == Body(kept);
      assert kept[|init|] == short;
    }
  }

  lemma StripAtLast(init: seq<string>, last: string)
    requires last != ITEM
    ensures Strip(Display(init + [last])) == "$" + (Body(init) + ("." + RStrip(last)))
  {
    var body, kept := Body(init), RStrip(last);
    BodySnoc(init, last);
    Assoc(body, ".", last);
    Assoc("$", body + ".", last);
    StripKeepsFront("$" + (body + "."), last);
    Assoc("$", body + ".", kept);
    Assoc(body, ".", kept);
  }

  lemma PlainPrefix(t: string, p: string)
    requires Plain(t) && p <= t && p != []
    ensures Plain(p) && p != ITEM
  {
    assert forall i :: 0 <= i < |p| ==> p[i] == t[i];
    assert HasPair(ITEM, '[', ']') by { assert ITEM[0] == '[' && ITEM[1] == ']'; }
  }

  ghost predicate StrippedForm(tokens: seq<string>, kept: seq<string>, tail: string) {
    && Displayable(kept)
    && (tail == "" || tail == ".")
    && Strip(Display(tokens)) == "$" + (Body(kept) + tail)
    && (kept == tokens <==> NoTrailingSpace(tokens))
  }

  lemma ParseStripped(kept: seq<string>, tail: string)
    requires Displayable(kept) && (tail == "" || tail == ".")
    requires Strip("$" + (Body(kept) + tail)) == "$" + (Body(kept) + tail)
    ensures Parse(Some("$" + (Body(kept) + tail))) == kept
  {
    var raw := "$" + (Body(kept) + tail);
    assert raw == "$" ==> kept == [];
    if raw != "$" {
      assert raw[1..] == Body(kept) + tail;
      LeadingDots(raw[1..]);
      ScanBody(kept, tail, []);
    }
  }

  lemma {:induction false} StripIdempotent(s: string)
    ensures Strip(Strip(s)) == Strip(s)
  {
    var a := LStrip(s);
    LStripHead(s);
    RStripPrefix(a);
    RStripPrefix(RStrip(a));
  }

  lemma {:induction false} LStripHead(s: string)
    ensures LStrip(s) != [] ==> !IsSpace(LStrip(s)[0])
  {
    if s != [] && IsSpace(s[0]) { LStripHead(s[1..]); }
  }

  lemma {:induction false} ScanCanonical(s: string, buffer: string)
    requires '.' !in buffer && !HasPair(buffer, '[', ']')
    requires buffer != [] && buffer[|buffer| - 1] == '[' ==> s == [] || s[0] != ']'
    ensures Displayable(Scan(s, buffer))
    decreases |s|
  {
    if s != [] {
      if StartsWithItem(s) {
        ScanCanonical(if |s| > 2 && s[2] == '.' then s[3..] else s[2..], []);
      } else if s[0] == '.' {
        ScanCanonical(s[1..], []);
      } else {
        ScanCanonical(s[1..], buffer + [s[0]]);
      }
    }
  }

  /** A display path parses back exactly when every token is `[]` or plain, and the last keeps its end. */
  lemma DisplayRoundTrip(tokens: seq<string>)
    ensures Parse(Some(Display(tokens))) == tokens
       <==> Displayable(tokens) && NoTrailingSpace(tokens)
  {
    var raw := Strip(Display(tokens));
    StripIdempotent(Display(tokens));
    if Displayable(tokens) {
      var kept, tail := StripDisplay(tokens);
      ParseStripped(kept, tail);
      assert Parse(Some(Display(tokens))) == Parse(Some(raw));
    } else if Parse(Some(Display(tokens))) == tokens {
      DisplayHead(tokens);
      var noRoot := raw[1..];
      ScanCanonical(LStripDots(noRoot), []);
    }
  }

  lemma DisplayHead(tokens: seq<string>)
    ensures Strip(Display(tokens)) != [] && Strip(Display(tokens))[0] == '$'
  {
    RStripAppend("$", Body(tokens));
  }

  /** Both spellings of the same location normalise to the same machine path. */
  lemma DisplayNormalises(tokens: seq<string>)
    requires Displayable(tokens) && NoTrailingSpace(tokens)
    ensures Machine(Parse(Some(Display(tokens)))) == Machine(tokens)
    ensures Machine(Parse(Some(Machine(tokens)))) == Machine(tokens)
  {
    DisplayRoundTrip(tokens);
    MachineRoundTrip(tokens);
  }
}
