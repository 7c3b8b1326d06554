/** The parts of Python's `str` that several components rely on: stripping, the
    code-point order used by `sorted`, splitting and joining. */
module Text {

  /** The characters removed by `str.strip()` without arguments. */
  predicate IsSpace(c: char) {
    || '\t' <= c <= '\r'
    || '\U{1C}' <= c <= ' '
    || c == '\U{85}' || c == '\U{A0}' || c == '\U{1680}'
    || '\U{2000}' <= c <= '\U{200A}'
    || c == '\U{2028}' || c == '\U{2029}' || c == '\U{202F}' || c == '\U{205F}' || c == '\U{3000}'
  }

  function LStrip(s: string): string {
    if s != [] && IsSpace(s[0]) then LStrip(s[1..]) else s
  }

  function RStrip(s: string): string {
    if s != [] && IsSpace(s[|s| - 1]) then RStrip(s[..|s| - 1]) else s
  }

  function Strip(s: string): string {
    RStrip(LStrip(s))
  }

  lemma {:induction false} SubsetSize<T>(a: set<T>, b: set<T>)
    requires a <= b
    ensures |a| <= |b|
  {
    if a != {} {
      var x :| x in a;
      SubsetSize(a - {x}, b - {x});
    }
  }

  lemma Assoc<T>(a: seq<T>, b: seq<T>, c: seq<T>)
    ensures a + b + c == a + (b + c)
  {
  }

  lemma {:induction false} RStripAppend(a: string, b: string)
    requires a != [] && !IsSpace(a[|a| - 1])
    ensures RStrip(a + b) == a + RStrip(b)
  {
    if b == [] {
      assert a + b == a;
    } else if IsSpace(b[|b| - 1]) {
      assert (a + b)[..|a + b| - 1] == a + b[..|b| - 1];
      RStripAppend(a, b[..|b| - 1]);
    }
  }

  lemma StripKeepsFront(front: string, last: string)
    requires front != [] && !IsSpace(front[0]) && !IsSpace(front[|front| - 1])
    ensures Strip(front + last) == front + RStrip(last)
  {
    assert (front + last)[0] == front[0];
    RStripAppend(front, last);
  }

  lemma {:induction false} RStripPrefix(s: string)
    ensures RStrip(s) <= s
    ensures RStrip(s) == s <==> (s != [] ==> !IsSpace(s[|s| - 1]))
    ensures RStrip(s) != [] ==> !IsSpace(RStrip(s)[|RStrip(s)| - 1])
  {
    if s != [] && IsSpace(s[|s| - 1]) {
      RStripPrefix(s[..|s| - 1]);
    }
  }

  /** Code-point order on strings, as used by Python's comparison operators. */
  predicate Leq(a: string, b: string) {
    a == [] || (b != [] && (a[0] < b[0] || (a[0] == b[0] && Leq(a[1..], b[1..]))))
  }

  lemma {:induction false} LeqTotal(a: string, b: string)
    ensures Leq(a, b) || Leq(b, a)
    ensures Leq(a, b) && Leq(b, a) ==> a == b
  {
    if a != [] && b != [] && a[0] == b[0] {
      LeqTotal(a[1..], b[1..]);
      assert a == [a[0]] + a[1..] && b == [b[0]] + b[1..];
    }
  }

  lemma {:induction false} LeqTransitive(a: string, b: string, c: string)
    requires Leq(a, b) && Leq(b, c)
    ensures Leq(a, c)
  {
    if a != [] && a[0] == b[0] == c[0] {
      LeqTransitive(a[1..], b[1..], c[1..]);
    }
  }

  predicate Ascending(s: seq<string>) {
    forall i, j :: 0 <= i < j < |s| ==> Leq(s[i], s[j]) && s[i] != s[j]
  }

  predicate IsLeast(m: string, s: set<string>) {
    m in s && forall x :: x in s ==> Leq(m, x)
  }

  lemma {:induction false} LeastExists(s: set<string>)
    requires s != {}
    ensures exists m :: IsLeast(m, s)
    decreases |s|
  {
    var x :| x in s;
    LeqTotal(x, x);
    if s == {x} {
      assert IsLeast(x, s);
    } else {
      var rest := s - {x};
      LeastExists(rest);
      var m :| IsLeast(m, rest);
      LeqTotal(m, x);
      if Leq(m, x) {
        assert IsLeast(m, s);
      } else {
        forall y | y in s ensures Leq(x, y) {
          if y != x { LeqTransitive(x, m, y); }
        }
        assert IsLeast(x, s);
      }
    }
  }

  lemma LeastUnique(s: set<string>)
    ensures forall a, b :: IsLeast(a, s) && IsLeast(b, s) ==> a == b
  {
    forall a, b | IsLeast(a, s) && IsLeast(b, s) ensures a == b {
      LeqTotal(a, b);
    }
  }

  /** `sorted(s)` for a set of strings. */
  function Sorted(s: set<string>): (r: seq<string>)
    ensures forall x :: x in r <==> x in s
    ensures |r| == |s|
    ensures Ascending(r)
    decreases |s|
  {
    if s == {} then []
    else
      LeastExists(s);
      LeastUnique(s);
      var m :| IsLeast(m, s);
      [m] + Sorted(s - {m})
  }

  lemma HasMember(s: seq<string>)
    ensures s != [] ==> exists x :: x in s
  {
    if s != [] { assert s[0] in s; }
  }

  /** There is only one ascending listing of a set. */
  lemma {:induction false} AscendingUnique(a: seq<string>, b: seq<string>)
    requires Ascending(a) && Ascending(b) && forall x :: x in a <==> x in b
    ensures a == b
  {
    if a == [] {
      HasMember(b);
    } else {
      assert a[0] in a;
      var j :| 0 <= j < |b| && b[j] == a[0];
      assert b[0] in b;
      var i :| 0 <= i < |a| && a[i] == b[0];
      LeqTotal(a[0], b[0]);
      assert i == 0 && j == 0;
      forall x ensures x in a[1..] <==> x in b[1..] {
        assert x in a[1..] <==> x in a && x != a[0];
        assert x in b[1..] <==> x in b && x != b[0];
      }
      AscendingUnique(a[1..], b[1..]);
      assert a == [a[0]] + a[1..] && b == [b[0]] + b[1..];
    }
  }

  // ---- splitting and joining ----------------------------------------------

  function Split(s: string, c: char): (parts: seq<string>)
    ensures |parts| > 0
  {
    if s == [] then [""]
    else
      var rest := Split(s[1..], c);
      if s[0] == c then [""] + rest else [[s[0]] + rest[0]] + rest[1..]
  }

  function Join(parts: seq<string>, c: char): string {
    if parts == [] then []
    else if |parts| == 1 then parts[0]
    else parts[0] + [c] + Join(parts[1..], c)
  }

  lemma {:induction false} SplitPrefix(p: string, s: string, c: char)
    requires c !in p
    ensures Split(p + [c] + s, c) == [p] + Split(s, c)
  {
    if p == [] {
      assert (p + [c] + s)[1..] == s;
    } else {
      assert (p + [c] + s)[1..] == p[1..] + [c] + s;
      SplitPrefix(p[1..], s, c);
      assert [p[0]] + p[1..] == p;
    }
  }

  lemma {:induction false} SplitWhole(p: string, c: char)
    requires c !in p
    ensures Split(p, c) == [p]
  {
    if p != [] {
      SplitWhole(p[1..], c);
      assert [p[0]] + p[1..] == p;
    }
  }

  lemma {:induction false} SplitJoin(parts: seq<string>, c: char)
    requires parts != [] && forall p :: p in parts ==> c !in p
    ensures Split(Join(parts, c), c) == parts
  {
    if |parts| == 1 {
      SplitWhole(parts[0], c);
    } else {
      SplitJoin(parts[1..], c);
      SplitPrefix(parts[0], Join(parts[1..], c), c);
      assert [parts[0]] + parts[1..] == parts;
    }
  }

  lemma {:induction false} JoinSnoc(init: seq<string>, last: string, c: char)
    ensures Join(init + [last], c) == (if init == [] then last else Join(init, c) + [c] + last)
  {
    if |init| == 1 {
      assert (init + [last])[1..] == [last];
    } else if init != [] {
      assert (init + [last])[1..] == init[1..] + [last];
      JoinSnoc(init[1..], last, c);
    }
  }

  function DropEmpty(tokens: seq<string>): seq<string> {
    if tokens == [] then []
    else (if tokens[0] == "" then [] else [tokens[0]]) + DropEmpty(tokens[1..])
  }
}
