/** The string operations the parsers rely on, on sequences of characters. */
module Text {
  import opened Wrappers

  predicate IsDigit(c: char) {
    '0' <= c <= '9'
  }

  /** A character of the regular-expression class \s. */
  predicate IsBlank(c: char) {
    c == ' ' || c == '\t' || c == '\n' || c == '\r' || c == '\U{000C}'
  }

  predicate NotBlank(c: char) {
    !IsBlank(c)
  }

  /** White space as Unicode defines it. */
  predicate IsSpace(c: char) {
    || '\t' <= c <= '\r' || c == ' ' || c == '\U{0085}' || c == '\U{00A0}' || c == '\U{1680}'
    || '\U{2000}' <= c <= '\U{200A}' || c == '\U{2028}' || c == '\U{2029}' || c == '\U{202F}'
    || c == '\U{205F}' || c == '\U{3000}'
  }

  /** The characters cut off the end of a line. */
  predicate IsLineTail(c: char) {
    c == ' ' || c == '\r'
  }

  ghost predicate All(s: string, f: char -> bool) {
    forall i :: 0 <= i < |s| ==> f(s[i])
  }

  /** Length of the longest prefix of characters satisfying `f`. */
  function Span(s: string, f: char -> bool): (n: nat)
    ensures n <= |s|
  {
    if s == "" || !f(s[0]) then 0 else 1 + Span(s[1..], f)
  }

  lemma {:induction false} SpanStops(a: string, b: string, f: char -> bool)
    requires All(a, f) && (b == "" || !f(b[0]))
    ensures Span(a + b, f) == |a|
    decreases |a|
  {
    if a == "" {
      assert a + b == b;
    } else {
      assert (a + b)[1..] == a[1..] + b;
      SpanStops(a[1..], b, f);
    }
  }

  lemma {:induction false} SpanIsLongest(s: string, f: char -> bool)
    ensures All(s[..Span(s, f)], f)
    ensures Span(s, f) < |s| ==> !f(s[Span(s, f)])
  {
    if s != "" && f(s[0]) {
      SpanIsLongest(s[1..], f);
      forall i | 0 <= i < Span(s, f) ensures f(s[i]) {
        if i > 0 {
          assert s[i] == s[1..][..Span(s[1..], f)][i - 1];
        }
      }
    }
  }

  /** Cuts trailing characters satisfying `f`. */
  function CutRight(s: string, f: char -> bool): string {
    if s == "" || !f(s[|s| - 1]) then s else CutRight(s[..|s| - 1], f)
  }

  function TrimSpace(s: string): string {
    CutRight(s[Span(s, IsSpace)..], IsSpace)
  }

  lemma {:induction false} CutRightTail(a: string, tail: string, f: char -> bool)
    requires All(tail, f) && (a == "" || !f(a[|a| - 1]))
    ensures CutRight(a + tail, f) == a
    decreases |tail|
  {
    if tail == "" {
      assert a + tail == a;
    } else {
      assert (a + tail)[..|a + tail| - 1] == a + tail[..|tail| - 1];
      CutRightTail(a, tail[..|tail| - 1], f);
    }
  }

  /** A string that neither begins nor ends with white space. */
  ghost predicate Tight(s: string) {
    s != "" && !IsSpace(s[0]) && !IsSpace(s[|s| - 1])
  }

  lemma TrimPadded(pad: string, s: string)
    requires All(pad, IsSpace) && Tight(s)
    ensures TrimSpace(pad + s) == s
  {
    SpanStops(pad, s, IsSpace);
    assert (pad + s)[|pad|..] == s;
  }

  /** The pieces between the separators; there is always at least one. */
  function Split(s: string, sep: char): (pieces: seq<string>)
    ensures |pieces| >= 1
  {
    if s == "" then [""]
    else
      var rest := Split(s[1..], sep);
      if s[0] == sep then [""] + rest else [[s[0]] + rest[0]] + rest[1..]
  }

  lemma {:induction false} SplitOne(s: string, sep: char)
    requires sep !in s
    ensures Split(s, sep) == [s]
  {
    if s == "" {
    } else {
      SplitOne(s[1..], sep);
      assert [s[0]] + s[1..] == s;
    }
  }

  lemma {:induction false} SplitFirst(p: string, rest: string, sep: char)
    requires sep !in p
    ensures Split(p + [sep] + rest, sep) == [p] + Split(rest, sep)
    decreases |p|
  {
    var s := p + [sep] + rest;
    if p == "" {
      assert s[1..] == rest;
    } else {
      SplitFirst(p[1..], rest, sep);
      assert s[1..] == p[1..] + [sep] + rest;
      assert [p[0]] + p[1..] == p;
    }
  }

  function Join(pieces: seq<string>, sep: char): string
    requires pieces != []
  {
    if |pieces| == 1 then pieces[0] else pieces[0] + [sep] + Join(pieces[1..], sep)
  }

  /** Splitting undoes joining. */
  lemma {:induction false} SplitJoin(pieces: seq<string>, sep: char)
    requires pieces != [] && forall i :: 0 <= i < |pieces| ==> sep !in pieces[i]
    ensures Split(Join(pieces, sep), sep) == pieces
    decreases |pieces|
  {
    if |pieces| == 1 {
      SplitOne(pieces[0], sep);
    } else {
      SplitFirst(pieces[0], Join(pieces[1..], sep), sep);
      SplitJoin(pieces[1..], sep);
    }
  }

  function Spaces(n: nat): (s: string)
    ensures |s| == n && forall i :: 0 <= i < n ==> s[i] == ' '
  {
    seq(n, _ => ' ')
  }

  // ---------------------------------------------------------------------------
  // Decimal numbers
  // ---------------------------------------------------------------------------

  function DigitValue(c: char): (v: nat)
    requires IsDigit(c)
    ensures v < 10
  {
    c as int - '0' as int
  }

  function DigitChar(v: nat): (c: char)
    requires v < 10
    ensures IsDigit(c) && DigitValue(c) == v
  {
    (v + '0' as int) as char
  }

  function Digits(n: nat): (s: string)
    ensures s != "" && forall i :: 0 <= i < |s| ==> IsDigit(s[i])
  {
    if n < 10 then [DigitChar(n)] else Digits(n / 10) + [DigitChar(n % 10)]
  }

  function NumberOf(s: string): nat
    requires All(s, IsDigit)
  {
    if s == "" then 0 else 10 * NumberOf(s[..|s| - 1]) + DigitValue(s[|s| - 1])
  }

  lemma {:induction false} NumberOfDigits(n: nat)
    ensures NumberOf(Digits(n)) == n
  {
    if n >= 10 {
      NumberOfDigits(n / 10);
      assert Digits(n)[..|Digits(n)| - 1] == Digits(n / 10);
    } else {
      assert Digits(n)[..0] == "";
    }
  }

  const MAX_INT: nat := 0x7FFF_FFFF_FFFF_FFFF

  /** strconv.Atoi on a digit string: 64-bit overflow is an error. */
  function Atoi(s: string): Option<nat>
    requires All(s, IsDigit)
  {
    if NumberOf(s) <= MAX_INT then Some(NumberOf(s)) else None
  }

  // ---------------------------------------------------------------------------
  // Looking for "Et"
  // ---------------------------------------------------------------------------

  predicate HasEt(s: string) {
    exists i :: 0 <= i < |s| - 1 && s[i] == 'E' && s[i + 1] == 't'
  }

  lemma HasEtIn(before: string, s: string, after: string)
    requires HasEt(s)
    ensures HasEt(before + s + after)
  {
    var i :| 0 <= i < |s| - 1 && s[i] == 'E' && s[i + 1] == 't';
    var all := before + s + after;
    assert all[|before| + i] == 'E' && all[|before| + i + 1] == 't';
  }

  /** No "Et" arises across a space. */
  lemma NoEtAcross(a: string, b: string)
    requires !HasEt(a) && !HasEt(b)
    requires a == "" || b == "" || a[|a| - 1] != 'E' || b[0] != 't'
    ensures !HasEt(a + b)
  {
    var s := a + b;
    forall i | 0 <= i < |s| - 1 ensures !(s[i] == 'E' && s[i + 1] == 't') {
      if i + 1 < |a| {
        assert s[i] == a[i] && s[i + 1] == a[i + 1];
      } else if i >= |a| {
        assert s[i] == b[i - |a|] && s[i + 1] == b[i - |a| + 1];
      }
    }
  }
}
