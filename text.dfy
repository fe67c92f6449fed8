/**
 * String operations the invitation page relies on: JavaScript's rendering of
 * an integer as decimal text (template-literal interpolation `${n}`),
 * `String.prototype.padStart` with a one-character filler, joining lines with
 * a line feed and splitting on it, and `String.prototype.trim`.
 */
module Text {

  predicate IsDigit(c: char) {
    '0' <= c <= '9'
  }

  predicate AllDigits(s: string) {
    forall i :: 0 <= i < |s| ==> IsDigit(s[i])
  }

  function DigitChar(d: nat): (c: char)
    requires d < 10
    ensures IsDigit(c)
  {
    (48 + d) as char
  }

  function DigitValue(c: char): (d: nat)
    requires IsDigit(c)
    ensures d < 10 && DigitChar(d) == c
  {
    c as int - 48
  }

  /** The value of a string of decimal digits, leading zeros allowed ("07" is 7). */
  function DigitsValue(s: string): nat
    requires AllDigits(s)
  {
    if s == [] then 0 else DigitsValue(s[..|s| - 1]) * 10 + DigitValue(s[|s| - 1])
  }

  /**
   * JavaScript's decimal rendering of a non-negative integer: no sign, no
   * leading zero except for zero itself.
   */
  function NatString(n: nat): (s: string)
    ensures |s| >= 1 && AllDigits(s)
    ensures |s| > 1 ==> s[0] != '0'
  {
    if n < 10 then [DigitChar(n)] else NatString(n / 10) + [DigitChar(n % 10)]
  }

  /** JavaScript's decimal rendering of any integer: a minus sign for negatives. */
  function JsString(n: int): string {
    if n < 0 then "-" + NatString(-n) else NatString(n)
  }

  function Pow10(k: nat): nat {
    if k == 0 then 1 else 10 * Pow10(k - 1)
  }

  /** Reading back the digits of `NatString(n)` gives n: the rendering loses nothing. */
  lemma {:induction false} DigitsValueOfNatString(n: nat)
    ensures DigitsValue(NatString(n)) == n
  {
    if n >= 10 {
      var s := NatString(n);
      assert s[..|s| - 1] == NatString(n / 10);
      DigitsValueOfNatString(n / 10);
    }
  }

  /** A number from 10^k up to 10^(k+1) - 1 is rendered with exactly k + 1 digits. */
  lemma {:induction false} NatStringLength(n: nat, k: nat)
    requires Pow10(k) <= n < Pow10(k + 1)
    ensures |NatString(n)| == k + 1
  {
    if k > 0 {
      NatStringLength(n / 10, k - 1);
    }
  }

  function Repeat(c: char, n: nat): (r: string)
    ensures |r| == n && forall i :: 0 <= i < n ==> r[i] == c
  {
    if n == 0 then [] else [c] + Repeat(c, n - 1)
  }

  /**
   * `s.padStart(width, [fill])`: a string of at least `width` characters that
   * ends with `s` and is filled on the left with `fill`.
   */
  function PadStart(s: string, width: nat, fill: char): (r: string)
    ensures |r| == if |s| >= width then |s| else width
    ensures r[|r| - |s|..] == s
    ensures forall i :: 0 <= i < |r| - |s| ==> r[i] == fill
  {
    if |s| >= width then s else Repeat(fill, width - |s|) + s
  }

  /** The page's `pad`: `${value}`.padStart(2, "0"). */
  function Pad(v: int): string {
    PadStart(JsString(v), 2, '0')
  }

  /**
   * A single digit gets one leading zero; from 10 on the plain decimal is
   * kept; within 0..99 the result is two digits that read back as `v`.
   */
  lemma PadShape(v: int)
    ensures 0 <= v < 10 ==> Pad(v) == ['0', DigitChar(v)]
    ensures v >= 10 ==> Pad(v) == NatString(v)
    ensures 0 <= v < 100 ==> |Pad(v)| == 2 && AllDigits(Pad(v)) && DigitsValue(Pad(v)) == v
  {
    if 0 <= v < 10 {
      assert Pad(v) == ['0'] + NatString(v);
      assert Pad(v)[..1] == "0";
    } else if 10 <= v < 100 {
      NatStringLength(v, 1);
      DigitsValueOfNatString(v);
    }
  }

  /** Within 0..99 the padded value has two characters. */
  lemma PadLength(v: int)
    requires 0 <= v < 100
    ensures |Pad(v)| == 2
  {
    PadShape(v);
  }

  /** `s` is two decimal digits that read as `v`. */
  predicate TwoDigits(s: string, v: int) {
    |s| == 2 && AllDigits(s) && DigitsValue(s) == v
  }

  /** Within 0..99 the padded value is two digits that read back as `v`. */
  lemma PadDigits(v: int)
    requires 0 <= v < 100
    ensures TwoDigits(Pad(v), v)
  {
    PadShape(v);
  }

  /** Every character `JsString` produces is a digit or the minus sign. */
  lemma JsStringChars(n: int)
    ensures forall i :: 0 <= i < |JsString(n)| ==> IsDigit(JsString(n)[i]) || JsString(n)[i] == '-'
  {
  }

  /** Every character `Pad` produces is a digit or the minus sign. */
  lemma PadChars(v: int)
    ensures forall i :: 0 <= i < |Pad(v)| ==> IsDigit(Pad(v)[i]) || Pad(v)[i] == '-'
  {
    JsStringChars(v);
    var s := JsString(v);
    forall i | 0 <= i < |Pad(v)|
      ensures IsDigit(Pad(v)[i]) || Pad(v)[i] == '-'
    {
      if i >= |Pad(v)| - |s| {
        assert Pad(v)[i] == Pad(v)[|Pad(v)| - |s|..][i - (|Pad(v)| - |s|)];
      }
    }
  }

  // ---------------------------------------------------------------------------
  // Lines joined with "\n" and split on it (JavaScript's `s.split("\n")`).

  /** Lines joined with a line feed between consecutive ones, none at either end. */
  function JoinLines(lines: seq<string>): string {
    if |lines| == 0 then ""
    else if |lines| == 1 then lines[0]
    else lines[0] + "\n" + JoinLines(lines[1..])
  }

  /** The index of the first `c` in `s`, or `|s|` when there is none. */
  function IndexOf(s: string, c: char): (i: nat)
    ensures i <= |s|
    ensures i < |s| ==> s[i] == c
    ensures forall j :: 0 <= j < i ==> s[j] != c
  {
    if s == [] then 0
    else if s[0] == c then 0
    else 1 + IndexOf(s[1..], c)
  }

  /** `s.split("\n")`: the pieces between line feeds; always at least one. */
  function SplitLines(s: string): (r: seq<string>)
    ensures |r| >= 1
    decreases |s|
  {
    var i := IndexOf(s, '\n');
    if i == |s| then [s] else [s[..i]] + SplitLines(s[i + 1..])
  }

  predicate NoLineFeed(s: string) {
    forall i :: 0 <= i < |s| ==> s[i] != '\n'
  }

  lemma IndexOfAfterLine(line: string, rest: string)
    requires NoLineFeed(line)
    ensures IndexOf(line + "\n" + rest, '\n') == |line|
  {
    var s := line + "\n" + rest;
    assert s[|line|] == '\n';
    assert forall j :: 0 <= j < |line| ==> s[j] == line[j];
  }

  lemma IndexOfNone(s: string)
    requires NoLineFeed(s)
    ensures IndexOf(s, '\n') == |s|
  {
  }

  /** Splitting lines that hold no line feed after joining them gives them back. */
  lemma {:induction false} SplitJoinLines(lines: seq<string>)
    requires |lines| >= 1
    requires forall k :: 0 <= k < |lines| ==> NoLineFeed(lines[k])
    ensures SplitLines(JoinLines(lines)) == lines
  {
    if |lines| == 1 {
      IndexOfNone(lines[0]);
    } else {
      SplitJoinLines(lines[1..]);
      JoinInFront(lines[0], lines[1..]);
      assert [lines[0]] + lines[1..] == lines;
      SplitAfterLine(lines[0], JoinLines(lines[1..]));
    }
  }

  /** Splitting a line with a line feed after it splits off exactly that line. */
  lemma SplitAfterLine(line: string, rest: string)
    requires NoLineFeed(line)
    ensures SplitLines(line + "\n" + rest) == [line] + SplitLines(rest)
  {
    var s := line + "\n" + rest;
    IndexOfAfterLine(line, rest);
    assert s[..|line|] == line;
    assert s[|line| + 1..] == rest;
  }

  /** Joining the pieces of a split gives the original string back. */
  lemma {:induction false} JoinSplitLines(s: string)
    ensures JoinLines(SplitLines(s)) == s
    decreases |s|
  {
    var i := IndexOf(s, '\n');
    if i < |s| {
      JoinSplitLines(s[i + 1..]);
      JoinInFront(s[..i], SplitLines(s[i + 1..]));
      SplitAround(s, i);
    }
  }

  /** Joining a line in front of at least one more puts a line feed between them. */
  lemma JoinInFront(head: string, tail: seq<string>)
    requires |tail| >= 1
    ensures JoinLines([head] + tail) == head + "\n" + JoinLines(tail)
  {
    assert ([head] + tail)[1..] == tail;
  }

  lemma SplitAround(s: string, i: nat)
    requires i < |s| && s[i] == '\n'
    ensures s == s[..i] + "\n" + s[i + 1..]
  {
  }

  predicate IsPlainLine(s: string) {
    forall i :: 0 <= i < |s| ==> s[i] != '\n' && s[i] != '\r'
  }

  lemma PlainConcat(a: string, b: string)
    requires IsPlainLine(a) && IsPlainLine(b)
    ensures IsPlainLine(a + b)
  {
    assert forall i :: |a| <= i < |a + b| ==> (a + b)[i] == b[i - |a|];
  }

  predicate NoCarriageReturn(s: string) {
    forall i :: 0 <= i < |s| ==> s[i] != '\r'
  }

  /** Lines free of carriage returns join, with line feeds alone, into text free of them. */
  lemma {:induction false} JoinLinesNoCarriageReturn(lines: seq<string>)
    requires forall k :: 0 <= k < |lines| ==> IsPlainLine(lines[k])
    ensures NoCarriageReturn(JoinLines(lines))
  {
    if |lines| >= 2 {
      JoinLinesNoCarriageReturn(lines[1..]);
      var rest := JoinLines(lines[1..]);
      var s := lines[0] + "\n" + rest;
      assert forall i :: 0 <= i < |lines[0]| ==> s[i] == lines[0][i];
      assert forall i :: |lines[0]| + 1 <= i < |s| ==> s[i] == rest[i - |lines[0]| - 1];
    }
  }

  /** The joined text starts with the first line and ends with the last. */
  lemma {:induction false} JoinLinesEnds(lines: seq<string>)
    requires |lines| >= 1
    ensures |JoinLines(lines)| >= |lines[0]| && JoinLines(lines)[..|lines[0]|] == lines[0]
    ensures |JoinLines(lines)| >= |lines[|lines| - 1]|
    ensures JoinLines(lines)[|JoinLines(lines)| - |lines[|lines| - 1]|..] == lines[|lines| - 1]
  {
    if |lines| >= 2 {
      JoinLinesEnds(lines[1..]);
      var rest := JoinLines(lines[1..]);
      var s := lines[0] + "\n" + rest;
      assert s[..|lines[0]|] == lines[0];
      assert s[|s| - |rest|..] == rest;
    }
  }

  // ---------------------------------------------------------------------------
  // String.prototype.trim

  /**
   * The characters `trim` removes: ECMAScript's WhiteSpace (tab, vertical
   * tab, form feed, space, no-break space, the byte-order mark and the
   * Unicode space separators) and LineTerminator (LF, CR, U+2028, U+2029).
   */
  predicate IsJsWhitespace(c: char) {
    || c == '\t' || c == '\n' || c == '\U{B}' || c == '\U{C}' || c == '\r' || c == ' '
    || c == '\U{A0}' || c == '\U{1680}' || ('\U{2000}' <= c <= '\U{200A}')
    || c == '\U{2028}' || c == '\U{2029}' || c == '\U{202F}' || c == '\U{205F}'
    || c == '\U{3000}' || c == '\U{FEFF}'
  }

  predicate AllWhitespace(s: string) {
    forall i :: 0 <= i < |s| ==> IsJsWhitespace(s[i])
  }

  /** Drops leading whitespace: a suffix of `s` whose removed part is all whitespace. */
  function TrimStart(s: string): (r: string)
    ensures |r| <= |s| && r == s[|s| - |r|..]
    ensures AllWhitespace(s[..|s| - |r|])
    ensures r != [] ==> !IsJsWhitespace(r[0])
  {
    if s != [] && IsJsWhitespace(s[0]) then
      var t := s[1..];
      var r := TrimStart(t);
      assert s[|s| - |r|..] == t[|t| - |r|..];
      assert forall i :: 1 <= i < |s| - |r| ==> s[i] == t[..|t| - |r|][i - 1];
      r
    else s
  }

  /** Drops trailing whitespace: a prefix of `s` whose removed part is all whitespace. */
  function TrimEnd(s: string): (r: string)
    ensures |r| <= |s| && r == s[..|r|]
    ensures AllWhitespace(s[|r|..])
    ensures r != [] ==> !IsJsWhitespace(r[|r| - 1])
  {
    if s != [] && IsJsWhitespace(s[|s| - 1]) then TrimEnd(s[..|s| - 1]) else s
  }

  function Trim(s: string): string {
    TrimEnd(TrimStart(s))
  }

  /**
   * Trimming a body that neither starts nor ends with whitespace, framed by
   * whitespace on both sides, gives exactly the body.
   */
  lemma TrimFramed(pre: string, body: string, post: string)
    requires AllWhitespace(pre) && AllWhitespace(post)
    requires body != [] && !IsJsWhitespace(body[0]) && !IsJsWhitespace(body[|body| - 1])
    ensures Trim(pre + body + post) == body
  {
    var rest := body + post;
    assert rest[0] == body[0];
    assert pre + body + post == pre + rest;
    TrimStartFramed(pre, rest);
    TrimEndFramed(body, post);
  }

  /** Lines framed by one line feed on each side trim to the lines joined, when the joined text has no whitespace at its ends. */
  lemma TrimFramedLines(lines: seq<string>)
    requires |lines| >= 1 && lines[0] != [] && lines[|lines| - 1] != []
    requires !IsJsWhitespace(lines[0][0])
    requires !IsJsWhitespace(lines[|lines| - 1][|lines[|lines| - 1]| - 1])
    ensures Trim("\n" + JoinLines(lines) + "\n") == JoinLines(lines)
  {
    var body := JoinLines(lines);
    var last := lines[|lines| - 1];
    JoinLinesEnds(lines);
    assert body[0] == body[..|lines[0]|][0];
    assert body[|body| - 1] == body[|body| - |last|..][|last| - 1];
    assert AllWhitespace("\n");
    TrimFramed("\n", body, "\n");
  }

  /**
   * One-line lines framed by a line feed on each side: trimming gives the
   * lines joined by line feeds, splitting that gives the lines back, and no
   * carriage return appears.
   */
  lemma FramedPlainLines(lines: seq<string>)
    requires |lines| >= 1 && lines[0] != [] && lines[|lines| - 1] != []
    requires !IsJsWhitespace(lines[0][0])
    requires !IsJsWhitespace(lines[|lines| - 1][|lines[|lines| - 1]| - 1])
    requires forall k :: 0 <= k < |lines| ==> IsPlainLine(lines[k])
    ensures Trim("\n" + JoinLines(lines) + "\n") == JoinLines(lines)
    ensures SplitLines(JoinLines(lines)) == lines
    ensures NoCarriageReturn(JoinLines(lines))
  {
    TrimFramedLines(lines);
    assert forall k :: 0 <= k < |lines| ==> NoLineFeed(lines[k]);
    SplitJoinLines(lines);
    JoinLinesNoCarriageReturn(lines);
  }

  lemma TrimStartFramed(pre: string, rest: string)
    requires AllWhitespace(pre)
    requires rest != [] && !IsJsWhitespace(rest[0])
    ensures TrimStart(pre + rest) == rest
  {
    var s := pre + rest;
    var a := TrimStart(s);
    assert s[|pre|] == rest[0];
    assert |a| == |rest|;
    assert a == s[|pre|..] == rest;
  }

  lemma TrimEndFramed(body: string, post: string)
    requires AllWhitespace(post)
    requires body != [] && !IsJsWhitespace(body[|body| - 1])
    ensures TrimEnd(body + post) == body
  {
    var s := body + post;
    var b := TrimEnd(s);
    assert s[|body| - 1] == body[|body| - 1];
    assert |b| == |body|;
    assert b == s[..|body|] == body;
  }
}
