/**
  Character classes and the two string operations the battery query applies to
  the captured output of its child process: `String.Trim()` and
  `String.Split(separators, RemoveEmptyEntries)`.

  Strings are sequences of Unicode scalar values. The platform's strings are
  UTF-16, but every character involved here lies in the Basic Multilingual
  Plane, so the two views agree on everything these operations decide.
 */
module Strings {

  /** `char.IsWhiteSpace`: the Latin-1 white space characters plus the
      Unicode space, line and paragraph separators. This is the set `Trim()`
      removes from both ends. */
  predicate IsWhiteSpace(c: char) {
    || ('\t' <= c <= '\r')
    || c == ' '
    || c == '\U{0085}'
    || c == '\U{00A0}'
    || c == '\U{1680}'
    || ('\U{2000}' <= c <= '\U{200A}')
    || c == '\U{2028}'
    || c == '\U{2029}'
    || c == '\U{202F}'
    || c == '\U{205F}'
    || c == '\U{3000}'
  }

  /** The separators the battery query splits on: space, carriage return and
      line feed, and nothing else (a tab does not separate tokens). */
  predicate IsSeparator(c: char) {
    c == ' ' || c == '\r' || c == '\n'
  }

  predicate IsTokenChar(c: char) {
    !IsSeparator(c)
  }

  predicate All(s: string, p: char -> bool) {
    forall i :: 0 <= i < |s| ==> p(s[i])
  }

  /** Length of the longest prefix of `s` whose characters all satisfy `p`. */
  function Span(s: string, p: char -> bool): (n: nat)
    ensures n <= |s|
    ensures forall i :: 0 <= i < n ==> p(s[i])
    ensures n < |s| ==> !p(s[n])
  {
    if |s| > 0 && p(s[0]) then 1 + Span(s[1..], p) else 0
  }

  /** Length of the longest suffix of `s` whose characters all satisfy `p`. */
  function SpanEnd(s: string, p: char -> bool): (n: nat)
    ensures n <= |s|
    ensures forall i :: |s| - n <= i < |s| ==> p(s[i])
    ensures n < |s| ==> !p(s[|s| - n - 1])
  {
    if |s| > 0 && p(s[|s| - 1]) then 1 + SpanEnd(s[..|s| - 1], p) else 0
  }

  /** A prefix that satisfies `p`, followed by a character that does not,
      is exactly the span. */
  lemma {:induction false} SpanOfConcat(x: string, y: string, p: char -> bool)
    requires All(x, p)
    requires |y| == 0 || !p(y[0])
    ensures Span(x + y, p) == |x|
  {
    if |x| > 0 {
      assert (x + y)[1..] == x[1..] + y;
      SpanOfConcat(x[1..], y, p);
    }
  }

  /** `String.Trim()`: drop leading and trailing white space. The result is
      the slice of `s` that starts at the first non-white character and ends
      at the last one; it is empty exactly when `s` is all white space. */
  function Trim(s: string): (r: string)
    ensures var a := Span(s, IsWhiteSpace);
      && a + |r| <= |s|
      && r == s[a..a + |r|]
      && forall k :: a + |r| <= k < |s| ==> IsWhiteSpace(s[k])
    ensures |r| == 0 <==> All(s, IsWhiteSpace)
    ensures |r| > 0 ==> !IsWhiteSpace(r[0]) && !IsWhiteSpace(r[|r| - 1])
  {
    var a := Span(s, IsWhiteSpace);
    var rest := s[a..];
    var b := SpanEnd(rest, IsWhiteSpace);
    rest[..|rest| - b]
  }

  /** Concatenation of a sequence of strings. */
  function Concat(ss: seq<string>): string {
    if |ss| == 0 then [] else ss[0] + Concat(ss[1..])
  }

  /** The characters of `s` that are not separators, in order. */
  function Unseparated(s: string): (r: string)
    ensures |r| <= |s|
  {
    if |s| == 0 then []
    else if IsSeparator(s[0]) then Unseparated(s[1..])
    else [s[0]] + Unseparated(s[1..])
  }

  lemma {:induction false} UnseparatedOfConcat(x: string, y: string)
    requires All(x, IsTokenChar)
    ensures Unseparated(x + y) == x + Unseparated(y)
  {
    if |x| > 0 {
      assert (x + y)[0] == x[0] && IsTokenChar(x[0]);
      assert (x + y)[1..] == x[1..] + y;
      assert All(x[1..], IsTokenChar) by {
        forall i | 0 <= i < |x[1..]| ensures IsTokenChar(x[1..][i]) {
          assert x[1..][i] == x[i + 1];
        }
      }
      UnseparatedOfConcat(x[1..], y);
      calc {
        Unseparated(x + y);
        [x[0]] + Unseparated(x[1..] + y);
        [x[0]] + (x[1..] + Unseparated(y));
        { assert x == [x[0]] + x[1..]; }
        x + Unseparated(y);
      }
    } else {
      assert x + y == y;
    }
  }

  /** `String.Split({' ', '\r', '\n'}, RemoveEmptyEntries)`: the maximal runs
      of non-separator characters, in order. Every token is non-empty and free
      of separators, the tokens put back together are `s` without its
      separators, and when `s` starts with a token character the first token
      is the longest such prefix. */
  function Split(s: string): (tokens: seq<string>)
    ensures forall t :: t in tokens ==> |t| > 0 && All(t, IsTokenChar)
    ensures Concat(tokens) == Unseparated(s)
    ensures |s| > 0 && IsTokenChar(s[0]) ==>
      |tokens| > 0 && tokens[0] == s[..Span(s, IsTokenChar)]
    decreases |s|
  {
    if |s| == 0 then []
    else if IsSeparator(s[0]) then Split(s[1..])
    else
      var n := Span(s, IsTokenChar);
      var rest := Split(s[n..]);
      assert s == s[..n] + s[n..];
      UnseparatedOfConcat(s[..n], s[n..]);
      [s[..n]] + rest
  }
}
