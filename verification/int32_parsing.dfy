/**
  `int.TryParse(string, out int)` as the battery query uses it: the default
  integer number style (leading white space, an optional leading sign,
  decimal digits, trailing white space) with the invariant culture's signs
  `+` and `-`, and the 32-bit signed range. As on the platform, trailing NUL
  characters after the number are tolerated.

  Also the decimal rendering of a non-negative integer (`int.ToString()`),
  which the tooltip text uses, and the round trip between the two.
 */
module Int32Parsing {
  import opened Options
  import opened Strings

  const MinInt32: int := -0x8000_0000
  const MaxInt32: int := 0x7FFF_FFFF

  predicate InInt32(v: int) {
    MinInt32 <= v <= MaxInt32
  }

  /** White space as the number parser understands it: tab, line feed,
      vertical tab, form feed, carriage return and space. */
  predicate IsNumberWhite(c: char) {
    ('\t' <= c <= '\r') || c == ' '
  }

  predicate IsDigit(c: char) {
    '0' <= c <= '9'
  }

  predicate IsNul(c: char) {
    c == '\0'
  }

  function DigitValue(c: char): (d: nat)
    requires IsDigit(c)
    ensures d < 10
  {
    (c as int) - ('0' as int)
  }

  function DigitChar(d: nat): (c: char)
    requires d < 10
    ensures IsDigit(c) && DigitValue(c) == d
  {
    ('0' as int + d) as char
  }

  /** The value of a string of decimal digits, most significant first. */
  function DigitsValue(ds: string): nat
    requires All(ds, IsDigit)
  {
    if |ds| == 0 then 0
    else DigitsValue(ds[..|ds| - 1]) * 10 + DigitValue(ds[|ds| - 1])
  }

  /** `n.ToString()` for a non-negative `n`: the shortest decimal digit
      string, no sign and no leading zero, whose value is `n`. */
  function Decimal(n: nat): (ds: string)
    ensures |ds| > 0 && All(ds, IsDigit)
    ensures DigitsValue(ds) == n
    ensures |ds| > 1 ==> ds[0] != '0'
  {
    if n < 10 then [DigitChar(n)]
    else
      var ds := Decimal(n / 10) + [DigitChar(n % 10)];
      assert ds[..|ds| - 1] == Decimal(n / 10);
      ds
  }

  /** A digit string with a non-zero first digit has a positive value. */
  lemma {:induction false} LeadingDigitPositive(ds: string)
    requires |ds| > 0 && All(ds, IsDigit) && ds[0] != '0'
    ensures DigitsValue(ds) >= 1
    decreases |ds|
  {
    if |ds| > 1 {
      var p := ds[..|ds| - 1];
      assert p[0] == ds[0];
      LeadingDigitPositive(p);
    }
  }

  /** The rendering is the only digit string without a leading zero that has
      its value: any such string is `Decimal` of its value. */
  lemma {:induction false} DecimalUnique(ds: string)
    requires |ds| > 0 && All(ds, IsDigit)
    requires |ds| > 1 ==> ds[0] != '0'
    ensures ds == Decimal(DigitsValue(ds))
    decreases |ds|
  {
    var last := ds[|ds| - 1];
    assert DigitChar(DigitValue(last)) == last;
    if |ds| > 1 {
      var p := ds[..|ds| - 1];
      assert p[0] == ds[0];
      LeadingDigitPositive(p);
      DecimalUnique(p);
      var n := DigitsValue(ds);
      assert n / 10 == DigitsValue(p) && n % 10 == DigitValue(last);
      assert ds == p + [last];
    }
  }

  /** The rendering of a two-digit number. */
  lemma DecimalTwoDigits(n: nat)
    requires 10 <= n < 100
    ensures Decimal(n) == [DigitChar(n / 10), DigitChar(n % 10)]
  {
  }

  datatype Sign = NoSign | Plus | Minus

  function SignText(s: Sign): string {
    match s
    case NoSign => ""
    case Plus => "+"
    case Minus => "-"
  }

  /** A numeric literal split into the parts the integer number style
      allows, in order. */
  datatype Literal = Literal(lead: string, sign: Sign, digits: string, trail: string, nuls: string)

  predicate WellFormed(l: Literal) {
    && All(l.lead, IsNumberWhite)
    && |l.digits| > 0
    && All(l.digits, IsDigit)
    && All(l.trail, IsNumberWhite)
    && All(l.nuls, IsNul)
  }

  function Text(l: Literal): string {
    l.lead + SignText(l.sign) + l.digits + l.trail + l.nuls
  }

  function Value(l: Literal): int
    requires All(l.digits, IsDigit)
  {
    if l.sign == Minus then -(DigitsValue(l.digits) as int) else DigitsValue(l.digits)
  }

  /** Splits `s` after its longest prefix whose characters satisfy `p`. */
  function SplitSpan(s: string, p: char -> bool): (parts: (string, string))
    ensures parts.0 + parts.1 == s
    ensures All(parts.0, p)
    ensures |parts.1| == 0 || !p(parts.1[0])
  {
    var n := Span(s, p);
    assert s == s[..n] + s[n..];
    (s[..n], s[n..])
  }

  /** A prefix that satisfies `p` followed by something that does not start
      with such a character is split back into the same two pieces. */
  lemma SplitSpanOfConcat(x: string, y: string, p: char -> bool)
    requires All(x, p)
    requires |y| == 0 || !p(y[0])
    ensures SplitSpan(x + y, p) == (x, y)
  {
    SpanOfConcat(x, y, p);
    assert (x + y)[..|x|] == x;
    assert (x + y)[|x|..] == y;
  }

  /** Splits off the sign, if any, that `rest` starts with. */
  function SplitSign(rest: string): (parts: (Sign, string))
    ensures SignText(parts.0) + parts.1 == rest
  {
    if |rest| > 0 && rest[0] == '+' then (Plus, rest[1..])
    else if |rest| > 0 && rest[0] == '-' then (Minus, rest[1..])
    else (NoSign, rest)
  }

  /** Reads `t` left to right the way the number parser does: white space,
      a sign, the digits, white space, and whatever is left over as `nuls`.
      The pieces always put `t` back together. */
  function Scan(t: string): (l: Literal)
    ensures Text(l) == t
    ensures All(l.lead, IsNumberWhite) && All(l.digits, IsDigit) && All(l.trail, IsNumberWhite)
  {
    var (lead, rest) := SplitSpan(t, IsNumberWhite);
    var (sign, body) := SplitSign(rest);
    var (digits, tail) := SplitSpan(body, IsDigit);
    var (trail, nuls) := SplitSpan(tail, IsNumberWhite);
    var l := Literal(lead, sign, digits, trail, nuls);
    TextNested(l);
    l
  }

  /** A literal's text, associated to the right. */
  lemma TextNested(l: Literal)
    ensures Text(l) == l.lead + (SignText(l.sign) + (l.digits + (l.trail + l.nuls)))
  {
    var s := SignText(l.sign);
    Associate(l.lead, s, l.digits);
    Associate(l.lead + s + l.digits, l.trail, l.nuls);
    Associate(l.lead + s, l.digits, l.trail + l.nuls);
    Associate(l.lead, s, l.digits + (l.trail + l.nuls));
  }

  lemma Associate(x: string, y: string, z: string)
    ensures (x + y) + z == x + (y + z)
  {
  }

  /** `int.TryParse` with the integer number style: `None` on a format error
      or when the value does not fit in 32 bits. */
  function TryParseInt32(t: string): (r: Option<int>)
    ensures r.Some? ==> InInt32(r.value)
    ensures r.Some? ==> exists l :: WellFormed(l) && Text(l) == t && Value(l) == r.value
  {
    var l := Scan(t);
    if |l.digits| == 0 || !All(l.nuls, IsNul) then None
    else if InInt32(Value(l)) then Some(Value(l))
    else None
  }

  /** Every well-formed literal is read back into exactly its own parts. */
  lemma {:induction false} ScanWellFormed(l: Literal)
    requires WellFormed(l)
    ensures Scan(Text(l)) == l
  {
    var tail := l.trail + l.nuls;
    var body := l.digits + tail;
    var rest := SignText(l.sign) + body;
    TextNested(l);
    assert IsDigit(l.digits[0]) && body[0] == l.digits[0];
    // the leading white space stops at the sign or the first digit, and the
    // sign is recognised
    if l.sign == NoSign {
      assert rest == body;
    } else {
      assert rest[0] == SignText(l.sign)[0];
      assert rest[1..] == body;
    }
    assert SplitSign(rest) == (l.sign, body);
    SplitSpanOfConcat(l.lead, rest, IsNumberWhite);
    // the digits stop at trailing white space, a NUL, or the end
    assert |tail| == 0 || !IsDigit(tail[0]) by {
      if |l.trail| > 0 {
        assert tail[0] == l.trail[0];
      } else if |l.nuls| > 0 {
        assert tail[0] == l.nuls[0];
      }
    }
    SplitSpanOfConcat(l.digits, tail, IsDigit);
    // trailing white space stops at a NUL or the end
    assert |l.nuls| == 0 || !IsNumberWhite(l.nuls[0]);
    SplitSpanOfConcat(l.trail, l.nuls, IsNumberWhite);
  }

  /** A string parses to `v` exactly when it is a well-formed literal of
      value `v` and `v` fits in 32 bits. */
  lemma {:induction false} TryParseInt32Literal(l: Literal)
    requires WellFormed(l)
    ensures TryParseInt32(Text(l)) == if InInt32(Value(l)) then Some(Value(l)) else None
  {
    ScanWellFormed(l);
  }

  /** A bare string of digits parses to its value when that fits in 32
      bits, and fails otherwise. */
  lemma {:induction false} DigitsParse(ds: string)
    requires |ds| > 0 && All(ds, IsDigit)
    ensures TryParseInt32(ds) == if DigitsValue(ds) <= MaxInt32 then Some(DigitsValue(ds) as int) else None
  {
    var l := Literal("", NoSign, ds, "", "");
    SignedDecimalText(l);
    assert "" + ds == ds;
    TryParseInt32Literal(l);
  }

  /** Digits followed by number white space parse like the digits alone. */
  lemma DigitsThenWhiteParse(ds: string, tw: string)
    requires |ds| > 0 && All(ds, IsDigit)
    requires All(tw, IsNumberWhite)
    ensures TryParseInt32(ds + tw) == if DigitsValue(ds) <= MaxInt32 then Some(DigitsValue(ds) as int) else None
  {
    var l := Literal("", NoSign, ds, tw, "");
    PlainText(ds, tw);
    TryParseInt32Literal(l);
  }

  lemma PlainText(ds: string, tw: string)
    ensures Text(Literal("", NoSign, ds, tw, "")) == ds + tw
  {
    assert "" + "" + ds == ds;
    assert ds + tw + "" == ds + tw;
  }

  /** The decimal rendering of any 32-bit value reads back as that value;
      negative values carry a leading `-`. */
  lemma {:induction false} DecimalRoundTrip(v: int)
    requires InInt32(v)
    ensures v >= 0 ==> TryParseInt32(Decimal(v)) == Some(v)
    ensures v < 0 ==> TryParseInt32("-" + Decimal(-v)) == Some(v)
  {
    var sign := if v >= 0 then NoSign else Minus;
    var m: nat := if v >= 0 then v else -v;
    var ds := Decimal(m);
    var l := Literal("", sign, ds, "", "");
    assert Value(l) == v;
    SignedDecimalText(l);
    TryParseInt32Literal(l);
  }

  lemma SignedDecimalText(l: Literal)
    requires l.lead == [] && l.trail == [] && l.nuls == []
    ensures Text(l) == SignText(l.sign) + l.digits
  {
    TextNested(l);
  }
}
