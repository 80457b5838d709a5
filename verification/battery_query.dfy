/**
  The tail of the battery query: turning what the device-query child process
  wrote to standard output into a battery reading, or the sentinel `-1` when
  there is none.

  The query script itself (device enumeration, the battery property, the
  first-match loop) runs in a child process and is not modelled; its output
  arrives here as an arbitrary string, and any exception raised while
  starting the process or reading its output arrives as `Threw`.
 */
module BatteryQuery {
  import opened Options
  import opened Strings
  import opened Int32Parsing

  /** The result of running the device query: the complete standard output
      of the child process, or an exception thrown on the way. */
  datatype Capture = Output(stdout: string) | Threw

  /** The reading that means "no device found or the query failed". */
  const NotFound: int := -1

  /** Trim the output, split it into tokens on spaces, carriage returns and
      line feeds, and parse the first token as a 32-bit integer; empty
      output and a first token that does not parse both give `NotFound`.
      A non-empty trimmed output always has a first token, so taking it
      never fails. */
  function ParseOutput(output: string): (level: int)
    ensures All(output, IsWhiteSpace) ==> level == NotFound
    ensures InInt32(level)
  {
    var trimmed := Trim(output);
    if |trimmed| == 0 then NotFound
    else
      var tokens := Split(trimmed);
      TryParseInt32(tokens[0]).ValueOr(NotFound)
  }

  /** The whole query as its caller sees it: every failure collapses into
      `NotFound`. */
  function Query(capture: Capture): (level: int)
    ensures capture.Threw? ==> level == NotFound
    ensures capture.Output? && All(capture.stdout, IsWhiteSpace) ==> level == NotFound
    ensures InInt32(level)
  {
    match capture
    case Threw => NotFound
    case Output(stdout) => ParseOutput(stdout)
  }

  /** A token as the first-token lemma needs it: non-empty, free of
      separators, and neither starting nor ending with white space (so that
      trimming the output leaves it whole). */
  predicate IsCleanToken(token: string) {
    && |token| > 0
    && All(token, IsTokenChar)
    && !IsWhiteSpace(token[0])
    && !IsWhiteSpace(token[|token| - 1])
  }

  /** Only the first token decides the reading: for output made of white
      space, then a token, then anything that begins with a separator, the
      reading is the token's value when it parses as a 32-bit integer and
      `NotFound` otherwise, whatever follows. */
  lemma {:induction false} FirstTokenDecides(lead: string, token: string, rest: string)
    requires All(lead, IsWhiteSpace)
    requires IsCleanToken(token)
    requires |rest| == 0 || IsSeparator(rest[0])
    ensures ParseOutput(lead + token + rest) == TryParseInt32(token).ValueOr(NotFound)
  {
    var k := TrimKeepsToken(lead, token, rest);
    var tail := rest[..k];
    assert |tail| == 0 || IsSeparator(tail[0]);
    SplitFirstToken(token, tail);
  }

  /** Trimming white space, a token and a rest leaves the token followed by
      a prefix of the rest. */
  lemma {:induction false} TrimKeepsToken(lead: string, token: string, rest: string) returns (k: nat)
    requires All(lead, IsWhiteSpace)
    requires IsCleanToken(token)
    ensures k <= |rest|
    ensures Trim(lead + token + rest) == token + rest[..k]
  {
    var s := lead + token + rest;
    assert s == lead + (token + rest);
    assert (token + rest)[0] == token[0];
    SpanOfConcat(lead, token + rest, IsWhiteSpace);
    var a := |lead|;
    var r := Trim(s);
    // the token's last character is not white, so the trimmed slice
    // reaches past it
    assert s[a + |token| - 1] == token[|token| - 1];
    assert |r| >= |token|;
    k := |r| - |token|;
    SliceAfterLead(lead, token, rest, |r|);
  }

  /** A slice starting right after `lead` that covers `token` is `token`
      followed by a prefix of `rest`. */
  lemma SliceAfterLead(lead: string, token: string, rest: string, m: nat)
    requires |token| <= m <= |token| + |rest|
    ensures (lead + token + rest)[|lead|..|lead| + m] == token + rest[..m - |token|]
  {
    var s := lead + token + rest;
    var a := |lead|;
    assert s[a..a + m] == s[a..a + |token|] + s[a + |token|..a + m];
  }

  /** The first token of a token followed by a separator-led tail is that
      token. */
  lemma {:induction false} SplitFirstToken(token: string, tail: string)
    requires |token| > 0 && All(token, IsTokenChar)
    requires |tail| == 0 || IsSeparator(tail[0])
    ensures |Split(token + tail)| > 0 && Split(token + tail)[0] == token
  {
    var r := token + tail;
    assert r[0] == token[0];
    SpanOfConcat(token, tail, IsTokenChar);
    assert r[..|token|] == token;
  }

  /** The first token may itself end in white space that is not a
      separator (a tab, say) when the output goes on to a non-white
      character: trimming then leaves the token whole, and the reading is
      still the token's value if it parses and `NotFound` otherwise. */
  lemma {:induction false} FirstTokenBeforeMore(lead: string, token: string, rest: string)
    requires All(lead, IsWhiteSpace)
    requires |token| > 0 && All(token, IsTokenChar) && !IsWhiteSpace(token[0])
    requires |rest| > 0 && IsSeparator(rest[0]) && !IsWhiteSpace(rest[|rest| - 1])
    ensures ParseOutput(lead + token + rest) == TryParseInt32(token).ValueOr(NotFound)
  {
    var s := lead + token + rest;
    assert s == lead + (token + rest);
    assert (token + rest)[0] == token[0];
    SpanOfConcat(lead, token + rest, IsWhiteSpace);
    var r := Trim(s);
    assert s[|s| - 1] == rest[|rest| - 1];
    assert |lead| + |r| == |s|;
    assert r == token + rest;
    SplitFirstToken(token, rest);
  }

  /** A tab after the number stays in the first token, and the number
      parser accepts it as trailing white space. */
  lemma ExampleTabInToken()
    ensures ParseOutput("45\t 12") == 45
  {
    assert "" + "45\t" + " 12" == "45\t 12";
    FirstTokenBeforeMore("", "45\t", " 12");
    TabTokenParses();
  }

  lemma TabTokenParses()
    ensures TryParseInt32("45\t") == Some(45)
  {
    var l := Literal("", NoSign, "45", "\t", "");
    assert Text(l) == "45\t";
    assert DigitsValue("45") == 45 by {
      assert "45"[..1] == "4";
    }
    TryParseInt32Literal(l);
  }

  /** Trimming output that starts with white space and then `token` keeps
      the slice from the token on, up to at least the token's `c`-th
      character when that character is not white. */
  lemma {:induction false} TrimFromToken(lead: string, token: string, rest: string, c: nat) returns (m: nat)
    requires All(lead, IsWhiteSpace)
    requires 0 < c <= |token| && !IsWhiteSpace(token[0]) && !IsWhiteSpace(token[c - 1])
    ensures c <= m <= |token| + |rest|
    ensures Trim(lead + token + rest) == (token + rest)[..m]
  {
    var u := token + rest;
    var s := lead + token + rest;
    assert s == lead + u;
    assert u[0] == token[0];
    SpanOfConcat(lead, u, IsWhiteSpace);
    assert s[|lead| + c - 1] == token[c - 1];
    m := |Trim(s)|;
    SliceAfterPrefix(lead, u, m);
  }

  lemma SliceAfterPrefix(x: string, u: string, m: nat)
    requires m <= |u|
    ensures (x + u)[|x|..|x| + m] == u[..m]
  {
  }

  lemma AllConcat(x: string, y: string, p: char -> bool)
    requires All(x, p) && All(y, p)
    ensures All(x + y, p)
  {
    forall i | 0 <= i < |x + y| ensures p((x + y)[i]) {
      if i >= |x| {
        assert (x + y)[i] == y[i - |x|];
      }
    }
  }

  /** The first token of a slice of `ds + tw + rest` that covers the digits
      `ds` is the digits followed by some of the white space `tw`. */
  lemma {:induction false} FirstTokenOfSlice(ds: string, tw: string, rest: string, m: nat) returns (j: nat)
    requires |ds| > 0 && All(ds, IsTokenChar)
    requires All(tw, IsTokenChar)
    requires |rest| == 0 || IsSeparator(rest[0])
    requires |ds| <= m <= |ds| + |tw| + |rest|
    ensures j <= |tw|
    ensures |Split((ds + tw + rest)[..m])| > 0
    ensures Split((ds + tw + rest)[..m])[0] == ds + tw[..j]
  {
    var token := ds + tw;
    var r := (token + rest)[..m];
    AllConcat(ds, tw, IsTokenChar);
    if m <= |token| {
      j := m - |ds|;
      assert r == token[..m] == ds + tw[..j];
      assert All(tw[..j], IsTokenChar);
      AllConcat(ds, tw[..j], IsTokenChar);
      assert r + [] == r;
      SplitFirstToken(r, []);
    } else {
      j := |tw|;
      var tail := rest[..m - |token|];
      assert r == token + tail;
      assert tail[0] == rest[0];
      assert tw[..j] == tw;
      SplitFirstToken(token, tail);
    }
  }

  /** A reading written in decimal and followed by number white space that
      does not separate tokens (a tab, say) is read back whatever comes
      after the next separator, white space up to the end included: the
      trimmed token keeps some or all of that white space, and the number
      parser accepts it as trailing white space. */
  lemma {:induction false} DecimalThenWhiteParses(lead: string, n: nat, tw: string, rest: string)
    requires All(lead, IsWhiteSpace)
    requires All(tw, IsNumberWhite) && All(tw, IsTokenChar)
    requires |rest| == 0 || IsSeparator(rest[0])
    ensures ParseOutput(lead + (Decimal(n) + tw) + rest) == if n <= MaxInt32 then n else NotFound
  {
    var ds := Decimal(n);
    var token := ds + tw;
    assert token[0] == ds[0] && token[|ds| - 1] == ds[|ds| - 1];
    var m := TrimFromToken(lead, token, rest, |ds|);
    assert All(ds, IsTokenChar);
    var j := FirstTokenOfSlice(ds, tw, rest, m);
    assert All(tw[..j], IsNumberWhite);
    DigitsThenWhiteParse(ds, tw[..j]);
    ReadFirstToken(lead + token + rest);
  }

  /** Output that is not all white space has a first token after trimming,
      and that token decides the reading. */
  lemma ReadFirstToken(output: string)
    requires !All(output, IsWhiteSpace)
    ensures |Split(Trim(output))| > 0
    ensures ParseOutput(output) == TryParseInt32(Split(Trim(output))[0]).ValueOr(NotFound)
  {
    var r := Trim(output);
    assert IsTokenChar(r[0]);
  }

  /** A tab after the number, then a line break at the end. */
  lemma ExampleTabThenLineBreak()
    ensures ParseOutput("45\t 12\r\n") == 45
  {
    assert Decimal(45) == "45";
    assert "" + ("45" + "\t") + " 12\r\n" == "45\t 12\r\n";
    DecimalThenWhiteParses("", 45, "\t", " 12\r\n");
  }

  /** A tab after the number and nothing else. */
  lemma ExampleTrailingTab()
    ensures ParseOutput("45\t") == 45
  {
    assert Decimal(45) == "45";
    assert "" + ("45" + "\t") + "" == "45\t";
    DecimalThenWhiteParses("", 45, "\t", "");
  }

  /** A reading written in decimal, after white space and followed by
      anything that begins with a separator, is read back exactly when it
      fits in 32 bits; a larger number yields `NotFound`. */
  lemma {:induction false} DecimalReadingParses(lead: string, n: nat, rest: string)
    requires All(lead, IsWhiteSpace)
    requires |rest| == 0 || IsSeparator(rest[0])
    ensures ParseOutput(lead + Decimal(n) + rest) == if n <= MaxInt32 then n else NotFound
  {
    var ds := Decimal(n);
    assert IsCleanToken(ds) by {
      assert IsDigit(ds[0]) && IsDigit(ds[|ds| - 1]);
    }
    FirstTokenDecides(lead, ds, rest);
    DigitsParse(ds);
  }

  /** A token that starts with anything other than white space, a sign or a
      digit (a letter, say) is not a number. */
  lemma {:induction false} NonNumericToken(token: string)
    requires |token| > 0
    requires !IsNumberWhite(token[0]) && !IsDigit(token[0])
    requires token[0] != '+' && token[0] != '-'
    ensures TryParseInt32(token) == None
  {
    SpanOfConcat([], token, IsNumberWhite);
    assert SplitSpan(token, IsNumberWhite) == ([], token) by {
      assert [] + token == token;
      SplitSpanOfConcat([], token, IsNumberWhite);
    }
    assert SplitSign(token) == (NoSign, token);
    assert SplitSpan(token, IsDigit) == ([], token) by {
      assert [] + token == token;
      SplitSpanOfConcat([], token, IsDigit);
    }
  }

  /** The reading in the usual output: a number and a line break. */
  lemma ExampleReading()
    ensures ParseOutput("87\r\n") == 87
  {
    assert Decimal(87) == "87";
    assert "" + "87" + "\r\n" == "87\r\n";
    DecimalReadingParses("", 87, "\r\n");
  }

  /** Later tokens are ignored. */
  lemma ExampleLaterTokens()
    ensures ParseOutput(" 45 12") == 45
  {
    assert Decimal(45) == "45";
    assert " " + "45" + " 12" == " 45 12";
    DecimalReadingParses(" ", 45, " 12");
  }

  /** Output that yields no reading. */
  lemma ExampleNotFound()
    ensures ParseOutput("") == NotFound
    ensures ParseOutput(" \r\n") == NotFound
    ensures ParseOutput("N/A 45") == NotFound
    ensures Query(Threw) == NotFound
  {
    assert All(" \r\n", IsWhiteSpace);
    assert IsCleanToken("N/A");
    assert "" + "N/A" + " 45" == "N/A 45";
    NonNumericToken("N/A");
    FirstTokenDecides("", "N/A", " 45");
  }
}
