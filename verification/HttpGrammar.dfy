/** Exactly which texts the request parser accepts, and as which requests. */
module HttpGrammar {
  import opened Wrappers
  import opened StringParser
  import opened OrderedMap
  import opened HttpMessage
  import opened HttpParser
  import opened HttpPrefix
  import opened HttpRejection

  // ----- Versions -----

  /** `rest` is what `v` holds behind `part`, which is taken when it is there. */
  ghost predicate Optional(v: string, part: string, rest: string) {
    v == part + rest || (v == rest && !(part <= v))
  }

  /** An optional `HTTP/`; then `2` and an optional `.0`; or another character, an optional `1.`, and
      then `0` or another character and an optional `1`. */
  ghost predicate VersionText(v: string, version: Version, rest: string) {
    exists digits :: Optional(v, "HTTP/", digits) && DigitsText(digits, version, rest)
  }

  ghost predicate DigitsText(digits: string, version: Version, rest: string) {
    && digits != ""
    && if digits[0] == '2' then version == V20 && Optional(digits[1..], ".0", rest)
       else exists minor :: Optional(digits[1..], "1.", minor) && MinorText(minor, version, rest)
  }

  ghost predicate MinorText(minor: string, version: Version, rest: string) {
    && minor != ""
    && if minor[0] == '0' then version == V10 && rest == minor[1..]
       else version == V11 && Optional(minor[1..], "1", rest)
  }

  lemma OptionalIsSkip(v: string, part: string, rest: string)
    ensures Optional(v, part, rest) <==> Skip(v, part) == rest
  {
    if v == part + rest {
      assert v[..|part|] == part && v[|part|..] == rest;
    }
    if part <= v {
      assert v == v[..|part|] + v[|part|..];
    }
  }

  lemma MinorExactly(minor: string, version: Version, rest: string)
    requires minor != ""
    ensures MinorText(minor, version, rest) <==>
            (version, rest) == if minor[0] == '0' then (V10, minor[1..]) else (V11, Skip(minor[1..], "1"))
  {
    OptionalIsSkip(minor[1..], "1", rest);
  }

  lemma DigitsExactly(digits: string, version: Version, rest: string)
    requires digits != ""
    ensures digits[0] == '2' ==>
      (DigitsText(digits, version, rest) <==> (version, rest) == (V20, Skip(digits[1..], ".0")))
    ensures digits[0] != '2' ==>
      (DigitsText(digits, version, rest) <==> MinorText(Skip(digits[1..], "1."), version, rest))
  {
    hide Skip, Optional, MinorText;
    OptionalIsSkip(digits[1..], ".0", rest);
    forall minor ensures Optional(digits[1..], "1.", minor) <==> Skip(digits[1..], "1.") == minor {
      OptionalIsSkip(digits[1..], "1.", minor);
    }
  }

  lemma NoMinor(version: Version, rest: string)
    ensures !MinorText("", version, rest) && !DigitsText("", version, rest)
  {
  }

  /** For every view: which version the recogniser reads, and what it leaves. */
  lemma VersionExactly(v: string, version: Version, rest: string)
    ensures ParseVersion(v) == Ok((version, rest)) <==> VersionText(v, version, rest)
  {
    hide Skip, Optional, MinorText, DigitsText;
    forall digits ensures Optional(v, "HTTP/", digits) <==> Skip(v, "HTTP/") == digits {
      OptionalIsSkip(v, "HTTP/", digits);
    }
    NoMinor(version, rest);
    var digits := Skip(v, "HTTP/");
    if digits != "" {
      DigitsExactly(digits, version, rest);
      var minor := Skip(digits[1..], "1.");
      if digits[0] != '2' && minor != "" {
        MinorExactly(minor, version, rest);
      }
    }
  }

  // ----- Request lines -----

  /** A method, a gap, a path up to a space, a gap, a version and CRLF. */
  ghost predicate LineText(s: string, line: RequestLine, rest: string) {
    exists v, w :: s == MethodString(line.verb) + v && Gap(v, w) && TargetText(w, line, rest)
  }

  ghost predicate TargetText(w: string, line: RequestLine, rest: string) {
    exists v, u :: IsTarget(w, line.path, v, u) && VersionText(u, line.version, "\r\n" + rest)
  }

  lemma StripCrlf(t: string, rest: string)
    ensures CRLF <= t && t[2..] == rest <==> t == "\r\n" + rest
  {
    if CRLF <= t {
      assert t == t[..2] + t[2..];
    }
    if t == "\r\n" + rest {
      assert t[..2] == CRLF && t[2..] == rest;
    }
  }

  lemma TargetIsText(line: RequestLine, w: string, rest: string)
    requires ParseTarget(line.verb, w) == Ok((line, rest))
    ensures TargetText(w, line, rest)
  {
    hide ParseTarget, ParseVersion, VersionText, IsTarget, ConsumeAllTwo, NextToken;
    var path, v, v', version, t := TargetParts(line.verb, w);
    var u := ConsumeAllTwo(v', ASCII_HT, ' ');
    AfterVersion(line.verb, w, path, v, v', version, t);
    TargetIsCut(w, path, v, u);
    StripCrlf(t, rest);
    VersionExactly(u, version, t);
  }

  lemma TextIsTarget(line: RequestLine, w: string, v: string, u: string, rest: string)
    requires IsTarget(w, line.path, v, u) && VersionText(u, line.version, "\r\n" + rest)
    ensures ParseTarget(line.verb, w) == Ok((line, rest))
  {
    hide ParseTarget, ParseVersion, IsTarget, ConsumeAllTwo, NextToken, DigitsText, Optional;
    TargetIsCut(w, line.path, v, u);
    VersionExactly(u, line.version, "\r\n" + rest);
    StripCrlf("\r\n" + rest, rest);
    VersionIsValid(u);
    AfterVersion(line.verb, w, line.path, v, v[1..], line.version, "\r\n" + rest);
  }

  lemma VersionIsValid(v: string)
    ensures ParseVersion(v).Ok? ==> ParseVersion(v).value.0 != Invalid
  {
  }

  lemma LineIsText(s: string, line: RequestLine, rest: string)
    requires ParseRequestLine(s) == Ok((line, rest))
    ensures LineText(s, line, rest)
  {
    hide ParseTarget, ParseMethod, Gap, TargetText, ConsumeAllTwo, MethodString;
    var (verb, v) := ParseMethod(s).value;
    var w := ConsumeAllTwo(v[1..], ASCII_HT, ' ');
    ByMethod(s, line, rest);
    NameIsUnique(s, verb, v);
    GapIsSkipped(v, w);
    TargetIsText(line, w, rest);
  }

  lemma TextIsLine(s: string, line: RequestLine, v: string, w: string, rest: string)
    requires s == MethodString(line.verb) + v && Gap(v, w) && TargetText(w, line, rest)
    ensures ParseRequestLine(s) == Ok((line, rest))
  {
    NameIsUnique(s, line.verb, v);
    GapIsSkipped(v, w);
    ByMethod(s, line, rest);
    var x, u :| IsTarget(w, line.path, x, u) && VersionText(u, line.version, "\r\n" + rest);
    TextIsTarget(line, w, x, u, rest);
  }

  /** For every text: it begins with an accepted request line exactly when it begins with a method, a
      gap, a path, a gap, a version and CRLF, and these are what the line holds. */
  lemma LineAcceptedExactly(s: string, line: RequestLine, rest: string)
    ensures ParseRequestLine(s) == Ok((line, rest)) <==> LineText(s, line, rest)
  {
    hide ParseRequestLine, TargetText, Gap, MethodString;
    if ParseRequestLine(s) == Ok((line, rest)) {
      LineIsText(s, line, rest);
    }
    if v, w :| s == MethodString(line.verb) + v && Gap(v, w) && TargetText(w, line, rest) {
      TextIsLine(s, line, v, w, rest);
    }
  }

  lemma ByMethod(s: string, line: RequestLine, rest: string)
    requires ParseMethod(s).Ok? && ExpectTwo(ParseMethod(s).value.1, ASCII_HT, ' ').Ok?
    ensures var v := ParseMethod(s).value.1;
      ParseRequestLine(s) == Ok((line, rest)) <==>
      && ParseMethod(s) == Ok((line.verb, v))
      && ParseTarget(line.verb, ConsumeAllTwo(v[1..], ASCII_HT, ' ')) == Ok((line, rest))
  {
    hide ParseMethod, ConsumeAllTwo;
    var (verb, v) := ParseMethod(s).value;
    AfterVerb(s, verb, v, v[1..]);
    VerbIsKept(verb, ConsumeAllTwo(v[1..], ASCII_HT, ' '));
  }

  lemma VerbIsKept(verb: Method, w: string)
    ensures ParseTarget(verb, w).Ok? ==> ParseTarget(verb, w).value.0.verb == verb
  {
    hide ParseVersion, NextToken, ConsumeAllTwo;
  }

  // ----- Requests -----

  /** A request line, header lines, the empty line and a body. */
  ghost predicate RequestText(s: string, r: Request) {
    exists v, ls ::
      && LineText(s, RequestLine(r.verb, r.path, r.version), v)
      && LinesThen(v, ls, "\r\n" + r.body) && r.headers == SetAll([], HeadersOf(ls))
  }

  /** For every text: it is accepted as `r` exactly when it is a text of `r`. */
  lemma RequestAcceptedExactly(s: string, r: Request)
    ensures ParseRequest(s) == Ok(r) <==> RequestText(s, r)
  {
    var line := RequestLine(r.verb, r.path, r.version);
    forall v ensures ParseRequestLine(s) == Ok((line, v)) <==> LineText(s, line, v) {
      LineAcceptedExactly(s, line, v);
    }
    forall v, hs ensures ParseHeaders(v) == Ok((hs, r.body)) <==>
      exists ls :: LinesThen(v, ls, "\r\n" + r.body) && HeadersOf(ls) == hs
    {
      BlockAcceptedExactly(v, hs, r.body);
    }
    hide ParseRequestLine, ParseHeaders, LineText, LinesThen, HeadersOf, SetAll;
    if ParseRequest(s) == Ok(r) {
      var v := ParseRequestLine(s).value.1;
      var hs := ParseHeaders(v).value.0;
      assert ParseHeaders(v) == Ok((hs, r.body));
      var ls :| LinesThen(v, ls, "\r\n" + r.body) && HeadersOf(ls) == hs;
    }
    if v, ls :| LineText(s, line, v) && LinesThen(v, ls, "\r\n" + r.body) && r.headers == SetAll([], HeadersOf(ls)) {
      assert ParseHeaders(v) == Ok((HeadersOf(ls), r.body));
    }
  }

  /** The short form of HTTP/2: the version is read although `.0` is missing. */
  lemma ShortVersionIsAccepted()
    ensures ParseRequest("GET" + (" " + ("/" + (" " + ("HTTP/2" + "\r\n\r\n"))))) == Ok(Request(GET, "/", V20, [], ""))
  {
    hide ParseRequest, VersionText, IsTarget, Gap, LinesThen;
    var u := "HTTP/2" + "\r\n\r\n";
    ShortVersion();
    SimpleGap("/" + (" " + u));
    SimpleGap(u);
    SimpleTarget(u);
    var line := RequestLine(GET, "/", V20);
    assert "\r\n" + "\r\n" == "\r\n\r\n";
    assert TargetText("/" + (" " + u), line, "\r\n");
    var s := "GET" + (" " + ("/" + (" " + u)));
    assert LineText(s, line, "\r\n");
    assert LinesThen("\r\n", [], "\r\n" + "") by {
      NoLines();
    }
    var r := Request(GET, "/", V20, [], "");
    assert SetAll([], HeadersOf([])) == [];
    RequestAcceptedExactly(s, r);
  }

  lemma NoLines()
    ensures LinesThen("\r\n", [], "\r\n" + "")
  {
    assert "\r\n" + "" == "\r\n";
    assert Text([]) + "\r\n" == "\r\n";
  }

  lemma ShortVersion()
    ensures VersionText("HTTP/2" + "\r\n\r\n", V20, "\r\n\r\n")
  {
    var v, digits, rest := "HTTP/2" + "\r\n\r\n", "2" + "\r\n\r\n", "\r\n\r\n";
    assert v == "HTTP/" + digits;
    assert digits[1..] == rest && rest[0] == '\r';
    assert Optional(digits[1..], ".0", rest);
    assert DigitsText(digits, V20, rest);
  }

  lemma SimpleGap(u: string)
    requires u != "" && u[0] != ' ' && u[0] != '\t'
    ensures Gap(" " + u, u)
  {
    assert IsGap(" " + u, " ", u);
  }

  lemma SimpleTarget(u: string)
    requires Gap(" " + u, u)
    ensures IsTarget("/" + (" " + u), "/", " " + u, u)
  {
  }
}
