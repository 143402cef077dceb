/** Which texts are refused, and on which the parser reads outside its input. */
module HttpRejection {
  import opened Wrappers
  import opened StringParser
  import opened OrderedMap
  import opened HttpMessage
  import opened HttpParser
  import opened HttpRoundTrip
  import opened HttpPrefix

  // ----- One header line -----

  /** The line is what the printer prints for some clean header. */
  ghost predicate WellFormed(line: string) {
    exists h :: CleanHeader(h) && HeaderLine(h) == line
  }

  /** A well-formed line is accepted. Another one faults when the space that ends the name is missing
      or comes first, and is refused otherwise. */
  lemma HeaderOutcome(line: string)
    requires NoLineBreak(line)
    ensures ParseHeader(line).Ok? <==> WellFormed(line)
    ensures ParseHeader(line).Fault? <==> ' ' !in line || line[0] == ' '
  {
    if h :| CleanHeader(h) && HeaderLine(h) == line {
      HeaderLineParses(h);
    }
    if ParseHeader(line).Ok? {
      HeaderParseIsClean(line);
    }
    HeaderFaults(line);
  }

  lemma HeaderFaults(line: string)
    ensures ParseHeader(line).Fault? <==> ' ' !in line || line[0] == ' '
  {
    match Find(line, [' '])
    case None =>
      assert forall i :: 0 <= i < |line| ==> line[i] != ' ';
    case Some(n) =>
      assert line[n] == ' ';
  }

  // ----- Header blocks -----

  /** A well-formed line, its break, and the character behind the break, whatever it is. */
  datatype Line = Line(header: Header, stop: string)

  ghost predicate GoodLines(ls: seq<Line>) {
    forall i :: 0 <= i < |ls| ==> CleanHeader(ls[i].header) && |ls[i].stop| == 2 && ls[i].stop[0] in CRLF
  }

  function Text(ls: seq<Line>): string {
    if ls == [] then [] else HeaderLine(ls[0].header) + ls[0].stop + Text(ls[1..])
  }

  /** `v` consists of the lines `ls` and of `rest`. */
  ghost predicate LinesThen(v: string, ls: seq<Line>, rest: string) {
    GoodLines(ls) && v == Text(ls) + rest
  }

  /** `line` is what stands before the first break of `v`, which does not begin with the empty line. */
  ghost predicate FirstLine(v: string, line: string) {
    !(CRLF <= v) && line <= v && |line| < |v| && NoLineBreak(line) && v[|line|] in CRLF
  }

  /** The next line has no space, or starts with one, or is well-formed and its break is the last
      character. */
  ghost predicate FaultsNext(v: string) {
    exists line :: FirstLine(v, line) &&
      (' ' !in line || line[0] == ' ' || (WellFormed(line) && |v| == |line| + 1))
  }

  /** There is no break any more, or the next line has its first space too late but no colon before it. */
  ghost predicate RefusedNext(v: string) {
    NoLineBreak(v) || exists line :: FirstLine(v, line) && ' ' in line && line[0] != ' ' && !WellFormed(line)
  }

  lemma FirstLineIsFound(v: string, line: string)
    requires FirstLine(v, line)
    ensures Find(v, CRLF) == Some(|line|) && v[..|line|] == line
  {
    assert forall i :: 0 <= i < |line| ==> v[i] == line[i] && line[i] in line;
    FindIs(v, CRLF, |line|);
  }

  lemma NextOutcome(v: string, line: string)
    requires FirstLine(v, line)
    ensures ParseHeader(line).Fault? ==> ParseHeaders(v).Fault?
    ensures ParseHeader(line).Err? ==> ParseHeaders(v).Err?
    ensures ParseHeader(line).Ok? && |v| == |line| + 1 ==> ParseHeaders(v).Fault?
  {
    FirstLineIsFound(v, line);
    hide ParseHeader, Find;
  }

  lemma NextFaults(v: string)
    requires FaultsNext(v)
    ensures ParseHeaders(v).Fault?
  {
    hide ParseHeaders, ParseHeader, FirstLine, WellFormed;
    var line :| FirstLine(v, line) && (' ' !in line || line[0] == ' ' || (WellFormed(line) && |v| == |line| + 1));
    assert NoLineBreak(line) by {
      LineHasNoBreak(v, line);
    }
    HeaderOutcome(line);
    NextOutcome(v, line);
  }

  lemma LineHasNoBreak(v: string, line: string)
    requires FirstLine(v, line)
    ensures NoLineBreak(line)
  {
  }

  lemma NextRefused(v: string)
    requires RefusedNext(v)
    ensures ParseHeaders(v).Err?
  {
    if NoLineBreak(v) {
      assert Find(v, CRLF) == None;
    } else {
      hide ParseHeaders, ParseHeader, FirstLine, WellFormed, NoLineBreak;
      var line :| FirstLine(v, line) && ' ' in line && line[0] != ' ' && !WellFormed(line);
      LineHasNoBreak(v, line);
      HeaderOutcome(line);
      NextOutcome(v, line);
    }
  }

  function HeadersOf(ls: seq<Line>): seq<Header> {
    if ls == [] then [] else [ls[0].header] + HeadersOf(ls[1..])
  }

  /** Lines that are read give their headers, and do not change how the block ends. */
  lemma {:induction false} AfterLines(ls: seq<Line>, rest: string)
    requires GoodLines(ls)
    ensures ParseHeaders(Text(ls) + rest) == Prepend(HeadersOf(ls), ParseHeaders(rest))
  {
    hide ParseHeaders, CleanHeader, HeaderLine;
    if ls == [] {
      assert Text(ls) + rest == rest;
      PrependNone(ParseHeaders(rest));
    } else {
      PrependTwice([ls[0].header], HeadersOf(ls[1..]), ParseHeaders(rest));
      AfterLines(ls[1..], rest);
      LineOfBlock(ls[0].header, ls[0].stop, Text(ls[1..]) + rest);
      assert Text(ls) + rest == HeaderLine(ls[0].header) + ls[0].stop + (Text(ls[1..]) + rest);
    }
  }

  lemma PrependTwice(hs: seq<Header>, hs': seq<Header>, r: Outcome<(seq<Header>, string)>)
    ensures Prepend(hs, Prepend(hs', r)) == Prepend(hs + hs', r)
  {
    if r.Ok? {
      assert hs + (hs' + r.value.0) == hs + hs' + r.value.0;
    }
  }

  lemma LinesCons(v: string, l: Line, ls: seq<Line>, rest: string)
    requires CleanHeader(l.header) && |l.stop| == 2 && l.stop[0] in CRLF
    requires |HeaderLine(l.header)| + 2 <= |v|
    requires v[..|HeaderLine(l.header)| + 2] == HeaderLine(l.header) + l.stop
    requires LinesThen(v[|HeaderLine(l.header)| + 2..], ls, rest)
    ensures LinesThen(v, [l] + ls, rest)
  {
    hide HeaderLine, CleanHeader;
    var n := |HeaderLine(l.header)| + 2;
    assert ([l] + ls)[1..] == ls;
    assert v == v[..n] + v[n..];
    assert Text([l] + ls) + rest == (HeaderLine(l.header) + l.stop) + (Text(ls) + rest);
  }

  /** Every view is a number of lines that are read, and then a place where the block ends. */
  lemma {:induction false} WhereItEnds(v: string) returns (ls: seq<Line>, rest: string)
    ensures LinesThen(v, ls, rest) && (CRLF <= rest || RefusedNext(rest) || FaultsNext(rest))
    decreases |v|
  {
    if CRLF <= v || RefusedNext(v) || FaultsNext(v) {
      ls, rest := [], v;
    } else {
      var h, n := LineThatIsRead(v);
      ls, rest := WhereItEnds(v[n + 2..]);
      var l := Line(h, v[n..n + 2]);
      assert v[..n + 2] == v[..n] + v[n..n + 2];
      LinesCons(v, l, ls, rest);
      ls := [l] + ls;
    }
  }

  lemma LineThatIsRead(v: string) returns (h: Header, n: nat)
    requires !(CRLF <= v) && !RefusedNext(v) && !FaultsNext(v)
    ensures n + 2 <= |v| && CleanHeader(h) && HeaderLine(h) == v[..n] && v[n] in CRLF
  {
    assert Find(v, CRLF).Some?;
    n := Find(v, CRLF).value;
    BeforeBreak(v, n);
    var line := v[..n];
    assert FirstLine(v, line) && |line| == n;
    assert WellFormed(line);
    h :| CleanHeader(h) && HeaderLine(h) == line;
  }

  /** For every view: the block is accepted, refused or faults exactly when after some lines that are
      read comes the empty line, a line to refuse, or a line to fault on. */
  lemma BlockEndsExactly(v: string)
    ensures ParseHeaders(v).Ok? <==> exists ls, rest :: LinesThen(v, ls, rest) && CRLF <= rest
    ensures ParseHeaders(v).Err? <==> exists ls, rest :: LinesThen(v, ls, rest) && RefusedNext(rest)
    ensures ParseHeaders(v).Fault? <==> exists ls, rest :: LinesThen(v, ls, rest) && FaultsNext(rest)
  {
    forall ls, rest | LinesThen(v, ls, rest)
      ensures CRLF <= rest ==> ParseHeaders(v).Ok?
      ensures RefusedNext(rest) ==> ParseHeaders(v).Err?
      ensures FaultsNext(rest) ==> ParseHeaders(v).Fault?
    {
      EndOf(v, ls, rest);
    }
    hide ParseHeaders, LinesThen, RefusedNext, FaultsNext;
    var ls, rest := WhereItEnds(v);
  }

  lemma LinesAreAccepted(v: string, ls: seq<Line>, body: string)
    requires LinesThen(v, ls, "\r\n" + body)
    ensures ParseHeaders(v) == Ok((HeadersOf(ls), body))
  {
    hide ParseHeaders, Text, HeadersOf, CleanHeader;
    AfterLines(ls, "\r\n" + body);
    EmptyLine(body);
    assert HeadersOf(ls) + [] == HeadersOf(ls);
  }

  lemma AcceptedAsLines(v: string) returns (ls: seq<Line>)
    requires ParseHeaders(v).Ok?
    ensures LinesThen(v, ls, "\r\n" + ParseHeaders(v).value.1) && HeadersOf(ls) == ParseHeaders(v).value.0
  {
    hide ParseHeaders, GoodLines, Text, HeadersOf, RefusedNext, FaultsNext;
    BlockEndsExactly(v);
    var rest;
    ls, rest :| LinesThen(v, ls, rest) && CRLF <= rest;
    assert rest == "\r\n" + rest[2..];
    LinesAreAccepted(v, ls, rest[2..]);
  }

  /** For every view: the headers and the rest of an accepted block are those of the lines it is made of. */
  lemma BlockAcceptedExactly(v: string, hs: seq<Header>, body: string)
    ensures ParseHeaders(v) == Ok((hs, body)) <==>
            exists ls :: LinesThen(v, ls, "\r\n" + body) && HeadersOf(ls) == hs
  {
    hide ParseHeaders, LinesThen, HeadersOf;
    if ParseHeaders(v).Ok? {
      var ls := AcceptedAsLines(v);
    }
    if ls :| LinesThen(v, ls, "\r\n" + body) && HeadersOf(ls) == hs {
      LinesAreAccepted(v, ls, body);
    }
  }

  lemma EmptyLine(body: string)
    ensures ParseHeaders("\r\n" + body) == Ok(([], body))
  {
    assert ("\r\n" + body)[..2] == CRLF && ("\r\n" + body)[2..] == body;
  }

  lemma EndOf(v: string, ls: seq<Line>, rest: string)
    requires LinesThen(v, ls, rest)
    ensures CRLF <= rest ==> ParseHeaders(v).Ok?
    ensures RefusedNext(rest) ==> ParseHeaders(v).Err?
    ensures FaultsNext(rest) ==> ParseHeaders(v).Fault?
  {
    AfterLines(ls, rest);
    assert CRLF <= rest ==> ParseHeaders(rest).Ok?;
    hide ParseHeaders, Text, GoodLines;
    if RefusedNext(rest) {
      NextRefused(rest);
    }
    if FaultsNext(rest) {
      NextFaults(rest);
    }
  }

  // ----- The request line -----

  /** `v` begins with one or more blanks, and `u` is what follows them. */
  ghost predicate Gap(v: string, u: string) {
    exists gap :: IsGap(v, gap, u)
  }

  ghost predicate IsGap(v: string, gap: string, u: string) {
    && gap != "" && (forall i :: 0 <= i < |gap| ==> gap[i] == '\t' || gap[i] == ' ')
    && v == gap + u && (u != "" ==> u[0] != '\t' && u[0] != ' ')
  }

  lemma GapIsSkipped(v: string, u: string)
    ensures Gap(v, u) <==> ExpectTwo(v, ASCII_HT, ' ').Ok? && u == ConsumeAllTwo(v[1..], ASCII_HT, ' ')
  {
    if gap :| IsGap(v, gap, u) {
      assert v[0] == gap[0] && v[1..] == gap[1..] + u;
      ConsumesBlanks(gap[1..], u);
    }
    if ExpectTwo(v, ASCII_HT, ' ').Ok? && u == ConsumeAllTwo(v[1..], ASCII_HT, ' ') {
      ConsumedIsPrefix(v[1..], ASCII_HT, ' ');
      var gap := v[..|v| - |u|];
      assert forall i :: 1 <= i < |gap| ==> gap[i] == v[1..][i - 1];
      assert u == v[1..][|v| - 1 - |u|..] == v[|v| - |u|..];
      assert IsGap(v, gap, u);
    }
  }

  lemma {:induction false} ConsumesBlanks(gap: string, u: string)
    requires forall i :: 0 <= i < |gap| ==> gap[i] == '\t' || gap[i] == ' '
    requires u != "" ==> u[0] != '\t' && u[0] != ' '
    ensures ConsumeAllTwo(gap + u, ASCII_HT, ' ') == u
  {
    if gap == "" {
      assert gap + u == u;
    } else {
      assert (gap + u)[1..] == gap[1..] + u;
      ConsumesBlanks(gap[1..], u);
    }
  }

  /** Nothing is left where the recogniser looks at a digit. */
  ghost predicate VersionFaults(u: string) {
    var digits := Skip(u, "HTTP/");
    digits == "" || (digits[0] != '2' && (digits[1..] == "" || digits[1..] == "1."))
  }

  lemma VersionFaultsExactly(u: string)
    ensures ParseVersion(u).Fault? <==> VersionFaults(u)
    ensures !ParseVersion(u).Err?
  {
    var digits := Skip(u, "HTTP/");
    if digits != "" && digits[0] != '2' {
      assert Skip(digits[1..], "1.") == "" <==> digits[1..] == "" || digits[1..] == "1.";
    }
  }

  /** The path is not followed by a space, or the version is cut off. */
  ghost predicate TargetFaults(w: string) {
    ' ' !in w || exists path, v, u :: IsTarget(w, path, v, u) && VersionFaults(u)
  }

  ghost predicate IsTarget(w: string, path: string, v: string, u: string) {
    w == path + v && ' ' !in path && v != "" && v[0] == ' ' && Gap(v, u)
  }

  lemma TargetIsCut(w: string, path: string, v: string, u: string)
    ensures IsTarget(w, path, v, u) <==>
            && NextToken(w, ' ') == Ok((path, v)) && ExpectTwo(v, ASCII_HT, ' ').Ok?
            && u == ConsumeAllTwo(v[1..], ASCII_HT, ' ')
  {
    GapIsSkipped(v, u);
    hide ConsumeAllTwo;
    if w == path + v && ' ' !in path && v != "" && v[0] == ' ' {
      assert forall i :: 0 <= i < |path| ==> w[i] == path[i] && path[i] in path;
      FindIs(w, [' '], |path|);
      assert w[..|path|] == path && w[|path|..] == v;
    }
    if NextToken(w, ' ') == Ok((path, v)) {
      var i := Find(w, [' ']).value;
      assert path == w[..i] && v == w[i..] && w == w[..i] + w[i..];
    }
  }

  lemma TargetFaultsExactly(verb: Method, w: string)
    ensures ParseTarget(verb, w).Fault? <==> TargetFaults(w)
  {
    hide ParseVersion, ConsumeAllTwo, VersionFaults, IsTarget;
    match NextToken(w, ' ')
    case Fault =>
      NoSpaceNoToken(w);
    case Ok((path, v)) =>
      NoSpaceNoToken(w);
      TokenStops(w, path, v);
      var u := ConsumeAllTwo(v[1..], ASCII_HT, ' ');
      TargetIsCut(w, path, v, u);
      VersionFaultsExactly(u);
      forall path', v', u' | IsTarget(w, path', v', u') ensures u' == u {
        TargetIsCut(w, path', v', u');
      }
  }

  lemma NoSpaceNoToken(w: string)
    ensures ' ' in w <==> NextToken(w, ' ').Ok?
    ensures !NextToken(w, ' ').Err?
  {
    match Find(w, [' '])
    case None => assert forall i :: 0 <= i < |w| ==> w[i] !in [' '];
    case Some(n) => assert w[n] == ' ';
  }

  lemma TokenStops(w: string, path: string, v: string)
    requires NextToken(w, ' ') == Ok((path, v))
    ensures v != "" && v[0] == ' '
  {
  }

  /** The text ends where a method could still come, or holds neither a method nor a space. */
  ghost predicate MethodFaults(s: string) {
    s == "" || s == "P" || (s[0] !in "GPDHOTC" && ' ' !in s)
  }

  /** Nothing follows the method, or what follows faults behind its blanks. */
  ghost predicate AfterMethodFaults(v: string) {
    v == "" || exists w :: Gap(v, w) && TargetFaults(w)
  }

  ghost predicate RequestLineFaults(s: string) {
    MethodFaults(s) || exists m, v :: s == MethodString(m) + v && AfterMethodFaults(v)
  }

  lemma NameIsUnique(s: string, m: Method, v: string)
    ensures s == MethodString(m) + v <==> ParseMethod(s) == Ok((m, v))
  {
    if s == MethodString(m) + v {
      MethodNames(m, v);
    }
    if ParseMethod(s) == Ok((m, v)) {
      AcceptedMethod(s);
    }
  }

  lemma MethodFaultsExactly(s: string)
    ensures ParseMethod(s).Fault? <==> MethodFaults(s)
  {
    EdgeViews(s);
    if s != "" && s[0] !in "GPDHOTC" {
      NoSpaceNoToken(s);
    }
  }

  /** For every text: when the request line runs out of what it is looking for. */
  lemma LineFaultsExactly(s: string)
    ensures ParseRequestLine(s).Fault? <==> RequestLineFaults(s)
  {
    MethodFaultsExactly(s);
    forall m, v ensures s == MethodString(m) + v <==> ParseMethod(s) == Ok((m, v)) {
      NameIsUnique(s, m, v);
    }
    hide ParseMethod, MethodFaults, ParseTarget, TargetFaults, ConsumeAllTwo, Gap, MethodString;
    match ParseMethod(s)
    case Err =>
    case Fault =>
    case Ok((verb, v)) =>
      AfterMethod(s, verb, v);
      assert s == MethodString(verb) + v;
      assert AfterMethodFaults(v) ==> RequestLineFaults(s);
  }

  lemma AfterMethod(s: string, verb: Method, v: string)
    requires ParseMethod(s) == Ok((verb, v))
    ensures ParseRequestLine(s).Fault? <==> AfterMethodFaults(v)
  {
    hide ParseTarget, TargetFaults, Gap, ConsumeAllTwo;
    forall w ensures Gap(v, w) <==> ExpectTwo(v, ASCII_HT, ' ').Ok? && w == ConsumeAllTwo(v[1..], ASCII_HT, ' ') {
      GapIsSkipped(v, w);
    }
    if ExpectTwo(v, ASCII_HT, ' ').Ok? {
      AfterVerb(s, verb, v, v[1..]);
      TargetFaultsExactly(verb, ConsumeAllTwo(v[1..], ASCII_HT, ' '));
    }
  }

  // ----- Requests -----

  /** For every text: the parser reads outside it if and only if the request line runs out, or,
      after an accepted request line and some lines that are read, a line to fault on comes. */
  lemma RequestFaultsExactly(s: string)
    ensures ParseRequest(s).Fault? <==>
            || RequestLineFaults(s)
            || (ParseRequestLine(s).Ok? &&
                exists ls, rest :: LinesThen(ParseRequestLine(s).value.1, ls, rest) && FaultsNext(rest))
  {
    LineFaultsExactly(s);
    hide ParseHeaders, ParseRequestLine, RequestLineFaults, LinesThen, FaultsNext;
    if ParseRequestLine(s).Ok? {
      BlockEndsExactly(ParseRequestLine(s).value.1);
    }
  }

  /** After an accepted request line the request is refused if and only if, after some lines that are
      read, a line to refuse comes. */
  lemma RefusedExactly(s: string)
    requires ParseRequestLine(s).Ok?
    ensures ParseRequest(s).Err? <==>
            exists ls, rest :: LinesThen(ParseRequestLine(s).value.1, ls, rest) && RefusedNext(rest)
  {
    hide ParseHeaders, ParseRequestLine, LinesThen, RefusedNext;
    BlockEndsExactly(ParseRequestLine(s).value.1);
  }

  lemma AfterSimpleLine(rest: string)
    requires FaultsNext(rest)
    ensures ParseRequest("GET / HTTP/1.1\r\n" + rest).Fault?
  {
    hide ParseRequest, ParseRequestLine, PrintLine, RequestLineFaults, FaultsNext;
    SimpleLine();
    PrintedLineParses(RequestLine(GET, "/", V11), rest);
    assert LinesThen(rest, [], rest);
    RequestFaultsExactly("GET / HTTP/1.1\r\n" + rest);
  }

  lemma SimpleLine()
    ensures PrintLine(RequestLine(GET, "/", V11)) == "GET / HTTP/1.1\r\n" && CleanPath("/")
  {
    assert "GET" + " " + "/" + " " + "HTTP/1.1" + CRLF == "GET / HTTP/1.1\r\n";
  }

  lemma LineThenBreak(line: string, more: string)
    requires line != "" && NoLineBreak(line) && more != "" && more[0] in CRLF
    ensures FirstLine(line + more, line)
  {
    assert (line + more)[0] == line[0] && line[0] in line && (line + more)[|line|] == more[0];
  }

  /** The header block of this request begins with a bare word. */
  lemma WordFaults()
    ensures ParseRequest("GET / HTTP/1.1\r\n" + ("Content" + "\r\n-Type: text/html\r\n")).Fault?
  {
    hide ParseRequest, FirstLine;
    LineThenBreak("Content", "\r\n-Type: text/html\r\n");
    AfterSimpleLine("Content" + "\r\n-Type: text/html\r\n");
  }

  /** This header block is cut off behind the CR of its only line. */
  lemma CutBreakFaults()
    ensures ParseRequest("GET / HTTP/1.1\r\n" + ("A: b" + "\r")).Fault?
  {
    hide ParseRequest, FirstLine;
    var h := Header("A", "b");
    assert CleanHeader(h) && HeaderLine(h) == "A: b";
    LineThenBreak("A: b", "\r");
    AfterSimpleLine("A: b" + "\r");
  }
}
