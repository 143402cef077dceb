/** Printing and parsing undo each other, and accepting is decided by what was read. */
module HttpRoundTrip {
  import opened Wrappers
  import opened StringParser
  import opened OrderedMap
  import opened HttpMessage
  import opened HttpParser

  ghost predicate NoLineBreak(s: string) {
    '\r' !in s && '\n' !in s
  }

  /** A header that fits on its line and whose name ends where the parser looks for its end. */
  ghost predicate CleanHeader(h: Header) {
    NoLineBreak(h.key) && ' ' !in h.key && NoLineBreak(h.value)
  }

  ghost predicate CleanHeaders(hs: seq<Header>) {
    forall i :: 0 <= i < |hs| ==> CleanHeader(hs[i])
  }

  ghost predicate CleanPath(path: string) {
    path != [] && ' ' !in path && path[0] != '\t'
  }

  ghost predicate Clean(r: Request) {
    CleanPath(r.path) && CleanHeaders(r.headers) && Sorted(r.headers)
  }

  // ----- Header lines -----

  lemma HeaderLineParses(h: Header)
    requires CleanHeader(h)
    ensures ParseHeader(HeaderLine(h)) == Ok(h) && NoLineBreak(HeaderLine(h))
  {
    var line := HeaderLine(h);
    var n := |h.key| + 1;
    assert line == (h.key + ":") + (" " + h.value);
    assert line[n] == ' ';
    FindIs(line, [' '], n);
    assert line[..n] == h.key + ":" && line[n..] == " " + h.value;
  }

  lemma HeaderParseIsClean(line: string)
    requires ParseHeader(line).Ok? && NoLineBreak(line)
    ensures var h := ParseHeader(line).value; CleanHeader(h) && HeaderLine(h) == line
  {
    var n := Find(line, [' ']).value;
    var h := ParseHeader(line).value;
    HeaderParts(line, n, h);
    PartsAreClean(line, n, h.key, h.value);
  }

  lemma HeaderParts(line: string, n: nat, h: Header)
    requires n < |line| && Find(line, [' ']) == Some(n) && ParseHeader(line) == Ok(h)
    ensures line[..n] == h.key + ":" && line[n..] == " " + h.value
    ensures line == h.key + ": " + h.value
  {
    hide Find;
    var name, value := line[..n], line[n..];
    assert name == name[..|name| - 1] + [name[|name| - 1]];
    assert value == [value[0]] + value[1..];
    Joined(line, n, h.key, h.value);
  }

  lemma Joined(line: string, n: nat, key: string, value: string)
    requires n <= |line| && line[..n] == key + ":" && line[n..] == " " + value
    ensures line == key + ": " + value
  {
    assert line == (key + ":") + (" " + value);
  }

  lemma PartsAreClean(line: string, n: nat, key: string, value: string)
    requires NoLineBreak(line) && n <= |line| && ' ' !in line[..n]
    requires line[..n] == key + ":" && line[n..] == " " + value
    ensures NoLineBreak(key) && ' ' !in key && NoLineBreak(value)
  {
    assert forall i :: 0 <= i < |key| ==> key[i] == line[..n][i] == line[i];
    assert forall i :: 0 <= i < |value| ==> value[i] == line[n..][i + 1] == line[n + i + 1];
  }

  /** One line of a block: a clean line, the break and the one character after it, and what follows. */
  lemma LineOfBlock(h: Header, stop: string, more: string)
    requires CleanHeader(h) && |stop| == 2 && stop[0] in CRLF
    ensures ParseHeaders(HeaderLine(h) + stop + more) == Prepend([h], ParseHeaders(more))
  {
    var line := HeaderLine(h);
    var v := line + stop + more;
    HeaderLineParses(h);
    assert forall i :: 0 <= i < |line| ==> v[i] == line[i];
    assert v[|line|] == stop[0];
    FindIs(v, CRLF, |line|);
    assert v[..|line|] == line && v[|line| + 2..] == more;
    assert !(CRLF <= v) by {
      assert line[0] in line;
    }
  }

  lemma BlockCons(h: Header, hs: seq<Header>, rest: string)
    ensures PrintHeaders([h] + hs) + CRLF + rest == HeaderLine(h) + CRLF + (PrintHeaders(hs) + CRLF + rest)
  {
    assert ([h] + hs)[1..] == hs;
  }

  /** The header block parser undoes the header printer. */
  lemma {:induction false} PrintedHeadersParse(hs: seq<Header>, rest: string)
    requires CleanHeaders(hs)
    ensures ParseHeaders(PrintHeaders(hs) + CRLF + rest) == Ok((hs, rest))
  {
    if hs == [] {
      assert PrintHeaders(hs) + CRLF + rest == CRLF + rest;
      assert (CRLF + rest)[2..] == rest;
    } else {
      var h, hs' := hs[0], hs[1..];
      assert hs == [h] + hs';
      PrintedHeadersParse(hs', rest);
      BlockCons(h, hs', rest);
      LineOfBlock(h, CRLF, PrintHeaders(hs') + CRLF + rest);
    }
  }

  // ----- Header blocks, parsed first -----

  /** Every CR and every LF in `s` belongs to a CRLF pair. */
  ghost predicate Paired(s: string) {
    && (forall i :: 0 <= i < |s| && s[i] == '\r' ==> i + 1 < |s| && s[i + 1] == '\n')
    && (forall i :: 0 <= i < |s| && s[i] == '\n' ==> 0 < i && s[i - 1] == '\r')
  }

  /** An accepted line of a block, with the two characters that end it. */
  lemma AcceptedLine(v: string) returns (n: nat, h: Header)
    requires ParseHeaders(v).Ok? && !(CRLF <= v)
    ensures 2 <= n && n + 2 <= |v| && Find(v, CRLF) == Some(n) && ParseHeader(v[..n]) == Ok(h)
    ensures NoLineBreak(v[..n]) && v[n] in CRLF
    ensures CleanHeader(h) && HeaderLine(h) == v[..n]
    ensures ParseHeaders(v[n + 2..]).Ok? && ParseHeaders(v) == Prepend([h], ParseHeaders(v[n + 2..]))
  {
    hide ParseHeader, HeaderLine, CleanHeader;
    n := Find(v, CRLF).value;
    h := ParseHeader(v[..n]).value;
    BeforeBreak(v, n);
    HeaderParseIsClean(v[..n]);
    assert |v[..n]| == |HeaderLine(h)| >= 2 by {
      LineIsLong(h);
    }
  }

  lemma LineIsLong(h: Header)
    ensures |HeaderLine(h)| == |h.key| + 2 + |h.value|
  {
  }

  lemma BeforeBreak(v: string, n: nat)
    requires Find(v, CRLF) == Some(n)
    ensures n < |v| && NoLineBreak(v[..n]) && v[n] in CRLF
  {
    assert CRLF[0] == '\r' && CRLF[1] == '\n';
  }

  /** What an accepted block looks like: the consumed part is what precedes the remaining view,
      the headers are clean, and each round consumes at least four characters. */
  lemma {:induction false} AcceptedBlock(v: string)
    requires ParseHeaders(v).Ok?
    ensures var (hs, rest) := ParseHeaders(v).value;
      && |rest| + 4 * |hs| + 2 <= |v| && rest == v[|v| - |rest|..] && CleanHeaders(hs)
    decreases |v|
  {
    if !(CRLF <= v) {
      hide ParseHeaders, CleanHeader;
      var n, h := AcceptedLine(v);
      AcceptedBlock(v[n + 2..]);
    }
  }

  /** The consumed part of an accepted block. */
  ghost function Consumed(v: string): string
    requires ParseHeaders(v).Ok?
  {
    AcceptedBlock(v);
    v[..|v| - |ParseHeaders(v).value.1|]
  }

  lemma ConsumedLine(v: string, n: nat)
    requires ParseHeaders(v).Ok? && n + 2 <= |v| && ParseHeaders(v[n + 2..]).Ok?
    requires ParseHeaders(v[n + 2..]).value.1 == ParseHeaders(v).value.1
    ensures Consumed(v) == v[..n] + v[n..n + 2] + Consumed(v[n + 2..])
  {
    hide ParseHeaders;
    AcceptedBlock(v[n + 2..]);
    CutLine(v, n, |v| - |ParseHeaders(v).value.1|);
  }

  lemma CutLine(v: string, n: nat, end: nat)
    requires n + 2 <= end <= |v|
    ensures v[..end] == v[..n] + v[n..n + 2] + v[n + 2..][..end - (n + 2)]
  {
  }

  /** In a line of a paired text the break is a CRLF, and what follows is paired again. */
  lemma PairedLine(line: string, stop: string, more: string)
    requires |stop| == 2 && NoLineBreak(line) && stop[0] in CRLF
    ensures Paired(line + stop + more) <==> stop == CRLF && Paired(more)
  {
    var s, n := line + stop + more, |line|;
    assert s[n] == stop[0] && s[n + 1] == stop[1];
    assert forall i :: 0 <= i < n ==> s[i] == line[i];
    assert forall i :: 0 <= i < |more| ==> s[n + 2 + i] == more[i];
    if stop == CRLF && Paired(more) {
      forall i | 0 <= i < |s| && s[i] == '\r' ensures i + 1 < |s| && s[i + 1] == '\n' {
        if n + 2 <= i {
          assert more[i - (n + 2)] == '\r';
        }
      }
      forall i | 0 <= i < |s| && s[i] == '\n' ensures 0 < i && s[i - 1] == '\r' {
        if n + 2 <= i {
          assert more[i - (n + 2)] == '\n';
        }
      }
    }
    if Paired(s) {
      assert n > 0 ==> s[n - 1] == line[n - 1] && line[n - 1] in line;
      assert stop == CRLF;
      forall i | 0 <= i < |more| && more[i] == '\r' ensures i + 1 < |more| && more[i + 1] == '\n' {
        assert s[n + 2 + i] == '\r';
      }
      forall i | 0 <= i < |more| && more[i] == '\n' ensures 0 < i && more[i - 1] == '\r' {
        assert s[n + 2 + i] == '\n';
      }
    }
  }

  lemma EmptyBlock(v: string)
    requires CRLF <= v
    ensures ParseHeaders(v) == Ok(([], v[2..])) && Consumed(v) == CRLF && Paired(CRLF)
    ensures PrintHeaders([]) + CRLF == CRLF
  {
    assert v[..|v| - |v[2..]|] == CRLF;
  }

  lemma PrintCons(h: Header, hs: seq<Header>)
    ensures PrintHeaders([h] + hs) + CRLF == HeaderLine(h) + CRLF + (PrintHeaders(hs) + CRLF)
  {
    assert ([h] + hs)[1..] == hs;
  }

  /** Printing the parsed headers gives back exactly the consumed characters if and only if every
      CR and LF among them occurs as a CRLF pair. */
  lemma {:induction false} ReprintIsConsumed(v: string)
    requires ParseHeaders(v).Ok?
    ensures PrintHeaders(ParseHeaders(v).value.0) + CRLF == Consumed(v) <==> Paired(Consumed(v))
    decreases |v|
  {
    hide ParseHeaders, Consumed, Paired, PrintHeaders;
    if CRLF <= v {
      EmptyBlock(v);
    } else {
      var n, h := AcceptedLine(v);
      var v' := v[n + 2..];
      ReprintIsConsumed(v');
      ConsumedLine(v, n);
      var hs' := ParseHeaders(v').value.0;
      PrintCons(h, hs');
      PairedLine(v[..n], v[n..n + 2], Consumed(v'));
      SameLines(HeaderLine(h), CRLF, PrintHeaders(hs') + CRLF, v[n..n + 2], Consumed(v'));
    }
  }

  lemma SameLines(line: string, stop1: string, more1: string, stop2: string, more2: string)
    requires |stop1| == |stop2|
    ensures line + stop1 + more1 == line + stop2 + more2 <==> stop1 == stop2 && more1 == more2
  {
    var a, b := line + stop1 + more1, line + stop2 + more2;
    var n, m := |line|, |line| + |stop1|;
    assert a[n..m] == stop1 && b[n..m] == stop2 && a[m..] == more1 && b[m..] == more2;
  }

  // ----- Requests, printed first -----

  /** The recogniser reads the canonical names of HTTP/1.1 and HTTP/2.0 in full. Of HTTP/1.0 it
      reads all but the last digit, and takes it for HTTP/1.1. */
  lemma CanonicalVersions(rest: string)
    ensures ParseVersion("HTTP/1.1" + rest) == Ok((V11, rest))
    ensures ParseVersion("HTTP/2.0" + rest) == Ok((V20, rest))
    ensures ParseVersion("HTTP/1.0" + rest) == Ok((V11, "0" + rest))
  {
    ReadV11(rest);
    ReadV20(rest);
    ReadV10(rest);
  }

  lemma ReadV11(rest: string)
    ensures ParseVersion("HTTP/1.1" + rest) == Ok((V11, rest))
  {
    var v := "HTTP/1.1" + rest;
    assert v[..5] == "HTTP/" && v[5..] == "1.1" + rest;
    assert ("1.1" + rest)[1..] == ".1" + rest && (".1" + rest)[1..] == "1" + rest;
    assert ("1" + rest)[..1] == "1" && ("1" + rest)[1..] == rest;
  }

  lemma ReadV20(rest: string)
    ensures ParseVersion("HTTP/2.0" + rest) == Ok((V20, rest))
  {
    var v := "HTTP/2.0" + rest;
    assert v[..5] == "HTTP/" && v[5..] == "2.0" + rest;
    assert ("2.0" + rest)[1..] == ".0" + rest && (".0" + rest)[..2] == ".0" && (".0" + rest)[2..] == rest;
  }

  lemma ReadV10(rest: string)
    ensures ParseVersion("HTTP/1.0" + rest) == Ok((V11, "0" + rest))
  {
    var v := "HTTP/1.0" + rest;
    assert v[..5] == "HTTP/" && v[5..] == "1.0" + rest;
    assert ("1.0" + rest)[1..] == ".0" + rest && (".0" + rest)[1..] == "0" + rest;
    assert ("0" + rest)[0] == '0';
  }

  lemma MethodNames(m: Method, rest: string)
    ensures ParseMethod(MethodString(m) + rest) == Ok((m, rest))
  {
    var v := MethodString(m) + rest;
    assert v[..|MethodString(m)|] == MethodString(m) && v[|MethodString(m)|..] == rest;
    assert MethodPrefix(v) == Some(m) by {
      assert v[0] == MethodString(m)[0] && v[1] == MethodString(m)[1];
    }
  }

  /** What is printed before the headers. */
  function PrintLine(line: RequestLine): string
    requires line.version != Invalid
  {
    MethodString(line.verb) + " " + line.path + " " + VersionString(line.version) + CRLF
  }

  lemma PrintedTargetParses(verb: Method, path: string, version: string, rest: string)
    requires CleanPath(path) && |version| == 8 && version[..5] == "HTTP/"
    ensures NextToken(path + (" " + (version + rest)), ' ') == Ok((path, " " + (version + rest)))
    ensures ConsumeAllTwo(path + (" " + (version + rest)), ASCII_HT, ' ') == path + (" " + (version + rest))
    ensures ExpectTwo(" " + (version + rest), ASCII_HT, ' ') == Ok(version + rest)
    ensures ConsumeAllTwo(version + rest, ASCII_HT, ' ') == version + rest
  {
    var v := path + (" " + (version + rest));
    assert forall i :: 0 <= i < |path| ==> v[i] == path[i];
    assert v[|path|] == ' ';
    FindIs(v, [' '], |path|);
    assert v[..|path|] == path && v[|path|..] == " " + (version + rest);
    assert (" " + (version + rest))[1..] == version + rest;
    assert version[0] == version[..5][0] == 'H';
  }

  lemma PrintedTarget(line: RequestLine, rest: string)
    requires CleanPath(line.path) && line.version != Invalid
    ensures var target := line.path + (" " + (VersionString(line.version) + (CRLF + rest)));
      && ParseTarget(line.verb, target) == (if line.version == V10 then Err else Ok((line, rest)))
      && ConsumeAllTwo(target, ASCII_HT, ' ') == target
  {
    hide ParseVersion, ParseTarget, ConsumeAllTwo, NextToken;
    var version := VersionString(line.version);
    var after := version + (CRLF + rest);
    PrintedTargetParses(line.verb, line.path, version, CRLF + rest);
    CanonicalVersions(CRLF + rest);
    assert (CRLF + rest)[..2] == CRLF && (CRLF + rest)[2..] == rest;
    assert ("0" + (CRLF + rest))[0] == '0';
    var (ver, w) := ParseVersion(after).value;
    assert (ver, w) == if line.version == V10 then (V11, "0" + (CRLF + rest)) else (line.version, CRLF + rest);
    AfterVersion(line.verb, line.path + (" " + after), line.path, " " + after, after, ver, w);
  }

  lemma PrintedLineParses(line: RequestLine, rest: string)
    requires CleanPath(line.path) && line.version != Invalid
    ensures ParseRequestLine(PrintLine(line) + rest) == if line.version == V10 then Err else Ok((line, rest))
  {
    hide ParseVersion, ParseTarget, ParseMethod, ParseRequestLine, ConsumeAllTwo;
    var target := line.path + (" " + (VersionString(line.version) + (CRLF + rest)));
    var v := MethodString(line.verb) + (" " + target);
    assert PrintLine(line) + rest == v;
    MethodNames(line.verb, " " + target);
    assert (" " + target)[1..] == target;
    AfterVerb(v, line.verb, " " + target, target);
    PrintedTarget(line, rest);
  }

  /** Every clean request with a version the recogniser can read comes back from its print. */
  lemma PrintThenParse(r: Request)
    requires Clean(r) && r.version != Invalid && r.version != V10
    ensures ParseRequest(PrintRequest(r)) == Ok(r)
  {
    hide ParseRequestLine, ParseHeaders;
    var line := RequestLine(r.verb, r.path, r.version);
    var rest := PrintHeaders(r.headers) + CRLF + r.body;
    assert PrintRequest(r) == PrintLine(line) + rest;
    PrintedLineParses(line, rest);
    PrintedHeadersParse(r.headers, r.body);
    assert [] + r.headers == r.headers;
    SetAllRebuilds([], r.headers);
  }

  /** No print of a request whose path is clean is accepted under HTTP/1.0, whatever its headers. */
  lemma Version10IsRejected(r: Request)
    requires CleanPath(r.path) && r.version == V10
    ensures ParseRequest(PrintRequest(r)) == Err
  {
    hide ParseRequestLine, ParseHeaders;
    var line := RequestLine(r.verb, r.path, r.version);
    var rest := PrintHeaders(r.headers) + CRLF + r.body;
    assert PrintRequest(r) == PrintLine(line) + rest;
    PrintedLineParses(line, rest);
  }

  /** A request is printed with single spaces, the canonical name of its version, and its headers
      one to a line. */
  lemma RequestIsPrinted(r: Request)
    requires r.version != Invalid
    ensures PrintRequest(r) ==
            (match r.verb
             case GET => "GET "
             case POST => "POST "
             case PUT => "PUT "
             case DELETE => "DELETE "
             case HEAD => "HEAD "
             case OPTIONS => "OPTIONS "
             case TRACE => "TRACE "
             case CONNECT => "CONNECT ") +
            r.path +
            (match r.version
             case V10 => " HTTP/1.0\r\n"
             case V11 => " HTTP/1.1\r\n"
             case V20 => " HTTP/2.0\r\n") +
            PrintHeaders(r.headers) + "\r\n" + r.body
  {
    hide PrintHeaders, MethodString, VersionString;
    NameEndsWord(r.verb);
    VersionEndsLine(r.version);
    Regroup(MethodString(r.verb), r.path, VersionString(r.version), CRLF);
  }

  lemma Regroup(name: string, path: string, version: string, end: string)
    ensures name + " " + path + " " + version + end == (name + " ") + path + (" " + version + end)
  {
  }

  lemma NameEndsWord(m: Method)
    ensures MethodString(m) + " " ==
            match m
            case GET => "GET "
            case POST => "POST "
            case PUT => "PUT "
            case DELETE => "DELETE "
            case HEAD => "HEAD "
            case OPTIONS => "OPTIONS "
            case TRACE => "TRACE "
            case CONNECT => "CONNECT "
  {
  }

  lemma VersionEndsLine(v: Version)
    requires v != Invalid
    ensures " " + VersionString(v) + CRLF ==
            match v case V10 => " HTTP/1.0\r\n" case V11 => " HTTP/1.1\r\n" case V20 => " HTTP/2.0\r\n"
  {
  }

  lemma HeadersArePrinted(h: Header, hs: seq<Header>)
    ensures PrintHeaders([]) == ""
    ensures PrintHeaders([h] + hs) == h.key + ": " + h.value + "\r\n" + PrintHeaders(hs)
  {
    assert ([h] + hs)[1..] == hs;
  }

  // ----- What the parser accepts is clean -----

  lemma AcceptedLineIsClean(v: string)
    requires ParseRequestLine(v).Ok?
    ensures var line := ParseRequestLine(v).value.0; CleanPath(line.path) && line.version != Invalid
  {
    var (verb, v1) := ParseMethod(v).value;
    var v2 := ExpectTwo(v1, ASCII_HT, ' ').value;
    AfterVerb(v, verb, v1, v2);
    var w := ConsumeAllTwo(v2, ASCII_HT, ' ');
    AcceptedTargetIsClean(verb, w);
  }

  lemma AcceptedTarget(verb: Method, w: string)
    requires ParseTarget(verb, w).Ok?
    ensures var line := ParseTarget(verb, w).value.0;
      NextToken(w, ' ').Ok? && line.path == NextToken(w, ' ').value.0 && line.version != Invalid
  {
    hide ParseVersion;
  }

  lemma AcceptedTargetIsClean(verb: Method, w: string)
    requires ParseTarget(verb, w).Ok? && (w != [] ==> w[0] != ASCII_HT && w[0] != ' ')
    ensures var line := ParseTarget(verb, w).value.0; CleanPath(line.path) && line.version != Invalid
  {
    AcceptedTarget(verb, w);
    TokenIsClean(w);
  }

  lemma TokenIsClean(w: string)
    requires NextToken(w, ' ').Ok? && (w != [] ==> w[0] != ASCII_HT && w[0] != ' ')
    ensures CleanPath(NextToken(w, ' ').value.0)
  {
    var path := NextToken(w, ' ').value.0;
    assert forall i :: 0 <= i < |path| ==> path[i] == w[i] && w[i] !in [' '];
  }

  lemma {:induction false} SetAllKeepsClean(m: seq<Header>, hs: seq<Header>)
    requires CleanHeaders(m) && CleanHeaders(hs)
    ensures CleanHeaders(SetAll(m, hs))
    decreases |hs|
  {
    if hs != [] {
      SetEntries(m, hs[0].key, hs[0].value);
      var m' := Set(m, hs[0].key, hs[0].value);
      forall i | 0 <= i < |m'| ensures CleanHeader(m'[i]) {
        assert m'[i] in m';
      }
      SetAllKeepsClean(m', hs[1..]);
    }
  }

  lemma AcceptedIsClean(s: string)
    requires ParseRequest(s).Ok?
    ensures Clean(ParseRequest(s).value) && ParseRequest(s).value.version != Invalid
  {
    hide ParseRequestLine, ParseHeaders;
    AcceptedLineIsClean(s);
    var (_, v) := ParseRequestLine(s).value;
    AcceptedBlock(v);
    var hs := ParseHeaders(v).value.0;
    SetAllKeepsSorted([], hs);
    SetAllKeepsClean([], hs);
  }

  /** A request comes back from its print if and only if it is clean and its version is not 1.0. */
  lemma RoundTripExactly(r: Request)
    requires r.version != Invalid
    ensures ParseRequest(PrintRequest(r)) == Ok(r) <==> Clean(r) && r.version != V10
  {
    if ParseRequest(PrintRequest(r)) == Ok(r) {
      AcceptedIsClean(PrintRequest(r));
      if r.version == V10 {
        Version10IsRejected(r);
      }
    } else if Clean(r) && r.version != V10 {
      PrintThenParse(r);
    }
  }

  /** Two clean requests with the same print are the same request. */
  lemma PrintIsInjective(r: Request, r': Request)
    requires Clean(r) && Clean(r') && r.version in {V11, V20} && r'.version in {V11, V20}
    requires PrintRequest(r) == PrintRequest(r')
    ensures r == r'
  {
    PrintThenParse(r);
    PrintThenParse(r');
  }

  /** The header map holds, for every key of the block, the value of its last line, and nothing else. */
  lemma HeadersAreLastWins(s: string)
    requires ParseRequest(s).Ok?
    ensures var hs := ParseHeaders(ParseRequestLine(s).value.1).value.0;
      var m := AsMap(ParseRequest(s).value.headers);
      && (forall k :: k in m <==> HasKey(hs, k))
      && (forall k, v :: LastValue(hs, k, v) ==> k in m && m[k] == v)
  {
    hide ParseRequestLine, ParseHeaders;
    var hs := ParseHeaders(ParseRequestLine(s).value.1).value.0;
    assert ParseRequest(s).value.headers == SetAll([], hs);
    assert AsMap([]) == map[];
    SetAllIsLastWins([], hs);
  }

  // ----- Responses -----

  /** Behind its status line a printed response is readable by the header parser. */
  lemma ResponseIsReadable(r: Response)
    requires r.version != Invalid && CleanHeaders(r.headers) && Sorted(r.headers)
    ensures StatusLine(r) <= PrintResponse(r)
    ensures var after := PrintResponse(r)[|StatusLine(r)|..];
      ParseHeaders(after) == Ok((r.headers, r.body)) && SetAll([], r.headers) == r.headers
  {
    hide StatusLine, PrintHeaders, ParseHeaders, CleanHeaders, SetAll, Sorted;
    var after := PrintHeaders(r.headers) + CRLF + r.body;
    assert PrintResponse(r) == StatusLine(r) + after;
    assert PrintResponse(r)[|StatusLine(r)|..] == after;
    PrintedHeadersParse(r.headers, r.body);
    assert [] + r.headers == r.headers;
    SetAllRebuilds([], r.headers);
  }
}
