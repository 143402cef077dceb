/** Accepting a request is decided by its head: whatever is appended becomes body. */
module HttpPrefix {
  import opened Wrappers
  import opened StringParser
  import opened OrderedMap
  import opened HttpMessage
  import opened HttpParser
  import opened HttpRoundTrip

  lemma MethodExtends(v: string, t: string)
    requires ParseMethod(v).Ok?
    ensures var (m, rest) := ParseMethod(v).value; ParseMethod(v + t) == Ok((m, rest + t))
  {
    hide ParseMethod, MethodString;
    var (m, rest) := ParseMethod(v).value;
    AcceptedMethod(v);
    assert v + t == MethodString(m) + (rest + t);
    MethodNames(m, rest + t);
  }

  /** The trie accepts nothing but the names of the methods. */
  lemma AcceptedMethod(v: string)
    requires ParseMethod(v).Ok?
    ensures var (m, rest) := ParseMethod(v).value; v == MethodString(m) + rest
  {
    var (m, rest) := ParseMethod(v).value;
    assert MethodString(m) <= v;
    assert v == v[..|MethodString(m)|] + v[|MethodString(m)|..];
  }

  lemma ExpectTwoExtends(v: string, t: string)
    requires ExpectTwo(v, ASCII_HT, ' ').Ok?
    ensures ExpectTwo(v + t, ASCII_HT, ' ') == Ok(ExpectTwo(v, ASCII_HT, ' ').value + t)
  {
    assert (v + t)[1..] == v[1..] + t;
  }

  // ----- The version recogniser: every ignored expectation is decided inside an accepted view -----

  lemma SkipDecided(v: string, chars: string, t: string)
    requires '\r' !in chars && '\r' in v
    ensures Skip(v + t, chars) == Skip(v, chars) + t
    ensures chars <= v + t <==> chars <= v
    ensures '\r' in Skip(v, chars)
  {
    var i :| 0 <= i < |v| && v[i] == '\r';
    SkipExtends(v, chars, t, i);
    if chars <= v {
      assert forall k :: 0 <= k < |chars| ==> v[k] == chars[k] && v[k] in chars;
      assert v[|chars|..][i - |chars|] == '\r';
    }
  }

  lemma SkipIsSuffix(v: string, chars: string, c: char)
    requires c in Skip(v, chars)
    ensures c in v
  {
  }

  lemma TailHas(v: string, c: char)
    requires v != [] && c in v[1..]
    ensures c in v
  {
  }

  /** A recogniser run that leaves a CRLF behind is not affected by what comes later. */
  lemma VersionExtends(v: string, t: string)
    requires ParseVersion(v).Ok? && CRLF <= ParseVersion(v).value.1
    ensures var (ver, rest) := ParseVersion(v).value; ParseVersion(v + t) == Ok((ver, rest + t))
  {
    hide Skip;
    var (ver, rest) := ParseVersion(v).value;
    assert rest[0] == '\r';
    var v1 := Skip(v, "HTTP/");
    assert (v1 + t)[1..] == v1[1..] + t;
    if v1[0] == '2' {
      SkipIsSuffix(v1[1..], ".0", '\r');
      SkipDecided(v1[1..], ".0", t);
    } else {
      var v2 := Skip(v1[1..], "1.");
      assert (v2 + t)[1..] == v2[1..] + t;
      if v2[0] != '0' {
        SkipIsSuffix(v2[1..], "1", '\r');
        SkipDecided(v2[1..], "1", t);
      }
      TailHas(v2, '\r');
      SkipIsSuffix(v1[1..], "1.", '\r');
      SkipDecided(v1[1..], "1.", t);
    }
    TailHas(v1, '\r');
    SkipIsSuffix(v, "HTTP/", '\r');
    SkipDecided(v, "HTTP/", t);
  }

  lemma LineExtends(v: string, t: string)
    requires ParseRequestLine(v).Ok?
    ensures var (line, rest) := ParseRequestLine(v).value; ParseRequestLine(v + t) == Ok((line, rest + t))
  {
    var (verb, v1) := ParseMethod(v).value;
    var v2 := ExpectTwo(v1, ASCII_HT, ' ').value;
    AfterVerb(v, verb, v1, v2);
    var w := ConsumeAllTwo(v2, ASCII_HT, ' ');
    MethodExtends(v, t);
    ExpectTwoExtends(v1, t);
    TargetExtends(verb, w, t);
    ConsumeExtends(v2, ASCII_HT, ' ', t);
    AfterVerb(v + t, verb, v1 + t, v2 + t);
  }

  lemma TargetParts(verb: Method, w: string) returns (path: string, w1: string, w2: string, ver: Version, w3: string)
    requires ParseTarget(verb, w).Ok?
    ensures NextToken(w, ' ') == Ok((path, w1)) && ExpectTwo(w1, ASCII_HT, ' ') == Ok(w2)
    ensures ParseVersion(ConsumeAllTwo(w2, ASCII_HT, ' ')) == Ok((ver, w3)) && CRLF <= w3 && ver != Invalid
  {
    path, w1 := NextToken(w, ' ').value.0, NextToken(w, ' ').value.1;
    w2 := ExpectTwo(w1, ASCII_HT, ' ').value;
    var r := ParseVersion(ConsumeAllTwo(w2, ASCII_HT, ' ')).value;
    ver, w3 := r.0, r.1;
  }

  lemma TargetExtends(verb: Method, w: string, t: string)
    requires ParseTarget(verb, w).Ok?
    ensures w != []
    ensures var (line, rest) := ParseTarget(verb, w).value; ParseTarget(verb, w + t) == Ok((line, rest + t))
  {
    hide ParseTarget, ParseVersion, NextToken, ExpectTwo, ConsumeAllTwo;
    var path, w1, w2, ver, w3 := TargetParts(verb, w);
    TokenReads(w);
    AfterVersion(verb, w, path, w1, w2, ver, w3);
    NextTokenExtends(w, ' ', t);
    ExpectTwoExtends(w1, t);
    var u := ConsumeAllTwo(w2, ASCII_HT, ' ');
    VersionExtends(u, t);
    VersionReads(u);
    ConsumeExtends(w2, ASCII_HT, ' ', t);
    assert CRLF <= w3 + t && (w3 + t)[2..] == w3[2..] + t;
    AfterVersion(verb, w + t, path, w1 + t, w2 + t, ver, w3 + t);
  }

  lemma TokenReads(v: string)
    requires NextToken(v, ' ').Ok?
    ensures v != []
  {
  }

  lemma VersionReads(v: string)
    requires ParseVersion(v).Ok?
    ensures v != []
  {
  }

  lemma {:induction false} HeadersExtend(v: string, t: string)
    requires ParseHeaders(v).Ok?
    ensures var (hs, rest) := ParseHeaders(v).value; ParseHeaders(v + t) == Ok((hs, rest + t))
    decreases |v|
  {
    hide ParseHeader, CleanHeader, HeaderLine, Find;
    if CRLF <= v {
      assert (v + t)[2..] == v[2..] + t;
    } else {
      var n, h := AcceptedLine(v);
      HeadersExtend(v[n + 2..], t);
      FindExtends(v, CRLF, t);
      assert (v + t)[..n] == v[..n] && (v + t)[n + 2..] == v[n + 2..] + t;
      assert !(CRLF <= v + t);
      StepOfBlock(v + t, n, h);
    }
  }

  lemma StepOfBlock(v: string, n: nat, h: Header)
    requires n + 2 <= |v| && !(CRLF <= v) && Find(v, CRLF) == Some(n) && ParseHeader(v[..n]) == Ok(h)
    ensures ParseHeaders(v) == Prepend([h], ParseHeaders(v[n + 2..]))
  {
    hide ParseHeader, Find;
  }

  /** If `s` is accepted then so is `s + t`, with the same method, path, version and headers, and
      with `t` at the end of the body. */
  lemma AcceptingIsPrefixDetermined(s: string, t: string)
    requires ParseRequest(s).Ok?
    ensures ParseRequest(s + t) == Ok(ParseRequest(s).value.(body := ParseRequest(s).value.body + t))
  {
    LineExtends(s, t);
    HeadersExtend(ParseRequestLine(s).value.1, t);
  }

  /** Two accepted texts, one a prefix of the other, are the same request up to the body. */
  lemma LongerTextLongerBody(s: string, s': string)
    requires ParseRequest(s).Ok? && ParseRequest(s').Ok? && s <= s'
    ensures ParseRequest(s').value == ParseRequest(s).value.(body := ParseRequest(s).value.body + s'[|s|..])
  {
    AcceptingIsPrefixDetermined(s, s'[|s|..]);
    assert s + s'[|s|..] == s';
  }
}
