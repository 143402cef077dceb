/** The request parser: what each part accepts, as a function of the view, and the cursor-driven
    code that computes it. */
module HttpParser {
  import opened Wrappers
  import opened StringParser
  import opened OrderedMap
  import opened HttpMessage

  // ----- What is accepted -----

  /** The method with whose name the view starts. */
  function MethodPrefix(v: string): Option<Method> {
    if MethodString(GET) <= v then Some(GET)
    else if MethodString(POST) <= v then Some(POST)
    else if MethodString(PUT) <= v then Some(PUT)
    else if MethodString(DELETE) <= v then Some(DELETE)
    else if MethodString(HEAD) <= v then Some(HEAD)
    else if MethodString(OPTIONS) <= v then Some(OPTIONS)
    else if MethodString(TRACE) <= v then Some(TRACE)
    else if MethodString(CONNECT) <= v then Some(CONNECT)
    else None
  }

  /** A view that starts with the name of a method gives that method. Otherwise the trie looks at
      one or two characters: it faults when they are missing, and where the first one fits no
      method it also faults when there is no space up to which to quote the offending word. */
  function ParseMethod(v: string): Outcome<(Method, string)> {
    match MethodPrefix(v)
    case Some(m) => Ok((m, v[|MethodString(m)|..]))
    case None =>
      if v == "" || v == "P" then Fault
      else if v[0] in "GPDHOTC" then Err
      else if ' ' in v then Err
      else Fault
  }

  /** The version recogniser: failed expectations are ignored and two characters are always consumed. */
  function ParseVersion(v: string): Outcome<(Version, string)> {
    var v1 := Skip(v, "HTTP/");
    var head :- Head(v1);
    if head == '2' then Ok((V20, Skip(v1[1..], ".0")))
    else
      var v2 := Skip(v1[1..], "1.");
      var head1 :- Head(v2);
      if head1 == '0' then Ok((V10, v2[1..])) else Ok((V11, Skip(v2[1..], "1")))
  }

  datatype RequestLine = RequestLine(verb: Method, path: string, version: Version)

  function ParseRequestLine(v: string): Outcome<(RequestLine, string)> {
    var (verb, v1) :- ParseMethod(v);
    var v2 :- ExpectTwo(v1, ASCII_HT, ' ');
    ParseTarget(verb, ConsumeAllTwo(v2, ASCII_HT, ' '))
  }

  function ParseTarget(verb: Method, v: string): Outcome<(RequestLine, string)> {
    var (path, v1) :- NextToken(v, ' ');
    var v2 :- ExpectTwo(v1, ASCII_HT, ' ');
    var (version, v3) :- ParseVersion(ConsumeAllTwo(v2, ASCII_HT, ' '));
    if version == Invalid then Err
    else
      var rest :- Expect(v3, CRLF);
      Ok((RequestLine(verb, path, version), rest))
  }

  /** The name ends at the first space and must end in a colon; an empty name faults when its last
      character is quoted. */
  function ParseHeader(line: string): Outcome<Header> {
    var (name, value) :- NextToken(line, ' ');
    if name == [] then Fault
    else if name[|name| - 1] != ':' then Err
    else Ok(Header(name[..|name| - 1], value[1..]))
  }

  /** Each line ends at its first CR or LF; that character and the next one, whatever it is, are
      dropped. A CRLF where a line would start ends the block. */
  function ParseHeaders(v: string): Outcome<(seq<Header>, string)>
    decreases |v|
  {
    if CRLF <= v then Ok(([], v[2..]))
    else
      match Find(v, CRLF)
      case None => Err
      case Some(n) =>
        var h :- ParseHeader(v[..n]);
        var v' :- Drop(v, n + 2);
        var (hs, rest) :- ParseHeaders(v');
        Ok(([h] + hs, rest))
  }

  function ParseRequest(s: string): Outcome<Request> {
    var (line, v) :- ParseRequestLine(s);
    var (hs, body) :- ParseHeaders(v);
    Ok(Request(line.verb, line.path, line.version, SetAll([], hs), body))
  }

  // ----- The code -----

  /** The rest of a method's name after the letters already consumed. */
  function NameRest(v: string, rest: string, m: Method): Outcome<(Method, string)> {
    if rest <= v then Ok((m, v[|rest|..])) else Err
  }

  /** transform_fn applied to what `expect` answers. */
  method ExpectRest(parser: StringParser, rest: string, m: Method) returns (r: Outcome<Method>)
    modifies parser
    ensures Agrees(r, parser.view, NameRest(old(parser.view), rest, m))
  {
    var found := parser.ExpectChars(rest);
    r := if found.Ok? then Ok(m) else Err;
  }

  method MethodStringToEnum(parser: StringParser) returns (r: Outcome<Method>)
    modifies parser
    ensures Agrees(r, parser.view, ParseMethod(old(parser.view)))
  {
    hide ParseMethod, NameRest;
    ghost var v := parser.view;
    EdgeViews(v);
    var head :- parser.HeadChar();
    if head !in "GPDHOTC" {
      var _ :- parser.TakeToken(' ');
      return Err;
    }
    var _ := parser.Move(1);
    match head
    case 'G' => ByFirst(v, "ET", GET); r := ExpectRest(parser, "ET", GET);
    case 'P' =>
      var second :- parser.HeadChar();
      BySecond(v);
      if second == 'O' {
        var _ := parser.Move(1);
        r := ExpectRest(parser, "ST", POST);
      } else {
        r := ExpectRest(parser, "UT", PUT);
      }
    case 'D' => ByFirst(v, "ELETE", DELETE); r := ExpectRest(parser, "ELETE", DELETE);
    case 'H' => ByFirst(v, "EAD", HEAD); r := ExpectRest(parser, "EAD", HEAD);
    case 'O' => ByFirst(v, "PTIONS", OPTIONS); r := ExpectRest(parser, "PTIONS", OPTIONS);
    case 'T' => ByFirst(v, "RACE", TRACE); r := ExpectRest(parser, "RACE", TRACE);
    case _ => ByFirst(v, "ONNECT", CONNECT); r := ExpectRest(parser, "ONNECT", CONNECT);
  }

  /** The views in which no name can be recognised by its first letters. */
  lemma EdgeViews(v: string)
    ensures v == "" || v == "P" ==> ParseMethod(v).Fault?
    ensures v != "" && v[0] !in "GPDHOTC" ==>
              if NextToken(v, ' ').Ok? then ParseMethod(v).Err? else ParseMethod(v).Fault?
  {
  }

  lemma PrefixTail(p: string, v: string)
    requires p != [] && v != [] && p[0] == v[0]
    ensures p <= v <==> p[1..] <= v[1..]
    ensures p <= v ==> v[|p|..] == v[1..][|p| - 1..]
  {
    if p[1..] <= v[1..] {
      assert p == [p[0]] + p[1..] && v == [v[0]] + v[1..];
    }
  }

  /** Outside 'P' the first letter names the method, and the rest of its name decides. */
  lemma ByFirst(v: string, rest: string, m: Method)
    requires v != [] && v[0] != 'P' && [v[0]] + rest == MethodString(m)
    ensures ParseMethod(v) == NameRest(v[1..], rest, m)
  {
    PrefixTail(MethodString(m), v);
    assert MethodString(m)[1..] == rest;
    assert MethodPrefix(v) == if MethodString(m) <= v then Some(m) else None;
  }

  lemma BySecond(v: string)
    requires 2 <= |v| && v[0] == 'P'
    ensures ParseMethod(v) == if v[1] == 'O' then NameRest(v[1..][1..], "ST", POST) else NameRest(v[1..], "UT", PUT)
  {
    PrefixTail("POST", v);
    PrefixTail("PUT", v);
    assert "POST"[1..] == "OST" && "PUT"[1..] == "UT";
    if v[1] == 'O' {
      PrefixTail("OST", v[1..]);
      assert "OST"[1..] == "ST";
    }
  }

  method VersionStringToEnum(parser: StringParser) returns (r: Outcome<Version>)
    modifies parser
    ensures Agrees(r, parser.view, ParseVersion(old(parser.view)))
  {
    var _ := parser.ExpectChars("HTTP/");
    var head :- parser.HeadChar();
    var version := Invalid;
    if head == '2' {
      var _ := parser.Move(1);
      var _ := parser.ExpectChars(".0");
      version := V20;
    } else {
      var _ := parser.Move(1);
      var _ := parser.ExpectChars("1.");
      var head1 :- parser.HeadChar();
      if head1 == '0' {
        var _ := parser.Move(1);
        version := V10;
      } else {
        var _ := parser.Move(1);
        var _ := parser.ExpectChars("1");
        version := V11;
      }
    }
    return Ok(version);
  }

  lemma AfterVerb(v: string, verb: Method, v1: string, v2: string)
    requires ParseMethod(v) == Ok((verb, v1)) && ExpectTwo(v1, ASCII_HT, ' ') == Ok(v2)
    ensures ParseRequestLine(v) == ParseTarget(verb, ConsumeAllTwo(v2, ASCII_HT, ' '))
  {
  }

  method ParseRequestLineAt(parser: StringParser) returns (r: Outcome<HTTPRequest>)
    modifies parser
    ensures match ParseRequestLine(old(parser.view))
      case Ok((line, rest)) =>
        && r.Ok? && fresh(r.value) && fresh(r.value.message) && parser.view == rest
        && r.value.Value() == Request(line.verb, line.path, line.version, [], [])
      case Err => r.Err?
      case Fault => r.Fault?
  {
    ghost var v0 := parser.view;
    var verb :- MethodStringToEnum(parser);
    ghost var v1 := parser.view;
    var _ :- parser.ExpectTwoChars(ASCII_HT, ' ');
    ghost var v2 := parser.view;
    parser.ConsumeAllTwoChars(ASCII_HT, ' ');
    AfterVerb(v0, verb, v1, v2);
    r := ParseTargetAt(parser, verb);
  }

  lemma AfterVersion(verb: Method, v: string, path: string, v1: string, v2: string, version: Version, v3: string)
    requires NextToken(v, ' ') == Ok((path, v1)) && ExpectTwo(v1, ASCII_HT, ' ') == Ok(v2)
    requires ParseVersion(ConsumeAllTwo(v2, ASCII_HT, ' ')) == Ok((version, v3))
    ensures ParseTarget(verb, v) ==
            if version == Invalid || !(CRLF <= v3) then Err
            else Ok((RequestLine(verb, path, version), v3[2..]))
  {
  }

  /** The part of the request line after the method, up to and with its CRLF. */
  method ParseTargetAt(parser: StringParser, verb: Method) returns (r: Outcome<HTTPRequest>)
    modifies parser
    ensures match ParseTarget(verb, old(parser.view))
      case Ok((line, rest)) =>
        && r.Ok? && fresh(r.value) && fresh(r.value.message) && parser.view == rest
        && r.value.Value() == Request(line.verb, line.path, line.version, [], [])
      case Err => r.Err?
      case Fault => r.Fault?
  {
    hide ParseVersion;
    ghost var v0 := parser.view;
    var url :- parser.TakeToken(' ');
    ghost var v1 := parser.view;
    var _ :- parser.ExpectTwoChars(ASCII_HT, ' ');
    ghost var v2 := parser.view;
    parser.ConsumeAllTwoChars(ASCII_HT, ' ');
    var version :- VersionStringToEnum(parser);
    AfterVersion(verb, v0, url, v1, v2, version, parser.view);
    if version == Invalid {
      return Err;
    }
    var _ :- parser.ExpectChars(CRLF);
    var request := new HTTPRequest(verb, url, version);
    return Ok(request);
  }

  method ParseHeaderLine(line: string) returns (r: Outcome<Header>)
    ensures r == ParseHeader(line)
  {
    var end := FindFirst(line, [' ']);
    if end.None? {
      return Fault;
    }
    var name, value := line[..end.value], line[end.value..];
    if name == [] {
      return Fault;
    }
    if name[|name| - 1] != ':' {
      return Err;
    }
    return Ok(Header(name[..|name| - 1], value[1..]));
  }

  /** Puts the headers collected so far in front of what the rest of the block gives. */
  function Prepend(hs: seq<Header>, r: Outcome<(seq<Header>, string)>): Outcome<(seq<Header>, string)> {
    match r
    case Ok((hs', rest)) => Ok((hs + hs', rest))
    case Err => Err
    case Fault => Fault
  }

  method ParseMessageHeaders(parser: StringParser) returns (r: Outcome<seq<Header>>)
    modifies parser
    ensures Agrees(r, parser.view, ParseHeaders(old(parser.view)))
  {
    var headers: seq<Header> := [];
    var v := parser.view;
    PrependNone(ParseHeaders(v));
    while !(CRLF <= v)
      invariant parser.view == old(parser.view)
      invariant ParseHeaders(parser.view) == Prepend(headers, ParseHeaders(v))
      decreases |v|
    {
      ghost var v0, headers0 := v, headers;
      var next := FindFirst(v, CRLF);
      if next.None? {
        return Err;
      }
      var h :- ParseHeaderLine(v[..next.value]);
      headers := headers + [h];
      if |v| < next.value + 2 {
        return Fault;
      }
      v := v[next.value + 2..];
      PrependOne(headers0, h, ParseHeaders(v));
    }
    v := v[2..];
    assert headers + [] == headers;
    parser.view := v;
    return Ok(headers);
  }

  lemma PrependNone(r: Outcome<(seq<Header>, string)>)
    ensures Prepend([], r) == r
  {
    if r.Ok? {
      assert [] + r.value.0 == r.value.0;
    }
  }

  lemma PrependOne(hs: seq<Header>, h: Header, r: Outcome<(seq<Header>, string)>)
    ensures Prepend(hs + [h], r) == Prepend(hs, Prepend([h], r))
  {
    if r.Ok? {
      assert hs + [h] + r.value.0 == hs + ([h] + r.value.0);
    }
  }

  method ParseHttpRequest(str: string) returns (r: Outcome<HTTPRequest>)
    ensures match ParseRequest(str)
      case Ok(request) => r.Ok? && fresh(r.value) && fresh(r.value.message) && r.value.Value() == request
      case Err => r.Err?
      case Fault => r.Fault?
  {
    var parser := new StringParser(str);
    var request :- ParseRequestLineAt(parser);
    var headers :- ParseMessageHeaders(parser);
    ghost var line := ParseRequestLine(str).value.0;
    for i := 0 to |headers|
      invariant fresh(request) && fresh(request.message)
      invariant Sorted(request.message.headers)
      invariant request.Value() == Request(line.verb, line.path, line.version, request.message.headers, [])
      invariant SetAll([], headers) == SetAll(request.message.headers, headers[i..])
      modifies request.message
    {
      assert headers[i..][0] == headers[i] && headers[i..][1..] == headers[i + 1..];
      request.message.SetHeader(headers[i].key, headers[i].value);
    }
    request.message.SetContent(parser.view);
    return Ok(request);
  }
}
