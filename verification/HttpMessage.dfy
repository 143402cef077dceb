/** HTTP messages and how they are printed. */
module HttpMessage {
  import opened StringParser
  import opened OrderedMap

  datatype Method = GET | POST | PUT | DELETE | HEAD | OPTIONS | TRACE | CONNECT

  datatype Version = V10 | V11 | V20 | Invalid

  datatype Status = OK | NotFound

  datatype Request = Request(verb: Method, path: string, version: Version, headers: seq<Header>, body: string)

  datatype Response = Response(status: Status, version: Version, headers: seq<Header>, body: string)

  function MethodString(m: Method): string {
    match m
    case GET => "GET"
    case POST => "POST"
    case PUT => "PUT"
    case DELETE => "DELETE"
    case HEAD => "HEAD"
    case OPTIONS => "OPTIONS"
    case TRACE => "TRACE"
    case CONNECT => "CONNECT"
  }

  /** The table has no entry for an invalid version. */
  function VersionString(v: Version): string
    requires v != Invalid
  {
    match v
    case V10 => "HTTP/1.0"
    case V11 => "HTTP/1.1"
    case V20 => "HTTP/2.0"
  }

  function StatusString(s: Status): string {
    match s
    case OK => "200 OK"
    case NotFound => "404 Not Found"
  }

  function HeaderLine(h: Header): string {
    h.key + ": " + h.value
  }

  function PrintHeaders(hs: seq<Header>): string {
    if hs == [] then [] else HeaderLine(hs[0]) + CRLF + PrintHeaders(hs[1..])
  }

  lemma PrintOne(out: string, hs: seq<Header>, i: nat)
    requires i < |hs|
    ensures out + PrintHeaders(hs[i..]) ==
            (out + hs[i].key + ": " + hs[i].value + CRLF) + PrintHeaders(hs[i + 1..])
  {
    assert hs[i..][0] == hs[i] && hs[i..][1..] == hs[i + 1..];
  }

  function PrintRequest(r: Request): string
    requires r.version != Invalid
  {
    MethodString(r.verb) + " " + r.path + " " + VersionString(r.version) + CRLF
    + PrintHeaders(r.headers) + CRLF + r.body
  }

  function StatusLine(r: Response): string
    requires r.version != Invalid
  {
    VersionString(r.version) + " " + StatusString(r.status) + CRLF
  }

  function PrintResponse(r: Response): string
    requires r.version != Invalid
  {
    StatusLine(r) + PrintHeaders(r.headers) + CRLF + r.body
  }

  /** What requests and responses share; both hold one. */
  class HTTPMessage {
    var headers: seq<Header>
    var body: string
    const version: Version

    constructor (version: Version)
      ensures this.version == version && headers == [] && body == []
    {
      this.version, this.headers, this.body := version, [], [];
    }

    method SetHeader(key: string, value: string)
      requires Sorted(headers)
      modifies this`headers
      ensures headers == Set(old(headers), key, value)
      ensures Sorted(headers) && AsMap(headers) == AsMap(old(headers))[key := value]
    {
      SetKeepsSorted(headers, key, value);
      SetUpdatesMap(headers, key, value);
      headers := Set(headers, key, value);
    }

    method SetContent(content: string)
      modifies this`body
      ensures body == content
    {
      body := content;
    }

    /** The header lines, the empty line and the body. */
    method Write(prefix: string) returns (out: string)
      ensures out == prefix + PrintHeaders(headers) + CRLF + body
    {
      out := prefix;
      assert headers[0..] == headers;
      for i := 0 to |headers|
        invariant out + PrintHeaders(headers[i..]) == prefix + PrintHeaders(headers)
      {
        PrintOne(out, headers, i);
        out := out + headers[i].key + ": " + headers[i].value + CRLF;
      }
      assert out == out + PrintHeaders(headers[|headers|..]);
      out := out + CRLF;
      out := out + body;
    }
  }

  class HTTPRequest {
    const message: HTTPMessage
    const verb: Method
    const path: string

    ghost function Value(): Request
      reads message
    {
      Request(verb, path, message.version, message.headers, message.body)
    }

    constructor (verb: Method, path: string, version: Version)
      ensures Value() == Request(verb, path, version, [], []) && fresh(message)
    {
      this.verb, this.path := verb, path;
      message := new HTTPMessage(version);
    }

    method Print() returns (out: string)
      requires message.version != Invalid
      ensures out == PrintRequest(Value())
    {
      out := MethodString(verb) + " " + path + " " + VersionString(message.version) + CRLF;
      out := message.Write(out);
    }
  }

  class HTTPResponse {
    const message: HTTPMessage
    const status: Status

    ghost function Value(): Response
      reads message
    {
      Response(status, message.version, message.headers, message.body)
    }

    constructor (status: Status, version: Version)
      ensures Value() == Response(status, version, [], []) && fresh(message)
    {
      this.status := status;
      message := new HTTPMessage(version);
    }

    method Print() returns (out: string)
      requires message.version != Invalid
      ensures out == PrintResponse(Value())
    {
      out := VersionString(message.version) + " " + StatusString(status) + CRLF;
      out := message.Write(out);
    }
  }
}
