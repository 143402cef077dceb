/** From the text of a request to the text of its response. */
module HttpHandler {
  import opened Wrappers
  import opened StringParser
  import opened OrderedMap
  import opened HttpMessage
  import opened HttpParser
  import opened HttpRoundTrip
  import FI = FileIndex
  import FC = FileCache

  const WEBDIR := "../webdir"

  function DecodeFiletype(t: FI.FileType): string {
    match t
    case TextHtml => "text/html"
    case TextCss => "text/css"
    case TextJs => "text/javascript"
    case TextPlain => "text/plain"
    case ImagePng => "image/png"
    case ImageSvg => "image/svg+xml"
    case FontTtf => "font/ttf"
    case FontWoff => "font/woff"
    case FontWoff2 => "font/woff2"
  }

  function DecodeEncoding(e: FI.FileEncoding): string {
    match e
    case NoEncoding => ""
    case Brotli => "br"
    case Deflate => "deflate"
    case Gzip => "gzip"
  }

  function RemoveQuery(path: string): string {
    match Find(path, "?")
    case None => path
    case Some(i) => path[..i]
  }

  function FilePath(requestPath: string): string {
    WEBDIR + RemoveQuery(requestPath)
  }

  const CONTENT_TYPE := "Content-Type"
  const CONTENT_ENCODING := "Content-Encoding"

  /** The headers of a found file, in the order of their names. */
  function FileHeaders(data: FI.FileData): seq<Header> {
    (if data.encoding == FI.NoEncoding then [] else [Header(CONTENT_ENCODING, DecodeEncoding(data.encoding))])
    + [Header(CONTENT_TYPE, DecodeFiletype(data.filetype))]
  }

  /** The response to a request for which the fetcher answered `fetched`. */
  function ResponseTo(verb: Method, fetched: Option<FI.FileData>): Response {
    match fetched
    case None => Response(NotFound, V11, [], [])
    case Some(data) => Response(OK, V11, FileHeaders(data), if verb == HEAD then [] else data.content)
  }

  lemma TypesAreClean(t: FI.FileType)
    ensures NoLineBreak(DecodeFiletype(t))
  {
    match t
    case TextHtml =>
    case TextCss =>
    case TextJs =>
    case TextPlain =>
    case ImagePng =>
    case ImageSvg =>
    case FontTtf =>
    case FontWoff =>
    case FontWoff2 =>
  }

  lemma KeysAreClean()
    ensures NoLineBreak(CONTENT_TYPE) && ' ' !in CONTENT_TYPE
    ensures NoLineBreak(CONTENT_ENCODING) && ' ' !in CONTENT_ENCODING
  {
  }

  lemma EncodingsAreClean(e: FI.FileEncoding)
    ensures NoLineBreak(DecodeEncoding(e))
  {
  }

  lemma FileHeadersAreClean(data: FI.FileData)
    ensures Sorted(FileHeaders(data)) && CleanHeaders(FileHeaders(data))
  {
    EncodingBeforeType();
    KeysAreClean();
    TypesAreClean(data.filetype);
    EncodingsAreClean(data.encoding);
    hide DecodeFiletype, DecodeEncoding, Less, NoLineBreak, CleanHeaders, Sorted;
    var typed := Header(CONTENT_TYPE, DecodeFiletype(data.filetype));
    var encoded := Header(CONTENT_ENCODING, DecodeEncoding(data.encoding));
    PairIsClean(encoded, typed);
    assert FileHeaders(data) == if data.encoding == FI.NoEncoding then [typed] else [encoded, typed];
  }

  lemma PairIsClean(h: Header, h': Header)
    requires CleanHeader(h) && CleanHeader(h') && Less(h.key, h'.key)
    ensures CleanHeaders([h']) && Sorted([h']) && CleanHeaders([h, h']) && Sorted([h, h'])
  {
    hide CleanHeader, Less;
  }

  /** Setting the type and then, where there is one, the encoding. */
  lemma FileHeadersAreSet(data: FI.FileData)
    ensures var typed := Set([], CONTENT_TYPE, DecodeFiletype(data.filetype));
      if data.encoding == FI.NoEncoding then typed == FileHeaders(data)
      else Set(typed, CONTENT_ENCODING, DecodeEncoding(data.encoding)) == FileHeaders(data)
  {
    EncodingBeforeType();
    KeysDiffer();
  }

  lemma KeysDiffer()
    ensures CONTENT_TYPE != CONTENT_ENCODING
  {
    assert |CONTENT_TYPE| != |CONTENT_ENCODING|;
  }

  lemma EncodingBeforeType()
    ensures Less(CONTENT_ENCODING, CONTENT_TYPE)
  {
    var a, b := CONTENT_ENCODING, CONTENT_TYPE;
    LessAfterPrefix(a, b, 8);
  }

  lemma {:induction false} LessAfterPrefix(a: string, b: string, n: nat)
    requires n < |a| && n < |b| && a[..n] == b[..n] && a[n] < b[n]
    ensures Less(a, b)
  {
    if n != 0 {
      assert a[0] == a[..n][0] == b[..n][0] == b[0];
      assert a[1..][..n - 1] == a[..n][1..] && b[1..][..n - 1] == b[..n][1..];
      LessAfterPrefix(a[1..], b[1..], n - 1);
    }
  }

  // ----- The code -----

  /** Looking through the cache. */
  function Through(cache: map<string, FI.FileData>, ds: map<string, FI.FileDescriptor>, disk: map<string, string>)
    : string -> Option<FI.FileData>
  {
    path => FC.Lookup(cache, path, FI.Fetch(ds, disk, path))
  }

  method PrepareResponse(request: HTTPRequest, files: FC.CacheFileFetcher, disk: map<string, string>)
    returns (response: HTTPResponse)
    modifies files`cache
    ensures response.Value() ==
            ResponseTo(request.verb, Through(old(files.cache), files.fetcher.descriptors, disk)(FilePath(request.path)))
    ensures files.cache == FC.Remembered(old(files.cache), FilePath(request.path),
                                          FI.Fetch(files.fetcher.descriptors, disk, FilePath(request.path)))
    ensures fresh(response) && fresh(response.message)
  {
    response := new HTTPResponse(OK, V11);
    var i := FindFirst(request.path, "?");
    var path := WEBDIR + (if i.Some? then request.path[..i.value] else request.path);
    var fetched := files.GetFile(path, disk);
    if fetched.None? {
      response := new HTTPResponse(NotFound, V11);
      return;
    }
    Fill(response.message, request.verb, fetched.value);
  }

  /** Headers and content of a response with a file. */
  method Fill(message: HTTPMessage, verb: Method, data: FI.FileData)
    requires message.headers == [] && message.body == []
    modifies message
    ensures message.headers == FileHeaders(data)
    ensures message.body == if verb == HEAD then [] else data.content
  {
    FileHeadersAreSet(data);
    message.SetHeader(CONTENT_TYPE, DecodeFiletype(data.filetype));
    if data.encoding != FI.NoEncoding {
      message.SetHeader(CONTENT_ENCODING, DecodeEncoding(data.encoding));
    }
    if verb != HEAD {
      message.SetContent(data.content);
    }
  }

  /** The whole handler, on values: nothing is answered to a request that is refused. */
  function Handled(s: string, fetch: string -> Option<FI.FileData>): Outcome<Option<string>> {
    match ParseRequest(s)
    case Ok(r) => Ok(Some(PrintResponse(ResponseTo(r.verb, fetch(FilePath(r.path))))))
    case Err => Ok(None)
    case Fault => Fault
  }

  function CacheAfter(cache: map<string, FI.FileData>, ds: map<string, FI.FileDescriptor>, disk: map<string, string>,
                      s: string): map<string, FI.FileData>
  {
    if !ParseRequest(s).Ok? then cache
    else
      var path := FilePath(ParseRequest(s).value.path);
      FC.Remembered(cache, path, FI.Fetch(ds, disk, path))
  }

  method Handle(s: string, files: FC.CacheFileFetcher, disk: map<string, string>) returns (r: Outcome<Option<string>>)
    modifies files`cache
    ensures r == Handled(s, Through(old(files.cache), files.fetcher.descriptors, disk))
    ensures files.cache ==
            CacheAfter(old(files.cache), files.fetcher.descriptors, disk, s)
  {
    var parsed := ParseHttpRequest(s);
    match parsed
    case Fault => return Fault;
    case Err => return Ok(None);
    case Ok(request) =>
      var response := PrepareResponse(request, files, disk);
      var text := response.Print();
      return Ok(Some(text));
  }

  // ----- What the responses mean -----

  /** HEAD mirrors GET (section 4.3.2 of RFC 7231): the HEAD response followed by the content is the
      GET response, and for a missing file the two are equal. */
  lemma HeadMirrorsGet(fetched: Option<FI.FileData>)
    ensures PrintResponse(ResponseTo(GET, fetched)) ==
            PrintResponse(ResponseTo(HEAD, fetched)) + (if fetched.Some? then fetched.value.content else [])
  {
    var get, head := ResponseTo(GET, fetched), ResponseTo(HEAD, fetched);
    assert PrintResponse(head) == StatusLine(head) + PrintHeaders(head.headers) + CRLF + [];
  }

  /** A clean request is answered as the fetcher answers for its path. */
  lemma CleanIsHandled(r: Request, fetch: string -> Option<FI.FileData>)
    requires Clean(r) && r.version in {V11, V20}
    ensures Handled(PrintRequest(r), fetch) == Ok(Some(PrintResponse(ResponseTo(r.verb, fetch(FilePath(r.path))))))
  {
    PrintThenParse(r);
  }

  /** Through the whole handler: the same request sent with HEAD instead of GET. */
  lemma HeadRequestMirrorsGet(r: Request, fetch: string -> Option<FI.FileData>)
    requires Clean(r) && r.version in {V11, V20} && r.verb == GET
    ensures var fetched := fetch(FilePath(r.path));
      var content := if fetched.Some? then fetched.value.content else [];
      var get, head := Handled(PrintRequest(r), fetch), Handled(PrintRequest(r.(verb := HEAD)), fetch);
      get.Ok? && get.value.Some? && head.Ok? && head.value.Some? &&
      get.value.value == head.value.value + content
  {
    CleanIsHandled(r, fetch);
    CleanIsHandled(r.(verb := HEAD), fetch);
    HeadMirrorsGet(fetch(FilePath(r.path)));
  }

  /** A client that reads the header block of a response finds Content-Encoding: br exactly when the
      Brotli file was read, the type of the file, and then the content. */
  lemma ResponseTellsEncoding(ds: map<string, FI.FileDescriptor>, disk: map<string, string>, verb: Method, path: string)
    requires FI.IndexOk(ds) && path in ds && verb != HEAD
    ensures var r := ResponseTo(verb, FI.Fetch(ds, disk, path));
      && r.status == OK && StatusLine(r) <= PrintResponse(r)
      && var block := ParseHeaders(PrintResponse(r)[|StatusLine(r)|..]);
         && block.Ok?
         && TellsEncoding(block.value.0, FI.Brotli in ds[path].paths)
         && Header(CONTENT_TYPE, DecodeFiletype(FI.EncodeFiletype(FI.Filename(path)))) in block.value.0
         && var actual := if FI.Brotli in ds[path].paths then path + ".br" else path;
            block.value.1 == if actual in disk then disk[actual] else ""
  {
    FI.ServedFromOneOfTwo(ds, disk, path);
    var data := FI.Fetch(ds, disk, path).value;
    FileIsReadBack(verb, data);
    EncodingIsTold(data);
  }

  lemma FileIsReadBack(verb: Method, data: FI.FileData)
    requires verb != HEAD
    ensures var r := ResponseTo(verb, Some(data));
      StatusLine(r) <= PrintResponse(r) &&
      ParseHeaders(PrintResponse(r)[|StatusLine(r)|..]) == Ok((FileHeaders(data), data.content))
  {
    FileHeadersAreClean(data);
    ResponseIsReadable(ResponseTo(verb, Some(data)));
  }

  /** The headers say `Content-Encoding: br` if and only if `brotli`, and never another encoding. */
  ghost predicate TellsEncoding(hs: seq<Header>, brotli: bool) {
    && (brotli <==> Header(CONTENT_ENCODING, "br") in hs)
    && (forall h :: h in hs && h.key == CONTENT_ENCODING ==> h.value == "br")
  }

  lemma EncodingIsTold(data: FI.FileData)
    requires data.encoding in {FI.NoEncoding, FI.Brotli}
    ensures TellsEncoding(FileHeaders(data), data.encoding == FI.Brotli)
    ensures Header(CONTENT_TYPE, DecodeFiletype(data.filetype)) in FileHeaders(data)
  {
    KeysDiffer();
    assert data.encoding == FI.Brotli ==> FileHeaders(data)[0] == Header(CONTENT_ENCODING, "br");
  }

  // ----- One request after another -----

  /** What is cached is what the disk fetcher answers. */
  ghost predicate CacheAgrees(cache: map<string, FI.FileData>, ds: map<string, FI.FileDescriptor>,
                              disk: map<string, string>) {
    forall path :: path in cache ==> FI.Fetch(ds, disk, path) == Some(cache[path])
  }

  function Uncached(ds: map<string, FI.FileDescriptor>, disk: map<string, string>): string -> Option<FI.FileData> {
    path => FI.Fetch(ds, disk, path)
  }

  /** With such a cache every text is answered as without it, and the cache stays such. */
  lemma AgreeingCacheIsUnseen(cache: map<string, FI.FileData>, ds: map<string, FI.FileDescriptor>,
                              disk: map<string, string>, s: string)
    requires CacheAgrees(cache, ds, disk)
    ensures Handled(s, Through(cache, ds, disk)) == Handled(s, Uncached(ds, disk))
    ensures CacheAgrees(CacheAfter(cache, ds, disk, s), ds, disk)
  {
    hide ParseRequest, PrintResponse, FI.Fetch, FilePath;
  }

  /** The answers to a sequence of texts, handled one after another over one cache. */
  function AnswersInTurn(cache: map<string, FI.FileData>, ds: map<string, FI.FileDescriptor>,
                         disk: map<string, string>, texts: seq<string>): (answers: seq<Outcome<Option<string>>>)
    ensures |answers| == |texts|
    decreases |texts|
  {
    if texts == [] then []
    else [Handled(texts[0], Through(cache, ds, disk))] +
         AnswersInTurn(CacheAfter(cache, ds, disk, texts[0]), ds, disk, texts[1..])
  }

  /** From an empty cache on, every text of every sequence is answered as without the cache. */
  lemma {:induction false} EveryAnswerIsUncached(cache: map<string, FI.FileData>, ds: map<string, FI.FileDescriptor>,
                                                 disk: map<string, string>, texts: seq<string>, k: nat)
    requires CacheAgrees(cache, ds, disk) && k < |texts|
    ensures AnswersInTurn(cache, ds, disk, texts)[k] == Handled(texts[k], Uncached(ds, disk))
    decreases |texts|
  {
    hide CacheAgrees, CacheAfter, Handled, Through, Uncached;
    AgreeingCacheIsUnseen(cache, ds, disk, texts[0]);
    if k != 0 {
      EveryAnswerIsUncached(CacheAfter(cache, ds, disk, texts[0]), ds, disk, texts[1..], k - 1);
    }
  }

  lemma QueryIsRemoved(file: string, query: string)
    requires '?' !in file && (query == "" || query[0] == '?')
    ensures RemoveQuery(file + query) == file
  {
    var s := file + query;
    assert forall i :: 0 <= i < |file| ==> s[i] == file[i];
    if query == "" {
      assert s == file;
    } else {
      assert s[|file|] == '?';
      FindIs(s, "?", |file|);
      assert s[..|file|] == file;
    }
  }
}
