/** What clients are answered, letter by letter. */
module HttpAnswers {
  import opened Wrappers
  import opened StringParser
  import opened OrderedMap
  import opened HttpMessage
  import opened HttpParser
  import opened HttpHandler

  // ----- The text of a response -----

  function FoundText(media: string, brotli: bool, body: string): string {
    "HTTP/1.1 200 OK\r\n" + (if brotli then "Content-Encoding: br\r\n" else "") +
    "Content-Type: " + media + "\r\n" + "\r\n" + body
  }

  lemma StartsWithOk(media: string, brotli: bool, body: string)
    ensures "HTTP/1.1 200 OK\r\n" <= FoundText(media, brotli, body)
  {
  }

  lemma MissingIsPrinted(verb: Method)
    ensures PrintResponse(ResponseTo(verb, None)) == "HTTP/1.1 404 Not Found\r\n\r\n"
  {
    var r := ResponseTo(verb, None);
    assert StatusLine(r) == "HTTP/1.1 404 Not Found\r\n" by {
      assert "HTTP/1.1" + " " + "404 Not Found" + "\r\n" == "HTTP/1.1 404 Not Found\r\n";
    }
    assert PrintHeaders([]) == "";
    hide StatusLine, PrintHeaders;
    assert PrintResponse(r) == "HTTP/1.1 404 Not Found\r\n" + "" + "\r\n" + "";
  }

  lemma OkLine(r: Response)
    requires r.status == OK && r.version == V11
    ensures StatusLine(r) == "HTTP/1.1 200 OK\r\n"
  {
    assert "HTTP/1.1" + " " + "200 OK" + "\r\n" == "HTTP/1.1 200 OK\r\n";
  }

  lemma TypeLine(media: string)
    ensures PrintHeaders([Header("Content-Type", media)]) == "Content-Type: " + media + "\r\n"
  {
    var hs := [Header("Content-Type", media)];
    assert hs[1..] == [];
    assert "Content-Type" + ": " == "Content-Type: ";
    assert PrintHeaders(hs) == HeaderLine(hs[0]) + CRLF + PrintHeaders([]);
    assert HeaderLine(hs[0]) == "Content-Type" + ": " + media;
  }

  lemma EncodingLine(rest: seq<Header>)
    ensures PrintHeaders([Header("Content-Encoding", "br")] + rest) == "Content-Encoding: br\r\n" + PrintHeaders(rest)
  {
    var hs := [Header("Content-Encoding", "br")] + rest;
    assert hs[1..] == rest;
    assert "Content-Encoding" + ": " + "br" + "\r\n" == "Content-Encoding: br\r\n";
  }

  lemma PartsInARow(a: string, b: string, c: string, d: string, e: string, f: string)
    ensures a + b + c + d + e + e + f == a + (b + (c + d + e)) + e + f
  {
  }

  /** The response for a found file is the status line, the encoding of a Brotli representation, the
      type, the empty line and the content, which HEAD leaves out. */
  lemma FoundIsPrinted(verb: Method, data: FI.FileData)
    requires data.encoding in {FI.NoEncoding, FI.Brotli}
    ensures PrintResponse(ResponseTo(verb, Some(data))) ==
            FoundText(DecodeFiletype(data.filetype), data.encoding == FI.Brotli,
                      if verb == HEAD then "" else data.content)
  {
    hide StatusLine, PrintHeaders, DecodeFiletype;
    PartsInARow("HTTP/1.1 200 OK\r\n", if data.encoding == FI.Brotli then "Content-Encoding: br\r\n" else "",
      "Content-Type: ", DecodeFiletype(data.filetype), "\r\n", if verb == HEAD then "" else data.content);
    var r, media := ResponseTo(verb, Some(data)), DecodeFiletype(data.filetype);
    OkLine(r);
    TypeLine(media);
    EncodingLine([Header("Content-Type", media)]);
    if data.encoding == FI.Brotli {
      assert r.headers == [Header("Content-Encoding", "br")] + [Header("Content-Type", media)];
    } else {
      assert r.headers == [Header("Content-Type", media)];
    }
  }

  // ----- A site -----

  /** A directory tree below the root, the files Brotli compresses, and the contents on the disk. */
  datatype Site = Site(tree: seq<FI.Entry>, compress: string -> bool, disk: map<string, string>) {
    /** The index after the directory was listed and encoded representations were added. */
    function Index(): map<string, FI.FileDescriptor> {
      FI.EncodedIndex(FI.IndexOf(Files()), compress)
    }

    function Files(): set<string> {
      FI.FilesBelow("../webdir", tree)
    }

    /** A file that cannot be opened reads as empty. */
    function Content(path: string): string {
      if path in disk then disk[path] else ""
    }
  }

  /** `s` is accepted as the request `r` for `file`, with or without a query behind it. */
  ghost predicate AsksFor(s: string, r: Request, file: string) {
    && ParseRequest(s) == Ok(r) && '?' !in file
    && exists query :: (query == "" || query[0] == '?') && r.path == file + query
  }

  lemma FileAskedFor(s: string, r: Request, file: string)
    requires AsksFor(s, r, file)
    ensures FilePath(r.path) == "../webdir" + file
  {
    hide ParseRequest;
    var query :| (query == "" || query[0] == '?') && r.path == file + query;
    QueryIsRemoved(file, query);
  }

  /** Every accepted text asks for exactly one file. */
  lemma AsksForOne(s: string, r: Request) returns (file: string)
    requires ParseRequest(s) == Ok(r)
    ensures AsksFor(s, r, file) && forall other :: AsksFor(s, r, other) ==> other == file
  {
    hide ParseRequest, Find, RemoveQuery;
    file := RemoveQuery(r.path);
    var query := SplitQuery(r.path);
    forall other | AsksFor(s, r, other) ensures other == file {
      var rest :| (rest == "" || rest[0] == '?') && r.path == other + rest;
      QueryIsRemoved(other, rest);
    }
  }

  lemma SplitQuery(path: string) returns (query: string)
    ensures (query == "" || query[0] == '?') && path == RemoveQuery(path) + query && '?' !in RemoveQuery(path)
  {
    match Find(path, "?")
    case None =>
      query := "";
      assert path == path + "";
    case Some(i) =>
      query := path[i..];
      assert forall j :: 0 <= j < i ==> path[..i][j] == path[j];
  }

  lemma AnswerIs(site: Site, cache: map<string, FI.FileData>, s: string, r: Request, file: string)
    requires AsksFor(s, r, file) && CacheAgrees(cache, site.Index(), site.disk)
    ensures Handled(s, Through(cache, site.Index(), site.disk)) ==
            Ok(Some(PrintResponse(ResponseTo(r.verb, FI.Fetch(site.Index(), site.disk, "../webdir" + file)))))
  {
    hide ParseRequest, PrintResponse, FI.Fetch, FilePath, CacheAgrees, Through;
    FileAskedFor(s, r, file);
    AgreeingCacheIsUnseen(cache, site.Index(), site.disk, s);
  }

  /** Whatever the method, and whatever earlier requests left in the cache: a request for a file that
      is not below the root is answered 404, in these letters. */
  lemma MissingFileIsAnswered(site: Site, cache: map<string, FI.FileData>, s: string, r: Request, file: string)
    requires AsksFor(s, r, file) && CacheAgrees(cache, site.Index(), site.disk)
    requires "../webdir" + file !in site.Files()
    ensures Handled(s, Through(cache, site.Index(), site.disk)) == Ok(Some("HTTP/1.1 404 Not Found\r\n\r\n"))
  {
    hide PrintResponse, AsksFor, CacheAgrees, Through, Handled, ResponseTo;
    AnswerIs(site, cache, s, r, file);
    MissingIsPrinted(r.verb);
  }

  /** What the index answers for a file below the root. */
  lemma IndexedFile(site: Site, dir: string, name: string)
    requires FI.WellNamed(site.tree) && '/' !in name && "../webdir" + (dir + "/" + name) in site.Files()
    ensures var path, filetype := "../webdir" + (dir + "/" + name), FI.EncodeFiletype(name);
      var brotli := FI.Compressible(filetype) && site.compress(path);
      FI.Fetch(site.Index(), site.disk, path) ==
      Some(FI.FileData(filetype, if brotli then FI.Brotli else FI.NoEncoding,
                       site.Content(if brotli then path + ".br" else path)))
  {
    hide FI.EncodeFiletype, FI.Compressible, FI.FilesBelow, FI.WellNamed, FI.Filename, FI.Parent;
    var path := "../webdir" + (dir + "/" + name);
    assert path == "../webdir" + dir + "/" + name;
    FI.IndexedByName("../webdir", site.tree, "../webdir" + dir, name);
    FI.InputIsKey("../webdir", site.tree, path);
  }

  lemma FoundIsAnswered(site: Site, cache: map<string, FI.FileData>, s: string, r: Request, dir: string, name: string)
    requires FI.WellNamed(site.tree) && '/' !in name && "../webdir" + (dir + "/" + name) in site.Files()
    requires AsksFor(s, r, dir + "/" + name) && CacheAgrees(cache, site.Index(), site.disk)
    ensures Handled(s, Through(cache, site.Index(), site.disk)) ==
            Ok(Some(FileAnswer(site, r.verb, "../webdir" + (dir + "/" + name), DecodeFiletype(FI.EncodeFiletype(name)),
                               FI.Compressible(FI.EncodeFiletype(name)))))
  {
    hide PrintResponse, AsksFor, CacheAgrees, Through, Handled, ResponseTo, FoundText;
    hide DecodeFiletype, FI.EncodeFiletype, FI.Compressible, FI.Fetch, FI.WellNamed;
    AnswerIs(site, cache, s, r, dir + "/" + name);
    IndexedFile(site, dir, name);
    FoundIsPrinted(r.verb, FI.Fetch(site.Index(), site.disk, "../webdir" + (dir + "/" + name)).value);
  }

  /** The answer that carries a file, or its Brotli representation when it is web text and compresses. */
  function FileAnswer(site: Site, verb: Method, path: string, media: string, webText: bool): string {
    var brotli := webText && site.compress(path);
    FoundText(media, brotli, if verb == HEAD then "" else site.Content(if brotli then path + ".br" else path))
  }

  /** The media type of a suffix. */
  function MediaType(suffix: string): string {
    match suffix
    case "html" => "text/html"
    case "css" => "text/css"
    case "js" => "text/javascript"
    case "png" => "image/png"
    case "svg" => "image/svg+xml"
    case "ttf" => "font/ttf"
    case "woff" => "font/woff"
    case "woff2" => "font/woff2"
    case _ => "text/plain"
  }

  lemma TypeOfSuffix(stem: string, suffix: string)
    requires stem != "" && '.' !in suffix
    ensures DecodeFiletype(FI.EncodeFiletype(stem + "." + suffix)) == MediaType(suffix)
    ensures FI.Compressible(FI.EncodeFiletype(stem + "." + suffix)) <==>
            suffix == "html" || suffix == "css" || suffix == "js"
  {
    hide FI.EncodeFiletype;
    FI.TypeBySuffix(stem, suffix);
  }

  /** A request, with any method, for any file below the root whose name is a stem, a dot and a suffix
      without a dot: it is answered 200 with the media type of the suffix and the content of the file,
      or of its Brotli representation if the suffix is one of three and the file compresses. */
  lemma SuffixedFileIsAnswered(site: Site, cache: map<string, FI.FileData>, s: string, r: Request,
                               dir: string, stem: string, suffix: string)
    requires stem != "" && '/' !in stem && '.' !in suffix && '/' !in suffix
    requires FI.WellNamed(site.tree) && "../webdir" + (dir + "/" + (stem + "." + suffix)) in site.Files()
    requires AsksFor(s, r, dir + "/" + (stem + "." + suffix)) && CacheAgrees(cache, site.Index(), site.disk)
    ensures Handled(s, Through(cache, site.Index(), site.disk)) ==
            Ok(Some(FileAnswer(site, r.verb, "../webdir" + (dir + "/" + (stem + "." + suffix)), MediaType(suffix),
                               suffix == "html" || suffix == "css" || suffix == "js")))
  {
    hide AsksFor, CacheAgrees, Through, Handled, FileAnswer, MediaType, FI.WellNamed, FI.EncodeFiletype, DecodeFiletype;
    FoundIsAnswered(site, cache, s, r, dir, stem + "." + suffix);
    TypeOfSuffix(stem, suffix);
  }

  /** The same for a name without a dot, or with only a leading one: plain text, never compressed. */
  lemma PlainFileIsAnswered(site: Site, cache: map<string, FI.FileData>, s: string, r: Request,
                            dir: string, name: string)
    requires (name == "" || '.' !in name[1..]) && '/' !in name
    requires FI.WellNamed(site.tree) && "../webdir" + (dir + "/" + name) in site.Files()
    requires AsksFor(s, r, dir + "/" + name) && CacheAgrees(cache, site.Index(), site.disk)
    ensures Handled(s, Through(cache, site.Index(), site.disk)) ==
            Ok(Some(FileAnswer(site, r.verb, "../webdir" + (dir + "/" + name), "text/plain", false)))
  {
    hide AsksFor, CacheAgrees, Through, Handled, FileAnswer, FI.WellNamed, FI.EncodeFiletype;
    FoundIsAnswered(site, cache, s, r, dir, name);
    FI.TypeWithoutSuffix(name);
  }
}
