/** The index of files below a directory, and the encoded representations beside it. */
module FileIndex {
  import opened Wrappers

  datatype FileType =
    | TextHtml | TextCss | TextJs | TextPlain | ImagePng | ImageSvg | FontTtf | FontWoff | FontWoff2

  datatype FileEncoding = NoEncoding | Brotli | Deflate | Gzip

  datatype FileDescriptor = FileDescriptor(filename: string, filetype: FileType, paths: map<FileEncoding, string>)

  datatype FileData = FileData(filetype: FileType, encoding: FileEncoding, content: string)

  // ----- Names and paths -----

  function LastIndex(s: string, c: char): (r: Option<nat>)
    ensures r.Some? ==> r.value < |s| && s[r.value] == c && forall i :: r.value < i < |s| ==> s[i] != c
    ensures r.None? ==> c !in s
  {
    if s == [] then None
    else if s[|s| - 1] == c then Some(|s| - 1)
    else LastIndex(s[..|s| - 1], c)
  }

  /** std::filesystem::path::extension of a file name: from its last dot, unless that dot comes first. */
  function Extension(filename: string): string {
    if filename == ".." then ""
    else match LastIndex(filename, '.')
         case None => ""
         case Some(i) => if i == 0 then "" else filename[i..]
  }

  function EncodeFiletype(filename: string): FileType {
    TypeOfExtension(Extension(filename))
  }

  function TypeOfExtension(ext: string): FileType {
    if ext == ".html" then TextHtml
    else if ext == ".css" then TextCss
    else if ext == ".js" then TextJs
    else if ext == ".png" then ImagePng
    else if ext == ".svg" then ImageSvg
    else if ext == ".ttf" then FontTtf
    else if ext == ".woff" then FontWoff
    else if ext == ".woff2" then FontWoff2
    else TextPlain
  }

  /** The types of which a Brotli representation is made. */
  predicate Compressible(t: FileType) {
    t == TextHtml || t == TextCss || t == TextJs
  }

  function Join(dir: string, name: string): string {
    dir + "/" + name
  }

  function Filename(path: string): string {
    match LastIndex(path, '/')
    case None => path
    case Some(i) => path[i + 1..]
  }

  function Parent(path: string): string {
    match LastIndex(path, '/')
    case None => ""
    case Some(i) => path[..i]
  }

  lemma LastIndexIs(s: string, c: char, i: nat)
    requires i < |s| && s[i] == c && forall j :: i < j < |s| ==> s[j] != c
    ensures LastIndex(s, c) == Some(i)
  {
    assert LastIndex(s, c).Some?;
    var k := LastIndex(s, c).value;
    assert !(k < i) && !(i < k);
  }

  // ----- File types, by the text behind the last dot -----

  /** The suffix of a name counts from its last dot, unless nothing stands before that dot. */
  lemma ExtensionOfSuffix(stem: string, suffix: string)
    requires stem != "" && '.' !in suffix
    ensures Extension(stem + "." + suffix) == if suffix == "" && stem == "." then "" else "." + suffix
  {
    var name := stem + "." + suffix;
    var n := |stem|;
    assert name[n] == '.' && forall j :: n < j < |name| ==> name[j] == suffix[j - n - 1] && suffix[j - n - 1] in suffix;
    LastIndexIs(name, '.', n);
    assert name[n..] == "." + suffix;
    if name == ".." {
      assert |name| == n + 1 + |suffix| && stem == name[..n];
    }
  }

  lemma ExtensionOfNone(name: string)
    requires name == "" || '.' !in name[1..]
    ensures Extension(name) == ""
  {
    assert forall j :: 1 <= j < |name| ==> name[j] == name[1..][j - 1];
  }

  lemma DottedDiffer(a: string, b: string)
    ensures "." + a == "." + b <==> a == b
  {
    assert ("." + a)[1..] == a && ("." + b)[1..] == b;
  }

  /** Whatever its stem, a name has the type of its suffix: one of eight, or plain text. */
  lemma TypeBySuffix(stem: string, suffix: string)
    requires stem != "" && '.' !in suffix
    ensures EncodeFiletype(stem + "." + suffix) ==
            match suffix
            case "html" => TextHtml
            case "css" => TextCss
            case "js" => TextJs
            case "png" => ImagePng
            case "svg" => ImageSvg
            case "ttf" => FontTtf
            case "woff" => FontWoff
            case "woff2" => FontWoff2
            case _ => TextPlain
  {
    hide Extension, TypeOfExtension;
    ExtensionOfSuffix(stem, suffix);
    TypeOfDotted(suffix);
    EmptyExtension();
  }

  lemma EmptyExtension()
    ensures TypeOfExtension("") == TypeOfExtension(".") == TextPlain
  {
  }

  lemma TypeOfDotted(suffix: string)
    ensures TypeOfExtension("." + suffix) ==
            match suffix
            case "html" => TextHtml
            case "css" => TextCss
            case "js" => TextJs
            case "png" => ImagePng
            case "svg" => ImageSvg
            case "ttf" => FontTtf
            case "woff" => FontWoff
            case "woff2" => FontWoff2
            case _ => TextPlain
  {
    DottedDiffer(suffix, "html");
    DottedDiffer(suffix, "css");
    DottedDiffer(suffix, "js");
    DottedDiffer(suffix, "png");
    DottedDiffer(suffix, "svg");
    DottedDiffer(suffix, "ttf");
    DottedDiffer(suffix, "woff");
    DottedDiffer(suffix, "woff2");
  }

  /** A name without a dot, or with only a leading one, is plain text. */
  lemma TypeWithoutSuffix(name: string)
    requires name == "" || '.' !in name[1..]
    ensures EncodeFiletype(name) == TextPlain
  {
    hide Extension;
    ExtensionOfNone(name);
  }

  /** The last component of the path is a stem and one of three suffixes. */
  ghost predicate IsWebText(p: string) {
    exists dir, stem, suffix :: IsWebTextAt(p, dir, stem, suffix)
  }

  ghost predicate IsWebTextAt(p: string, dir: string, stem: string, suffix: string) {
    && p == dir + "/" + (stem + "." + suffix) && stem != "" && '/' !in stem
    && (suffix == "html" || suffix == "css" || suffix == "js")
  }

  predicate EncodedExtension(ext: string) {
    ext == ".html" || ext == ".css" || ext == ".js"
  }

  lemma WebTextIsEncoded(p: string, dir: string, stem: string, suffix: string)
    requires IsWebTextAt(p, dir, stem, suffix)
    ensures EncodedExtension(Extension(Filename(p)))
  {
    hide Extension, Filename;
    var name := stem + "." + suffix;
    assert '.' !in suffix && '/' !in suffix;
    assert '/' !in name;
    assert p == Join(dir, name);
    JoinParts(dir, name);
    ExtensionOfSuffix(stem, suffix);
  }

  lemma EncodedName(name: string) returns (stem: string, suffix: string)
    requires EncodedExtension(Extension(name))
    ensures name == stem + "." + suffix && stem != ""
    ensures suffix == "html" || suffix == "css" || suffix == "js"
  {
    hide LastIndex;
    var i := LastIndex(name, '.').value;
    stem, suffix := name[..i], name[i + 1..];
    assert name[i..] == "." + suffix;
    DottedDiffer(suffix, "html");
    DottedDiffer(suffix, "css");
    DottedDiffer(suffix, "js");
  }

  lemma EncodedIsWebText(p: string)
    requires '/' in p && EncodedExtension(Extension(Filename(p)))
    ensures IsWebText(p)
  {
    hide EncodedExtension, Extension;
    NameHasNoSlash(p);
    hide Filename, Parent;
    SplitAndJoin(p);
    var stem, suffix := EncodedName(Filename(p));
    assert forall i :: 0 <= i < |stem| ==> stem[i] == Filename(p)[i];
    assert Filename(p) == stem + ("." + suffix) == stem + "." + suffix;
    assert IsWebTextAt(p, Parent(p), stem, suffix);
  }

  lemma NameHasNoSlash(p: string)
    ensures '/' !in Filename(p)
  {
  }

  lemma JoinParts(dir: string, name: string)
    requires '/' !in name
    ensures Filename(Join(dir, name)) == name && Parent(Join(dir, name)) == dir
  {
    var p := Join(dir, name);
    assert p[|dir|] == '/';
    assert forall j :: |dir| < j < |p| ==> p[j] == name[j - |dir| - 1];
    LastIndexIs(p, '/', |dir|);
    assert p[..|dir|] == dir && p[|dir| + 1..] == name;
  }

  /** Parent and file name of a path put together again. */
  lemma SplitAndJoin(path: string)
    requires '/' in path
    ensures Join(Parent(path), Filename(path)) == path
  {
    var i := LastIndex(path, '/').value;
    assert path == path[..i] + [path[i]] + path[i + 1..];
  }

  // ----- Directory trees -----

  datatype Entry = File(name: string) | Dir(name: string, entries: seq<Entry>)

  /** What a file system guarantees of the entries of a directory. */
  ghost predicate WellNamed(es: seq<Entry>) {
    && (forall i :: 0 <= i < |es| ==> '/' !in es[i].name)
    && (forall i, j :: 0 <= i < j < |es| ==> es[i].name != es[j].name)
    && (forall i :: 0 <= i < |es| && es[i].Dir? ==> WellNamed(es[i].entries))
  }

  /** The paths of the files below `dir`, found by recursion. */
  function FilesBelow(dir: string, es: seq<Entry>): set<string>
    decreases es
  {
    if es == [] then {}
    else FilesOf(dir, es[0]) + FilesBelow(dir, es[1..])
  }

  function FilesOf(dir: string, e: Entry): set<string>
    decreases e
  {
    match e
    case File(name) => {Join(dir, name)}
    case Dir(name, sub) => FilesBelow(Join(dir, name), sub)
  }

  function FileCount(es: seq<Entry>): nat {
    if es == [] then 0
    else (match es[0] case File(_) => 1 case Dir(_, sub) => FileCount(sub)) + FileCount(es[1..])
  }

  /** The names from the top of the tree down to a file. */
  ghost predicate LeadsToFile(es: seq<Entry>, walk: seq<string>)
    decreases |walk|, 1
  {
    walk != [] && exists e :: e in es && LeadsThrough(e, walk)
  }

  ghost predicate LeadsThrough(e: Entry, walk: seq<string>)
    requires walk != []
    decreases |walk|, 0
  {
    e.name == walk[0] && if e.File? then |walk| == 1 else LeadsToFile(e.entries, walk[1..])
  }

  function WalkPath(dir: string, walk: seq<string>): string
    decreases |walk|
  {
    if walk == [] then dir else WalkPath(dir + "/" + walk[0], walk[1..])
  }

  lemma {:induction false} BelowHasWalk(dir: string, es: seq<Entry>, p: string) returns (walk: seq<string>)
    requires p in FilesBelow(dir, es)
    ensures LeadsToFile(es, walk) && WalkPath(dir, walk) == p
    decreases es
  {
    if p in FilesOf(dir, es[0]) {
      var e := es[0];
      if e.File? {
        walk := [e.name];
        assert walk[1..] == [];
      } else {
        var rest := BelowHasWalk(Join(dir, e.name), e.entries, p);
        walk := [e.name] + rest;
        assert walk[1..] == rest;
      }
      assert e in es && LeadsThrough(e, walk);
    } else {
      walk := BelowHasWalk(dir, es[1..], p);
      var e :| e in es[1..] && LeadsThrough(e, walk);
      assert e in es;
    }
  }

  lemma {:induction false} WalkIsBelow(dir: string, es: seq<Entry>, walk: seq<string>)
    requires LeadsToFile(es, walk)
    ensures WalkPath(dir, walk) in FilesBelow(dir, es)
    decreases |walk|
  {
    var e :| e in es && LeadsThrough(e, walk);
    assert WalkPath(dir, walk) == WalkPath(Join(dir, e.name), walk[1..]);
    if e.Dir? {
      WalkIsBelow(Join(dir, e.name), e.entries, walk[1..]);
    } else {
      assert walk[1..] == [];
      assert WalkPath(Join(dir, e.name), []) == Join(dir, e.name);
    }
    EntryIsBelow(dir, es, e, WalkPath(dir, walk));
  }

  lemma {:induction false} EntryIsBelow(dir: string, es: seq<Entry>, e: Entry, p: string)
    requires e in es && p in FilesOf(dir, e)
    ensures p in FilesBelow(dir, es)
  {
    if e != es[0] {
      EntryIsBelow(dir, es[1..], e, p);
    }
  }

  /** The paths below a directory are exactly those spelled by the ways from its top to a file. */
  lemma BelowExactly(dir: string, es: seq<Entry>, p: string)
    ensures p in FilesBelow(dir, es) <==> exists walk :: LeadsToFile(es, walk) && WalkPath(dir, walk) == p
  {
    hide LeadsToFile, WalkPath;
    if p in FilesBelow(dir, es) {
      var walk := BelowHasWalk(dir, es, p);
    }
    if walk :| LeadsToFile(es, walk) && WalkPath(dir, walk) == p {
      WalkIsBelow(dir, es, walk);
    }
  }

  /** Every path below `dir` starts with `dir` and a slash. */
  lemma {:induction false} BelowStartsWith(dir: string, es: seq<Entry>, p: string)
    requires p in FilesBelow(dir, es)
    ensures dir + "/" <= p
    decreases es
  {
    if p in FilesOf(dir, es[0]) {
      match es[0]
      case File(name) =>
      case Dir(name, sub) =>
        BelowStartsWith(Join(dir, name), sub, p);
        assert Join(dir, name) + "/" <= p && dir + "/" <= Join(dir, name) + "/";
    } else {
      BelowStartsWith(dir, es[1..], p);
    }
  }

  /** Every path below `dir` is a directory joined with a name without slash. */
  lemma {:induction false} BelowIsJoined(dir: string, es: seq<Entry>, p: string) returns (d: string, name: string)
    requires WellNamed(es) && p in FilesBelow(dir, es)
    ensures p == Join(d, name) && '/' !in name
    decreases es
  {
    if p in FilesOf(dir, es[0]) {
      match es[0]
      case File(n) =>
        d, name := dir, n;
      case Dir(n, sub) =>
        d, name := BelowIsJoined(Join(dir, n), sub, p);
    } else {
      d, name := BelowIsJoined(dir, es[1..], p);
    }
  }

  /** The path of an entry, or of anything below it, continues `dir` with a slash and the name of
      the entry; what comes next, if anything, is a slash. */
  lemma EntryStartsWith(dir: string, e: Entry, p: string)
    requires p in FilesOf(dir, e)
    ensures p == Join(dir, e.name) || Join(dir, e.name) + "/" <= p
  {
    if e.Dir? {
      BelowStartsWith(Join(dir, e.name), e.entries, p);
    }
  }

  lemma DifferentNamesDiffer(dir: string, e: Entry, e': Entry, p: string)
    requires '/' !in e.name && '/' !in e'.name && p in FilesOf(dir, e) && p in FilesOf(dir, e')
    ensures e.name == e'.name
  {
    EntryStartsWith(dir, e, p);
    EntryStartsWith(dir, e', p);
    NameIsDetermined(dir, e.name, e'.name, p);
  }

  /** The length of the part before the first slash. */
  function Component(x: string): (n: nat)
    ensures n <= |x| && (n < |x| ==> x[n] == '/') && forall i :: 0 <= i < n ==> x[i] != '/'
  {
    if x == [] || x[0] == '/' then 0 else 1 + Component(x[1..])
  }

  lemma ComponentIs(x: string, a: string)
    requires '/' !in a && (x == a || a + "/" <= x)
    ensures a == x[..Component(x)]
  {
    assert forall i :: 0 <= i < |a| ==> x[i] == a[i];
    assert |a| < |x| ==> x[|a|] == '/';
  }

  /** The first component after `dir` can be read off the path. */
  lemma NameIsDetermined(dir: string, a: string, b: string, p: string)
    requires '/' !in a && '/' !in b
    requires p == Join(dir, a) || Join(dir, a) + "/" <= p
    requires p == Join(dir, b) || Join(dir, b) + "/" <= p
    ensures a == b
  {
    var x := p[|dir| + 1..];
    AfterJoin(dir, a, p);
    AfterJoin(dir, b, p);
    ComponentIs(x, a);
    ComponentIs(x, b);
  }

  lemma AfterJoin(dir: string, a: string, p: string)
    requires p == Join(dir, a) || Join(dir, a) + "/" <= p
    ensures |dir| + 1 <= |p| && (p[|dir| + 1..] == a || a + "/" <= p[|dir| + 1..])
  {
    var n := |dir| + 1;
    if p == Join(dir, a) {
      assert p[n..] == a;
    } else {
      var q := Join(dir, a) + "/";
      assert q[n..] == a + "/" && p[..|q|] == q;
      assert p[n..][..|a| + 1] == q[n..];
    }
  }

  lemma {:induction false} RestIsDisjoint(dir: string, e: Entry, es: seq<Entry>, p: string)
    requires '/' !in e.name && forall i :: 0 <= i < |es| ==> '/' !in es[i].name && es[i].name != e.name
    requires p in FilesOf(dir, e)
    ensures p !in FilesBelow(dir, es)
  {
    if es != [] {
      if p in FilesOf(dir, es[0]) {
        DifferentNamesDiffer(dir, e, es[0], p);
      }
      RestIsDisjoint(dir, e, es[1..], p);
    }
  }

  /** There are as many paths as files: no two files of a tree have the same path. */
  lemma {:induction false} OnePathPerFile(dir: string, es: seq<Entry>)
    requires WellNamed(es)
    ensures |FilesBelow(dir, es)| == FileCount(es)
    decreases es
  {
    if es != [] {
      OnePathPerFile(dir, es[1..]);
      forall p | p in FilesOf(dir, es[0]) ensures p !in FilesBelow(dir, es[1..]) {
        RestIsDisjoint(dir, es[0], es[1..], p);
      }
      assert FilesOf(dir, es[0]) !! FilesBelow(dir, es[1..]);
      if es[0].Dir? {
        OnePathPerFile(Join(dir, es[0].name), es[0].entries);
      }
    }
  }

  // ----- The index -----

  function PlainDescriptor(path: string): FileDescriptor {
    FileDescriptor(Filename(path), EncodeFiletype(Filename(path)), map[NoEncoding := path])
  }

  function IndexOf(paths: set<string>): map<string, FileDescriptor> {
    map p | p in paths :: PlainDescriptor(p)
  }

  /** A fresh index has exactly one entry per file of the tree. */
  lemma OneEntryPerFile(root: string, tree: seq<Entry>)
    requires WellNamed(tree)
    ensures |IndexOf(FilesBelow(root, tree))| == FileCount(tree)
  {
    OnePathPerFile(root, tree);
    assert IndexOf(FilesBelow(root, tree)).Keys == FilesBelow(root, tree);
  }

  /** The descriptor of a file has the type of its own name. */
  lemma IndexedByName(root: string, tree: seq<Entry>, dir: string, name: string)
    requires dir + "/" + name in FilesBelow(root, tree) && '/' !in name
    ensures IndexOf(FilesBelow(root, tree))[dir + "/" + name] ==
            FileDescriptor(name, EncodeFiletype(name), map[NoEncoding := dir + "/" + name])
  {
    hide EncodeFiletype;
    JoinParts(dir, name);
    assert Join(dir, name) == dir + "/" + name;
  }

  /** The file handed to the encoder for one descriptor. */
  function EncoderInput(path: string, d: FileDescriptor): string {
    Join(Parent(path), d.filename)
  }

  /** `compress` says for which files the encoder succeeds. */
  function WithBrotli(path: string, d: FileDescriptor, compress: string -> bool): FileDescriptor {
    if Compressible(d.filetype) && compress(EncoderInput(path, d))
    then d.(paths := d.paths[Brotli := EncoderInput(path, d) + ".br"])
    else d
  }

  function EncodedIndex(ds: map<string, FileDescriptor>, compress: string -> bool): map<string, FileDescriptor> {
    map p | p in ds :: WithBrotli(p, ds[p], compress)
  }

  /** A directory waiting to be read, with what reading it will yield. */
  datatype Pending = Pending(path: string, entries: seq<Entry>)

  function PendingFiles(stack: seq<Pending>): set<string> {
    if stack == [] then {}
    else PendingFiles(stack[..|stack| - 1]) + FilesBelow(stack[|stack| - 1].path, stack[|stack| - 1].entries)
  }

  function TreeSize(es: seq<Entry>): nat {
    if es == [] then 0
    else (match es[0] case File(_) => 1 case Dir(_, sub) => 1 + TreeSize(sub)) + TreeSize(es[1..])
  }

  function StackSize(stack: seq<Pending>): nat {
    if stack == [] then 0 else StackSize(stack[..|stack| - 1]) + TreeSize(stack[|stack| - 1].entries) + 1
  }

  function PendingCount(stack: seq<Pending>): nat {
    if stack == [] then 0 else PendingCount(stack[..|stack| - 1]) + FileCount(stack[|stack| - 1].entries)
  }

  lemma PushPending(stack: seq<Pending>, p: Pending)
    ensures PendingFiles(stack + [p]) == PendingFiles(stack) + FilesBelow(p.path, p.entries)
    ensures PendingCount(stack + [p]) == PendingCount(stack) + FileCount(p.entries)
    ensures StackSize(stack + [p]) == StackSize(stack) + TreeSize(p.entries) + 1
  {
    assert (stack + [p])[..|stack|] == stack;
  }

  lemma NoneBelow(dir: string)
    ensures FilesBelow(dir, []) == {} && FileCount([]) == 0 && TreeSize([]) == 0
  {
  }

  lemma NonePending()
    ensures PendingFiles([]) == {} && PendingCount([]) == 0 && StackSize([]) == 0
  {
  }

  /** Taking a directory off the stack. */
  lemma PopPending(stack: seq<Pending>)
    requires stack != []
    ensures var rest, dir := stack[..|stack| - 1], stack[|stack| - 1];
      && PendingFiles(stack) == PendingFiles(rest) + FilesBelow(dir.path, dir.entries)
      && PendingCount(stack) == PendingCount(rest) + FileCount(dir.entries)
      && StackSize(stack) == StackSize(rest) + TreeSize(dir.entries) + 1
  {
  }

  /** Describing one more file. */
  lemma IndexOne(base: map<string, FileDescriptor>, done: set<string>, dir: string, name: string)
    requires '/' !in name
    ensures var p := Join(dir, name);
      (base + IndexOf(done))[p := FileDescriptor(name, EncodeFiletype(name), map[NoEncoding := p])] ==
      base + IndexOf(done + {p})
  {
    JoinParts(dir, name);
  }

  ghost predicate AllWellNamed(stack: seq<Pending>) {
    forall i :: 0 <= i < |stack| ==> WellNamed(stack[i].entries)
  }

  class DiskFileFetcher {
    var descriptors: map<string, FileDescriptor>

    constructor ()
      ensures descriptors == map[]
    {
      descriptors := map[];
    }

    /** The worklist leaves exactly the index of the recursion behind, added to what was there. */
    method ConstructFileDescriptors(root: string, tree: seq<Entry>)
      requires WellNamed(tree)
      modifies this
      ensures descriptors == old(descriptors) + IndexOf(FilesBelow(root, tree))
    {
      hide FilesBelow, TreeSize, FileCount, PendingFiles, PendingCount, StackSize;
      var directories := [];
      ghost var base, done: set<string> := descriptors, {};
      NonePending();
      PushPending([], Pending(root, tree));
      directories := directories + [Pending(root, tree)];
      while directories != []
        invariant AllWellNamed(directories)
        invariant done + PendingFiles(directories) == FilesBelow(root, tree)
        invariant descriptors == base + IndexOf(done)
        decreases StackSize(directories)
      {
        ghost var size := StackSize(directories);
        PopPending(directories);
        var dir := directories[|directories| - 1];
        directories := directories[..|directories| - 1];
        assert dir.entries[0..] == dir.entries;
        for i := 0 to |dir.entries|
          invariant AllWellNamed(directories)
          invariant done + PendingFiles(directories) + FilesBelow(dir.path, dir.entries[i..]) == FilesBelow(root, tree)
          invariant descriptors == base + IndexOf(done)
          invariant StackSize(directories) + TreeSize(dir.entries[i..]) < size
        {
          var entry := dir.entries[i];
          FirstOfRest(dir.path, dir.entries, i);
          match entry
          case Dir(name, sub) =>
            PushPending(directories, Pending(Join(dir.path, name), sub));
            directories := directories + [Pending(Join(dir.path, name), sub)];
          case File(name) =>
            var path := Join(dir.path, name);
            IndexOne(base, done, dir.path, name);
            descriptors := descriptors[path := FileDescriptor(name, EncodeFiletype(name), map[NoEncoding := path])];
            done := done + {path};
        }
        assert dir.entries[|dir.entries|..] == [];
        NoneBelow(dir.path);
      }
    }

    /** Goes once over the descriptors, in whatever order. Returns the files handed to the encoder. */
    method GenerateEncodedFiles(compress: string -> bool) returns (tried: set<string>)
      modifies this
      ensures descriptors == EncodedIndex(old(descriptors), compress)
      ensures tried == Tried(old(descriptors))
    {
      hide Join, Parent, Compressible;
      ghost var before := descriptors;
      var todo := descriptors.Keys;
      tried := {};
      while todo != {}
        invariant todo <= before.Keys && descriptors.Keys == before.Keys
        invariant forall p :: p in before ==>
          descriptors[p] == if p in todo then before[p] else WithBrotli(p, before[p], compress)
        invariant tried ==
          set p | p in before.Keys - todo && Compressible(before[p].filetype) :: EncoderInput(p, before[p])
        decreases |todo|
      {
        var path :| path in todo;
        var d := descriptors[path];
        if Compressible(d.filetype) {
          var file := Join(Parent(path), d.filename);
          tried := tried + {file};
          if compress(file) {
            descriptors := descriptors[path := d.(paths := d.paths[Brotli := file + ".br"])];
          }
        }
        todo := todo - {path};
      }
    }

    /** `disk` gives the content of the files that can be opened; a stream that cannot be opened
        reads as empty. */
    method GetFile(path: string, disk: map<string, string>) returns (r: Option<FileData>)
      ensures r == Fetch(descriptors, disk, path)
    {
      if path !in descriptors {
        return None;
      }
      var d := descriptors[path];
      var encoding, actual := NoEncoding, "";
      if Brotli in d.paths {
        encoding := Brotli;
        actual := d.paths[Brotli];
      } else if NoEncoding in d.paths {
        actual := d.paths[NoEncoding];
      }
      var content := if actual in disk then disk[actual] else "";
      return Some(FileData(d.filetype, encoding, content));
    }
  }

  lemma FirstOfRest(dir: string, es: seq<Entry>, i: nat)
    requires i < |es|
    ensures FilesBelow(dir, es[i..]) == FilesOf(dir, es[i]) + FilesBelow(dir, es[i + 1..])
    ensures TreeSize(es[i..]) ==
            (match es[i] case File(_) => 1 case Dir(_, sub) => 1 + TreeSize(sub)) + TreeSize(es[i + 1..])
    ensures FileCount(es[i..]) ==
            (match es[i] case File(_) => 1 case Dir(_, sub) => FileCount(sub)) + FileCount(es[i + 1..])
  {
    assert es[i..][0] == es[i] && es[i..][1..] == es[i + 1..];
  }

  // ----- Reading through the index -----

  /** The representation that is read: Brotli when there is one. */
  function Served(d: FileDescriptor): (FileEncoding, string) {
    if Brotli in d.paths then (Brotli, d.paths[Brotli])
    else (NoEncoding, if NoEncoding in d.paths then d.paths[NoEncoding] else "")
  }

  function Fetch(ds: map<string, FileDescriptor>, disk: map<string, string>, path: string): Option<FileData> {
    if path !in ds then None
    else
      var (encoding, actual) := Served(ds[path]);
      Some(FileData(ds[path].filetype, encoding, if actual in disk then disk[actual] else ""))
  }

  /** The plain entry is the key itself; a Brotli entry exists only for compressible types and names
      the key with `.br` behind it; there are no other entries. */
  ghost predicate DescriptorOk(path: string, d: FileDescriptor) {
    && '/' in path && d.filename == Filename(path) && d.filetype == EncodeFiletype(d.filename)
    && d.paths.Keys <= {NoEncoding, Brotli}
    && NoEncoding in d.paths && d.paths[NoEncoding] == path
    && (Brotli in d.paths ==> Compressible(d.filetype) && d.paths[Brotli] == path + ".br")
  }

  ghost predicate IndexOk(ds: map<string, FileDescriptor>) {
    forall p :: p in ds ==> DescriptorOk(p, ds[p])
  }

  datatype Pass = Construct(root: string, tree: seq<Entry>) | Generate(compress: string -> bool)

  ghost predicate PassOk(p: Pass) {
    p.Construct? ==> WellNamed(p.tree)
  }

  function RunPass(ds: map<string, FileDescriptor>, p: Pass): map<string, FileDescriptor> {
    match p
    case Construct(root, tree) => ds + IndexOf(FilesBelow(root, tree))
    case Generate(compress) => EncodedIndex(ds, compress)
  }

  function RunPasses(ds: map<string, FileDescriptor>, passes: seq<Pass>): map<string, FileDescriptor>
    decreases |passes|
  {
    if passes == [] then ds else RunPasses(RunPass(ds, passes[0]), passes[1..])
  }

  lemma PassKeepsIndexOk(ds: map<string, FileDescriptor>, pass: Pass)
    requires IndexOk(ds) && PassOk(pass)
    ensures IndexOk(RunPass(ds, pass))
  {
    match pass
    case Construct(root, tree) =>
      forall p | p in FilesBelow(root, tree) ensures '/' in p {
        var d, name := BelowIsJoined(root, tree, p);
        assert p[|d|] == '/';
      }
    case Generate(compress) =>
      forall p | p in ds ensures DescriptorOk(p, WithBrotli(p, ds[p], compress)) {
        assert DescriptorOk(p, ds[p]);
        SplitAndJoin(p);
      }
  }

  /** Whatever passes are made over an empty index, in whatever order, every descriptor is as it should be. */
  lemma {:induction false} EveryPassKeepsIndexOk(ds: map<string, FileDescriptor>, passes: seq<Pass>)
    requires IndexOk(ds) && forall i :: 0 <= i < |passes| ==> PassOk(passes[i])
    ensures IndexOk(RunPasses(ds, passes))
    decreases |passes|
  {
    if passes != [] {
      PassKeepsIndexOk(ds, passes[0]);
      EveryPassKeepsIndexOk(RunPass(ds, passes[0]), passes[1..]);
    }
  }

  /** Hence a fetched file comes from its own path, or, marked as Brotli, from the same path with
      `.br` behind it. */
  lemma ServedFromOneOfTwo(ds: map<string, FileDescriptor>, disk: map<string, string>, path: string)
    requires IndexOk(ds)
    ensures match Fetch(ds, disk, path)
      case None => path !in ds
      case Some(data) =>
        && path in ds && data.filetype == EncodeFiletype(Filename(path))
        && data.encoding in {NoEncoding, Brotli} && (data.encoding == Brotli ==> Compressible(data.filetype))
        && var actual := if data.encoding == Brotli then path + ".br" else path;
           data.content == if actual in disk then disk[actual] else ""
  {
    if path in ds {
      assert DescriptorOk(path, ds[path]);
    }
  }

  // ----- The stand-alone encoder -----

  lemma {:induction false} FilesAtMost(dir: string, es: seq<Entry>)
    ensures |FilesBelow(dir, es)| <= FileCount(es)
    decreases es
  {
    if es != [] {
      FilesAtMost(dir, es[1..]);
      if es[0].Dir? {
        FilesAtMost(Join(dir, es[0].name), es[0].entries);
      }
    }
  }

  lemma {:induction false} PendingAtMost(stack: seq<Pending>)
    ensures |PendingFiles(stack)| <= PendingCount(stack)
  {
    if stack != [] {
      PendingAtMost(stack[..|stack| - 1]);
      FilesAtMost(stack[|stack| - 1].path, stack[|stack| - 1].entries);
    }
  }

  /** The worklist meets no file twice: otherwise the paths met and pending were fewer than the files. */
  lemma NotYetDone(root: string, tree: seq<Entry>, done: set<string>, stack: seq<Pending>, dir: string, es: seq<Entry>)
    requires WellNamed(tree) && es != [] && es[0].File?
    requires done + PendingFiles(stack) + FilesBelow(dir, es) == FilesBelow(root, tree)
    requires |done| + PendingCount(stack) + FileCount(es) == FileCount(tree)
    ensures Join(dir, es[0].name) !in done
  {
    assert Join(dir, es[0].name) in done ==>
             FilesBelow(root, tree) == (done + PendingFiles(stack)) + FilesBelow(dir, es[1..]);
    OnePathPerFile(root, tree);
    PendingAtMost(stack);
    FilesAtMost(dir, es[1..]);
  }

  /** FileEncoder::encode_directory: the same worklist, selecting by extension. Every selected file
      is encoded once. */
  method EncodeDirectory(root: string, tree: seq<Entry>) returns (encoded: seq<string>)
    requires WellNamed(tree)
    ensures multiset(encoded) == multiset(SelectedByExtension(FilesBelow(root, tree)))
    ensures forall p :: multiset(encoded)[p] == if p in FilesBelow(root, tree) && IsWebText(p) then 1 else 0
  {
    hide FilesBelow, SelectedByExtension, EncodedExtension, FileCount, TreeSize, PendingFiles, PendingCount, StackSize;
    hide IsWebText;
    SelectedExactly(root, tree);
    encoded := [];
    var directories := [];
    ghost var done: set<string> := {};
    NonePending();
    PushPending([], Pending(root, tree));
    SelectNone();
    directories := directories + [Pending(root, tree)];
    while directories != []
      invariant AllWellNamed(directories)
      invariant done + PendingFiles(directories) == FilesBelow(root, tree)
      invariant |done| + PendingCount(directories) == FileCount(tree)
      invariant multiset(encoded) == multiset(SelectedByExtension(done))
      decreases StackSize(directories)
    {
      ghost var size := StackSize(directories);
      PopPending(directories);
      var dir := directories[|directories| - 1];
      directories := directories[..|directories| - 1];
      assert dir.entries[0..] == dir.entries;
      for i := 0 to |dir.entries|
        invariant AllWellNamed(directories)
        invariant done + PendingFiles(directories) + FilesBelow(dir.path, dir.entries[i..]) == FilesBelow(root, tree)
        invariant |done| + PendingCount(directories) + FileCount(dir.entries[i..]) == FileCount(tree)
        invariant multiset(encoded) == multiset(SelectedByExtension(done))
        invariant StackSize(directories) + TreeSize(dir.entries[i..]) < size
      {
        FirstOfRest(dir.path, dir.entries, i);
        match dir.entries[i]
        case Dir(name, sub) =>
          PushPending(directories, Pending(Join(dir.path, name), sub));
          directories := directories + [Pending(Join(dir.path, name), sub)];
        case File(name) =>
          NotYetDone(root, tree, done, directories, dir.path, dir.entries[i..]);
          SelectOne(encoded, done, dir.path, name);
          if EncodedExtension(Extension(name)) {
            encoded := encoded + [Join(dir.path, name)];
          }
          done := done + {Join(dir.path, name)};
      }
      assert dir.entries[|dir.entries|..] == [];
      NoneBelow(dir.path);
    }
  }

  /** The selected files are those whose last component is a stem and one of three suffixes. */
  lemma SelectedExactly(root: string, tree: seq<Entry>)
    requires WellNamed(tree)
    ensures forall p ::
      p in SelectedByExtension(FilesBelow(root, tree)) <==> p in FilesBelow(root, tree) && IsWebText(p)
  {
    hide Extension, Filename, EncodedExtension, FilesBelow, WellNamed;
    forall p | p in FilesBelow(root, tree)
      ensures EncodedExtension(Extension(Filename(p))) <==> IsWebText(p)
    {
      BelowHasSlash(root, tree, p);
      if EncodedExtension(Extension(Filename(p))) {
        EncodedIsWebText(p);
      }
      if dir, stem, suffix :| IsWebTextAt(p, dir, stem, suffix) {
        WebTextIsEncoded(p, dir, stem, suffix);
      }
    }
  }

  lemma BelowHasSlash(root: string, tree: seq<Entry>, p: string)
    requires WellNamed(tree) && p in FilesBelow(root, tree)
    ensures '/' in p
  {
    var d, name := BelowIsJoined(root, tree, p);
    assert p[|d|] == '/';
  }

  lemma SelectNone()
    ensures SelectedByExtension({}) == {}
  {
  }

  lemma SelectOne(encoded: seq<string>, done: set<string>, dir: string, name: string)
    requires multiset(encoded) == multiset(SelectedByExtension(done))
    requires '/' !in name && Join(dir, name) !in done
    ensures multiset(if EncodedExtension(Extension(name)) then encoded + [Join(dir, name)] else encoded) ==
            multiset(SelectedByExtension(done + {Join(dir, name)}))
  {
    JoinParts(dir, name);
    hide EncodedExtension, Extension;
    var p := Join(dir, name);
    var more: set<string> := if EncodedExtension(Extension(name)) then {p} else {};
    assert SelectedByExtension(done + {p}) == SelectedByExtension(done) + more;
    assert p !in SelectedByExtension(done);
  }

  function SelectedByExtension(paths: set<string>): set<string> {
    set p | p in paths && EncodedExtension(Extension(Filename(p)))
  }

  /** What the pass hands to the encoder is the described file itself. */
  lemma InputIsKey(root: string, tree: seq<Entry>, p: string)
    requires WellNamed(tree) && p in FilesBelow(root, tree)
    ensures EncoderInput(p, PlainDescriptor(p)) == p
  {
    var d, name := BelowIsJoined(root, tree, p);
    assert p[|d|] == '/';
    SplitAndJoin(p);
  }

  lemma SelectedByType(p: string)
    ensures Compressible(PlainDescriptor(p).filetype) <==> EncodedExtension(Extension(Filename(p)))
  {
    hide LastIndex, Extension, Filename;
  }

  /** What the pass over an index hands to the encoder. */
  function Tried(ds: map<string, FileDescriptor>): set<string> {
    set p | p in ds && Compressible(ds[p].filetype) :: EncoderInput(p, ds[p])
  }

  /** On one snapshot, the stand-alone encoder and the pass over a fresh index encode the same files. */
  lemma SameSelection(root: string, tree: seq<Entry>)
    requires WellNamed(tree)
    ensures Tried(IndexOf(FilesBelow(root, tree))) == SelectedByExtension(FilesBelow(root, tree))
    ensures forall p :: p in Tried(IndexOf(FilesBelow(root, tree))) <==> p in FilesBelow(root, tree) && IsWebText(p)
  {
    hide IsWebText;
    SelectedExactly(root, tree);
    var ds := IndexOf(FilesBelow(root, tree));
    forall p | p in ds ensures EncoderInput(p, ds[p]) == p {
      InputIsKey(root, tree, p);
    }
    forall p | p in SelectedByExtension(FilesBelow(root, tree)) ensures p in Tried(ds) {
      SelectedByType(p);
      assert p in ds && EncoderInput(p, ds[p]) == p;
    }
    forall p | p in Tried(ds) ensures p in SelectedByExtension(FilesBelow(root, tree)) {
      SelectedByType(p);
    }
  }
}
