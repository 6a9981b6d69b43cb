/** The cache decision and the naming of a cached file: shouldCache,
    aliasFilename, guessFileExtension and getDirectoryAndFileNames. */
module FileNames {
  import opened Wrappers
  import opened Strings
  import opened Paths
  import opened QueryFilter

  /** What the cache reads from a request: its method, or verb (as the framework
      reports it, upper case), its path and the query of its URL, if any. */
  datatype Request = Request(verb: string, pathInfo: string, query: Option<string>)

  /** What the cache reads from a response: the status code, the
      Content-Type header if present, whether it is a JsonResponse, and the
      body. */
  datatype Response = Response(status: int, contentType: Option<string>, isJsonResponse: bool, content: seq<bv8>)

  /** shouldCache: only a GET answered with status 200 is cached. */
  function ShouldCache(request: Request, response: Response): (r: bool)
    ensures r <==> request.verb == "GET" && response.status == 200
  {
    request.verb == "GET" && response.status == 200
  }

  /** The name that stands for an empty last path segment. */
  const IndexAlias := "pc__index__pc"

  /** aliasFilename: a falsy name ("" or "0") becomes the index alias; the
      result is never falsy. */
  function AliasFilename(name: string): (r: string)
    ensures Truthy(r)
    ensures Truthy(name) ==> r == name
    ensures !Truthy(name) ==> r == IndexAlias
  {
    if Truthy(name) then name else IndexAlias
  }

  /** guessFileExtension: "json" for a JsonResponse or the exact content type
      application/json, "xml" for exactly text/xml or application/xml, and
      "html" for everything else. */
  function GuessFileExtension(response: Response): (r: string)
    ensures r == "json" || r == "xml" || r == "html"
    ensures r == "json" <==> response.isJsonResponse || response.contentType == Some("application/json")
    ensures r == "xml" <==>
      (!response.isJsonResponse &&
       (response.contentType == Some("text/xml") || response.contentType == Some("application/xml")))
  {
    if response.isJsonResponse || response.contentType == Some("application/json") then "json"
    else if response.contentType == Some("text/xml") || response.contentType == Some("application/xml") then "xml"
    else "html"
  }

  /** The path segments of a request without the last one. */
  function DirectorySegments(pathInfo: string): (r: seq<string>)
    ensures |r| + 1 == |Segments(pathInfo)| && r == Segments(pathInfo)[..|r|]
    ensures forall i :: 0 <= i < |r| ==> '/' !in r[i]
  {
    var segments := Segments(pathInfo);
    segments[..|segments| - 1]
  }

  /** The last path segment of a request. */
  function LastSegment(pathInfo: string): (r: string)
    ensures '/' !in r
    ensures DirectorySegments(pathInfo) + [r] == Segments(pathInfo)
  {
    var segments := Segments(pathInfo);
    segments[|segments| - 1]
  }

  /** getDirectoryAndFileNames: the directory is the cache path of every
      segment but the last. When the query filters to something, the file is
      "_" + that + ".html"; otherwise it is the aliased last segment with the
      guessed extension. The only failure is a missing cache path. */
  function DirectoryAndFileNames(base: Option<string>, request: Request, response: Response,
                                 whitelist: Option<seq<string>>): (r: Result<(string, string), CacheError>)
    requires base.Some? ==> base.value != ""
    requires request.query.Some? ==> WellFormed(request.query.value, whitelist)
    ensures r.Err? <==> base.None?
    ensures r.Ok? ==> r.value.0 == Join([base.value, Implode(DirectorySegments(request.pathInfo), '/')])
  {
    var filename := AliasFilename(LastSegment(request.pathInfo));
    var extension := GuessFileExtension(response);
    var directory := CachePath(base, [Implode(DirectorySegments(request.pathInfo), '/')]);
    if directory.Err? then Err(directory.error)
    else if request.query.Some? && FilterQuery(request.query.value, whitelist).Some? then
      Ok((directory.value, "_" + FilterQuery(request.query.value, whitelist).value + ".html"))
    else
      Ok((directory.value, filename + "." + extension))
  }

  /** The file name never becomes empty or "0", and never starts or ends
      with '/', so join never drops it. */
  lemma FileNameIsClean(base: Option<string>, request: Request, response: Response, whitelist: Option<seq<string>>)
    requires base.Some?
    requires base.value != ""
    requires request.query.Some? ==> WellFormed(request.query.value, whitelist)
    ensures Clean(DirectoryAndFileNames(base, request, response, whitelist).value.1)
  {
    var name := DirectoryAndFileNames(base, request, response, whitelist).value.1;
    if request.query.Some? && FilterQuery(request.query.value, whitelist).Some? {
      var f := FilterQuery(request.query.value, whitelist).value;
      assert name == "_" + f + ".html";
      assert name[0] == '_' && name[|name| - 1] == 'l';
    } else {
      var filename := AliasFilename(LastSegment(request.pathInfo));
      var extension := GuessFileExtension(response);
      assert name == filename + "." + extension;
      assert name[0] == filename[0];
      assert name[|name| - 1] == extension[|extension| - 1];
    }
  }

  /** When the query filters to something, neither the last path segment nor
      the response matters: two requests that share the query and every
      segment but the last are cached under the same directory and file. */
  lemma QueryNameIgnoresLastSegment(base: Option<string>, r1: Request, r2: Request, resp1: Response, resp2: Response,
                                    whitelist: Option<seq<string>>)
    requires base.Some? ==> base.value != ""
    requires r1.query == r2.query && r1.query.Some?
    requires WellFormed(r1.query.value, whitelist)
    requires FilterQuery(r1.query.value, whitelist).Some?
    requires DirectorySegments(r1.pathInfo) == DirectorySegments(r2.pathInfo)
    ensures DirectoryAndFileNames(base, r1, resp1, whitelist) == DirectoryAndFileNames(base, r2, resp2, whitelist)
    ensures base.Some? ==>
      DirectoryAndFileNames(base, r1, resp1, whitelist).value.1 == "_" + FilterQuery(r1.query.value, whitelist).value + ".html"
  {
  }

  /** Without a whitelist the query never matters: the file is named as if
      the request had no query. */
  lemma NoWhitelistIgnoresQuery(base: Option<string>, request: Request, response: Response)
    requires base.Some? ==> base.value != ""
    ensures request.query.Some? ==> WellFormed(request.query.value, None)
    ensures DirectoryAndFileNames(base, request, response, None) ==
      DirectoryAndFileNames(base, request.(query := None), response, None)
  {
  }

  /** Splitting "/" + the imploded segments gives the segments back, when
      none of them holds a '/' and the first is not empty (or is the only
      one, as for the root path "/"). */
  lemma SegmentsOfPath(segs: seq<string>)
    requires |segs| >= 1
    requires forall i :: 0 <= i < |segs| ==> '/' !in segs[i]
    requires segs[0] != "" || |segs| == 1
    ensures Segments("/" + Implode(segs, '/')) == segs
  {
    var body := Implode(segs, '/');
    if segs[0] != "" {
      ImplodeFirst(segs, '/');
      assert body[0] != '/';
    } else {
      assert body == "";
    }
    assert ("/" + body)[1..] == body;
    assert TrimLeft("/" + body, SlashOnly) == body;
    SplitImplode(segs, '/');
  }

  /** Joining the base with the directory segments and then with a file name
      gives the base, '/', and the segments and the name joined by '/'. */
  lemma Location(b: string, dirs: seq<string>, name: string)
    requires b != "" && Kept([b]) != []
    requires forall i :: 0 <= i < |dirs| ==> Clean(dirs[i])
    requires Clean(name)
    ensures Join([Join([b, Implode(dirs, '/')]), name]) == Join([b]) + "/" + Implode(dirs + [name], '/')
  {
    if dirs == [] {
      LocationAtBase(b, name);
      assert dirs + [name] == [name];
    } else {
      LocationBelow(b, dirs, name);
    }
  }

  /** Location with no directory segments: the name sits right under the
      base. */
  lemma LocationAtBase(b: string, name: string)
    requires b != "" && Kept([b]) != []
    requires Clean(name)
    ensures Join([Join([b, Implode([], '/')]), name]) == Join([b]) + "/" + name
  {
    assert Kept([""]) == [] by {
      TrimLeading('/', "", SlashOnly);
      KeptSingle("");
    }
    KeptAppend([b], [""]);
    assert [b] + [""] == [b, ""];
    assert Join([b, Implode([], '/')]) == Join([b]);
    JoinAppendName([b], name);
  }

  /** Location with directory segments: they and the name follow the base. */
  lemma LocationBelow(b: string, dirs: seq<string>, name: string)
    requires b != "" && Kept([b]) != []
    requires dirs != [] && forall i :: 0 <= i < |dirs| ==> Clean(dirs[i])
    requires Clean(name)
    ensures Join([Join([b, Implode(dirs, '/')]), name]) == Join([b]) + "/" + Implode(dirs + [name], '/')
  {
    var d := Implode(dirs, '/');
    ImplodeIsClean(dirs);
    DirectoryJoin(b, d);
    NameJoin(b, d, name);
    ImplodeSnoc(dirs, name, '/');
    Chain(Join([Join([b, d]), name]), Join([b, d]), Join([b]), d, name, Implode(dirs + [name], '/'));
  }

  /** Clean segments glued by '/' form a clean part. */
  lemma ImplodeIsClean(dirs: seq<string>)
    requires dirs != [] && forall i :: 0 <= i < |dirs| ==> Clean(dirs[i])
    ensures Clean(Implode(dirs, '/'))
  {
    ImplodeEnds(dirs, '/');
    ImplodeCleanTruthy(dirs);
  }

  /** The directory is the joined base, '/', and the glued segments, and it
      keeps something. */
  lemma DirectoryJoin(b: string, d: string)
    requires b != "" && Kept([b]) != [] && Clean(d)
    ensures Join([b, d]) == Join([b]) + "/" + d
    ensures Kept([b, d]) != []
  {
    JoinExtend([b], d);
    assert [b] + [d] == [b, d];
    KeptAppend([b], [d]);
  }

  /** A clean name joined to the directory follows it after a '/'. */
  lemma NameJoin(b: string, d: string, name: string)
    requires b != "" && Kept([b, d]) != [] && Clean(name)
    ensures Join([Join([b, d]), name]) == Join([b, d]) + "/" + name
  {
    JoinAppendName([b, d], name);
  }

  /** Chaining the two appends: file = dir + "/" + name and
      dir = base + "/" + d give file = base + "/" + (d + "/" + name). */
  lemma Chain(file: string, dir: string, base: string, d: string, name: string, glued: string)
    requires file == dir + "/" + name && dir == base + "/" + d
    requires glued == d + ([ '/' ] + name)
    ensures file == base + "/" + glued
  {
  }

  /** A plain request whose segments are all truthy and free of '/' is cached
      at the cache root, '/', the request path, '.', and the extension:
      "/a/b/c" as an HTML page lands at "{root}/a/b/c.html". */
  lemma PlainLocation(b: string, segs: seq<string>, query: Option<string>, response: Response,
                      whitelist: Option<seq<string>>)
    requires b != "" && Kept([b]) != []
    requires |segs| >= 1
    requires forall i :: 0 <= i < |segs| ==> Truthy(segs[i]) && '/' !in segs[i]
    requires query.Some? ==> WellFormed(query.value, whitelist)
    requires query.None? || FilterQuery(query.value, whitelist).None?
    ensures var r := DirectoryAndFileNames(Some(b), Request("GET", "/" + Implode(segs, '/'), query), response, whitelist);
      Join([r.value.0, r.value.1]) == Join([b]) + "/" + (Implode(segs, '/') + "." + GuessFileExtension(response))
  {
    SegmentsOfPath(segs);
    PlainLocationOf(b, Request("GET", "/" + Implode(segs, '/'), query), segs, response, whitelist);
  }

  /** PlainLocation for a request whose segments are already known. */
  lemma PlainLocationOf(b: string, request: Request, segs: seq<string>, response: Response,
                        whitelist: Option<seq<string>>)
    requires b != "" && Kept([b]) != []
    requires Segments(request.pathInfo) == segs
    requires forall i :: 0 <= i < |segs| ==> Truthy(segs[i])
    requires request.query.Some? ==> WellFormed(request.query.value, whitelist)
    requires request.query.None? || FilterQuery(request.query.value, whitelist).None?
    ensures var r := DirectoryAndFileNames(Some(b), request, response, whitelist);
      Join([r.value.0, r.value.1]) == Join([b]) + "/" + (Implode(segs, '/') + "." + GuessFileExtension(response))
  {
    var n := |segs| - 1;
    var ext := GuessFileExtension(response);
    var r := DirectoryAndFileNames(Some(b), request, response, whitelist);
    PlainNames(b, request, response, whitelist);
    var dirs, last := DirectorySegments(request.pathInfo), LastSegment(request.pathInfo);
    assert dirs == segs[..n] && last == segs[n];
    assert r.value == (Join([b, Implode(segs[..n], '/')]), segs[n] + "." + ext);
    SegmentsClean(request.pathInfo);
    LocationWithExtension(b, segs, ext);
  }

  /** Truthy path segments are clean: they hold no '/' at all. */
  lemma SegmentsClean(path: string)
    requires forall i :: 0 <= i < |Segments(path)| ==> Truthy(Segments(path)[i])
    ensures forall i :: 0 <= i < |Segments(path)| ==> Clean(Segments(path)[i])
  {
    var segs := Segments(path);
    forall i | 0 <= i < |segs|
      ensures Clean(segs[i])
    {
      assert '/' !in segs[i];
      assert segs[i][0] in segs[i] && segs[i][|segs[i]| - 1] in segs[i];
    }
  }

  /** Without a filtered query, the file is the aliased last segment with the
      guessed extension. */
  lemma PlainNames(b: string, request: Request, response: Response, whitelist: Option<seq<string>>)
    requires b != ""
    requires request.query.Some? ==> WellFormed(request.query.value, whitelist)
    requires request.query.None? || FilterQuery(request.query.value, whitelist).None?
    ensures DirectoryAndFileNames(Some(b), request, response, whitelist).value ==
      (Join([b, Implode(DirectorySegments(request.pathInfo), '/')]),
       AliasFilename(LastSegment(request.pathInfo)) + "." + GuessFileExtension(response))
  {
  }

  /** Location, for segments whose last one is the file name before its
      extension. */
  lemma LocationWithExtension(b: string, segs: seq<string>, ext: string)
    requires b != "" && Kept([b]) != []
    requires |segs| >= 1
    requires forall i :: 0 <= i < |segs| ==> Clean(segs[i])
    requires ext != "" && ext[|ext| - 1] != '/'
    ensures Join([Join([b, Implode(segs[..|segs| - 1], '/')]), segs[|segs| - 1] + "." + ext]) ==
      Join([b]) + "/" + (Implode(segs, '/') + "." + ext)
  {
    var n := |segs| - 1;
    var dirs, last := segs[..n], segs[n];
    CleanParts(segs, dirs, last, ext);
    Location(b, dirs, last + "." + ext);
    ImplodeTail(dirs, last, ext);
  }

  /** The pieces LocationWithExtension hands to Location are clean. */
  lemma CleanParts(segs: seq<string>, dirs: seq<string>, last: string, ext: string)
    requires |segs| >= 1 && dirs == segs[..|segs| - 1] && last == segs[|segs| - 1]
    requires forall i :: 0 <= i < |segs| ==> Clean(segs[i])
    requires ext != "" && ext[|ext| - 1] != '/'
    ensures dirs + [last] == segs && Clean(last + "." + ext)
    ensures forall i :: 0 <= i < |dirs| ==> Clean(dirs[i])
  {
    var name := last + "." + ext;
    assert name[0] == last[0] && name[|name| - 1] == ext[|ext| - 1];
    forall i | 0 <= i < |dirs| ensures Clean(dirs[i]) {
      assert dirs[i] == segs[i];
    }
  }

  /** The root path "/" is cached as the index alias under the cache root. */
  lemma RootLocation(b: string, response: Response)
    requires b != "" && Kept([b]) != []
    ensures var r := DirectoryAndFileNames(Some(b), Request("GET", "/", None), response, None);
      Join([r.value.0, r.value.1]) == Join([b]) + "/" + (IndexAlias + "." + GuessFileExtension(response))
  {
    var name := IndexAlias + "." + GuessFileExtension(response);
    RootNames(b, response);
    AliasNameClean(GuessFileExtension(response));
    LocationAtBase(b, name);
  }

  /** The root path "/" has no directory segments and an empty last one, so
      its file is the index alias with the guessed extension. */
  lemma RootNames(b: string, response: Response)
    requires b != ""
    ensures DirectoryAndFileNames(Some(b), Request("GET", "/", None), response, None).value ==
      (Join([b, Implode([], '/')]), IndexAlias + "." + GuessFileExtension(response))
  {
    assert DirectorySegments("/") == [] && LastSegment("/") == "" by {
      assert TrimLeft("/", SlashOnly) == "";
    }
    PlainNames(b, Request("GET", "/", None), response, None);
  }

  /** The index alias with any extension survives join. */
  lemma AliasNameClean(ext: string)
    requires ext != "" && ext[|ext| - 1] != '/'
    ensures Clean(IndexAlias + "." + ext)
  {
    var name := IndexAlias + "." + ext;
    assert name[0] == 'p' && name[|name| - 1] == ext[|ext| - 1];
  }
}
