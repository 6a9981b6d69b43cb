/** The Cache class: its configuration state, the resolution of the cache
    directory, and the operations that write and remove cached pages. */
module PageCache {
  import opened Wrappers
  import opened Strings
  import opened Paths
  import opened QueryFilter
  import opened FileNames
  import opened Storage

  /** What the cache asks of the service container: the public path, when
      one is bound under "path.public". */
  datatype Container = Container(publicPath: Option<string>)

  /** The application configuration the cache reads: the sites with their
      locales and hosts, and the whitelisted query keys, if configured. */
  datatype Config = Config(sites: seq<Site>, whitelist: Option<seq<string>>)

  /** The public path of a container, when there is a container and it has
      one bound. */
  function PublicPath(container: Option<Container>): (r: Option<string>)
    ensures r.Some? <==> container.Some? && container.value.publicPath.Some?
    ensures r.Some? ==> r == container.value.publicPath
  {
    if container.Some? then container.value.publicPath else None
  }

  /** The number of minutes an entry lives: a missing expireAt adds nothing. */
  function Minutes(expireAt: Option<int>): (r: int)
    ensures expireAt.Some? ==> r == expireAt.value
    ensures expireAt.None? ==> r == 0
  {
    if expireAt.Some? then expireAt.value else 0
  }

  /** The files after cache() has written content for the directory and
      file names: the handle is opened on directory + "/" + file. */
  function AfterWrite(contents: map<string, seq<bv8>>, names: (string, string), content: seq<bv8>): (r: map<string, seq<bv8>>)
    ensures r.Keys == contents.Keys + {names.0 + "/" + names.1}
    ensures r[names.0 + "/" + names.1] == Overwrite(ContentOf(contents, names.0 + "/" + names.1), content)
    ensures forall p :: p in contents && p != names.0 + "/" + names.1 ==> r[p] == contents[p]
  {
    var written := names.0 + "/" + names.1;
    contents[written := Overwrite(ContentOf(contents, written), content)]
  }

  /** The index record cache() creates: the joined directory and file, the
      page type, and an expiry expireAt minutes after now (in seconds). */
  function RecordFor(names: (string, string), pageType: Option<string>, expireAt: Option<int>, now: int): (r: IndexRecord)
    requires names.0 != ""
    ensures r.path == Join([names.0, names.1]) && r.pageType == pageType
    ensures r.expireAt == now + 60 * Minutes(expireAt)
  {
    IndexRecord(Join([names.0, names.1]), pageType, now + 60 * Minutes(expireAt))
  }

  class Cache {
    /** The filesystem the pages are written to and deleted from. */
    const files: Filesystem
    /** The index table that records every cached page. */
    const index: CacheIndex
    /** The configuration read at each call. */
    const config: Config

    var container: Option<Container>
    var cachePath: Option<string>
    var locale: Option<string>
    var pageType: Option<string>
    var expireAt: Option<int>

    /** The stored cache path is always as setCachePath leaves it: one that
        setCachePath's normalisation leaves unchanged. */
    predicate Valid()
      reads this
      ensures Valid() <==> (cachePath.Some? ==> StoredCachePath(cachePath.value) == cachePath.value)
    {
      cachePath.Some? ==> NoTrailingSeparator(cachePath.value)
    }

    /** The base directory getCachePath starts from, if any. */
    function Base(): (r: Option<string>)
      reads this
      ensures r.Some? ==> r.value != ""
      ensures r.None? <==> !(cachePath.Some? && Truthy(cachePath.value)) && PublicPath(container).None?
    {
      ChooseBase(cachePath, DefaultCachePath(PublicPath(container), locale, config.sites))
    }

    /** A new cache over a filesystem, with no container, cache path, locale,
        page type or expiry set. */
    constructor (files: Filesystem, index: CacheIndex, config: Config)
      ensures this.files == files && this.index == index && this.config == config
      ensures container.None? && cachePath.None? && locale.None? && pageType.None? && expireAt.None?
      ensures Valid()
    {
      this.files := files;
      this.index := index;
      this.config := config;
      container := None;
      cachePath := None;
      locale := None;
      pageType := None;
      expireAt := None;
    }

    /** setContainer: the container is replaced; nothing else changes. */
    method SetContainer(c: Container)
      modifies this
      ensures container == Some(c)
      ensures cachePath == old(cachePath) && locale == old(locale)
      ensures pageType == old(pageType) && expireAt == old(expireAt)
      ensures Valid() == old(Valid())
    {
      container := Some(c);
    }

    /** setCachePath: stores the path without its trailing '/' and '\'. */
    method SetCachePath(path: string)
      modifies this
      ensures cachePath == Some(StoredCachePath(path))
      ensures container == old(container) && locale == old(locale)
      ensures pageType == old(pageType) && expireAt == old(expireAt)
      ensures Valid()
    {
      cachePath := Some(StoredCachePath(path));
    }

    /** setLocale: what getLocale then returns; nothing else changes. */
    method SetLocale(l: Option<string>)
      modifies this
      ensures GetLocale() == l
      ensures container == old(container) && cachePath == old(cachePath)
      ensures pageType == old(pageType) && expireAt == old(expireAt)
      ensures Valid() == old(Valid())
    {
      locale := l;
    }

    /** setPageType: what getPageType then returns; nothing else changes. */
    method SetPageType(t: Option<string>)
      modifies this
      ensures GetPageType() == t
      ensures container == old(container) && cachePath == old(cachePath)
      ensures locale == old(locale) && expireAt == old(expireAt)
      ensures Valid() == old(Valid())
    {
      pageType := t;
    }

    /** setExpireAt: what getExpireAt then returns; nothing else changes. */
    method SetExpireAt(minutes: Option<int>)
      modifies this
      ensures GetExpireAt() == minutes
      ensures container == old(container) && cachePath == old(cachePath)
      ensures locale == old(locale) && pageType == old(pageType)
      ensures Valid() == old(Valid())
    {
      expireAt := minutes;
    }

    /** getLocale: the locale last set. */
    function GetLocale(): (r: Option<string>)
      reads this
      ensures r == locale
    {
      locale
    }

    /** getExpireAt: the expiry, in minutes, last set. */
    function GetExpireAt(): (r: Option<int>)
      reads this
      ensures r == expireAt
    {
      expireAt
    }

    /** getPageType: the page type last set. */
    function GetPageType(): (r: Option<string>)
      reads this
      ensures r == pageType
    {
      pageType
    }

    /** getDefaultCachePath: walks all sites, keeping the host of the last
        one whose locale is the cache's. */
    method GetDefaultCachePath() returns (r: Option<string>)
      ensures r == DefaultCachePath(PublicPath(container), locale, config.sites)
    {
      if container.Some? && container.value.publicPath.Some? {
        var path := container.value.publicPath.value + "/static/";
        if locale.Some? && Truthy(locale.value) {
          var sites := config.sites;
          var subFolder := "";
          var i := 0;
          while i < |sites|
            invariant 0 <= i <= |sites|
            invariant subFolder == SubFolder(sites[..i], locale.value)
          {
            if sites[i].locale == locale.value {
              subFolder := sites[i].host + "/";
            }
            assert sites[..i + 1][..i] == sites[..i];
            i := i + 1;
          }
          assert sites[..i] == sites;
          path := path + subFolder + "/";
        }
        r := Some(path);
      } else {
        r := None;
      }
    }

    /** getCachePath(...paths): the stored path when truthy, else the
        default, joined with the parts; the error when neither exists. A
        resolved path is never empty. */
    method GetCachePath(paths: seq<string>) returns (r: Result<string, CacheError>)
      requires Valid()
      ensures r == CachePath(Base(), paths)
      ensures r.Ok? ==> r.value != ""
    {
      var base := cachePath;
      if !(cachePath.Some? && Truthy(cachePath.value)) {
        base := GetDefaultCachePath();
      }
      if base.None? {
        r := Err(CachePathNotSet);
      } else {
        ResolvedPathNonEmpty(cachePath, PublicPath(container), locale, config.sites, paths);
        r := Ok(Join([base.value] + paths));
      }
    }

    /** getDirectoryAndFileNames, with the request's query and the
        configured whitelist. */
    method GetDirectoryAndFileNames(request: Request, response: Response) returns (r: Result<(string, string), CacheError>)
      requires Valid()
      requires request.query.Some? ==> WellFormed(request.query.value, config.whitelist)
      ensures r == DirectoryAndFileNames(Base(), request, response, config.whitelist)
      ensures r.Ok? ==> r.value.0 != ""
    {
      var filename := AliasFilename(LastSegment(request.pathInfo));
      var extension := GuessFileExtension(response);
      var directory := GetCachePath([Implode(DirectorySegments(request.pathInfo), '/')]);
      if directory.Err? {
        r := Err(directory.error);
      } else if request.query.Some? && FilterQuery(request.query.value, config.whitelist).Some? {
        var basename := "_" + FilterQuery(request.query.value, config.whitelist).value + ".html";
        r := Ok((directory.value, basename));
      } else {
        r := Ok((directory.value, filename + "." + extension));
      }
    }

    /** forget: deletes slug.html and slug.json under the cache directory and
        reports whether either existed; no other file changes. Without a
        cache directory nothing is deleted. */
    method Forget(slug: string) returns (r: Result<bool, CacheError>)
      requires Valid()
      modifies files
      ensures r.Err? <==> Base().None?
      ensures r.Err? ==> files.contents == old(files.contents)
      ensures r.Ok? ==>
        var html := Join([Base().value, slug + ".html"]);
        var json := Join([Base().value, slug + ".json"]);
        (r.value <==> html in old(files.contents) || json in old(files.contents)) &&
        files.contents == old(files.contents) - {html, json}
    {
      var htmlPath := GetCachePath([slug + ".html"]);
      if htmlPath.Err? {
        return Err(htmlPath.error);
      }
      var deletedHtml := files.Delete(htmlPath.value);
      var jsonPath := GetCachePath([slug + ".json"]);
      if jsonPath.Err? {
        assert false;
        return Err(CachePathNotSet);
      }
      var deletedJson := files.Delete(jsonPath.value);
      assert [Base().value] + [slug + ".html"] == [Base().value, slug + ".html"];
      assert [Base().value] + [slug + ".json"] == [Base().value, slug + ".json"];
      r := Ok(deletedHtml || deletedJson);
    }

    /** cache: writes the response body to the file named for the request,
        without truncating, then adds an index record for it that expires
        expireAt minutes after now (seconds). Without a cache directory
        nothing changes. */
    method Cache(request: Request, response: Response, now: int) returns (r: Result<(), CacheError>)
      requires Valid()
      requires request.query.Some? ==> WellFormed(request.query.value, config.whitelist)
      modifies files, index
      ensures r.Err? <==> Base().None?
      ensures r.Err? ==> files.contents == old(files.contents) && index.records == old(index.records)
      ensures r.Ok? ==>
        var names := DirectoryAndFileNames(Base(), request, response, config.whitelist).value;
        names.0 != "" &&
        files.contents == AfterWrite(old(files.contents), names, response.content) &&
        index.records == old(index.records) + [RecordFor(names, pageType, expireAt, now)]
    {
      var names := GetDirectoryAndFileNames(request, response);
      if names.Err? {
        return Err(names.error);
      }
      var (path, file) := names.value;
      files.WriteNoTruncate(path + "/" + file, response.content);
      index.Create(RecordFor(names.value, pageType, expireAt, now));
      r := Ok(());
    }

    /** cacheIfNeeded: caches exactly the responses shouldCache accepts;
        for any other nothing changes. */
    method CacheIfNeeded(request: Request, response: Response, now: int) returns (r: Result<(), CacheError>)
      requires Valid()
      requires request.query.Some? ==> WellFormed(request.query.value, config.whitelist)
      modifies files, index
      ensures !ShouldCache(request, response) ==>
        r == Ok(()) && files.contents == old(files.contents) && index.records == old(index.records)
      ensures ShouldCache(request, response) ==> (r.Err? <==> Base().None?)
      ensures ShouldCache(request, response) && r.Err? ==>
        files.contents == old(files.contents) && index.records == old(index.records)
      ensures ShouldCache(request, response) && r.Ok? ==>
        var names := DirectoryAndFileNames(Base(), request, response, config.whitelist).value;
        names.0 != "" &&
        files.contents == AfterWrite(old(files.contents), names, response.content) &&
        index.records == old(index.records) + [RecordFor(names, pageType, expireAt, now)]
    {
      if ShouldCache(request, response) {
        r := Cache(request, response, now);
      } else {
        r := Ok(());
      }
    }
  }

  /** The path the index records for a cached page is the path its file was
      written to, whenever the base survives join: join([dir, file]) is
      dir + "/" + file. */
  lemma RecordedPathIsWrittenPath(base: string, request: Request, response: Response,
                                  whitelist: Option<seq<string>>)
    requires base != "" && Kept([base]) != []
    requires request.query.Some? ==> WellFormed(request.query.value, whitelist)
    ensures var names := DirectoryAndFileNames(Some(base), request, response, whitelist).value;
      names.0 != "" && Join([names.0, names.1]) == names.0 + "/" + names.1
  {
    var names := DirectoryAndFileNames(Some(base), request, response, whitelist).value;
    var d := Implode(DirectorySegments(request.pathInfo), '/');
    FileNameIsClean(Some(base), request, response, whitelist);
    KeptAppend([base], [d]);
    assert [base] + [d] == [base, d];
    JoinAppendName([base, d], names.1);
  }

  /** The default base always survives join, so a page cached under it is
      recorded at the path it was written to. */
  lemma DefaultRecordedPath(publicPath: string, locale: Option<string>, sites: seq<Site>,
                            request: Request, response: Response, whitelist: Option<seq<string>>)
    requires request.query.Some? ==> WellFormed(request.query.value, whitelist)
    ensures var base := DefaultCachePath(Some(publicPath), locale, sites);
      var names := DirectoryAndFileNames(base, request, response, whitelist).value;
      names.0 != "" && Join([names.0, names.1]) == names.0 + "/" + names.1
  {
    DefaultBaseKept(publicPath, locale, sites);
    RecordedPathIsWrittenPath(DefaultCachePath(Some(publicPath), locale, sites).value, request, response, whitelist);
  }
}
