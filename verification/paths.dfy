/** Path handling of the cache: join and matchRelativity, the separator
    stripping of setCachePath, and the choice of the cache root made by
    getCachePath and getDefaultCachePath. */
module Paths {
  import opened Wrappers
  import opened Strings

  /** The only error the cache raises itself: no cache path can be found. */
  datatype CacheError = CachePathNotSet

  /** One configured site: its locale and the host named by its URL. */
  datatype Site = Site(locale: string, host: string)

  /** The character list join trims with. */
  const SlashOnly: set<char> := {'/'}

  /** The character list setCachePath strips from the end of a path. */
  const Separators: set<char> := {'/', '\\'}

  /** One part as join keeps it: trimmed of '/' at both ends. */
  function TrimSlashes(part: string): string {
    Trim(part, SlashOnly)
  }

  /** The parts that survive join's trim and its array_filter, in order: a
      part that trims to "" or to "0" is falsy in PHP and is dropped. */
  function Kept(parts: seq<string>): (r: seq<string>)
    ensures |r| <= |parts|
    ensures forall i :: 0 <= i < |r| ==> Clean(r[i])
  {
    if |parts| == 0 then []
    else
      var t := TrimSlashes(parts[0]);
      var rest := Kept(parts[1..]);
      TrimEnds(parts[0], SlashOnly);
      if Truthy(t) then [t] + rest else rest
  }

  /** A part as join keeps it: truthy, with no '/' at either end. */
  predicate Clean(t: string) {
    Truthy(t) && t[0] != '/' && t[|t| - 1] != '/'
  }

  /** matchRelativity: the target, made absolute when the source is. */
  function MatchRelativity(source: string, target: string): (r: string)
    requires source != ""
    ensures |target| <= |r| <= |target| + 1 && r[|r| - |target|..] == target
    ensures |r| == |target| + 1 <==> source[0] == '/'
    ensures |r| == |target| + 1 ==> r[0] == '/'
  {
    if source[0] == '/' then "/" + target else target
  }

  /** join: the kept parts joined by '/', absolute exactly when the first part
      is. The result never ends in '/' unless it is the root "/", and it is
      empty only for a relative first part with nothing kept. */
  function Join(parts: seq<string>): (r: string)
    requires |parts| > 0 && parts[0] != ""
    ensures (r != "" && r[0] == '/') <==> parts[0][0] == '/'
    ensures r == "" <==> (parts[0][0] != '/' && Kept(parts) == [])
    ensures r != "" && r != "/" ==> r[|r| - 1] != '/'
  {
    var kept := Kept(parts);
    var body := Implode(kept, '/');
    if kept == [] then MatchRelativity(parts[0], body)
    else
      ImplodeEnds(kept, '/');
      assert body != "" && body[0] != '/' && body[|body| - 1] != '/';
      MatchRelativity(parts[0], body)
  }

  /** The segments of a path: explode on '/' after an ltrim of '/'. */
  function Segments(path: string): (r: seq<string>)
    ensures |r| >= 1
    ensures forall i :: 0 <= i < |r| ==> '/' !in r[i]
  {
    Split(TrimLeft(path, SlashOnly), '/')
  }

  /** Kept distributes over concatenation of part lists. */
  lemma {:induction false} KeptAppend(a: seq<string>, b: seq<string>)
    ensures Kept(a + b) == Kept(a) + Kept(b)
  {
    if |a| > 0 {
      assert (a + b)[0] == a[0];
      assert (a + b)[1..] == a[1..] + b;
      KeptAppend(a[1..], b);
    } else {
      assert a + b == b;
    }
  }

  /** Trimming a joined path gives the kept parts joined by '/'. */
  lemma TrimOfJoin(parts: seq<string>)
    requires |parts| > 0 && parts[0] != ""
    ensures TrimSlashes(Join(parts)) == Implode(Kept(parts), '/')
  {
    var kept := Kept(parts);
    var body := Implode(kept, '/');
    if kept == [] {
      assert body == "";
      TrimLeading('/', "", SlashOnly);
    } else {
      ImplodeEnds(kept, '/');
      if parts[0][0] == '/' {
        assert Join(parts) == "/" + body;
        TrimLeading('/', body, SlashOnly);
      } else {
        assert Join(parts) == body;
        TrimUntouched(body, SlashOnly);
      }
    }
  }

  /** Clean parts joined by '/' are truthy. */
  lemma ImplodeCleanTruthy(kept: seq<string>)
    requires kept != []
    requires forall i :: 0 <= i < |kept| ==> Clean(kept[i])
    ensures Truthy(Implode(kept, '/'))
  {
    ImplodeEnds(kept, '/');
    if |kept| >= 2 {
      var r := Implode(kept, '/');
      assert '/' in r;
    }
  }

  /** Joining an already joined path with more parts is the same as joining
      all the parts at once. */
  lemma JoinAssoc(p: seq<string>, q: seq<string>)
    requires |p| > 0 && p[0] != ""
    requires Join(p) != ""
    ensures Join([Join(p)] + q) == Join(p + q)
  {
    var j := Join(p);
    var kp, kq := Kept(p), Kept(q);
    TrimOfJoin(p);
    KeptAppend([j], q);
    KeptAppend(p, q);
    KeptSingle(j);
    assert ([j] + q)[0] == j;
    assert (p + q)[0] == p[0];
    var left := Implode(Kept([j] + q), '/');
    var right := Implode(Kept(p + q), '/');
    assert Join([j] + q) == MatchRelativity(j, left);
    assert Join(p + q) == MatchRelativity(p[0], right);
    if kp != [] {
      ImplodeCleanTruthy(kp);
      assert Kept([j] + q) == [Implode(kp, '/')] + kq;
      assert Kept(p + q) == kp + kq;
      if kq != [] {
        ImplodeAppend([Implode(kp, '/')], kq, '/');
        ImplodeAppend(kp, kq, '/');
      } else {
        assert kp + kq == kp;
      }
      assert left == right;
    } else {
      assert Kept([j] + q) == kq;
      assert Kept(p + q) == kq;
    }
  }

  /** A single part is kept as its trimmed form exactly when that is truthy. */
  lemma KeptSingle(x: string)
    ensures Kept([x]) == (if Truthy(TrimSlashes(x)) then [TrimSlashes(x)] else [])
  {
    assert [x][1..] == [];
  }

  /** join is idempotent on a non-empty result. */
  lemma JoinIdempotent(p: seq<string>)
    requires |p| > 0 && p[0] != ""
    requires Join(p) != ""
    ensures Join([Join(p)]) == Join(p)
  {
    JoinAssoc(p, []);
    assert p + [] == p;
  }

  /** Joining a path that is not the root with a clean name appends "/" and
      the name. */
  lemma JoinAppendName(p: seq<string>, name: string)
    requires |p| > 0 && p[0] != ""
    requires Kept(p) != []
    requires Clean(name)
    ensures Join([Join(p), name]) == Join(p) + "/" + name
  {
    assert Join([Join(p), name]) == Join(p + [name]) by {
      JoinAssoc(p, [name]);
      assert [Join(p)] + [name] == [Join(p), name];
    }
    JoinExtend(p, name);
  }

  /** Adding a clean name to the parts adds "/" and the name to the join. */
  lemma JoinExtend(p: seq<string>, name: string)
    requires |p| > 0 && p[0] != ""
    requires Kept(p) != []
    requires Clean(name)
    ensures Join(p + [name]) == Join(p) + "/" + name
  {
    var kp := Kept(p);
    KeptSnoc(p, name);
    ImplodeSnoc(kp, name, '/');
    assert (p + [name])[0] == p[0];
    MatchRelativityAppend(p[0], Implode(kp, '/'), "/" + name);
    Regroup(Join(p), "/", name);
  }

  /** Text appended to the target is appended to matchRelativity's result. */
  lemma MatchRelativityAppend(source: string, target: string, tail: string)
    requires source != ""
    ensures MatchRelativity(source, target + tail) == MatchRelativity(source, target) + tail
  {
    if source[0] == '/' {
      Regroup("/", target, tail);
    }
  }

  /** A clean name added to the parts is kept as it is, after the others. */
  lemma KeptSnoc(p: seq<string>, name: string)
    requires Clean(name)
    ensures Kept(p + [name]) == Kept(p) + [name]
  {
    TrimUntouched(name, SlashOnly);
    KeptSingle(name);
    KeptAppend(p, [name]);
  }

  /** Splitting a joined path on '/' gives back the kept parts, when no kept
      part holds an inner '/'. */
  lemma JoinSegments(parts: seq<string>)
    requires |parts| > 0 && parts[0] != ""
    requires Kept(parts) != []
    requires forall i :: 0 <= i < |Kept(parts)| ==> '/' !in Kept(parts)[i]
    ensures Segments(Join(parts)) == Kept(parts)
  {
    TrimLeftOfJoin(parts);
    SplitImplode(Kept(parts), '/');
  }

  /** ltrim of '/' takes a joined path that keeps something back to its kept
      parts glued by '/'. */
  lemma TrimLeftOfJoin(parts: seq<string>)
    requires |parts| > 0 && parts[0] != ""
    requires Kept(parts) != []
    ensures TrimLeft(Join(parts), SlashOnly) == Implode(Kept(parts), '/')
  {
    var body := Implode(Kept(parts), '/');
    ImplodeEnds(Kept(parts), '/');
    if parts[0][0] == '/' {
      assert ("/" + body)[1..] == body;
    }
  }

  /** The host of the last site whose locale matches: getDefaultCachePath's
      loop does not stop at the first match, so the last one wins. */
  function LastHost(sites: seq<Site>, locale: string): (r: Option<string>)
    ensures r.None? <==> forall i :: 0 <= i < |sites| ==> sites[i].locale != locale
  {
    if |sites| == 0 then None
    else if sites[|sites| - 1].locale == locale then Some(sites[|sites| - 1].host)
    else LastHost(sites[..|sites| - 1], locale)
  }

  /** LastHost finds nothing exactly when no site has the locale, and
      otherwise names a matching site after which no site matches. */
  lemma {:induction false} LastHostIsLastMatch(sites: seq<Site>, locale: string)
    ensures LastHost(sites, locale).None? <==> forall i :: 0 <= i < |sites| ==> sites[i].locale != locale
    ensures LastHost(sites, locale).Some? ==>
      exists i :: 0 <= i < |sites| && sites[i].locale == locale && sites[i].host == LastHost(sites, locale).value &&
        forall j :: i < j < |sites| ==> sites[j].locale != locale
  {
    if |sites| > 0 {
      var n := |sites| - 1;
      var init := sites[..n];
      LastHostIsLastMatch(init, locale);
      assert forall i :: 0 <= i < n ==> init[i] == sites[i];
      if sites[n].locale != locale && LastHost(init, locale).Some? {
        var i :| 0 <= i < n && init[i].locale == locale && init[i].host == LastHost(init, locale).value &&
          forall j :: i < j < n ==> init[j].locale != locale;
        assert sites[i].locale == locale;
      }
    }
  }

  /** The folder that getDefaultCachePath appends for a locale: the matching
      host followed by '/', or nothing. */
  function SubFolder(sites: seq<Site>, locale: string): (r: string)
    ensures r == "" <==> forall i :: 0 <= i < |sites| ==> sites[i].locale != locale
    ensures r != "" ==> r[|r| - 1] == '/'
  {
    match LastHost(sites, locale)
    case None => ""
    case Some(host) => host + "/"
  }

  /** getDefaultCachePath: "static/" under the public path when one is bound,
      followed by the locale's sub-folder and a '/' when a locale is set. */
  function DefaultCachePath(publicPath: Option<string>, locale: Option<string>, sites: seq<Site>): (r: Option<string>)
    ensures r.Some? <==> publicPath.Some?
    ensures r.Some? ==> |publicPath.value| + 8 <= |r.value| && r.value[..|publicPath.value| + 8] == publicPath.value + "/static/"
  {
    if publicPath.None? then None
    else
      var root := publicPath.value + "/static/";
      if locale.Some? && Truthy(locale.value) then
        var r := root + SubFolder(sites, locale.value) + "/";
        assert r[..|root|] == root;
        Some(r)
      else Some(root)
  }

  /** getCachePath's choice of base: the stored path when it is truthy,
      otherwise the default. */
  function ChooseBase(cachePath: Option<string>, default: Option<string>): (r: Option<string>)
    ensures cachePath.Some? && Truthy(cachePath.value) ==> r == cachePath
    ensures !(cachePath.Some? && Truthy(cachePath.value)) ==> r == default
  {
    if cachePath.Some? && Truthy(cachePath.value) then cachePath else default
  }

  /** getCachePath(...paths): the base joined with the given parts, or the
      "Cache path not set." error when there is no base. */
  function CachePath(base: Option<string>, paths: seq<string>): (r: Result<string, CacheError>)
    requires base.Some? ==> base.value != ""
    ensures r.Err? <==> base.None?
    ensures r.Ok? ==> r.value == Join([base.value] + paths)
  {
    if base.None? then Err(CachePathNotSet) else Ok(Join([base.value] + paths))
  }

  /** setCachePath's rtrim of '/' and '\': a prefix of the argument that no
      longer ends in a separator, with only separators cut off. */
  function StoredCachePath(path: string): (r: string)
    ensures NoTrailingSeparator(r)
    ensures |r| <= |path| && r == path[..|r|]
    ensures forall i :: |r| <= i < |path| ==> path[i] in Separators
  {
    TrimRightPrefix(path, Separators);
    TrimRight(path, Separators)
  }

  /** A stored path as setCachePath leaves it: no trailing '/' or '\'. */
  predicate NoTrailingSeparator(s: string) {
    s == "" || s[|s| - 1] !in Separators
  }

  /** Whatever base getCachePath chooses is non-empty, and joining it with
      any parts gives a non-empty path. */
  lemma ResolvedPathNonEmpty(cachePath: Option<string>, publicPath: Option<string>, locale: Option<string>,
                             sites: seq<Site>, paths: seq<string>)
    requires cachePath.Some? ==> NoTrailingSeparator(cachePath.value)
    requires ChooseBase(cachePath, DefaultCachePath(publicPath, locale, sites)).Some?
    ensures var b := ChooseBase(cachePath, DefaultCachePath(publicPath, locale, sites)).value;
      b != "" && Join([b] + paths) != ""
  {
    var b := ChooseBase(cachePath, DefaultCachePath(publicPath, locale, sites)).value;
    var parts := [b] + paths;
    assert parts[0] == b && parts[1..] == paths;
    if cachePath.Some? && Truthy(cachePath.value) {
      if b[0] != '/' {
        TrimUntouched(b, SlashOnly);
        assert Kept(parts) == [b] + Kept(paths);
      }
    } else {
      var pub := publicPath.value;
      assert b[..|pub| + 8] == pub + "/static/";
      if b[0] != '/' {
        assert b[|pub| + 1] == 's';
        TrimKeeps(b, SlashOnly, |pub| + 1);
        assert Truthy(TrimSlashes(b));
        assert Kept(parts) == [TrimSlashes(b)] + Kept(paths);
      }
    }
  }

  /** The default cache path always survives join's trim and filter: it holds
      "static" between its separators. */
  lemma DefaultBaseKept(publicPath: string, locale: Option<string>, sites: seq<Site>)
    ensures var b := DefaultCachePath(Some(publicPath), locale, sites).value;
      b != "" && Kept([b]) != []
  {
    var b := DefaultCachePath(Some(publicPath), locale, sites).value;
    var k := |publicPath| + 1;
    assert b[..k + 7] == publicPath + "/static/";
    assert b[k] == 's';
    TrimKeeps(b, SlashOnly, k);
    KeptSingle(b);
  }

  /** join keeps a doubled '/' inside a part and drops a part "0":
      ["/a//b/", "0", "c"] joins to "/a//b/c". */
  lemma JoinExample()
    ensures Join(["/a//b/", "0", "c"]) == "/a//b/c"
  {
    assert TrimSlashes("/a//b/") == "a//b" by {
      assert TrimRight("/a//b/", SlashOnly) == "/a//b";
      assert TrimLeft("/a//b", SlashOnly) == "a//b";
    }
    assert Kept(["/a//b/", "0", "c"]) == ["a//b", "c"] by {
      assert ["/a//b/", "0", "c"][1..] == ["0", "c"];
      assert ["0", "c"][1..] == ["c"];
      KeptSingle("c");
    }
  }
}
