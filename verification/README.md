# page-cache: a verified model of the Cache class

This project models the `Cache` class of the page-cache package
(`src/Cache.php`). The class decides whether a response to an HTTP request is
stored as a static file, and under which path. It writes the page into a
directory tree under the public path, records it in a cache index, and can
delete a cached page again.

The model has seven modules:

- `Wrappers`: `Option` and `Result`.
- `Strings`: the PHP string functions the class relies on. These are `explode`
  (`Split`), `implode` (`Implode`), `trim`/`ltrim`/`rtrim` and PHP
  truthiness of a string. Only `""` and `"0"` are falsy.
- `Paths`: `join` and `matchRelativity`, the cache path as `setCachePath`
  stores it, `getDefaultCachePath` as a function of the public path, the
  locale and the configured sites, and `getCachePath` as a function of the
  chosen base.
- `QueryFilter`: `filterQuery`, a reference statement of it, and its
  properties.
- `FileNames`: `shouldCache`, `aliasFilename`, `guessFileExtension` and
  `getDirectoryAndFileNames`.
- `Storage`: the filesystem, seen as a map from path to bytes, and the cache
  index, seen as the list of records created. Both are classes whose methods
  change them in place.
- `PageCache`: the class `Cache`. It holds the fields the setters change. Its
  methods are `getDefaultCachePath` (the loop over the sites),
  `getCachePath`, `getDirectoryAndFileNames`, `forget`, `cache` and
  `cacheIfNeeded`. Each is proved against the functions of the modules above.

The `Location` lemmas of `FileNames` state the path recorded in the cache
index, `join([directory, file])`. The file itself is opened at
`directory + "/" + file`. `PageCache.RecordedPathIsWrittenPath` proves the
two are equal whenever the base survives `join`, and
`PageCache.DefaultRecordedPath` proves it for the default base.

`cache()` opens the file with mode 'c' and does not truncate it. A page that
shrinks therefore leaves the old tail behind its new content.
`Storage.Overwrite` and `Storage.OverwriteExact` model this as written.

Several inputs become explicit values:

- The service container becomes `Container`, holding the public path when
  one is bound.
- The configuration becomes `Config`, holding the sites (each a locale and
  its host) and the whitelisted query keys.
- The query string of the request URL is a field of `Request`.
- The current time is a parameter of `Cache`, in seconds.

## Model

| member | source | states |
|---|---|---|
| Strings.Truthy | src/Cache.php:119-124 | a string is truthy exactly when it has two characters or more, or one character other than '0'; array_filter drops the rest |
| Strings.Implode | src/Cache.php:124 | implode of n parts is at least n - 1 characters long, one glue character between neighbours |
| Strings.ImplodePrefix | src/Cache.php:265-269 | implode starts with its first part, and with the first part, the glue and the second part when there are two |
| Strings.Split | src/Cache.php:237 | explode always yields at least one piece, and no piece holds the delimiter |
| Strings.SplitCount | src/Cache.php:264-272 | explode yields a single piece exactly when the delimiter does not occur, so the strpos test and the explode agree |
| Strings.ImplodeSplit | src/Cache.php:237-250 | implode with the delimiter undoes explode |
| Strings.SplitImplode | src/Cache.php:237-250 | explode undoes implode of pieces without the delimiter |
| Strings.SplitAppend | src/Cache.php:272-274 | explode of a + delimiter + b is explode of a followed by explode of b |
| Strings.SplitWithout | src/Cache.php:264-265 | a string without the delimiter explodes to itself |
| Strings.SplitPair | src/Cache.php:272-274 | two delimiter-free pieces around one delimiter explode to those two pieces |
| Strings.SplitPiecesAvoid | src/Cache.php:272-274 | a character absent from the string is absent from every piece of its explode |
| Strings.ImplodeEnds | src/Cache.php:124 | implode of non-empty parts starts with the first part's first character and ends with the last part's last character, and holds the glue when there are two parts or more |
| Strings.ImplodeAppend | src/Cache.php:124 | implode of two non-empty lists is the two implodes glued together |
| Strings.ImplodeSnoc | src/Cache.php:124 | appending a part appends the glue and the part |
| Strings.ImplodeTail | src/Cache.php:249 | appending "." + extension to the last part appends it to the whole implode |
| Strings.TrimLeft | src/Cache.php:237 | ltrim's result does not start with a trimmed character |
| Strings.TrimRight | src/Cache.php:89 | rtrim's result does not end with a trimmed character |
| Strings.TrimLeftSuffix | src/Cache.php:237 | ltrim keeps a suffix and removes only listed characters |
| Strings.TrimRightPrefix | src/Cache.php:89 | rtrim keeps a prefix and removes only listed characters |
| Strings.Trim | src/Cache.php:119-121 | trim never makes a string longer |
| Strings.TrimEnds | src/Cache.php:119-121 | trim's result neither starts nor ends with a listed character |
| Strings.TrimKeeps | src/Cache.php:119-121 | trim keeps every character that is not listed |
| Strings.TrimLeading | src/Cache.php:119-121 | trim removes one leading listed character before an already trimmed string |
| Strings.TrimUntouched | src/Cache.php:119-121 | trim leaves an already trimmed string alone |
| Paths.MatchRelativity | src/Cache.php:135-138 | the result is the target with at most one character in front; that character is present exactly when the source starts with '/', and it is '/' |
| Paths.MatchRelativityAppend | src/Cache.php:135-138 | text appended to the target is appended to matchRelativity's result |
| Paths.Segments | src/Cache.php:237 | a path has at least one segment, and no segment holds '/' |
| Paths.Kept | src/Cache.php:119-124 | the parts join keeps are at most as many as given, and each is truthy with no '/' at either end |
| Paths.KeptAppend | src/Cache.php:119-124 | trim-and-filter distributes over concatenation of part lists |
| Paths.KeptSingle | src/Cache.php:119-124 | a single part is kept, trimmed, exactly when its trimmed form is truthy |
| Paths.Join | src/Cache.php:117-138 | join is absolute exactly when its first part is, is empty exactly when a relative first part leaves nothing kept, and never ends in '/' except as the root "/" |
| Paths.TrimOfJoin | src/Cache.php:117-138 | trimming a joined path gives the kept parts glued by '/' |
| Paths.ImplodeCleanTruthy | src/Cache.php:124 | kept parts glued by '/' are truthy, so a joined path survives a second join |
| Paths.JoinAssoc | src/Cache.php:117-138 | joining a non-empty joined path with more parts equals joining all parts at once |
| Paths.JoinIdempotent | src/Cache.php:117-138 | joining a non-empty joined path alone gives it back |
| Paths.JoinExtend | src/Cache.php:117-138 | adding a clean name to a non-root join appends "/" and the name |
| Paths.KeptSnoc | src/Cache.php:119-124 | a clean name added to the parts is kept unchanged after the other kept parts |
| Paths.JoinAppendName | src/Cache.php:117-138 | joining a non-root joined path with a clean name appends "/" and the name |
| Paths.JoinSegments | src/Cache.php:117-138 | the segments of a joined path are its kept parts when none holds an inner '/' |
| Paths.TrimLeftOfJoin | src/Cache.php:117-138 | ltrim of '/' takes a joined path that keeps something back to its kept parts glued by '/' |
| Paths.JoinExample | src/Cache.php:117-138 | ["/a//b/", "0", "c"] joins to "/a//b/c": an inner "//" survives and a part "0" is dropped |
| Paths.LastHost | src/Cache.php:320-323 | no host is found exactly when no site has the locale |
| Paths.LastHostIsLastMatch | src/Cache.php:320-324 | the locale's host is found exactly when some site has the locale, and it is the host of the last such site |
| Paths.SubFolder | src/Cache.php:319-325 | the sub-folder is empty exactly when no site has the locale, and otherwise ends in '/' |
| Paths.DefaultCachePath | src/Cache.php:313-330 | the default exists exactly when a public path is bound, and it starts with the public path + "/static/" |
| Paths.DefaultBaseKept | src/Cache.php:313-330 | the default base is never dropped by join |
| Paths.ChooseBase | src/Cache.php:102 | a truthy stored path is used, otherwise the default |
| Paths.CachePath | src/Cache.php:100-109 | the path is an error exactly when there is no base, otherwise the base joined with the parts |
| Paths.StoredCachePath | src/Cache.php:87-90 | the stored path is a prefix of the argument with only '/' and '\' cut off, and it ends in neither |
| Paths.ResolvedPathNonEmpty | src/Cache.php:100-109 | with a stored path as setCachePath leaves it, any resolved cache path is non-empty |
| QueryFilter.Key | src/Cache.php:265-266 | the key is the text of the pair before its first '=': a prefix holding no '=', the whole pair when it has none |
| QueryFilter.Value | src/Cache.php:269 | the value holds no '=' and follows the key and one '=' at the start of the pair |
| QueryFilter.Canonical | src/Cache.php:269 | a written-back pair is a prefix of the original pair and holds '=' |
| QueryFilter.PairParts | src/Cache.php:265-269 | a pair written as key=value, neither holding '=', reads back as that key and that value |
| QueryFilter.Inspected | src/Cache.php:272-274 | one parameter is inspected without '&' and exactly two with it |
| QueryFilter.FilterQuery | src/Cache.php:258-295 | null without a whitelist; without '&', a result exactly when the key is whitelisted; with '&', null exactly when neither of the first two keys is whitelisted; a result is never empty and never starts with '&' |
| QueryFilter.Whitelisted | src/Cache.php:282-292 | the whitelisted pairs are at most as many as the inspected ones, and each holds '=' |
| QueryFilter.FilterSpec | src/Cache.php:258-295 | the reference statement is null without a whitelist and never the empty string |
| QueryFilter.FilterQueryMatchesSpec | src/Cache.php:258-295 | filterQuery equals the whitelisted inspected parameters, written back as key=value, in order and joined by '&', or null when there are none |
| QueryFilter.SingleMatchesSpec | src/Cache.php:264-270 | the reference statement holds for a query with one parameter |
| QueryFilter.PairMatchesSpec | src/Cache.php:272-294 | the reference statement holds for a query with '&' |
| QueryFilter.CanonicalIsFixed | src/Cache.php:269 | a written-back pair keeps its key and is unchanged by writing it back again |
| QueryFilter.CanonicalAvoids | src/Cache.php:269 | writing a pair back introduces no '&' |
| QueryFilter.WhitelistedFixed | src/Cache.php:282-292 | every kept entry is whitelisted, readable and already in written-back form |
| QueryFilter.WhitelistedOfFixed | src/Cache.php:282-292 | filtering entries already in written-back form keeps them all unchanged |
| QueryFilter.FilterQueryIdempotent | src/Cache.php:258-295 | filtering a filtered query again gives it back, so the derived file name is stable |
| QueryFilter.FilterQueryIgnoresTail | src/Cache.php:272-274 | parameters after the second never change the result |
| QueryFilter.DropFirstKeepSecond | src/Cache.php:272-294 | of two parameters, a first whose key is not whitelisted is dropped and a whitelisted key=value second is kept unchanged |
| QueryFilter.SecondParameterExample | src/Cache.php:282-292 | "a=1&b=2" with whitelist ["b"] filters to "b=2" |
| QueryFilter.SecondEqualsExample | src/Cache.php:265-269 | "a=b=c" with whitelist ["a"] filters to "a=b" |
| FileNames.ShouldCache | src/Cache.php:163-166 | a pair is cached exactly when the method is GET and the status is 200 |
| FileNames.AliasFilename | src/Cache.php:303-306 | the name is kept when truthy, a falsy name becomes pc__index__pc, and the result is never falsy |
| FileNames.GuessFileExtension | src/Cache.php:339-354 | json exactly for a JsonResponse or application/json; xml exactly for text/xml or application/xml when not json; html otherwise |
| FileNames.DirectorySegments | src/Cache.php:237-238 | the directory segments are all the path segments but the last, and none holds '/' |
| FileNames.LastSegment | src/Cache.php:237-239 | the last segment holds no '/', and the directory segments followed by it are all the segments |
| FileNames.DirectoryAndFileNames | src/Cache.php:235-251 | an error exactly when there is no base; otherwise the directory is the base joined with every path segment but the last |
| FileNames.FileNameIsClean | src/Cache.php:245-249 | the file name is truthy with no '/' at either end, so join never drops or alters it |
| FileNames.QueryNameIgnoresLastSegment | src/Cache.php:244-246 | when the query filters to something, the file is "_" + filtered + ".html", whatever the last segment and the response |
| FileNames.NoWhitelistIgnoresQuery | src/Cache.php:258-262 | without a whitelist the query never affects the names |
| FileNames.SegmentsOfPath | src/Cache.php:237 | the path "/" + segments glued by '/' explodes back to the segments |
| FileNames.SegmentsClean | src/Cache.php:119-124 | truthy path segments are clean: join neither drops nor trims them |
| FileNames.Location | src/Cache.php:179 | the recorded path of a clean name in the directory of segments dirs is join([base]) + '/' + the segments and the name glued by '/' |
| FileNames.LocationAtBase | src/Cache.php:179 | with no directory segments the recorded path is join([base]) + '/' + name |
| FileNames.LocationBelow | src/Cache.php:179 | with directory segments the recorded path is join([base]) + '/' + segments and name glued by '/' |
| FileNames.ImplodeIsClean | src/Cache.php:249 | clean segments glued by '/' form a clean part |
| FileNames.DirectoryJoin | src/Cache.php:249 | the directory is join([base]) + '/' + the glued segments, and join keeps something of it |
| FileNames.NameJoin | src/Cache.php:179 | a clean name joined to the directory follows it after one '/' |
| FileNames.LocationWithExtension | src/Cache.php:249 | the same, join([base]) + '/' + segments glued by '/' + '.' + extension, with the last segment carrying the extension |
| FileNames.PlainNames | src/Cache.php:249-250 | without a filtered query the file is the aliased last segment, '.', and the guessed extension |
| FileNames.PlainLocationOf | src/Cache.php:235-251 | a plain request with known truthy segments is recorded at join([base]) + '/' + path + '.' + extension |
| FileNames.PlainLocation | src/Cache.php:235-251 | "/a/b/c" with no filtered query is recorded at join([base]) + "/a/b/c." + extension |
| FileNames.RootLocation | src/Cache.php:237-249 | the root path "/" is recorded at join([base]) + '/' + pc__index__pc + '.' + the guessed extension |
| FileNames.RootNames | src/Cache.php:237-250 | the root path "/" has no directory segments, and its file is pc__index__pc with the guessed extension |
| FileNames.AliasNameClean | src/Cache.php:303-306 | the index alias with an extension is never dropped or altered by join |
| Storage.Overwrite | src/Cache.php:185-188 | writing into a file opened with mode 'c' replaces a prefix: the data comes first, followed by any longer old tail |
| Storage.OverwriteIdempotent | src/Cache.php:185-188 | writing the same data twice leaves what writing it once leaves |
| Storage.OverwriteExact | src/Cache.php:185-188 | the file holds exactly the data exactly when the old content was no longer |
| Storage.Filesystem.Delete | src/Cache.php:211-212 | delete reports whether the file existed and removes only that path |
| Storage.Filesystem.WriteNoTruncate | src/Cache.php:185-188 | only the written path changes, to the old content overwritten by the data |
| Storage.CacheIndex.Create | src/Cache.php:196-200 | the new record is appended after all earlier ones |
| PageCache.PublicPath | src/Cache.php:315-316 | a public path exists exactly when there is a container with one bound |
| PageCache.Minutes | src/Cache.php:199 | a missing expiry adds no minutes |
| PageCache.AfterWrite | src/Cache.php:185-188 | after cache() only the path directory + "/" + file changes |
| PageCache.RecordFor | src/Cache.php:196-200 | the record holds the joined path, the page type, and now plus expireAt minutes |
| PageCache.Cache.Valid | src/Cache.php:87-90 | the stored path is valid exactly when setCachePath's normalisation leaves it unchanged |
| PageCache.Cache.Base | src/Cache.php:102-106 | there is no base exactly when the stored path is falsy and no public path is bound; a base is never empty |
| PageCache.Cache.constructor | src/Cache.php:63-66 | a new cache has the given filesystem and nothing set |
| PageCache.Cache.SetContainer | src/Cache.php:74-79 | the container is replaced and nothing else changes |
| PageCache.Cache.SetCachePath | src/Cache.php:87-90 | the stored path is the argument without trailing '/' and '\'; the other fields are unchanged |
| PageCache.Cache.SetLocale | src/Cache.php:360-364 | getLocale then returns the locale and nothing else changes |
| PageCache.Cache.SetPageType | src/Cache.php:370-374 | getPageType then returns the page type and nothing else changes |
| PageCache.Cache.SetExpireAt | src/Cache.php:380-384 | getExpireAt then returns the expiry and nothing else changes |
| PageCache.Cache.GetLocale | src/Cache.php:389-392 | returns the stored locale |
| PageCache.Cache.GetExpireAt | src/Cache.php:397-400 | returns the stored expiry |
| PageCache.Cache.GetPageType | src/Cache.php:405-408 | returns the stored page type |
| PageCache.Cache.GetDefaultCachePath | src/Cache.php:313-330 | the loop over the sites yields the default path, with the last matching site's host |
| PageCache.Cache.GetCachePath | src/Cache.php:100-109 | equals the cache path of the chosen base and is never empty when it succeeds |
| PageCache.Cache.GetDirectoryAndFileNames | src/Cache.php:235-251 | equals the names derived from the chosen base, and the directory is non-empty |
| PageCache.Cache.Forget | src/Cache.php:209-215 | deletes exactly slug.html and slug.json under the base and reports whether either existed; without a base nothing changes |
| PageCache.Cache.Cache | src/Cache.php:175-201 | writes the body at directory + "/" + file without truncating and appends one index record; without a base nothing changes |
| PageCache.Cache.CacheIfNeeded | src/Cache.php:147-154 | caches exactly what shouldCache accepts, with cache()'s effect; otherwise nothing changes |
| PageCache.RecordedPathIsWrittenPath | src/Cache.php:179-185 | the path recorded in the index equals the path the file is written to whenever the base survives join |
| PageCache.DefaultRecordedPath | src/Cache.php:179-185 | under the default base the recorded path is always the written path |

## Left out

- `clear` (src/Cache.php:223-226) is not modelled. It only forwards to the
  filesystem's recursive directory deletion, and that code is not part of
  this model.
- `cacheUrl`, `makeHash` and `normalizeContent` are not modelled. They refer
  to members the class does not have, or to an md5 hash.
- `isBasenameTooLong` is not modelled. Nothing calls it.
- `arrGet`, `config(...)`, `$_SERVER['REQUEST_URI']` and `parse_url` are not
  modelled; they are replaced by inputs:
  - `Request.query` holds the URL's query when there is one;
  - `Config` holds the sites, each a locale and a host already taken from
    its URL, and the whitelist;
  - `Container` holds the public path when one is bound.
- `mkdir`, `chmod`, `sleep(0)` and `fclose` in `cache` are not modelled.
  They do not change which bytes end up at which path. A failing `fopen`
  (an unwritable directory) is not modelled either.
- Concurrency is not modelled. Each `cache()` call is one atomic step, so
  writers in several processes that interleave on one file are not
  represented.
- The filesystem is modelled as a map keyed by path strings. Two spellings
  of one file, such as `a//b` and `a/b`, count as different keys.
- The clock is an input. `Carbon::now()` becomes the `now` parameter, in
  seconds. `addMinutes` is modelled as adding 60 seconds per minute, and a
  missing expiry adds nothing.
- PHP's loose `in_array` comparison is not modelled. Whitelist membership is
  exact string equality.
- QueryFilter.FilterQuery: requires every inspected parameter whose key is
  whitelisted to contain '='. Without it, PHP reads an offset `[1]` that
  does not exist. That read is an undefined-offset notice that yields
  null, and it is not modelled.
- The `$this` returned by the setters and by `cacheIfNeeded` is not
  modelled. It only allows call chaining.
- The thrown "Cache path not set." exception is modelled as
  `Err(CachePathNotSet)`. `forget` and `cache` then stop before changing
  anything, as the exception would stop them.
