/** The stores the cache writes to: the filesystem, seen as files by path,
    and the cache index, seen as the list of records created so far. */
module Storage {
  import opened Wrappers

  /** A file's new content after writing data at offset 0 of a handle opened
      in mode 'c': the file is not truncated, so the data replaces a prefix of
      the old content and any longer old tail stays behind it. */
  function Overwrite(existing: seq<bv8>, data: seq<bv8>): (r: seq<bv8>)
    ensures |r| == if |existing| <= |data| then |data| else |existing|
    ensures r[..|data|] == data
    ensures r[|data|..] == if |existing| <= |data| then [] else existing[|data|..]
  {
    if |existing| <= |data| then data else data + existing[|data|..]
  }

  /** Writing the same data twice leaves what writing it once leaves. */
  lemma OverwriteIdempotent(existing: seq<bv8>, data: seq<bv8>)
    ensures Overwrite(Overwrite(existing, data), data) == Overwrite(existing, data)
  {
    var once := Overwrite(existing, data);
    if |existing| > |data| {
      assert once[..|data|] == data;
      assert once[|data|..] == existing[|data|..];
      assert data + once[|data|..] == once;
    }
  }

  /** The file holds exactly the data when the old content was no longer
      than it (a new file counts as empty); otherwise the old tail shows. */
  lemma OverwriteExact(existing: seq<bv8>, data: seq<bv8>)
    ensures Overwrite(existing, data) == data <==> |existing| <= |data|
  {
    if |existing| > |data| {
      assert |Overwrite(existing, data)| == |existing|;
    }
  }

  /** The content a path holds, the empty file when it holds none. */
  function ContentOf(contents: map<string, seq<bv8>>, path: string): seq<bv8> {
    if path in contents then contents[path] else []
  }

  /** The part of the filesystem the cache uses: files by path. */
  class Filesystem {
    var contents: map<string, seq<bv8>>

    constructor (initial: map<string, seq<bv8>>)
      ensures contents == initial
    {
      contents := initial;
    }

    /** delete: removes the file and reports whether it existed; no other
        file changes. */
    method Delete(path: string) returns (existed: bool)
      modifies this
      ensures existed <==> path in old(contents)
      ensures contents == old(contents) - {path}
    {
      existed := path in contents;
      contents := contents - {path};
    }

    /** fopen(path, 'c') followed by fwrite of data: the file is created when
        missing and written from its start without truncation. */
    method WriteNoTruncate(path: string, data: seq<bv8>)
      modifies this
      ensures contents == old(contents)[path := Overwrite(ContentOf(old(contents), path), data)]
    {
      contents := contents[path := Overwrite(ContentOf(contents, path), data)];
    }
  }

  /** A row of the cache index: the cached file's path, the page type and
      the moment, in seconds, at which the entry expires. */
  datatype IndexRecord = IndexRecord(path: string, pageType: Option<string>, expireAt: int)

  /** The cache index table, seen as the records created so far, oldest
      first. */
  class CacheIndex {
    var records: seq<IndexRecord>

    constructor ()
      ensures records == []
    {
      records := [];
    }

    /** create: adds one record after all earlier ones. */
    method Create(record: IndexRecord)
      modifies this
      ensures records == old(records) + [record]
    {
      records := records + [record];
    }
  }
}
