/**
 * The two files an ingestion run leaves under the storage directory: the flat
 * inner-product vector index (`faiss.index`) and the chunk metadata
 * (`chunks.json`), each with the modification time the file system gives it.
 */
module Store {
  import opened Wrappers
  import opened Strings

  /** An embedding vector; its float entries are opaque to the model. */
  type Vector = seq<real>

  /** A flat (exact-search) index: its rows, in the order they were added. */
  datatype FlatIndex = FlatIndex(rows: seq<Vector>)

  /** One record of `chunks.json`; a record written by hand may lack its `source` key. */
  datatype ChunkRecord = ChunkRecord(text: string, source: Option<string>)

  datatype StoredFile<T> = StoredFile(mtime: int, content: T)

  /** The storage directory: either file may be absent. */
  datatype Storage = Storage(index: Option<StoredFile<FlatIndex>>, meta: Option<StoredFile<seq<ChunkRecord>>>)

  const IndexFileName: string := "faiss.index"
  const MetaFileName: string := "chunks.json"

  predicate NotSlash(c: char) { c != '/' }

  /** The components `PurePosixPath` keeps of a path: the runs between slashes, except the empty ones and ".". */
  function Components(p: string): seq<string>
    decreases |p|
  {
    if p == [] then []
    else
      var e := SkipForward(p, NotSlash, 0);
      var head := p[..e];
      (if head == [] || head == "." then [] else [head]) + (if e < |p| then Components(p[e + 1..]) else [])
  }

  /** The anchor of a POSIX path: "//" for exactly two leading slashes, "/" for one or three and more, "" for a relative path. */
  function Root(p: string): string {
    if |p| >= 2 && p[0] == '/' && p[1] == '/' && (|p| == 2 || p[2] != '/') then "//"
    else if |p| >= 1 && p[0] == '/' then "/"
    else ""
  }

  /** `str(Path(dir) / name)` for a directory given as a string and a name of one component. */
  function PathJoin(dir: string, name: string): string {
    Root(dir) + Join(Components(dir) + [name], "/")
  }

  /** Every kept component is a non-empty run without slashes other than ".". */
  lemma {:induction false} ComponentsNormal(p: string)
    ensures forall c :: c in Components(p) ==> c != [] && c != "." && '/' !in c
    decreases |p|
  {
    if p != [] {
      var e := SkipForward(p, NotSlash, 0);
      SkipForwardSpec(p, NotSlash, 0);
      if e < |p| {
        ComponentsNormal(p[e + 1..]);
      }
    }
  }

  /** A trailing slash adds no component. */
  lemma {:induction false} ComponentsTrailingSlash(p: string)
    ensures Components(p + "/") == Components(p)
    decreases |p|
  {
    var q := p + "/";
    var e := SkipForward(p, NotSlash, 0);
    FirstSlashAppended(p);
    assert q[..e] == p[..e];
    var head := p[..e];
    var h := if head == [] || head == "." then [] else [head];
    if p == [] {
      assert q[..0] == [] && q[1..] == [];
    } else if e < |p| {
      assert q[e + 1..] == p[e + 1..] + "/";
      assert Components(q) == h + Components(q[e + 1..]);
      assert Components(p) == h + Components(p[e + 1..]);
      ComponentsTrailingSlash(p[e + 1..]);
    } else {
      assert q[e + 1..] == [];
      assert Components(q) == h + [];
      assert Components(p) == h + [];
    }
  }

  /** Appending a slash leaves the first component where it was, now ended by that slash. */
  lemma FirstSlashAppended(p: string)
    ensures var e := SkipForward(p, NotSlash, 0);
      SkipForward(p + "/", NotSlash, 0) == e && e <= |p|
  {
    var q := p + "/";
    SkipForwardSpec(p, NotSlash, 0);
    SkipForwardSpec(q, NotSlash, 0);
    var e := SkipForward(p, NotSlash, 0);
    assert forall k :: 0 <= k < |p| ==> q[k] == p[k];
    assert e < |q| && !NotSlash(q[e]);
  }

  /** The components the path written out by `PathJoin` leads with: none for an empty directory, and a trailing slash or a leading "./" changes nothing. */
  lemma PathJoinNormalises(dir: string, name: string)
    ensures PathJoin("", name) == name
    ensures dir != [] && dir[0] != '/' ==> PathJoin(dir + "/", name) == PathJoin(dir, name)
    ensures dir == [] || dir[0] != '/' ==> PathJoin("./" + dir, name) == PathJoin(dir, name)
  {
    assert Components("") == [];
    if dir != [] && dir[0] != '/' {
      ComponentsTrailingSlash(dir);
      assert Root(dir + "/") == "" == Root(dir);
    }
    var d := "./" + dir;
    SkipForwardSpec(d, NotSlash, 0);
    assert SkipForward(d, NotSlash, 0) == 1;
    assert d[..1] == "." && d[2..] == dir;
    assert Components(d) == Components(dir);
  }

  /** The written path ends with `name`, after a slash when anything comes before it. */
  lemma PathJoinEnds(dir: string, name: string)
    ensures var r := PathJoin(dir, name);
      && |name| <= |r| && r[|r| - |name|..] == name
      && (|r| > |name| ==> r[|r| - |name| - 1] == '/')
  {
    var cs := Components(dir);
    JoinAppend(cs, name, "/");
    if cs != [] {
      var r := PathJoin(dir, name);
      assert r == (Root(dir) + Join(cs, "/") + "/") + name;
    }
  }

  /** `faiss.write_index`: replaces the index file, stamping it with `now`. */
  function WriteIndex(s: Storage, rows: seq<Vector>, now: int): Storage {
    s.(index := Some(StoredFile(now, FlatIndex(rows))))
  }

  /** `meta_path.write_text(json.dumps(...))`: replaces the metadata file, stamping it with `now`. */
  function WriteMeta(s: Storage, records: seq<ChunkRecord>, now: int): Storage {
    s.(meta := Some(StoredFile(now, records)))
  }
}
