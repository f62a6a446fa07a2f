/** Importing files that are already on disk into the archive: the
    per-download scan of the target folder
    (`build_archive_from_existing_files_optimized`) and the recursive
    `--load` scan of any directory (`load_directory_to_archive`). Both give
    every file a key derived from a hash of its absolute path. */
module Importer {
  import opened Wrappers
  import opened Text
  import opened Paths
  import opened Disk
  import opened Archive
  import opened Manager

  predicate IsHexDigit(c: char) {
    '0' <= c <= '9' || 'a' <= c <= 'f'
  }

  /** The hexadecimal text of an 8-byte digest. */
  type HexDigest = h: string | |h| == 16 && forall i | 0 <= i < |h| :: IsHexDigit(h[i])
    witness "0000000000000000"

  /** BLAKE2b with an 8-byte digest over the UTF-8 path, as lower-case hex. */
  type PathHash = string -> HexDigest

  /** `_stable_key_for_path(abs_path, fmt)` */
  function StableKey(hash: PathHash, absPath: string, fmt: string): (k: string)
    ensures StartsWith(k, "local_") && EndsWith(k, "_" + fmt)
    ensures |k| == 23 + |fmt|
  {
    "local_" + hash(absPath) + "_" + fmt
  }

  /** Two stable keys agree exactly when the path digests and the formats
      agree: distinct paths collide only through their hash. */
  lemma StableKeyInjective(hash: PathHash, p1: string, f1: string, p2: string, f2: string)
    ensures StableKey(hash, p1, f1) == StableKey(hash, p2, f2) <==> hash(p1) == hash(p2) && f1 == f2
  {
    var k1 := StableKey(hash, p1, f1);
    var k2 := StableKey(hash, p2, f2);
    if k1 == k2 {
      assert k1[6..22] == hash(p1) && k2[6..22] == hash(p2);
      assert k1[23..] == f1 && k2[23..] == f2;
    }
  }

  /** A stable key never has the shape of a downloaded entry's key, whose
      extractor part is lower-case letters other than "local": the two kinds
      of entry never share a key. */
  lemma StableKeyIsNotDownloadKey(hash: PathHash, path: string, fmt: string, vid: string, extractor: string, container: string)
    requires Lower(if extractor != "" then extractor else "generic") != "local"
    requires Free(extractor, '_')
    ensures StableKey(hash, path, fmt) != Key(vid, extractor, container)
  {
    var word := if extractor != "" then extractor else "generic";
    KeyShape(vid, extractor, container);
    LowerKeepsUnderscoreFree(word);
    NotLocalHead(Lower(word), "_" + vid + "_" + container);
  }

  /** A download key is its lower-case extractor name followed by the rest. */
  lemma KeyShape(vid: string, extractor: string, container: string)
    ensures Key(vid, extractor, container) == Lower(if extractor != "" then extractor else "generic") + ("_" + vid + "_" + container)
  {
    AppendAssoc(Lower(if extractor != "" then extractor else "generic"), "_", vid);
  }

  /** Lower-casing adds no underscore. */
  lemma LowerKeepsUnderscoreFree(s: string)
    requires Free(s, '_')
    ensures Free(Lower(s), '_')
  {
  }

  /** A word without an underscore, other than "local", followed by an
      underscore does not start with "local_". */
  lemma NotLocalHead(name: string, rest: string)
    requires Free(name, '_') && name != "local"
    requires |rest| > 0 && rest[0] == '_'
    ensures !StartsWith(name + rest, "local_")
  {
    var k := name + rest;
    var n := |name|;
    if |k| >= 6 {
      var head := k[..6];
      if n < 5 {
        assert head[n] == '_' != "local_"[n];
      } else if n == 5 {
        assert head[..5] == name != "local";
      } else {
        assert head[5] == name[5] != '_';
      }
      assert head != "local_";
    }
  }

  // ---------------------------------------------------------------------
  // build_archive_from_existing_files_optimized

  /** The suffixes, in lower case, that the scan imports for a container. */
  function ImportExtensions(container: string): (r: seq<string>)
    ensures forall x | x in r :: Dotted(x)
  {
    if container == "mp3" then [".mp3"]
    else if container == "native" then [".m4a", ".opus", ".webm", ".mp3", ".aac"]
    else [".mp4", ".mkv", ".webm", ".avi"]
  }

  /** mp3 files are imported for "mp3" and "native" only; webm files for
      every container but "mp3". */
  lemma ImportedSuffixes(container: string)
    ensures ".mp3" in ImportExtensions(container) <==> container == "mp3" || container == "native"
    ensures ".webm" in ImportExtensions(container) <==> container != "mp3"
  {
    if container != "mp3" && container != "native" {
      assert ImportExtensions(container) == [".mp4", ".mkv", ".webm", ".avi"];
      assert ImportExtensions(container)[2] == ".webm";
    }
  }


  /** A regular file with one of the suffixes, in any letter case. */
  predicate Importable(mtimes: Mtimes, dirs: set<string>, path: string, extensions: seq<string>) {
    IsFile(mtimes, dirs, path) && Lower(Suffix(path)) in extensions
  }

  /** The record made for a file found on disk: its stem as ID and title,
      "local" as extractor, its modification time as date. */
  function LocalEntry(path: string, container: string, mtimes: Mtimes): (e: Entry)
    requires path in mtimes
    ensures e.id == e.title && e.id + Suffix(path) == Name(path)
    ensures e.extractor == "local" && e.format == container && e.filePath == path && e.downloadDate == mtimes[path]
  {
    Entry(Stem(path), "local", Stem(path), container, path, mtimes[path])
  }

  /** The archive and counters of an import in progress. */
  datatype Import = Import(store: Store, dirty: bool, added: nat)

  /** One path of the scan: an importable file whose key is free gets a
      local entry; anything else changes nothing. */
  function ImportStep(st: Import, path: string, container: string, mtimes: Mtimes, dirs: set<string>, hash: PathHash): Import {
    if Importable(mtimes, dirs, path, ImportExtensions(container)) then
      var key := StableKey(hash, path, container);
      if key !in st.store.entries then Import(Put(st.store, key, LocalEntry(path, container, mtimes)), true, st.added + 1)
      else st
    else st
  }

  function ImportFrom(st: Import, paths: seq<string>, container: string, mtimes: Mtimes, dirs: set<string>, hash: PathHash): Import
    decreases |paths|
  {
    if paths == [] then st
    else ImportFrom(ImportStep(st, paths[0], container, mtimes, dirs, hash), paths[1..], container, mtimes, dirs, hash)
  }

  /** The children of a directory, as the non-recursive listing yields them. */
  function Children(dir: string, names: seq<string>): (r: seq<string>)
    ensures |r| == |names| && forall i | 0 <= i < |names| :: r[i] == Join(dir, names[i])
  {
    seq(|names|, i requires 0 <= i < |names| => Join(dir, names[i]))
  }

  /** `build_archive_from_existing_files_optimized(download_dir, container,
      archive_mgr)` with the directory listing `names` given. It returns
      the number of files added. */
  method BuildArchiveFromExistingFiles(downloadDir: string, names: seq<string>, container: string,
                                       mgr: ArchiveManager, fs: FileSystem, hash: PathHash)
    returns (added: nat)
    modifies mgr
    ensures var r := ImportFrom(Import(old(mgr.data), old(mgr.dirty), 0), Children(downloadDir, names),
                                container, fs.mtimes, fs.dirs, hash);
      mgr.data == r.store && mgr.dirty == r.dirty && added == r.added
  {
    var paths := Children(downloadDir, names);
    added := 0;
    for i := 0 to |paths|
      invariant ImportFrom(Import(mgr.data, mgr.dirty, added), paths[i..], container, fs.mtimes, fs.dirs, hash)
        == ImportFrom(Import(old(mgr.data), old(mgr.dirty), 0), paths, container, fs.mtimes, fs.dirs, hash)
    {
      ImportFromNext(Import(mgr.data, mgr.dirty, added), paths, i, container, fs.mtimes, fs.dirs, hash);
      added := ImportOne(mgr, paths[i], container, fs, hash, added);
    }
    assert paths[|paths|..] == [];
  }

  /** One child of the folder: an importable file whose stable key is free
      is added under it and counted. */
  method ImportOne(mgr: ArchiveManager, path: string, container: string, fs: FileSystem, hash: PathHash, added: nat)
    returns (count: nat)
    modifies mgr
    ensures Import(mgr.data, mgr.dirty, count)
      == ImportStep(Import(old(mgr.data), old(mgr.dirty), added), path, container, fs.mtimes, fs.dirs, hash)
  {
    var mtimes, dirs, store := fs.mtimes, fs.dirs, mgr.data;
    count := added;
    if Importable(mtimes, dirs, path, ImportExtensions(container)) {
      var key := StableKey(hash, path, container);
      if key !in store.entries {
        ImportStepAdds(Import(store, mgr.dirty, added), path, container, mtimes, dirs, hash);
        mgr.data := Put(store, key, LocalEntry(path, container, mtimes));
        mgr.dirty := true;
        count := added + 1;
        return;
      }
    }
    ImportStepSkips(Import(store, mgr.dirty, added), path, container, mtimes, dirs, hash);
  }

  /** A step over an importable file whose key is free adds its entry. */
  lemma ImportStepAdds(st: Import, path: string, container: string, mtimes: Mtimes, dirs: set<string>, hash: PathHash)
    requires Importable(mtimes, dirs, path, ImportExtensions(container))
    requires StableKey(hash, path, container) !in st.store.entries
    ensures ImportStep(st, path, container, mtimes, dirs, hash)
      == Import(Put(st.store, StableKey(hash, path, container), LocalEntry(path, container, mtimes)), true, st.added + 1)
  {
  }

  /** Any other step changes nothing. */
  lemma ImportStepSkips(st: Import, path: string, container: string, mtimes: Mtimes, dirs: set<string>, hash: PathHash)
    requires !Importable(mtimes, dirs, path, ImportExtensions(container)) || StableKey(hash, path, container) in st.store.entries
    ensures ImportStep(st, path, container, mtimes, dirs, hash) == st
  {
  }

  /** The scan of `paths[i..]` is one step at `paths[i]` followed by the
      scan of `paths[i + 1..]`. */
  lemma ImportFromNext(st: Import, paths: seq<string>, i: nat, container: string, mtimes: Mtimes, dirs: set<string>, hash: PathHash)
    requires i < |paths|
    ensures ImportFrom(st, paths[i..], container, mtimes, dirs, hash)
      == ImportFrom(ImportStep(st, paths[i], container, mtimes, dirs, hash), paths[i + 1..], container, mtimes, dirs, hash)
  {
    assert paths[i..][0] == paths[i] && paths[i..][1..] == paths[i + 1..];
  }

  // Properties of the scan

  /** The scan never overwrites and never deletes: every entry present
      before is present after, unchanged; the order of old keys is kept. */
  lemma {:induction false} ImportKeepsExisting(st: Import, paths: seq<string>, container: string, mtimes: Mtimes,
                                               dirs: set<string>, hash: PathHash)
    ensures var r := ImportFrom(st, paths, container, mtimes, dirs, hash);
      && |st.store.keys| <= |r.store.keys| && r.store.keys[..|st.store.keys|] == st.store.keys
      && (forall k | k in st.store.entries :: k in r.store.entries && r.store.entries[k] == st.store.entries[k])
    decreases |paths|
  {
    if paths != [] {
      var q := ImportStep(st, paths[0], container, mtimes, dirs, hash);
      ImportStepKeepsExisting(st, paths[0], container, mtimes, dirs, hash);
      ImportKeepsExisting(q, paths[1..], container, mtimes, dirs, hash);
      var r := ImportFrom(q, paths[1..], container, mtimes, dirs, hash);
      assert r.store.keys[..|st.store.keys|] == r.store.keys[..|q.store.keys|][..|st.store.keys|];
    }
  }

  lemma ImportStepKeepsExisting(st: Import, path: string, container: string, mtimes: Mtimes, dirs: set<string>, hash: PathHash)
    ensures var q := ImportStep(st, path, container, mtimes, dirs, hash);
      && |st.store.keys| <= |q.store.keys| && q.store.keys[..|st.store.keys|] == st.store.keys
      && (forall k | k in st.store.entries :: k in q.store.entries && q.store.entries[k] == st.store.entries[k])
  {
    var q := ImportStep(st, path, container, mtimes, dirs, hash);
    if q != st {
      assert q.store.keys == st.store.keys + [StableKey(hash, path, container)];
    }
  }

  /** Each new key is the stable key of an importable path of the listing,
      holding that file's local entry; the counter counts exactly the new
      keys, and the dirty flag is raised exactly when one was added. */
  lemma {:induction false} ImportAddsLocalEntries(st: Import, paths: seq<string>, container: string, mtimes: Mtimes,
                                                  dirs: set<string>, hash: PathHash)
    ensures var r := ImportFrom(st, paths, container, mtimes, dirs, hash);
      && (forall k | k in r.store.entries && k !in st.store.entries ::
            exists p | p in paths ::
              && Importable(mtimes, dirs, p, ImportExtensions(container))
              && k == StableKey(hash, p, container) && r.store.entries[k] == LocalEntry(p, container, mtimes))
      && |r.store.keys| == |st.store.keys| + (r.added - st.added) && st.added <= r.added
      && r.dirty == (st.dirty || r.added > st.added)
    decreases |paths|
  {
    if paths != [] {
      var q := ImportStep(st, paths[0], container, mtimes, dirs, hash);
      var r := ImportFrom(st, paths, container, mtimes, dirs, hash);
      ImportAddsLocalEntries(q, paths[1..], container, mtimes, dirs, hash);
      ImportKeepsExisting(q, paths[1..], container, mtimes, dirs, hash);
      forall k | k in r.store.entries && k !in st.store.entries
        ensures exists p | p in paths ::
          && Importable(mtimes, dirs, p, ImportExtensions(container))
          && k == StableKey(hash, p, container) && r.store.entries[k] == LocalEntry(p, container, mtimes)
      {
        if k in q.store.entries {
          assert paths[0] in paths;
        } else {
          var p :| p in paths[1..] && Importable(mtimes, dirs, p, ImportExtensions(container))
            && k == StableKey(hash, p, container) && r.store.entries[k] == LocalEntry(p, container, mtimes);
          assert p in paths;
        }
      }
    }
  }

  /** Every importable file of the listing ends up under its stable key. */
  lemma {:induction false} ImportCoversListing(st: Import, paths: seq<string>, container: string, mtimes: Mtimes,
                                               dirs: set<string>, hash: PathHash)
    ensures var r := ImportFrom(st, paths, container, mtimes, dirs, hash);
      forall p | p in paths && Importable(mtimes, dirs, p, ImportExtensions(container)) ::
        StableKey(hash, p, container) in r.store.entries
    decreases |paths|
  {
    if paths != [] {
      var q := ImportStep(st, paths[0], container, mtimes, dirs, hash);
      ImportCoversListing(q, paths[1..], container, mtimes, dirs, hash);
      ImportKeepsExisting(q, paths[1..], container, mtimes, dirs, hash);
    }
  }

  /** When every importable file already has its key, the scan changes
      nothing. */
  lemma {:induction false} ImportOfCoveredIsNoop(st: Import, paths: seq<string>, container: string, mtimes: Mtimes,
                                                 dirs: set<string>, hash: PathHash)
    requires forall p | p in paths && Importable(mtimes, dirs, p, ImportExtensions(container)) ::
      StableKey(hash, p, container) in st.store.entries
    ensures ImportFrom(st, paths, container, mtimes, dirs, hash) == st
    decreases |paths|
  {
    if paths != [] {
      assert paths[0] in paths;
      ImportOfCoveredIsNoop(st, paths[1..], container, mtimes, dirs, hash);
    }
  }

  /** Running the scan a second time over the same listing adds nothing
      and leaves a clean manager clean. */
  lemma ImportIsIdempotent(st: Import, paths: seq<string>, container: string, mtimes: Mtimes, dirs: set<string>, hash: PathHash)
    ensures var r := ImportFrom(st, paths, container, mtimes, dirs, hash);
      ImportFrom(Import(r.store, false, 0), paths, container, mtimes, dirs, hash) == Import(r.store, false, 0)
  {
    var r := ImportFrom(st, paths, container, mtimes, dirs, hash);
    ImportCoversListing(st, paths, container, mtimes, dirs, hash);
    ImportOfCoveredIsNoop(Import(r.store, false, 0), paths, container, mtimes, dirs, hash);
  }

  /** The scan checks keys only: a file that is already archived as a
      download gets a second, local entry for the same file. */
  lemma ImportDuplicatesDownloadedFile(hash: PathHash, dir: string, name: string, mtimes: Mtimes, dirs: set<string>)
    requires Join(dir, name) in mtimes && Join(dir, name) !in dirs && Lower(Suffix(Join(dir, name))) == ".mp3"
    ensures var path := Join(dir, name);
      var downloaded := Put(Empty, "youtube_x_mp3", Entry("x", "youtube", "X", "mp3", path, 0.0));
      var r := ImportFrom(Import(downloaded, false, 0), Children(dir, [name]), "mp3", mtimes, dirs, hash);
      && "youtube_x_mp3" in r.store.entries && r.store.entries["youtube_x_mp3"].filePath == path
      && StableKey(hash, path, "mp3") in r.store.entries
      && r.store.entries[StableKey(hash, path, "mp3")].filePath == path
      && r.added == 1
  {
    var path := Join(dir, name);
    var downloaded := Put(Empty, "youtube_x_mp3", Entry("x", "youtube", "X", "mp3", path, 0.0));
    assert Children(dir, [name]) == [path];
    ImportKeepsExisting(Import(downloaded, false, 0), [path], "mp3", mtimes, dirs, hash);
    assert StableKey(hash, path, "mp3")[0] == 'l';
    assert "youtube_x_mp3"[0] == 'y';
  }

  // ---------------------------------------------------------------------
  // load_directory_to_archive

  const AudioExtensions: seq<string> := [".mp3", ".m4a", ".aac", ".flac", ".wav"]
  const VideoExtensions: seq<string> := [".mp4", ".mkv", ".webm", ".avi", ".mov"]

  /** The container recorded for a loaded file: "mp3" for audio, "mkv" for
      video. */
  function LoadContainer(path: string): (c: string)
    ensures c == "mp3" || c == "mkv"
    ensures c == "mp3" <==> Lower(Suffix(path)) in AudioExtensions
  {
    if Lower(Suffix(path)) in AudioExtensions then "mp3" else "mkv"
  }

  /** Some entry records this file with this container. */
  predicate HasRecord(s: Store, path: string, fmt: string) {
    exists k | k in s.entries :: s.entries[k].filePath == path && s.entries[k].format == fmt
  }

  /** One path of the recursive scan: a media file not yet recorded with
      its container gets a local entry under its stable key. */
  function LoadStep(st: Import, path: string, mtimes: Mtimes, dirs: set<string>, hash: PathHash): Import {
    if Importable(mtimes, dirs, path, AudioExtensions + VideoExtensions) then
      var c := LoadContainer(path);
      if !HasRecord(st.store, path, c) then
        Import(Put(st.store, StableKey(hash, path, c), LocalEntry(path, c, mtimes)), true, st.added + 1)
      else st
    else st
  }

  function LoadFrom(st: Import, paths: seq<string>, mtimes: Mtimes, dirs: set<string>, hash: PathHash): Import
    decreases |paths|
  {
    if paths == [] then st
    else LoadFrom(LoadStep(st, paths[0], mtimes, dirs, hash), paths[1..], mtimes, dirs, hash)
  }

  /** `load_directory_to_archive(directory)` with the recursive listing
      `paths` under the directory given. A missing path or a path that is
      not a directory fails and leaves the archive file alone; otherwise a
      fresh manager loads the file, takes in the listing and saves. */
  method LoadDirectoryToArchive(directory: string, paths: seq<string>, file: ArchiveFile, fs: FileSystem,
                                hash: PathHash, w: WriteOutcome)
    returns (ok: bool)
    modifies file
    ensures directory !in fs.mtimes || directory !in fs.dirs ==> !ok && file.document == old(file.document)
    ensures directory in fs.mtimes && directory in fs.dirs ==>
      var r := LoadFrom(Import(Loaded(old(file.document)), false, 0), paths, fs.mtimes, fs.dirs, hash);
      ok && file.document == (if r.dirty then AfterWrite(old(file.document), r.store, w) else old(file.document))
  {
    if directory !in fs.mtimes {
      return false;
    }
    if directory !in fs.dirs {
      return false;
    }
    var mgr := new ArchiveManager(file);
    var added := LoadPaths(mgr, paths, fs, hash);
    mgr.Save(w);
    return true;
  }

  /** The walk of `load_directory_to_archive` over the listing `paths`,
      adding to the manager's store; returns the number of files added. */
  method LoadPaths(mgr: ArchiveManager, paths: seq<string>, fs: FileSystem, hash: PathHash)
    returns (added: nat)
    modifies mgr
    ensures var r := LoadFrom(Import(old(mgr.data), old(mgr.dirty), 0), paths, fs.mtimes, fs.dirs, hash);
      mgr.data == r.store && mgr.dirty == r.dirty && added == r.added
  {
    added := 0;
    for i := 0 to |paths|
      invariant LoadFrom(Import(mgr.data, mgr.dirty, added), paths[i..], fs.mtimes, fs.dirs, hash)
        == LoadFrom(Import(old(mgr.data), old(mgr.dirty), 0), paths, fs.mtimes, fs.dirs, hash)
    {
      LoadFromNext(Import(mgr.data, mgr.dirty, added), paths, i, fs.mtimes, fs.dirs, hash);
      added := LoadOne(mgr, paths[i], fs, hash, added);
    }
    assert paths[|paths|..] == [];
  }

  /** One path of the walk: a media file not yet recorded with its
      container is added under its stable key and counted. */
  method LoadOne(mgr: ArchiveManager, path: string, fs: FileSystem, hash: PathHash, added: nat) returns (count: nat)
    modifies mgr
    ensures Import(mgr.data, mgr.dirty, count)
      == LoadStep(Import(old(mgr.data), old(mgr.dirty), added), path, fs.mtimes, fs.dirs, hash)
  {
    count := added;
    if Importable(fs.mtimes, fs.dirs, path, AudioExtensions + VideoExtensions) {
      var container := LoadContainer(path);
      var key := StableKey(hash, path, container);
      if !HasRecord(mgr.data, path, container) {
        LoadStepAdds(Import(mgr.data, mgr.dirty, added), path, fs.mtimes, fs.dirs, hash);
        mgr.data := Put(mgr.data, key, LocalEntry(path, container, fs.mtimes));
        mgr.dirty := true;
        count := added + 1;
        return;
      }
    }
    LoadStepSkips(Import(mgr.data, mgr.dirty, added), path, fs.mtimes, fs.dirs, hash);
  }

  /** The recursive scan of `paths[i..]` is one step at `paths[i]`
      followed by the scan of `paths[i + 1..]`. */
  lemma LoadFromNext(st: Import, paths: seq<string>, i: nat, mtimes: Mtimes, dirs: set<string>, hash: PathHash)
    requires i < |paths|
    ensures LoadFrom(st, paths[i..], mtimes, dirs, hash)
      == LoadFrom(LoadStep(st, paths[i], mtimes, dirs, hash), paths[i + 1..], mtimes, dirs, hash)
  {
    assert paths[i..][0] == paths[i] && paths[i..][1..] == paths[i + 1..];
  }

  /** A step over an importable file not yet recorded with its container
      adds its entry. */
  lemma LoadStepAdds(st: Import, path: string, mtimes: Mtimes, dirs: set<string>, hash: PathHash)
    requires Importable(mtimes, dirs, path, AudioExtensions + VideoExtensions)
    requires !HasRecord(st.store, path, LoadContainer(path))
    ensures var c := LoadContainer(path);
      LoadStep(st, path, mtimes, dirs, hash) == Import(Put(st.store, StableKey(hash, path, c), LocalEntry(path, c, mtimes)), true, st.added + 1)
  {
  }

  /** Any other step of the recursive scan changes nothing. */
  lemma LoadStepSkips(st: Import, path: string, mtimes: Mtimes, dirs: set<string>, hash: PathHash)
    requires !Importable(mtimes, dirs, path, AudioExtensions + VideoExtensions) || HasRecord(st.store, path, LoadContainer(path))
    ensures LoadStep(st, path, mtimes, dirs, hash) == st
  {
  }

  // Properties of the recursive scan

  /** No two entries record the same file with the same container. */
  ghost predicate RecordsUnique(s: Store) {
    forall k1, k2 | k1 in s.entries && k2 in s.entries && k1 != k2 ::
      s.entries[k1].filePath != s.entries[k2].filePath || s.entries[k1].format != s.entries[k2].format
  }

  /** The recursive scan never records a file twice with one container: an
      archive without such duplicates stays without them. */
  lemma {:induction false} LoadKeepsRecordsUnique(st: Import, paths: seq<string>, mtimes: Mtimes, dirs: set<string>, hash: PathHash)
    requires RecordsUnique(st.store)
    ensures RecordsUnique(LoadFrom(st, paths, mtimes, dirs, hash).store)
    decreases |paths|
  {
    if paths != [] {
      var q := LoadStep(st, paths[0], mtimes, dirs, hash);
      LoadStepKeepsRecordsUnique(st, paths[0], mtimes, dirs, hash);
      LoadKeepsRecordsUnique(q, paths[1..], mtimes, dirs, hash);
    }
  }

  lemma LoadStepKeepsRecordsUnique(st: Import, path: string, mtimes: Mtimes, dirs: set<string>, hash: PathHash)
    requires RecordsUnique(st.store)
    ensures RecordsUnique(LoadStep(st, path, mtimes, dirs, hash).store)
  {
    var q := LoadStep(st, path, mtimes, dirs, hash);
    if q != st {
      var c := LoadContainer(path);
      var key := StableKey(hash, path, c);
      forall k1, k2 | k1 in q.store.entries && k2 in q.store.entries && k1 != k2
        ensures q.store.entries[k1].filePath != q.store.entries[k2].filePath
             || q.store.entries[k1].format != q.store.entries[k2].format
      {
        if k1 != key && k2 != key {
          assert q.store.entries[k1] == st.store.entries[k1] && q.store.entries[k2] == st.store.entries[k2];
        } else if k1 == key {
          assert q.store.entries[k2] == st.store.entries[k2];
        } else {
          assert q.store.entries[k1] == st.store.entries[k1];
        }
      }
    }
  }

  /** The entry at `k` is the only one recording its file with its
      container. */
  ghost predicate OnlyRecordAt(s: Store, k: string) {
    && k in s.entries
    && forall k2 | k2 in s.entries && k2 != k ::
         s.entries[k2].filePath != s.entries[k].filePath || s.entries[k2].format != s.entries[k].format
  }

  /** `k` holds, after the scan, an entry that was not there before it. */
  ghost predicate Written(before: Store, after: Store, k: string) {
    k in after.entries && (k !in before.entries || after.entries[k] != before.entries[k])
  }

  /** Whatever the archive held before, every entry the recursive scan
      writes is the only record of its file with its container: a file
      already recorded with that container is skipped, and a file is never
      recorded twice, however often it is listed. */
  lemma LoadAddsNoDuplicate(st: Import, paths: seq<string>, mtimes: Mtimes, dirs: set<string>, hash: PathHash)
    ensures var r := LoadFrom(st, paths, mtimes, dirs, hash);
      forall k | Written(st.store, r.store, k) :: OnlyRecordAt(r.store, k)
  {
    LoadWrittenStaysOnly(st, paths, mtimes, dirs, hash, {});
  }

  /** Keys that hold the only record of their file keep doing so, and every
      key the scan writes joins them. */
  lemma {:induction false} LoadWrittenStaysOnly(st: Import, paths: seq<string>, mtimes: Mtimes, dirs: set<string>, hash: PathHash,
                                                only: set<string>)
    requires forall k | k in only :: OnlyRecordAt(st.store, k)
    ensures var r := LoadFrom(st, paths, mtimes, dirs, hash);
      forall k | k in only || Written(st.store, r.store, k) :: OnlyRecordAt(r.store, k)
    decreases |paths|
  {
    if paths != [] {
      var q := LoadStep(st, paths[0], mtimes, dirs, hash);
      LoadStepWrittenStaysOnly(st, paths[0], mtimes, dirs, hash, only);
      var more := only + set k | k in q.store.entries.Keys && Written(st.store, q.store, k);
      LoadWrittenStaysOnly(q, paths[1..], mtimes, dirs, hash, more);
      var r := LoadFrom(q, paths[1..], mtimes, dirs, hash);
      assert LoadFrom(st, paths, mtimes, dirs, hash) == r;
      forall k | k in only || Written(st.store, r.store, k)
        ensures OnlyRecordAt(r.store, k)
      {
        if k !in more {
          assert !Written(st.store, q.store, k);
          assert Written(q.store, r.store, k);
        }
      }
    }
  }

  lemma LoadStepWrittenStaysOnly(st: Import, path: string, mtimes: Mtimes, dirs: set<string>, hash: PathHash, only: set<string>)
    requires forall k | k in only :: OnlyRecordAt(st.store, k)
    ensures var q := LoadStep(st, path, mtimes, dirs, hash);
      forall k | k in only || Written(st.store, q.store, k) :: OnlyRecordAt(q.store, k)
  {
    var q := LoadStep(st, path, mtimes, dirs, hash);
    if Importable(mtimes, dirs, path, AudioExtensions + VideoExtensions) && !HasRecord(st.store, path, LoadContainer(path)) {
      var c := LoadContainer(path);
      var key := StableKey(hash, path, c);
      var e := LocalEntry(path, c, mtimes);
      assert q.store.entries == st.store.entries[key := e];
      assert e.filePath == path && e.format == c;
      forall k | k in only || Written(st.store, q.store, k)
        ensures OnlyRecordAt(q.store, k)
      {
        if k == key {
          forall k2 | k2 in q.store.entries && k2 != k
            ensures q.store.entries[k2].filePath != path || q.store.entries[k2].format != c
          {
            assert q.store.entries[k2] == st.store.entries[k2];
          }
        } else {
          assert k in only;
          assert q.store.entries[k] == st.store.entries[k];
          forall k2 | k2 in q.store.entries && k2 != k
            ensures q.store.entries[k2].filePath != q.store.entries[k].filePath
                 || q.store.entries[k2].format != q.store.entries[k].format
          {
            if k2 != key {
              assert q.store.entries[k2] == st.store.entries[k2];
            }
          }
        }
      }
    } else {
      LoadStepSkips(st, path, mtimes, dirs, hash);
    }
  }

  /** No two different paths of the listing share a digest. */
  ghost predicate DigestsDistinct(paths: seq<string>, hash: PathHash) {
    forall i, j | 0 <= i < |paths| && 0 <= j < |paths| && hash(paths[i]) == hash(paths[j]) :: paths[i] == paths[j]
  }

  /** Every stable key of a listed path that is taken already records
      that path with that container. */
  ghost predicate KeysAgree(s: Store, paths: seq<string>, hash: PathHash) {
    forall p, c | p in paths && StableKey(hash, p, c) in s.entries ::
      s.entries[StableKey(hash, p, c)].filePath == p && s.entries[StableKey(hash, p, c)].format == c
  }

  lemma LoadStepKeeps(st: Import, all: seq<string>, p: string, mtimes: Mtimes, dirs: set<string>, hash: PathHash)
    requires DigestsDistinct(all, hash) && KeysAgree(st.store, all, hash) && p in all
    ensures var q := LoadStep(st, p, mtimes, dirs, hash);
      && KeysAgree(q.store, all, hash)
      && (forall k | k in st.store.entries :: k in q.store.entries && q.store.entries[k] == st.store.entries[k])
      && (Importable(mtimes, dirs, p, AudioExtensions + VideoExtensions) ==> HasRecord(q.store, p, LoadContainer(p)))
  {
    var q := LoadStep(st, p, mtimes, dirs, hash);
    if q != st {
      var c := LoadContainer(p);
      var key := StableKey(hash, p, c);
      assert key !in st.store.entries;
      assert q.store.entries[key].filePath == p && q.store.entries[key].format == c;
      forall p', c' | p' in all && StableKey(hash, p', c') in q.store.entries
        ensures q.store.entries[StableKey(hash, p', c')].filePath == p'
             && q.store.entries[StableKey(hash, p', c')].format == c'
      {
        if StableKey(hash, p', c') == key {
          StableKeyInjective(hash, p', c', p, c);
          var i :| 0 <= i < |all| && all[i] == p';
          var j :| 0 <= j < |all| && all[j] == p;
          assert hash(all[i]) == hash(all[j]);
        }
      }
    }
  }

  /** Without digest collisions among the listed files and their keys, the
      recursive scan keeps every entry it finds, unchanged, and afterwards
      every media file of the listing is recorded with its container. */
  lemma {:induction false} LoadRecordsEveryMediaFile(st: Import, all: seq<string>, i: nat, mtimes: Mtimes, dirs: set<string>, hash: PathHash)
    requires i <= |all|
    requires DigestsDistinct(all, hash) && KeysAgree(st.store, all, hash)
    ensures var r := LoadFrom(st, all[i..], mtimes, dirs, hash);
      && KeysAgree(r.store, all, hash)
      && (forall k | k in st.store.entries :: k in r.store.entries && r.store.entries[k] == st.store.entries[k])
      && (forall j | i <= j < |all| && Importable(mtimes, dirs, all[j], AudioExtensions + VideoExtensions) ::
            HasRecord(r.store, all[j], LoadContainer(all[j])))
    decreases |all| - i
  {
    if i < |all| {
      var q := LoadStep(st, all[i], mtimes, dirs, hash);
      assert all[i..][0] == all[i] && all[i..][1..] == all[i + 1..];
      LoadStepKeeps(st, all, all[i], mtimes, dirs, hash);
      LoadRecordsEveryMediaFile(q, all, i + 1, mtimes, dirs, hash);
      var r := LoadFrom(q, all[i + 1..], mtimes, dirs, hash);
      if Importable(mtimes, dirs, all[i], AudioExtensions + VideoExtensions) {
        var c := LoadContainer(all[i]);
        var k :| k in q.store.entries && q.store.entries[k].filePath == all[i] && q.store.entries[k].format == c;
        assert r.store.entries[k] == q.store.entries[k];
      }
    }
  }
}
