/** `ArchiveManager`: the archive index held in memory for one session,
    mutated in place by `find` (evicting stale entries) and `add`, and
    written back by `save` only when something changed. */
module Manager {
  import opened Wrappers
  import opened Text
  import opened Disk
  import opened Archive

  /** The JSON document at the archive path. `None` stands for a missing
      file or one that does not parse. */
  class ArchiveFile {
    var document: Option<Store>

    constructor(document: Option<Store>)
      ensures this.document == document
    {
      this.document := document;
    }
  }

  /** Cutting a list one element later adds that element to its keys. */
  lemma KeySetPrefixNext(ks: seq<string>, j: nat)
    requires j < |ks|
    ensures KeySet(ks[..j + 1]) == KeySet(ks[..j]) + {ks[j]}
  {
    assert ks[..j + 1] == ks[..j] + [ks[j]];
    KeySetAppend(ks[..j], ks[j]);
  }

  /** How an attempt to write the document ends. `Path.write_text` opens the
      file for writing, which empties it, and then writes the text:
      `Written` when all of it lands; `OpenRefused` when the open itself
      fails and the file is untouched; `CutShort` when the writing fails
      part-way, leaving an empty or cut-off text that no longer parses;
      `CloseRaised` when every byte lands but closing the file raises. */
  datatype WriteOutcome = Written | OpenRefused | CutShort | CloseRaised

  /** The document after writing `data` over `before` with outcome `w`. */
  function AfterWrite(before: Option<Store>, data: Store, w: WriteOutcome): (r: Option<Store>)
    ensures r == before || r == Some(data) || r == None
    ensures r == before <== w.OpenRefused?
    ensures r == Some(data) <== w.Written? || w.CloseRaised?
  {
    match w
    case Written => Some(data)
    case OpenRefused => before
    case CutShort => None
    case CloseRaised => Some(data)
  }

  class ArchiveManager {
    const file: ArchiveFile
    var data: Store
    var dirty: bool

    /** `__init__`: the stored document, or an empty archive when it is
        missing or unreadable; nothing is pending. */
    constructor(file: ArchiveFile)
      ensures this.file == file
      ensures data == Loaded(file.document)
      ensures !dirty
    {
      this.file := file;
      data := Loaded(file.document);
      dirty := false;
    }

    /** `save`: writes the whole store when, and only when, it is dirty.
        `w` is how the write ends; the flag is cleared only after a write
        that raised nothing, so a failed save is retried by the next one,
        but a write that failed part-way has already lost the old text. */
    method Save(w: WriteOutcome)
      modifies this, file
      ensures data == old(data)
      ensures old(dirty) ==> file.document == AfterWrite(old(file.document), data, w) && dirty == !w.Written?
      ensures !old(dirty) ==> file.document == old(file.document) && !dirty
    {
      if dirty {
        match w {
          case Written =>
            file.document := Some(data);
            dirty := false;
          case OpenRefused =>
          case CutShort =>
            file.document := None;
          case CloseRaised =>
            file.document := Some(data);
        }
      }
    }

    /** `add`: stores the record under its composite key, replacing any
        entry already there; the download date is the file's modification
        time, or 0.0 when the file does not exist. */
    method Add(vid: string, extractor: string, title: string, filePath: string, container: string, fs: FileSystem)
      modifies this
      ensures var k := Key(vid, extractor, container);
        data == Put(old(data), k, Entry(vid, extractor, title, container, filePath,
                                         if filePath in fs.mtimes then fs.mtimes[filePath] else 0.0))
      ensures forall k | k != Key(vid, extractor, container) ::
        (k in data.entries <==> k in old(data.entries)) &&
        (k in data.entries ==> data.entries[k] == old(data.entries)[k])
      ensures dirty
    {
      var k := Key(vid, extractor, container);
      var date := if filePath in fs.mtimes then fs.mtimes[filePath] else 0.0;
      data := Put(data, k, Entry(vid, extractor, title, container, filePath, date));
      dirty := true;
    }

    /** Deletes the listed keys one by one, then marks the store dirty if the
        list was not empty. */
    method Evict(ks: seq<string>)
      modifies this
      ensures data == RemoveAll(old(data), KeySet(ks))
      ensures dirty == (old(dirty) || ks != [])
    {
      WithoutNone(data.keys, {});
      assert ks[..0] == [] && KeySet([]) == {};
      assert RemoveAll(data, {}) == data;
      for j := 0 to |ks|
        invariant data == RemoveAll(old(data), KeySet(ks[..j]))
        invariant dirty == old(dirty)
      {
        RemoveAllTwice(old(data), KeySet(ks[..j]), {ks[j]});
        KeySetPrefixNext(ks, j);
        data := RemoveAll(data, {ks[j]});
      }
      assert ks[..|ks|] == ks;
      if ks != [] {
        dirty := true;
      }
    }

    /** The title fallback of `find` over a snapshot of the current
        store: returns the first live `_<container>` entry whose folded
        title is `clean` and deletes the stale `_<container>` keys met
        before it (all of them when nothing matches). */
    method ScanByTitle(container: string, clean: string, fs: FileSystem, norm: Sanitizer) returns (r: Option<Entry>)
      modifies this
      ensures var sc := Scan(old(data), container, clean, fs.mtimes, norm);
        r == sc.hit && data == RemoveAll(old(data), sc.evicted) && dirty == (old(dirty) || sc.evicted != {})
    {
      var snapshot := data;
      var toRemove: seq<string> := [];
      var i := 0;
      while i < |snapshot.keys|
        invariant i <= |snapshot.keys|
        invariant data == snapshot && dirty == old(dirty)
        invariant forall k :: k in toRemove <==> k in StaleBefore(snapshot, container, fs.mtimes, i)
        invariant forall j | 0 <= j < i :: !LiveMatch(snapshot, snapshot.keys[j], container, clean, fs.mtimes, norm)
      {
        var kk := snapshot.keys[i];
        var v := snapshot.entries[kk];
        StaleBeforeNext(snapshot, container, fs.mtimes, i);
        if EndsWith(kk, "_" + container) {
          if v.filePath !in fs.mtimes {
            toRemove := toRemove + [kk];
            i := i + 1;
            continue;
          }
          if Folded(norm, v.title) == clean {
            ScanStopsAt(snapshot, container, clean, fs.mtimes, norm, i);
            KeySetIs(toRemove, StaleBefore(snapshot, container, fs.mtimes, i));
            Evict(toRemove);
            return Some(v);
          }
        }
        i := i + 1;
      }
      ScanStopsAt(snapshot, container, clean, fs.mtimes, norm, i);
      KeySetIs(toRemove, StaleBefore(snapshot, container, fs.mtimes, i));
      Evict(toRemove);
      return None;
    }

    /** `find`: the lookup of `FindSpec`, performed in place. It returns
        the hit, deletes exactly the keys `FindSpec` evicts and sets the
        dirty flag when it deleted something; an exact hit on a live entry
        changes nothing. */
    method Find(vid: string, extractor: string, container: string, title: Option<string>, fs: FileSystem, norm: Sanitizer)
      returns (r: Option<Entry>)
      modifies this
      ensures var l := FindSpec(old(data), fs.mtimes, norm, vid, extractor, container, title);
        r == l.hit && data == RemoveAll(old(data), l.evicted) && dirty == (old(dirty) || l.evicted != {})
      ensures var k := Key(vid, extractor, container);
        k in old(data.entries) && Live(old(data.entries[k]), fs.mtimes) ==>
          r == Some(old(data.entries[k])) && data == old(data) && dirty == old(dirty)
    {
      ghost var start := data;
      var k := Key(vid, extractor, container);
      if k in data.entries && data.entries[k].filePath in fs.mtimes {
        assert FindSpec(start, fs.mtimes, norm, vid, extractor, container, title) == Lookup(Some(start.entries[k]), {});
        WithoutNone(start.keys, {});
        assert RemoveAll(start, {}) == start;
        return Some(data.entries[k]);
      }
      if k in data.entries {
        data := RemoveAll(data, {k});
        dirty := true;
      }
      if Truthy(title) {
        ghost var rest := data;
        var clean := Folded(norm, title.value);
        r := ScanByTitle(container, clean, fs, norm);
        FindAfterExactMiss(start, fs.mtimes, norm, vid, extractor, container, title, rest, r, data);
      } else {
        FindWithoutTitle(start, fs.mtimes, norm, vid, extractor, container, title);
        if k !in start.entries {
          WithoutNone(start.keys, {});
          assert data == RemoveAll(start, {});
        }
        r := None;
      }
    }
  }

  /** The cycle of the integration test: add an entry, save, and load a
      fresh manager from the same file. The reloaded manager holds the
      added record, unchanged, under the same key. */
  method AddSaveReload(document: Option<Store>, vid: string, extractor: string, title: string, filePath: string,
                       container: string, fs: FileSystem)
    returns (saved: Entry, reloaded: Option<Entry>)
    ensures saved == Entry(vid, extractor, title, container, filePath,
                           if filePath in fs.mtimes then fs.mtimes[filePath] else 0.0)
    ensures reloaded == Some(saved)
  {
    var file := new ArchiveFile(document);
    var first := new ArchiveManager(file);
    first.Add(vid, extractor, title, filePath, container, fs);
    var k := Key(vid, extractor, container);
    saved := first.data.entries[k];
    first.Save(Written);
    var second := new ArchiveManager(file);
    reloaded := if k in second.data.entries then Some(second.data.entries[k]) else None;
  }

  /** A session that only loads and saves writes nothing: the document is
      left as it was, whatever the write would have done. */
  method UntouchedSessionWritesNothing(document: Option<Store>, w: WriteOutcome) returns (after: Option<Store>)
    ensures after == document
  {
    var file := new ArchiveFile(document);
    var session := new ArchiveManager(file);
    session.Save(w);
    after := file.document;
  }

  /** A save whose write fails part-way loses the archive: the next session
      starts from an empty archive, whatever was stored before; the session
      that failed is still dirty, so its own next save writes everything
      again. */
  method CutShortSaveLosesArchive(document: Option<Store>, vid: string, extractor: string, title: string,
                                  filePath: string, container: string, fs: FileSystem)
    returns (stillDirty: bool, reloaded: Store)
    ensures stillDirty
    ensures reloaded == Empty
  {
    var file := new ArchiveFile(document);
    var first := new ArchiveManager(file);
    first.Add(vid, extractor, title, filePath, container, fs);
    first.Save(CutShort);
    stillDirty := first.dirty;
    var second := new ArchiveManager(file);
    reloaded := second.data;
  }
}
