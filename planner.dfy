/** `fast_copy_from_archive`: the pre-pass that walks a playlist listing,
    materialises every video the archive already holds into the playlist
    folder and returns the IDs that still have to be downloaded. */
module Planner {
  import opened Wrappers
  import opened Text
  import opened Paths
  import opened Disk
  import opened Archive
  import opened Manager
  import opened Materializer
  import Cli

  /** One item of the flat playlist listing. */
  datatype FlatItem = FlatItem(id: Option<string>, title: Option<string>, extractorKey: Option<string>)

  /** The playlist folder: "Liked Music" for the YouTube Music Liked
      playlist, otherwise the sanitised playlist title from the extractor's
      info (its "playlist_title", then its "playlist"), or "Playlist" when
      there is none or the extraction failed (`info` is None). */
  function PlaylistDir(url: string, baseDir: string, info: Option<Cli.Info>, norm: Sanitizer): (r: string)
    ensures Cli.IsYoutubeMusicLiked(url) ==> r == Join(baseDir, "Liked Music")
    ensures !Cli.IsYoutubeMusicLiked(url) && info.Some? && Truthy(info.value.playlistTitle)
      ==> r == Join(baseDir, norm(info.value.playlistTitle.value))
    ensures !Cli.IsYoutubeMusicLiked(url) && info.Some? && !Truthy(info.value.playlistTitle) && Truthy(info.value.playlist)
      ==> r == Join(baseDir, norm(info.value.playlist.value))
    ensures !Cli.IsYoutubeMusicLiked(url) && (info.None? || (!Truthy(info.value.playlistTitle) && !Truthy(info.value.playlist)))
      ==> r == Join(baseDir, norm("Playlist"))
  {
    if Cli.IsYoutubeMusicLiked(url) then Join(baseDir, "Liked Music")
    else
      var title := match info
        case None => "Playlist"
        case Some(i) => OrElse(i.playlistTitle, OrElse(i.playlist, "Playlist"));
      Join(baseDir, norm(title))
  }

  /** The planner's state between two items: the archive, its dirty flag,
      the filesystem, the IDs to download and the number of files placed. */
  datatype Plan = Plan(store: Store, dirty: bool, mtimes: Mtimes, missing: seq<string>, copied: nat)

  /** The extractor name an item is looked up under. */
  function ExtractorOf(item: FlatItem): string {
    OrElse(item.extractorKey, "YouTube")
  }

  /** The title an item is looked up under. */
  function TitleOf(item: FlatItem): string {
    OrElse(item.title, "unknown")
  }

  /** The lookup for an item with an ID. */
  function LookupOf(p: Plan, item: FlatItem, container: string, norm: Sanitizer): Lookup
    requires Truthy(item.id)
  {
    FindSpec(p.store, p.mtimes, norm, item.id.value, ExtractorOf(item), container, Some(TitleOf(item)))
  }

  /** What happens to an item after its lookup: a hit is materialised
      (counted when that succeeds), a miss is recorded as missing. */
  function Settle(p: Plan, vid: string, hit: Option<Entry>, dir: string, container: string, norm: Sanitizer, host: Host): Plan {
    match hit
    case None => Plan(p.store, p.dirty, p.mtimes, p.missing + [vid], p.copied)
    case Some(e) =>
      var o := CopyOutcome(e, dir, container, norm, p.mtimes, host);
      Plan(p.store, p.dirty, Placed(p.mtimes, e, dir, container, norm, o), p.missing, p.copied + if o.Succeeded() then 1 else 0)
  }

  /** One item: skipped without an ID; otherwise looked up, which prunes
      the stale keys it met, and then settled. */
  function PlanStep(p: Plan, item: FlatItem, dir: string, container: string, norm: Sanitizer, host: Host): Plan {
    if !Truthy(item.id) then p
    else
      var l := LookupOf(p, item, container, norm);
      var pruned := Plan(RemoveAll(p.store, l.evicted), p.dirty || l.evicted != {}, p.mtimes, p.missing, p.copied);
      Settle(pruned, item.id.value, l.hit, dir, container, norm, host)
  }

  /** The items processed in listing order. */
  function PlanFrom(p: Plan, items: seq<FlatItem>, dir: string, container: string, norm: Sanitizer, host: Host): Plan
    decreases |items|
  {
    if items == [] then p
    else PlanFrom(PlanStep(p, items[0], dir, container, norm, host), items[1..], dir, container, norm, host)
  }

  /** `fast_copy_from_archive(url, base_dir, container, archive_mgr)` with
      the flat listing `items` and the playlist info `info` given. It
      returns the missing IDs and the number of files placed. */
  method FastCopyFromArchive(url: string, baseDir: string, container: string, mgr: ArchiveManager, fs: FileSystem,
                             items: seq<FlatItem>, info: Option<Cli.Info>, norm: Sanitizer)
    returns (missing: seq<string>, copied: nat)
    modifies mgr, fs
    ensures var dir := PlaylistDir(url, baseDir, info, norm);
      var p := PlanFrom(Plan(old(mgr.data), old(mgr.dirty), old(fs.mtimes), [], 0), items, dir, container, norm, fs.host);
      && missing == p.missing && copied == p.copied
      && mgr.data == p.store && mgr.dirty == p.dirty && fs.mtimes == p.mtimes
    ensures fs.dirs == old(fs.dirs)
  {
    if items == [] {
      return [], 0;
    }
    var dir := PlaylistDir(url, baseDir, info, norm);
    missing, copied := [], 0;
    var i := 0;
    while i < |items|
      invariant 0 <= i <= |items|
      invariant fs.dirs == old(fs.dirs)
      invariant PlanFrom(Plan(mgr.data, mgr.dirty, fs.mtimes, missing, copied), items[i..], dir, container, norm, fs.host)
        == PlanFrom(Plan(old(mgr.data), old(mgr.dirty), old(fs.mtimes), [], 0), items, dir, container, norm, fs.host)
      decreases |items| - i
    {
      PlanFromNext(Plan(mgr.data, mgr.dirty, fs.mtimes, missing, copied), items, i, dir, container, norm, fs.host);
      missing, copied := PlanOne(items[i], dir, container, mgr, fs, norm, missing, copied);
      i := i + 1;
    }
    assert items[i..] == [];
  }

  /** One item of the listing: looked up, then materialised or recorded as
      missing, as `PlanStep` says. */
  method PlanOne(item: FlatItem, dir: string, container: string, mgr: ArchiveManager, fs: FileSystem, norm: Sanitizer,
                 missing0: seq<string>, copied0: nat)
    returns (missing: seq<string>, copied: nat)
    modifies mgr, fs
    ensures Plan(mgr.data, mgr.dirty, fs.mtimes, missing, copied)
      == PlanStep(Plan(old(mgr.data), old(mgr.dirty), old(fs.mtimes), missing0, copied0), item, dir, container, norm, fs.host)
    ensures fs.dirs == old(fs.dirs)
  {
    if !Truthy(item.id) {
      return missing0, copied0;
    }
    var hit := mgr.Find(item.id.value, ExtractorOf(item), container, Some(TitleOf(item)), fs, norm);
    missing, copied := SettleOne(item.id.value, hit, dir, container, mgr, fs, norm, missing0, copied0);
  }

  /** An item after its lookup: the hit is materialised or the ID recorded
      as missing, as `Settle` says. */
  method SettleOne(vid: string, hit: Option<Entry>, dir: string, container: string, mgr: ArchiveManager, fs: FileSystem,
                   norm: Sanitizer, missing0: seq<string>, copied0: nat)
    returns (missing: seq<string>, copied: nat)
    modifies fs
    ensures Plan(mgr.data, mgr.dirty, fs.mtimes, missing, copied)
      == Settle(Plan(mgr.data, mgr.dirty, old(fs.mtimes), missing0, copied0), vid, hit, dir, container, norm, fs.host)
    ensures fs.dirs == old(fs.dirs)
  {
    missing, copied := missing0, copied0;
    match hit {
      case Some(e) =>
        var ok := OptimizedCopyFromArchive(e, dir, container, fs, norm);
        if ok {
          copied := copied + 1;
        }
      case None =>
        missing := missing + [vid];
    }
  }

  /** The run over `items[i..]` is one step at `items[i]` followed by the
      run over `items[i + 1..]`. */
  lemma PlanFromNext(p: Plan, items: seq<FlatItem>, i: nat, dir: string, container: string, norm: Sanitizer, host: Host)
    requires i < |items|
    ensures PlanFrom(p, items[i..], dir, container, norm, host)
      == PlanFrom(PlanStep(p, items[i], dir, container, norm, host), items[i + 1..], dir, container, norm, host)
  {
    assert items[i..][0] == items[i] && items[i..][1..] == items[i + 1..];
  }

  // ---------------------------------------------------------------------
  // Properties

  /** The IDs of the listed items that have one, in listing order. */
  function Ids(items: seq<FlatItem>): seq<string> {
    if items == [] then []
    else (if Truthy(items[0].id) then [items[0].id.value] else []) + Ids(items[1..])
  }

  /** The planner only appends to the missing list, and what it appends is
      a subsequence of the listed IDs: every returned ID was listed, in
      listing order, at most as often as listed. Missing and copied
      together never exceed the listed IDs. */
  lemma {:induction false} PlanMissingIsListed(p: Plan, items: seq<FlatItem>, dir: string, container: string, norm: Sanitizer, host: Host)
    ensures var r := PlanFrom(p, items, dir, container, norm, host);
      && |p.missing| <= |r.missing| && r.missing[..|p.missing|] == p.missing
      && Subsequence(r.missing[|p.missing|..], Ids(items))
      && p.copied <= r.copied
      && (|r.missing| - |p.missing|) + (r.copied - p.copied) <= |Ids(items)|
    decreases |items|
  {
    if items != [] {
      var item := items[0];
      var q := PlanStep(p, item, dir, container, norm, host);
      assert PlanFrom(p, items, dir, container, norm, host) == PlanFrom(q, items[1..], dir, container, norm, host);
      PlanStepAccounting(p, item, dir, container, norm, host);
      PlanMissingIsListed(q, items[1..], dir, container, norm, host);
      var r := PlanFrom(q, items[1..], dir, container, norm, host);
      var rest := Ids(items[1..]);
      if !Truthy(item.id) {
        assert Ids(items) == rest;
      } else {
        assert Ids(items) == [item.id.value] + rest;
        if q.missing == p.missing {
          assert ([item.id.value] + rest)[1..] == rest;
        } else {
          ExtendedPrefix(p.missing, item.id.value, r.missing);
          assert ([item.id.value] + rest)[1..] == rest;
        }
      }
    }
  }

  /** One step of `PlanMissingIsListed`: an item without an ID changes no
      count; an item with one is either placed (counted when it succeeds)
      or added to the missing list. */
  lemma PlanStepAccounting(p: Plan, item: FlatItem, dir: string, container: string, norm: Sanitizer, host: Host)
    ensures var q := PlanStep(p, item, dir, container, norm, host);
      if Truthy(item.id) then
        || (q.missing == p.missing && p.copied <= q.copied <= p.copied + 1)
        || (q.missing == p.missing + [item.id.value] && q.copied == p.copied)
      else q.missing == p.missing && q.copied == p.copied
  {
  }

  /** One step of `PlanOnlyPrunesStale`. */
  lemma PlanStepPrunesStale(p: Plan, item: FlatItem, dir: string, container: string, norm: Sanitizer, host: Host)
    ensures var q := PlanStep(p, item, dir, container, norm, host);
      && q.store.entries.Keys <= p.store.entries.Keys
      && (forall k | k in q.store.entries :: q.store.entries[k] == p.store.entries[k])
      && (forall k | k in p.store.entries && k !in q.store.entries :: !Live(p.store.entries[k], p.mtimes))
      && p.mtimes.Keys <= q.mtimes.Keys
      && q.dirty == (p.dirty || q.store.entries.Keys != p.store.entries.Keys)
  {
    if Truthy(item.id) {
      var l := LookupOf(p, item, container, norm);
      FindEvictsOnlyStale(p.store, p.mtimes, norm, item.id.value, ExtractorOf(item), container, Some(TitleOf(item)));
      assert RemoveAll(p.store, l.evicted).entries.Keys == p.store.entries.Keys - l.evicted;
      if l.evicted != {} {
        var k :| k in l.evicted;
        assert k !in RemoveAll(p.store, l.evicted).entries;
      }
      match l.hit {
        case Some(e) =>
          SuccessLeavesTargetPresent(e, dir, container, norm, p.mtimes, host);
        case None =>
      }
    }
  }

  /** Only stale entries leave the archive, and files only appear: every
      key the planner deletes belonged to an entry whose file was missing
      at the start, every kept entry is unchanged, and every path that
      existed still exists. */
  lemma {:induction false} PlanOnlyPrunesStale(p: Plan, items: seq<FlatItem>, dir: string, container: string, norm: Sanitizer, host: Host)
    ensures var r := PlanFrom(p, items, dir, container, norm, host);
      && r.store.entries.Keys <= p.store.entries.Keys
      && (forall k | k in r.store.entries :: r.store.entries[k] == p.store.entries[k])
      && (forall k | k in p.store.entries && k !in r.store.entries :: !Live(p.store.entries[k], p.mtimes))
      && p.mtimes.Keys <= r.mtimes.Keys
      && r.dirty == (p.dirty || r.store.entries.Keys != p.store.entries.Keys)
    decreases |items|
  {
    if items != [] {
      var q := PlanStep(p, items[0], dir, container, norm, host);
      PlanStepPrunesStale(p, items[0], dir, container, norm, host);
      PlanOnlyPrunesStale(q, items[1..], dir, container, norm, host);
    }
  }

  /** The answer as a static filter: the listed IDs the archive `s` cannot
      serve against the filesystem `files`. */
  function Misses(s: Store, files: Mtimes, items: seq<FlatItem>, container: string, norm: Sanitizer): seq<string> {
    if items == [] then []
    else MissOf(s, files, items[0], container, norm) + Misses(s, files, items[1..], container, norm)
  }

  /** The item's ID when the archive `s` cannot serve it against `files`. */
  function MissOf(s: Store, files: Mtimes, item: FlatItem, container: string, norm: Sanitizer): seq<string> {
    if Truthy(item.id) && FindSpec(s, files, norm, item.id.value, ExtractorOf(item), container, Some(TitleOf(item))).hit.None?
    then [item.id.value] else []
  }

  /** On an archive without stale entries the planner deletes nothing and
      the missing IDs are exactly the listed IDs the archive cannot serve
      at the start: placing files never changes a later answer. */
  lemma {:induction false} PlanOnCleanArchive(p: Plan, base: Mtimes, items: seq<FlatItem>, dir: string, container: string,
                                              norm: Sanitizer, host: Host)
    requires Clean(p.store, base) && base.Keys <= p.mtimes.Keys
    ensures var r := PlanFrom(p, items, dir, container, norm, host);
      r.store == p.store && r.dirty == p.dirty && r.missing == p.missing + Misses(p.store, base, items, container, norm)
    decreases |items|
  {
    if items == [] {
      assert p.missing + [] == p.missing;
    } else {
      var q := PlanStep(p, items[0], dir, container, norm, host);
      PlanStepOnClean(p, base, items[0], dir, container, norm, host);
      assert PlanFrom(p, items, dir, container, norm, host) == PlanFrom(q, items[1..], dir, container, norm, host);
      PlanOnCleanArchive(q, base, items[1..], dir, container, norm, host);
      var here := MissOf(p.store, base, items[0], container, norm);
      var later := Misses(p.store, base, items[1..], container, norm);
      assert Misses(p.store, base, items, container, norm) == here + later;
      assert q.missing == p.missing + here;
      AppendAssoc(p.missing, here, later);
    }
  }

  /** One step of `PlanOnCleanArchive`. */
  lemma PlanStepOnClean(p: Plan, base: Mtimes, item: FlatItem, dir: string, container: string, norm: Sanitizer, host: Host)
    requires Clean(p.store, base) && base.Keys <= p.mtimes.Keys
    ensures var q := PlanStep(p, item, dir, container, norm, host);
      && q.store == p.store && q.dirty == p.dirty && base.Keys <= q.mtimes.Keys
      && q.missing == p.missing + MissOf(p.store, base, item, container, norm)
  {
    if Truthy(item.id) {
      FindOnCleanStore(p.store, base, p.mtimes, norm, item.id.value, ExtractorOf(item), container, Some(TitleOf(item)));
      WithoutNone(p.store.keys, {});
      assert RemoveAll(p.store, {}) == p.store;
      var l := LookupOf(p, item, container, norm);
      match l.hit {
        case Some(e) =>
          SuccessLeavesTargetPresent(e, dir, container, norm, p.mtimes, host);
        case None =>
      }
    } else {
      assert p.missing + [] == p.missing;
    }
  }
}
