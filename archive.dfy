/** The archive index as values: entry records, the insertion-ordered
    dictionary that holds them, the composite key, and the lookup that
    `ArchiveManager.find` performs, stated as a function of the store and
    of the filesystem. The class that mutates a store in place is in
    module Manager. */
module Archive {
  import opened Wrappers
  import opened Text
  import opened Disk

  /** One record of the JSON document. */
  datatype Entry = Entry(
    id: string,
    extractor: string,
    title: string,
    format: string,
    filePath: string,
    downloadDate: real)

  /** A Python dict from key to entry: a map plus the insertion order of
      its keys. */
  datatype Dict = Dict(keys: seq<string>, entries: map<string, Entry>)

  predicate Distinct(ks: seq<string>) {
    forall i, j | 0 <= i < j < |ks| :: ks[i] != ks[j]
  }

  /** The keys of a list, as a set. */
  function KeySet(ks: seq<string>): set<string> {
    if ks == [] then {} else {ks[0]} + KeySet(ks[1..])
  }

  lemma {:induction false} KeySetHolds(ks: seq<string>)
    ensures forall k :: k in KeySet(ks) <==> k in ks
  {
    if ks != [] {
      KeySetHolds(ks[1..]);
      assert ks == [ks[0]] + ks[1..];
    }
  }

  /** A list whose members are exactly those of a set has that set as its
      keys, and is empty exactly when the set is. */
  lemma KeySetIs(ks: seq<string>, keys: set<string>)
    requires forall k :: k in ks <==> k in keys
    ensures KeySet(ks) == keys && (keys == {} <==> ks == [])
  {
    KeySetHolds(ks);
    if ks != [] {
      assert ks[0] in keys;
    }
  }

  ghost predicate Ordered(d: Dict) {
    && Distinct(d.keys)
    && (forall i | 0 <= i < |d.keys| :: d.keys[i] in d.entries)
    && d.entries.Keys == KeySet(d.keys)
  }

  /** The keys of a store are the keys of its map. */
  lemma Members(s: Store)
    ensures forall k :: k in s.entries <==> k in s.keys
  {
    KeySetHolds(s.keys);
  }

  /** A dict whose order lists each of its keys exactly once. */
  type Store = d: Dict | Ordered(d) witness Dict([], map[])

  const Empty: Store := Dict([], map[])

  /** The store a session starts from: the stored document, or an empty
      archive when the file is missing or unreadable. */
  function Loaded(document: Option<Store>): Store {
    if document.Some? then document.value else Empty
  }

  /** `d[k] = e`: a new key goes last, an existing key keeps its place. */
  function Put(s: Store, k: string, e: Entry): Store {
    if k in s.entries then Dict(s.keys, s.entries[k := e])
    else
      Members(s);
      KeySetAppend(s.keys, k);
      Dict(s.keys + [k], s.entries[k := e])
  }

  /** The keys of `ks` that are not in `gone`, in their order. */
  function Without(ks: seq<string>, gone: set<string>): (r: seq<string>)
    ensures forall k :: k in r <==> k in ks && k !in gone
    ensures forall i | 0 <= i < |r| :: r[i] in ks && r[i] !in gone
    ensures Distinct(ks) ==> Distinct(r)
  {
    if ks == [] then [] else (if ks[0] in gone then [] else [ks[0]]) + Without(ks[1..], gone)
  }

  /** `del d[k]` for every `k` of `gone` that is a key of `d`. */
  function RemoveAll(s: Store, gone: set<string>): Store {
    KeySetWithout(s.keys, gone);
    Dict(Without(s.keys, gone), s.entries - gone)
  }

  lemma {:induction false} KeySetAppend(ks: seq<string>, k: string)
    ensures KeySet(ks + [k]) == KeySet(ks) + {k}
  {
    if ks != [] {
      KeySetAppend(ks[1..], k);
      assert (ks + [k])[1..] == ks[1..] + [k];
    }
  }

  lemma {:induction false} KeySetWithout(ks: seq<string>, gone: set<string>)
    ensures KeySet(Without(ks, gone)) == KeySet(ks) - gone
  {
    if ks != [] {
      KeySetWithout(ks[1..], gone);
      var w := Without(ks[1..], gone);
      if ks[0] in gone {
        assert Without(ks, gone) == w;
      } else {
        assert Without(ks, gone) == [ks[0]] + w;
        assert ([ks[0]] + w)[1..] == w;
      }
    }
  }

  lemma {:induction false} WithoutTwice(ks: seq<string>, a: set<string>, b: set<string>)
    ensures Without(Without(ks, a), b) == Without(ks, a + b)
  {
    if ks != [] {
      WithoutTwice(ks[1..], a, b);
      var rest := Without(ks[1..], a);
      if ks[0] in a {
        assert Without(ks, a) == rest;
      } else {
        assert Without(ks, a) == [ks[0]] + rest;
        assert Without(ks, a)[1..] == rest;
      }
    }
  }

  /** Deleting two batches of keys is deleting their union. */
  lemma RemoveAllTwice(s: Store, a: set<string>, b: set<string>)
    ensures RemoveAll(RemoveAll(s, a), b) == RemoveAll(s, a + b)
  {
    WithoutTwice(s.keys, a, b);
  }

  /** `(extractor or 'generic').lower() + "_" + vid + "_" + container`;
      the empty string stands for a missing extractor as well. */
  function Key(vid: string, extractor: string, container: string): (k: string)
    ensures Candidate(k, container)
    ensures var n := |k| - |vid| - |container| - 2;
      0 < n && k[n] == '_' && Lower(k[..n]) == k[..n]
  {
    var head := Lower(if extractor != "" then extractor else "generic");
    LowerIdempotent(if extractor != "" then extractor else "generic");
    assert (head + "_" + vid + "_" + container)[..|head|] == head;
    head + "_" + vid + "_" + container
  }

  /** The entry's file still exists. */
  predicate Live(e: Entry, files: Mtimes) {
    e.filePath in files
  }

  /** `sanitize_filename(title).lower()`, the form titles are compared in. */
  function Folded(norm: Sanitizer, title: string): string {
    Lower(norm(title))
  }

  /** Key `k` is scanned by the title fallback for `container`. */
  predicate Candidate(k: string, container: string) {
    EndsWith(k, "_" + container)
  }

  /** The fallback returns the entry under `k`. */
  predicate LiveMatch(s: Store, k: string, container: string, wanted: string, files: Mtimes, norm: Sanitizer)
    requires k in s.entries
  {
    Candidate(k, container) && Live(s.entries[k], files) && Folded(norm, s.entries[k].title) == wanted
  }

  /** Position of the first key, from `from` on, whose entry the title
      fallback returns. */
  function FirstLiveMatch(s: Store, container: string, wanted: string, files: Mtimes, norm: Sanitizer, from: nat): (r: Option<nat>)
    requires from <= |s.keys|
    ensures r.Some? ==> from <= r.value < |s.keys| && LiveMatch(s, s.keys[r.value], container, wanted, files, norm)
    ensures forall j | from <= j < (if r.Some? then r.value else |s.keys|) ::
              !LiveMatch(s, s.keys[j], container, wanted, files, norm)
    decreases |s.keys| - from
  {
    if from == |s.keys| then None
    else if LiveMatch(s, s.keys[from], container, wanted, files, norm) then Some(from)
    else FirstLiveMatch(s, container, wanted, files, norm, from + 1)
  }

  /** Keys among the first `upTo` that the fallback scans and finds stale. */
  function StaleBefore(s: Store, container: string, files: Mtimes, upTo: nat): set<string>
    requires upTo <= |s.keys|
  {
    set j | 0 <= j < upTo && Candidate(s.keys[j], container) && !Live(s.entries[s.keys[j]], files) :: s.keys[j]
  }

  /** The stale keys before position `n` are the stale scanned keys at
      positions below `n`, and, keys being distinct, none at `n` or later. */
  lemma StaleBeforeExactly(s: Store, container: string, files: Mtimes, n: nat)
    requires n <= |s.keys|
    ensures forall k | k in StaleBefore(s, container, files, n) ::
      k in s.entries && Candidate(k, container) && !Live(s.entries[k], files)
    ensures forall j | 0 <= j < n && Candidate(s.keys[j], container) && !Live(s.entries[s.keys[j]], files) ::
      s.keys[j] in StaleBefore(s, container, files, n)
    ensures forall j | n <= j < |s.keys| :: s.keys[j] !in StaleBefore(s, container, files, n)
  {
    forall j | n <= j < |s.keys|
      ensures s.keys[j] !in StaleBefore(s, container, files, n)
    {
      assert forall j' | 0 <= j' < n :: s.keys[j'] != s.keys[j];
    }
  }

  lemma StaleBeforeNext(s: Store, container: string, files: Mtimes, i: nat)
    requires i < |s.keys|
    ensures StaleBefore(s, container, files, i + 1) ==
      StaleBefore(s, container, files, i) +
      (if Candidate(s.keys[i], container) && !Live(s.entries[s.keys[i]], files) then {s.keys[i]} else {})
  {
  }

  /** What one `find` call returns and which keys it deletes. */
  datatype Lookup = Lookup(hit: Option<Entry>, evicted: set<string>)

  /** The title fallback of `find` over the store `s`: the first live
      `_<container>` entry whose folded title is `wanted`, and the stale
      `_<container>` keys met before it (all of them when nothing matches). */
  function Scan(s: Store, container: string, wanted: string, files: Mtimes, norm: Sanitizer): Lookup {
    match FirstLiveMatch(s, container, wanted, files, norm, 0)
    case Some(i) => Lookup(Some(s.entries[s.keys[i]]), StaleBefore(s, container, files, i))
    case None => Lookup(None, StaleBefore(s, container, files, |s.keys|))
  }

  /** The scan stops at the first position `i` that matches, or at the end
      when none does: it returns that entry and the stale keys before `i`. */
  lemma ScanStopsAt(s: Store, container: string, wanted: string, files: Mtimes, norm: Sanitizer, i: nat)
    requires i <= |s.keys|
    requires forall j | 0 <= j < i :: !LiveMatch(s, s.keys[j], container, wanted, files, norm)
    requires i < |s.keys| ==> LiveMatch(s, s.keys[i], container, wanted, files, norm)
    ensures Scan(s, container, wanted, files, norm) ==
      if i < |s.keys| then Lookup(Some(s.entries[s.keys[i]]), StaleBefore(s, container, files, i))
      else Lookup(None, StaleBefore(s, container, files, i))
  {
    var m := FirstLiveMatch(s, container, wanted, files, norm, 0);
    if i < |s.keys| {
      assert m == Some(i);
    } else {
      assert m == None;
    }
  }

  /** `ArchiveManager.find(vid, extractor, container, title)` on store `s`
      with the filesystem `files`: the exact key first (evicted when its file
      is gone), then, for a truthy title, the title scan of what is left. */
  function FindSpec(s: Store, files: Mtimes, norm: Sanitizer, vid: string, extractor: string, container: string, title: Option<string>): (l: Lookup)
    ensures l.hit.Some? ==> Live(l.hit.value, files) && l.hit.value in s.entries.Values
    ensures l.evicted <= s.entries.Keys
  {
    var k := Key(vid, extractor, container);
    if k in s.entries && Live(s.entries[k], files) then Lookup(Some(s.entries[k]), {})
    else if k in s.entries then
      if !Truthy(title) then Lookup(None, {k})
      else
        var sc := Scan(RemoveAll(s, {k}), container, Folded(norm, title.value), files, norm);
        Lookup(sc.hit, {k} + sc.evicted)
    else if !Truthy(title) then Lookup(None, {})
    else Scan(s, container, Folded(norm, title.value), files, norm)
  }

  /** How the fallback's result composes with the exact-key step: the
      store `rest` left after the exact key's eviction, scanned by title,
      gives the answer and the deletions of `FindSpec`. */
  lemma FindAfterExactMiss(s: Store, files: Mtimes, norm: Sanitizer, vid: string, extractor: string, container: string,
                           title: Option<string>, rest: Store, hit: Option<Entry>, after: Store)
    requires Truthy(title)
    requires var k := Key(vid, extractor, container);
      && !(k in s.entries && Live(s.entries[k], files))
      && rest == (if k in s.entries then RemoveAll(s, {k}) else s)
    requires var sc := Scan(rest, container, Folded(norm, title.value), files, norm);
      hit == sc.hit && after == RemoveAll(rest, sc.evicted)
    ensures var l := FindSpec(s, files, norm, vid, extractor, container, title);
      hit == l.hit && after == RemoveAll(s, l.evicted)
  {
    var k := Key(vid, extractor, container);
    if k in s.entries {
      RemoveAllTwice(s, {k}, Scan(rest, container, Folded(norm, title.value), files, norm).evicted);
    }
  }

  // ---------------------------------------------------------------------
  // The composite key

  /** The key is case-insensitive in the extractor: extractors that lower
      to the same text give the same key, and a missing extractor counts
      as "generic". */
  lemma KeyIgnoresExtractorCase(vid: string, e1: string, e2: string, container: string)
    requires Lower(e1) == Lower(e2) || (e1 == "" && Lower(e2) == "generic")
    ensures Key(vid, e1, container) == Key(vid, e2, container)
  {
    assert |e1| == |Lower(e1)| && |e2| == |Lower(e2)|;
    if e1 == "" && Lower(e2) == "generic" {
      LowerIdempotent("generic");
      assert Lower("generic") == "generic";
    }
  }

  /** With the extractor and the container fixed, the key determines the id
      (ids and containers are compared case-sensitively). */
  lemma KeyDeterminesId(v1: string, v2: string, extractor: string, container: string)
    ensures Key(v1, extractor, container) == Key(v2, extractor, container) <==> v1 == v2
  {
    var head := Lower(if extractor != "" then extractor else "generic") + "_";
    var tail := "_" + container;
    assert Key(v1, extractor, container) == head + v1 + tail;
    assert Key(v2, extractor, container) == head + v2 + tail;
    MiddleDetermines(head, v1, v2, tail);
  }

  /** The key written in the integration test. */
  lemma KeyExample()
    ensures Key("test123", "youtube", "mp3") == "youtube_test123_mp3"
    ensures Key("test123", "YouTube", "mp3") == "youtube_test123_mp3"
  {
    assert Lower("youtube") == "youtube";
    assert Lower("YouTube") == "youtube";
  }

  /** A key ending in `_c1` and in `_c2`, for containers without an
      underscore, names one container. */
  lemma {:induction false} SuffixDeterminesContainer(x: string, c1: string, c2: string)
    requires EndsWith(x, "_" + c1) && EndsWith(x, "_" + c2)
    requires Free(c1, '_') && Free(c2, '_')
    ensures c1 == c2
  {
    var p1, p2 := |x| - |c1| - 1, |x| - |c2| - 1;
    assert x[p1] == ("_" + c1)[0] && x[p2] == ("_" + c2)[0];
    assert forall q | p1 < q < |x| :: x[q] == c1[q - p1 - 1];
    assert forall q | p2 < q < |x| :: x[q] == c2[q - p2 - 1];
    assert p1 == p2;
    assert c1 == x[p1 + 1..] == c2;
  }

  /** Every key lies in the fallback range of its own container and of no
      other underscore-free container. */
  lemma KeyIsCandidateOnlyForItsContainer(vid: string, extractor: string, c: string, other: string)
    requires Free(c, '_') && Free(other, '_')
    ensures Candidate(Key(vid, extractor, c), c)
    ensures Candidate(Key(vid, extractor, c), other) ==> other == c
  {
    var k := Key(vid, extractor, c);
    assert k == (Lower(if extractor != "" then extractor else "generic") + "_" + vid) + ("_" + c);
    if Candidate(k, other) {
      SuffixDeterminesContainer(k, c, other);
    }
  }

  // ---------------------------------------------------------------------
  // Properties of the lookup

  /** A hit is a stored entry whose file exists, found under the exact key
      or, for a truthy title, under a `_<container>` key whose entry's
      folded title equals the query's. */
  lemma FindHitIsLiveStoredEntry(s: Store, files: Mtimes, norm: Sanitizer, vid: string, extractor: string, container: string, title: Option<string>)
    ensures var l := FindSpec(s, files, norm, vid, extractor, container, title);
      l.hit.Some? ==>
        Live(l.hit.value, files) &&
        exists k :: k in s.entries && s.entries[k] == l.hit.value &&
          (k == Key(vid, extractor, container) ||
           (Candidate(k, container) && Truthy(title) && Folded(norm, l.hit.value.title) == Folded(norm, title.value)))
  {
    var key := Key(vid, extractor, container);
    var l := FindSpec(s, files, norm, vid, extractor, container, title);
    if key in s.entries && Live(s.entries[key], files) {
      assert s.entries[key] == l.hit.value;
    } else if Truthy(title) {
      var rest := if key in s.entries then RemoveAll(s, {key}) else s;
      var wanted := Folded(norm, title.value);
      var m := FirstLiveMatch(rest, container, wanted, files, norm, 0);
      if m.Some? {
        var k := rest.keys[m.value];
        assert s.entries[k] == l.hit.value;
      }
    }
  }

  /** `find` deletes only stale entries: keys whose file is gone, either the
      exact key or keys the fallback scanned. */
  lemma FindEvictsOnlyStale(s: Store, files: Mtimes, norm: Sanitizer, vid: string, extractor: string, container: string, title: Option<string>)
    ensures var l := FindSpec(s, files, norm, vid, extractor, container, title);
      forall k | k in l.evicted ::
        k in s.entries && !Live(s.entries[k], files) &&
        (k == Key(vid, extractor, container) || Candidate(k, container))
  {
    var key := Key(vid, extractor, container);
    if !(key in s.entries && Live(s.entries[key], files)) && Truthy(title) {
      var rest := if key in s.entries then RemoveAll(s, {key}) else s;
      var m := FirstLiveMatch(rest, container, Folded(norm, title.value), files, norm, 0);
      StaleBeforeExactly(rest, container, files, if m.Some? then m.value else |rest.keys|);
    }
  }

  /** Without a truthy title only the exact key is looked at: it hits
      when its file exists and is evicted when its file is gone. */
  lemma FindWithoutTitle(s: Store, files: Mtimes, norm: Sanitizer, vid: string, extractor: string, container: string, title: Option<string>)
    requires !Truthy(title)
    ensures var l := FindSpec(s, files, norm, vid, extractor, container, title);
      var k := Key(vid, extractor, container);
      && (l.hit.Some? <==> k in s.entries && Live(s.entries[k], files))
      && l.evicted == (if k in s.entries && !Live(s.entries[k], files) then {k} else {})
  {
  }

  /** A present exact key whose file is gone is always evicted, whatever
      the fallback then finds. */
  lemma FindEvictsStaleExactKey(s: Store, files: Mtimes, norm: Sanitizer, vid: string, extractor: string, container: string, title: Option<string>)
    requires Key(vid, extractor, container) in s.entries && !Live(s.entries[Key(vid, extractor, container)], files)
    ensures Key(vid, extractor, container) in FindSpec(s, files, norm, vid, extractor, container, title).evicted
  {
  }

  /** The fallback returned the entry at position `i` of `s`: it is not the
      exact key `k`, it is a live match and no earlier position is one; the
      stale `_<container>` keys before it are evicted and no key from `i` on
      other than `k` is. */
  ghost predicate FallbackHitAt(s: Store, l: Lookup, k: string, container: string, wanted: string, files: Mtimes,
                                norm: Sanitizer, i: int)
  {
    && 0 <= i < |s.keys|
    && s.keys[i] != k
    && l.hit == Some(s.entries[s.keys[i]])
    && LiveMatch(s, s.keys[i], container, wanted, files, norm)
    && (forall j | 0 <= j < i :: !LiveMatch(s, s.keys[j], container, wanted, files, norm))
    && (forall j | 0 <= j < i && Candidate(s.keys[j], container) && !Live(s.entries[s.keys[j]], files) ::
          s.keys[j] in l.evicted)
    && (forall j | i <= j < |s.keys| && s.keys[j] != k :: s.keys[j] !in l.evicted)
  }

  /** A fallback hit is the first live match in key order, whether or not
      a stale exact key was evicted first: the stale `_<container>` entries
      before it are evicted and nothing after it is touched. */
  lemma FindFallbackEvictsOnlyBeforeHit(s: Store, files: Mtimes, norm: Sanitizer, vid: string, extractor: string, container: string, title: Option<string>)
    requires Truthy(title)
    ensures var l := FindSpec(s, files, norm, vid, extractor, container, title);
      var k := Key(vid, extractor, container);
      l.hit.Some? && !(k in s.entries && Live(s.entries[k], files)) ==>
        exists i :: FallbackHitAt(s, l, k, container, Folded(norm, title.value), files, norm, i)
  {
    var l := FindSpec(s, files, norm, vid, extractor, container, title);
    var k := Key(vid, extractor, container);
    var wanted := Folded(norm, title.value);
    if l.hit.Some? && !(k in s.entries && Live(s.entries[k], files)) {
      if k !in s.entries {
        FallbackOnly(s, files, norm, vid, extractor, container, title);
        var i := FirstLiveMatch(s, container, wanted, files, norm, 0).value;
        StaleBeforeExactly(s, container, files, i);
        assert FallbackHitAt(s, l, k, container, wanted, files, norm, i);
      } else {
        Members(s);
        var p :| 0 <= p < |s.keys| && s.keys[p] == k;
        var rest := RemoveAll(s, {k});
        var m := FirstLiveMatch(rest, container, wanted, files, norm, 0).value;
        var i := FallbackAfterEviction(s, l, k, p, container, wanted, files, norm, rest, m);
      }
    }
  }

  /** The fallback case of `FindFallbackEvictsOnlyBeforeHit` where the stale
      exact key `k`, at position `p`, was deleted before the scan: the hit at
      position `m` of what is left is at position `i` of `s`. */
  lemma FallbackAfterEviction(s: Store, l: Lookup, k: string, p: nat, container: string, wanted: string, files: Mtimes,
                              norm: Sanitizer, rest: Store, m: nat) returns (i: nat)
    requires p < |s.keys| && s.keys[p] == k && !Live(s.entries[k], files)
    requires rest == RemoveAll(s, {k}) && m < |rest.keys|
    requires LiveMatch(rest, rest.keys[m], container, wanted, files, norm)
    requires forall j | 0 <= j < m :: !LiveMatch(rest, rest.keys[j], container, wanted, files, norm)
    requires l == Lookup(Some(rest.entries[rest.keys[m]]), {k} + StaleBefore(rest, container, files, m))
    ensures FallbackHitAt(s, l, k, container, wanted, files, norm, i)
  {
    i := if m < p then m else m + 1;
    ShiftedHit(s, k, p, rest, m, i);
    assert LiveMatch(s, s.keys[i], container, wanted, files, norm);
    ShiftedNoEarlierMatch(s, k, p, container, wanted, files, norm, rest, m, i);
    ShiftedEvictions(s, k, p, container, files, rest, m, i);
  }

  /** Position `m` of `rest` is position `i` of `s`, with the same entry. */
  lemma ShiftedHit(s: Store, k: string, p: nat, rest: Store, m: nat, i: nat)
    requires p < |s.keys| && s.keys[p] == k
    requires rest == RemoveAll(s, {k}) && m < |rest.keys| && i == (if m < p then m else m + 1)
    ensures i < |s.keys| && rest.keys[m] == s.keys[i] && s.keys[i] != k
    ensures rest.entries[rest.keys[m]] == s.entries[s.keys[i]]
  {
    RemoveOneAt(s, k, p);
  }

  /** No position of `s` before `i` holds a live match: the deleted key is
      stale, and every other one sits before `m` in `rest`. */
  lemma ShiftedNoEarlierMatch(s: Store, k: string, p: nat, container: string, wanted: string, files: Mtimes,
                              norm: Sanitizer, rest: Store, m: nat, i: nat)
    requires p < |s.keys| && s.keys[p] == k && !Live(s.entries[k], files)
    requires rest == RemoveAll(s, {k}) && m < |rest.keys| && i == (if m < p then m else m + 1) && i < |s.keys|
    requires forall j | 0 <= j < m :: !LiveMatch(rest, rest.keys[j], container, wanted, files, norm)
    ensures forall j | 0 <= j < i :: !LiveMatch(s, s.keys[j], container, wanted, files, norm)
  {
    RemoveOneAt(s, k, p);
    forall j | 0 <= j < i
      ensures !LiveMatch(s, s.keys[j], container, wanted, files, norm)
    {
      if j != p {
        var j' := if j < p then j else j - 1;
        assert rest.keys[j'] == s.keys[j];
        assert !LiveMatch(rest, rest.keys[j'], container, wanted, files, norm);
      }
    }
  }

  /** The deleted key and the stale keys met before `m` in `rest` are the
      stale `_<container>` keys before `i` in `s`, plus `k`. */
  lemma ShiftedEvictions(s: Store, k: string, p: nat, container: string, files: Mtimes, rest: Store, m: nat, i: nat)
    requires p < |s.keys| && s.keys[p] == k
    requires rest == RemoveAll(s, {k}) && m < |rest.keys| && i == (if m < p then m else m + 1) && i < |s.keys|
    ensures forall j | 0 <= j < i && Candidate(s.keys[j], container) && !Live(s.entries[s.keys[j]], files) ::
      s.keys[j] in {k} + StaleBefore(rest, container, files, m)
    ensures forall j | i <= j < |s.keys| && s.keys[j] != k :: s.keys[j] !in StaleBefore(rest, container, files, m)
  {
    RemoveOneAt(s, k, p);
    StaleBeforeExactly(rest, container, files, m);
    forall j | 0 <= j < i && Candidate(s.keys[j], container) && !Live(s.entries[s.keys[j]], files)
      ensures s.keys[j] in {k} + StaleBefore(rest, container, files, m)
    {
      if j != p {
        var q := if j < p then j else j - 1;
        assert q < m && rest.keys[q] == s.keys[j];
        assert rest.entries[rest.keys[q]] == s.entries[s.keys[j]];
      }
    }
    forall j | i <= j < |s.keys| && s.keys[j] != k
      ensures s.keys[j] !in StaleBefore(rest, container, files, m)
    {
      var q := if j < p then j else j - 1;
      assert m <= q < |rest.keys| && rest.keys[q] == s.keys[j];
    }
  }

  lemma RemoveOneAt(s: Store, k: string, p: nat)
    requires p < |s.keys| && s.keys[p] == k
    ensures var r := RemoveAll(s, {k});
      && |r.keys| == |s.keys| - 1
      && (forall j | 0 <= j < p :: r.keys[j] == s.keys[j])
      && (forall j | p < j < |s.keys| :: r.keys[j - 1] == s.keys[j])
      && (forall q | q in r.entries :: q != k && q in s.entries && r.entries[q] == s.entries[q])
  {
    WithoutOne(s.keys, k, p);
    SkipAt(s.keys, p);
  }

  lemma {:induction false} WithoutOne(ks: seq<string>, k: string, p: nat)
    requires p < |ks| && ks[p] == k
    requires forall i | 0 <= i < |ks| && i != p :: ks[i] != k
    ensures Without(ks, {k}) == ks[..p] + ks[p + 1..]
  {
    var tail := ks[1..];
    var w := Without(tail, {k});
    if p == 0 {
      assert Without(ks, {k}) == w;
      WithoutNone(tail, {k});
      assert ks[..0] + ks[1..] == tail;
    } else {
      assert Without(ks, {k}) == [ks[0]] + w;
      WithoutOne(tail, k, p - 1);
      assert tail[..p - 1] == ks[1..p];
      assert tail[p..] == ks[p + 1..];
      AppendAssoc([ks[0]], ks[1..p], ks[p + 1..]);
      assert ks[..p] == [ks[0]] + ks[1..p];
    }
  }

  lemma {:induction false} WithoutNone(ks: seq<string>, gone: set<string>)
    requires forall i | 0 <= i < |ks| :: ks[i] !in gone
    ensures Without(ks, gone) == ks
  {
    if ks != [] {
      WithoutNone(ks[1..], gone);
      assert ks == [ks[0]] + ks[1..];
    }
  }

  /** With no entry under the exact key and a truthy title, `find` is the
      title scan of the whole store. */
  lemma FallbackOnly(s: Store, files: Mtimes, norm: Sanitizer, vid: string, extractor: string, container: string, title: Option<string>)
    requires Truthy(title) && Key(vid, extractor, container) !in s.entries
    ensures FindSpec(s, files, norm, vid, extractor, container, title) ==
      Scan(s, container, Folded(norm, title.value), files, norm)
  {
  }

  /** When the fallback runs and finds nothing, no live `_<container>` entry
      has the query's folded title, and every stale `_<container>` entry
      has been deleted. */
  lemma FindMissMeansNoLiveMatch(s: Store, files: Mtimes, norm: Sanitizer, vid: string, extractor: string, container: string, title: Option<string>)
    requires Truthy(title)
    ensures var l := FindSpec(s, files, norm, vid, extractor, container, title);
      l.hit.None? ==>
        (forall k | k in s.entries && Candidate(k, container) && Live(s.entries[k], files) ::
           Folded(norm, s.entries[k].title) != Folded(norm, title.value)) &&
        (forall k | k in s.entries && Candidate(k, container) && !Live(s.entries[k], files) ::
           k in l.evicted)
  {
    var key := Key(vid, extractor, container);
    var l := FindSpec(s, files, norm, vid, extractor, container, title);
    if l.hit.None? {
      var rest := if key in s.entries then RemoveAll(s, {key}) else s;
      var wanted := Folded(norm, title.value);
      ScanMissCoversAll(rest, container, wanted, files, norm);
      forall k | k in s.entries && Candidate(k, container)
        ensures Live(s.entries[k], files) ==> Folded(norm, s.entries[k].title) != wanted
        ensures !Live(s.entries[k], files) ==> k in l.evicted
      {
        if k != key {
          assert k in rest.entries && rest.entries[k] == s.entries[k];
        }
      }
    }
  }

  /** A scan that finds nothing has looked at every `_<container>` entry:
      none of the live ones has the title, and all the stale ones go. */
  lemma ScanMissCoversAll(s: Store, container: string, wanted: string, files: Mtimes, norm: Sanitizer)
    ensures var sc := Scan(s, container, wanted, files, norm);
      sc.hit.None? ==>
        forall k | k in s.entries && Candidate(k, container) ::
          (Live(s.entries[k], files) ==> Folded(norm, s.entries[k].title) != wanted) &&
          (!Live(s.entries[k], files) ==> k in sc.evicted)
  {
    var sc := Scan(s, container, wanted, files, norm);
    if sc.hit.None? {
      assert FirstLiveMatch(s, container, wanted, files, norm, 0).None?;
      Members(s);
      forall k | k in s.entries && Candidate(k, container)
        ensures Live(s.entries[k], files) ==> Folded(norm, s.entries[k].title) != wanted
        ensures !Live(s.entries[k], files) ==> k in sc.evicted
      {
        var j :| 0 <= j < |s.keys| && s.keys[j] == k;
        assert !LiveMatch(s, s.keys[j], container, wanted, files, norm);
      }
    }
  }

  /** Container isolation: in a store whose keys all end in `_<c1>`, a
      lookup for another underscore-free container finds nothing. */
  lemma FindIsolatesContainers(s: Store, files: Mtimes, norm: Sanitizer, vid: string, extractor: string, c1: string, c2: string, title: Option<string>)
    requires forall k | k in s.entries :: Candidate(k, c1)
    requires c1 != c2 && Free(c1, '_') && Free(c2, '_')
    ensures FindSpec(s, files, norm, vid, extractor, c2, title).hit == None
  {
    var key := Key(vid, extractor, c2);
    KeyIsCandidateOnlyForItsContainer(vid, extractor, c2, c1);
    assert key !in s.entries;
    if Truthy(title) {
      var rest := s;
      var wanted := Folded(norm, title.value);
      var m := FirstLiveMatch(rest, c2, wanted, files, norm, 0);
      if m.Some? {
        var k := rest.keys[m.value];
        SuffixDeterminesContainer(k, c1, c2);
      }
    }
  }

  /** Every entry's file exists. */
  ghost predicate Clean(s: Store, files: Mtimes) {
    forall k | k in s.entries :: Live(s.entries[k], files)
  }

  lemma {:induction false} FirstLiveMatchOnClean(s: Store, container: string, wanted: string, files: Mtimes, more: Mtimes, norm: Sanitizer, from: nat)
    requires Clean(s, files) && files.Keys <= more.Keys
    requires from <= |s.keys|
    ensures FirstLiveMatch(s, container, wanted, more, norm, from) == FirstLiveMatch(s, container, wanted, files, norm, from)
    decreases |s.keys| - from
  {
    if from < |s.keys| {
      FirstLiveMatchOnClean(s, container, wanted, files, more, norm, from + 1);
    }
  }

  /** On a store without stale entries `find` deletes nothing, and its
      answer stays the same while files are only added. */
  lemma FindOnCleanStore(s: Store, files: Mtimes, more: Mtimes, norm: Sanitizer, vid: string, extractor: string, container: string, title: Option<string>)
    requires Clean(s, files) && files.Keys <= more.Keys
    ensures FindSpec(s, files, norm, vid, extractor, container, title).evicted == {}
    ensures FindSpec(s, more, norm, vid, extractor, container, title) == FindSpec(s, files, norm, vid, extractor, container, title)
  {
    var key := Key(vid, extractor, container);
    if key !in s.entries && Truthy(title) {
      FallbackOnly(s, files, norm, vid, extractor, container, title);
      FallbackOnly(s, more, norm, vid, extractor, container, title);
      var wanted := Folded(norm, title.value);
      FirstLiveMatchOnClean(s, container, wanted, files, more, norm, 0);
      var m := FirstLiveMatch(s, container, wanted, files, norm, 0);
      var n := if m.Some? then m.value else |s.keys|;
      StaleBeforeOnClean(s, container, files, files, n);
      StaleBeforeOnClean(s, container, files, more, n);
    }
  }

  /** On a clean store the scan meets no stale key, and adding files keeps
      it so. */
  lemma StaleBeforeOnClean(s: Store, container: string, files: Mtimes, more: Mtimes, n: nat)
    requires Clean(s, files) && files.Keys <= more.Keys && n <= |s.keys|
    ensures StaleBefore(s, container, more, n) == {}
  {
    StaleBeforeExactly(s, container, more, n);
  }
}
