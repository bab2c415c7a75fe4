/**
 * The takeout adapter as the object the source builds (type Takeout):
 * pass one over the walked entries, solvePuzzle over the catalogs, and
 * pass two over each directory, which emits the asset groups. The channel
 * of groups becomes the `emitted` field, in send order.
 */
module Takeout {
  import opened Wrappers
  import opened GoStrings
  import opened Media
  import opened TakeoutTypes
  import opened Policy
  import opened Puzzle
  import opened PassOne
  import opened PassTwo

  /** The walk over a sequence of entries, stopping at the first error. */
  function WalkAll(env: Env, s: Walked, es: seq<Entry>): StepResult
    decreases |es|
  {
    if es == [] then Continue(s)
    else
      match WalkAll(env, s, es[..|es| - 1])
      case Stop => Stop
      case Continue(t) => PassOneStep(env, t, es[|es| - 1])
  }

  /** Pass one over the archive parts in turn, stopping at the first part whose walk fails. */
  function WalkParts(env: Env, s: Walked, parts: seq<seq<Entry>>): StepResult
    decreases |parts|
  {
    if parts == [] then Continue(s)
    else
      match WalkParts(env, s, parts[..|parts| - 1])
      case Stop => Stop
      case Continue(t) => WalkAll(env, t, parts[|parts| - 1])
  }

  /** The catalog once the files of `done` have been tried against rule `m` and sidecar `json`, whose metadata is `md`. */
  ghost predicate Matching(matches: (Matcher, string, string) -> bool, m: Matcher, json: string, md: Metadata,
                           cat: DirCatalog, done: set<string>, r: DirCatalog) {
    && done <= cat.unmatched.Keys
    && r.jsons == cat.jsons
    && (forall f :: f in r.unmatched <==> f in cat.unmatched && !(f in done && matches(m, json, f)))
    && (forall f :: f in r.unmatched ==> r.unmatched[f] == cat.unmatched[f])
    && (forall f :: f in r.matched <==> f in cat.matched || (f in done && matches(m, json, f)))
    && (forall f :: f in r.matched ==>
          r.matched[f] == if f in done && matches(m, json, f) then cat.unmatched[f].(md := Some(md)) else cat.matched[f])
  }

  lemma MatchingStep(matches: (Matcher, string, string) -> bool, m: Matcher, json: string, md: Metadata,
                     cat: DirCatalog, done: set<string>, r: DirCatalog, f: string)
    requires Matching(matches, m, json, md, cat, done, r) && f in cat.unmatched && f !in done
    ensures var r' := if matches(m, json, f)
                      then r.(matched := r.matched[f := r.unmatched[f].(md := Some(md))], unmatched := r.unmatched - {f})
                      else r;
            Matching(matches, m, json, md, cat, done + {f}, r')
  {
  }

  lemma MatchingDone(matches: (Matcher, string, string) -> bool, m: Matcher, json: string,
                     cat: DirCatalog, r: DirCatalog)
    requires json in cat.jsons
    requires Matching(matches, m, json, cat.jsons[json], cat, cat.unmatched.Keys, r)
    ensures r == MoveMatching(matches, m, json, cat)
  {
    var want := MoveMatching(matches, m, json, cat);
    assert r.unmatched == want.unmatched;
    assert r.matched == want.matched;
  }

  /** One rule-and-sidecar pass over the unmatched files (the range over unMatchedFiles, which deletes as it goes). */
  method MatchFiles(matches: (Matcher, string, string) -> bool, m: Matcher, json: string, cat: DirCatalog)
    returns (r: DirCatalog)
    requires json in cat.jsons
    ensures r == MoveMatching(matches, m, json, cat)
  {
    r := cat;
    var md := cat.jsons[json];
    var rest := cat.unmatched.Keys;
    ghost var done: set<string> := {};
    while rest != {}
      invariant Matching(matches, m, json, md, cat, done, r)
      invariant done + rest == cat.unmatched.Keys && done !! rest
      decreases rest
    {
      var f :| f in rest;
      MatchingStep(matches, m, json, md, cat, done, r, f);
      if matches(m, json, f) {
        var i := r.unmatched[f];
        i := i.(md := Some(md));
        r := r.(matched := r.matched[f := i], unmatched := r.unmatched - {f});
      }
      rest := rest - {f};
      done := done + {f};
    }
    MatchingDone(matches, m, json, cat, r);
  }

  /** The catalog once the JSON-less files of `done` have been moved (or not, when they are not kept). */
  ghost predicate MovedJSONLess(keep: bool, cat: DirCatalog, done: set<string>, r: DirCatalog) {
    && done <= cat.unmatched.Keys
    && r.jsons == cat.jsons
    && (forall f :: f in r.unmatched <==> f in cat.unmatched && !(keep && f in done))
    && (forall f :: f in r.unmatched ==> r.unmatched[f] == cat.unmatched[f])
    && (forall f :: f in r.matched <==> f in cat.matched || (keep && f in done))
    && (forall f :: f in r.matched ==> r.matched[f] == if keep && f in done then cat.unmatched[f] else cat.matched[f])
  }

  lemma MovedJSONLessStep(keep: bool, cat: DirCatalog, done: set<string>, r: DirCatalog, f: string)
    requires MovedJSONLess(keep, cat, done, r) && f in cat.unmatched && f !in done
    ensures var r' := if keep then r.(matched := r.matched[f := r.unmatched[f]], unmatched := r.unmatched - {f}) else r;
            MovedJSONLess(keep, cat, done + {f}, r')
  {
  }

  lemma MovedJSONLessDone(keep: bool, cat: DirCatalog, r: DirCatalog)
    requires MovedJSONLess(keep, cat, cat.unmatched.Keys, r)
    ensures r == FinishDir(keep, cat)
  {
    var want := FinishDir(keep, cat);
    assert r.unmatched == want.unmatched;
    assert r.matched == want.matched;
  }

  /** One JSON-less file: moved from unmatched to matched when JSON-less files are kept. */
  method MoveJSONLess(keep: bool, ghost cat: DirCatalog, ghost done: set<string>, r: DirCatalog, f: string)
    returns (r': DirCatalog)
    requires MovedJSONLess(keep, cat, done, r) && f in cat.unmatched && f !in done
    ensures MovedJSONLess(keep, cat, done + {f}, r')
  {
    MovedJSONLessStep(keep, cat, done, r, f);
    r' := r;
    if keep {
      r' := r.(matched := r.matched[f := r.unmatched[f]], unmatched := r.unmatched - {f});
    }
  }

  /** The files left unmatched after the rules, moved one by one in name order when JSON-less files are kept. */
  method KeepJSONLess(keep: bool, cat: DirCatalog) returns (r: DirCatalog)
    ensures r == FinishDir(keep, cat)
  {
    r := cat;
    if |cat.unmatched| > 0 {
      var files := SortedKeys(cat.unmatched.Keys);
      ghost var done: set<string> := {};
      for k := 0 to |files|
        invariant MovedJSONLess(keep, cat, done, r)
        invariant forall f :: f in done <==> f in files[..k]
      {
        var f := files[k];
        EnumStep(files, k, done);
        r := MoveJSONLess(keep, cat, done, r, f);
        done := done + {f};
      }
      EnumDone(files, done, cat.unmatched.Keys);
    } else {
      assert cat.unmatched == map[];
    }
    MovedJSONLessDone(keep, cat, r);
  }

  /** One row of solvePuzzle's table: rule `m` with each sidecar in name order. */
  method SolveRowLoop(matches: (Matcher, string, string) -> bool, m: Matcher, jsons: seq<string>, cat: DirCatalog)
    returns (r: DirCatalog)
    requires forall j :: j in jsons ==> j in cat.jsons
    ensures r == SolveRow(matches, m, jsons, cat)
  {
    r := cat;
    for ji := 0 to |jsons|
      invariant r == SolveRow(matches, m, jsons[..ji], cat)
    {
      TakeTake(jsons, ji);
      r := MatchFiles(matches, m, jsons[ji], r);
    }
    TakeAll(jsons);
  }

  /** solvePuzzle's work on one directory: rules in table order, sidecars in name order, then the JSON-less files. */
  method SolveCatalog(env: Env, cat: DirCatalog) returns (r: DirCatalog)
    ensures r == SolveDir(env, cat)
  {
    var jsons := SortedKeys(cat.jsons.Keys);
    r := cat;
    for mi := 0 to |Matchers|
      invariant r == SolveAll(env.matches, Matchers[..mi], jsons, cat)
    {
      TakeTake(Matchers, mi);
      r := SolveRowLoop(env.matches, Matchers[mi], jsons, r);
    }
    TakeAll(Matchers);
    r := KeepJSONLess(env.keepJSONLess, r);
  }

  /** Walking a strictly sorted list, the next element is new, and the walked set grows by it. */
  lemma EnumStep(files: seq<string>, k: int, done: set<string>)
    requires StrictlySorted(files) && 0 <= k < |files|
    requires forall f :: f in done <==> f in files[..k]
    ensures files[k] !in done
    ensures forall f :: f in done + {files[k]} <==> f in files[..k + 1]
  {
    SortedDistinct(files, k);
    TakeSnoc(files, k);
  }

  /** At the end of the walk, every element has been walked. */
  lemma EnumDone(files: seq<string>, done: set<string>, keys: set<string>)
    requires forall f :: f in done <==> f in files[..|files|]
    requires forall f :: f in files <==> f in keys
    ensures done == keys
  {
    TakeAll(files);
  }

  /** In a strictly sorted list, everything before an element sorts before it, so no element is there twice. */
  lemma SortedDistinct(s: seq<string>, k: int)
    requires StrictlySorted(s) && 0 <= k < |s|
    ensures forall v :: v in s[..k] ==> Less(v, s[k])
    ensures s[k] !in s[..k]
  {
    forall v | v in s[..k]
      ensures Less(v, s[k])
    {
      var j :| 0 <= j < k && s[j] == v;
    }
  }

  /** makeAsset's loop over the tracker paths of a file: the album of each directory, added to the group in path order. */
  method CollectAlbums(env: Env, albums: map<string, LocalAlbum>, paths: seq<string>, acc: seq<LocalAlbum>)
    returns (r: seq<LocalAlbum>)
    ensures r == AddAlbums(env, albums, acc, paths)
  {
    r := acc;
    for k := 0 to |paths|
      invariant r == AddAlbums(env, albums, acc, paths[..k])
    {
      var p := paths[k];
      TakeTake(paths, k);
      if p in albums {
        var album := albums[p];
        var title := album.title;
        if title == "" {
          if !env.keepUntitled {
            continue;
          }
          title := Base(album.path);
        }
        r := env.addAlbum(r, LocalAlbum(title, p, album.description, album.latitude, album.longitude));
      }
    }
    TakeAll(paths);
  }

  /** makeAsset's use of the metadata: dates, flags and location, the location falling back to the group's albums. */
  method ApplyMd(a: LocalAsset, md: Option<Metadata>, groupAlbums: seq<LocalAlbum>) returns (r: LocalAsset)
    ensures r == ApplyMetadata(a, md, groupAlbums)
  {
    r := a;
    if md.Some? {
      var m := md.value;
      r := r.(captureDate := m.dateTaken, archived := m.archived, favorite := m.favorited,
              trashed := m.trashed, latitude := m.latitude, longitude := m.longitude);
      if r.latitude == 0.0 && r.longitude == 0.0 {
        r := GpsFallback(r, groupAlbums);
      }
    }
  }

  /** linkedFiles[name], with the zero entry for a name without one. */
  function LinkedAt(linked: map<string, Linked>, name: string): Linked {
    if name in linked then linked[name] else Linked(None, None)
  }

  /** makeAsset's loop over the group's albums: an asset without a location takes the first located album's. */
  method GpsFallback(a: LocalAsset, groupAlbums: seq<LocalAlbum>) returns (r: LocalAsset)
    requires a.latitude == 0.0 && a.longitude == 0.0
    ensures match FirstLocated(groupAlbums)
            case Some(i) => r == a.(latitude := groupAlbums[i].latitude, longitude := groupAlbums[i].longitude)
            case None => r == a
  {
    r := a;
    for k := 0 to |groupAlbums|
      invariant r == a
      invariant forall j :: 0 <= j < k ==> !Located(groupAlbums[j])
    {
      var album := groupAlbums[k];
      if album.latitude != 0.0 || album.longitude != 0.0 {
        r := r.(latitude := album.latitude, longitude := album.longitude);
        assert FirstLocated(groupAlbums) == Some(k);
        return;
      }
    }
  }

  class Takeout {
    const env: Env
    var catalogs: map<string, DirCatalog>
    var albums: map<string, LocalAlbum>
    var tracker: map<FileKey, TrackingInfo>
    var emitted: seq<OutGroup>
    /** The groups AssetGroup.Validate refused, which the program drops: a record for the proofs only. */
    ghost var refused: seq<OutGroup>

    /** NewTakeout: empty catalogs, albums and tracker. */
    constructor(env: Env)
      ensures this.env == env && catalogs == map[] && albums == map[] && tracker == map[] && emitted == [] && refused == []
    {
      this.env := env;
      catalogs := map[];
      albums := map[];
      tracker := map[];
      emitted := [];
      refused := [];
    }

    function State(): Walked
      reads this
    {
      Walked(catalogs, albums, tracker)
    }

    /** What pass two has sent and refused so far, with the tracker. */
    ghost function Sends(): Sent
      reads this
    {
      Sent(emitted, refused, tracker)
    }

    /** The ".json" case of the walk callback: an asset or album sidecar, or one that is skipped. */
    method AddSidecar(dir: string, base: string, sidecar: Sidecar)
      modifies this`catalogs, this`albums
      ensures State() == SidecarStep(env, old(State()), dir, base, sidecar)
      ensures emitted == old(emitted)
    {
      var dirCatalog := if dir in catalogs then catalogs[dir] else EmptyCatalog;
      match sidecar {
        case AssetSidecar(md) =>
          dirCatalog := dirCatalog.(jsons := dirCatalog.jsons[base := md]);
        case AlbumSidecar(title, enrichment) =>
          if !env.keepUntitled && title == "" {
            return;
          }
          var a := if dir in albums then albums[dir] else NoAlbum;
          a := a.(title := title);
          if a.title == "" {
            a := a.(title := Base(dir));
          }
          a := a.(path := Base(dir));
          if enrichment.Some? {
            var en := enrichment.value;
            a := a.(description := en.text, latitude := en.latitude, longitude := en.longitude);
          }
          albums := albums[dir := a];
        case Unreadable =>
          return;
        case UnknownSidecar =>
          return;
      }
      catalogs := catalogs[dir := dirCatalog];
    }

    /** The media case of the walk callback, once the file is accepted: track it, and file it unless its base name is taken. */
    method AddMedia(dir: string, file: AssetFile)
      modifies this`catalogs, this`tracker
      ensures State() == MediaStep(old(State()), dir, file)
      ensures emitted == old(emitted)
    {
      var dirCatalog := if dir in catalogs then catalogs[dir] else EmptyCatalog;
      var key := FileKey(file.base, file.length);
      var tracking := Tracking(tracker, key);
      tracking := tracking.(paths := tracking.paths + [dir], count := tracking.count + 1);
      tracker := tracker[key := tracking];
      if file.base in dirCatalog.unmatched {
        return;
      }
      dirCatalog := dirCatalog.(unmatched := dirCatalog.unmatched[file.base := file]);
      catalogs := catalogs[dir := dirCatalog];
    }

    /** The fs.WalkDir callback of passOneFsWalk for one entry; false for the error that stops the walk. */
    method PassOneEntry(e: Entry) returns (ok: bool)
      modifies this`catalogs, this`albums, this`tracker
      ensures ok <==> PassOneStep(env, old(State()), e).Continue?
      ensures ok ==> State() == PassOneStep(env, old(State()), e).state
      ensures !ok ==> State() == old(State())
      ensures emitted == old(emitted)
    {
      if e.isDir {
        return true;
      }
      var sp := Split(e.name);
      var dir := TrimSuffix(sp.0, "/");
      var base := sp.1;
      var ext := ToLower(Ext(base));
      if e.info.None? {
        return false;
      }
      var finfo := e.info.value;
      ok := true;
      if ext == ".json" {
        AddSidecar(dir, base, e.sidecar);
        return;
      }
      if env.banned(e.name) {
        return;
      }
      if !env.included(ext) {
        return;
      }
      if env.excluded(ext) {
        return;
      }
      var t := env.typeFromExt(ext);
      if t == TypeUnknown {
        return;
      }
      if t == TypeVideo && Contains(e.name, FailedVideos) {
        return;
      }
      AddMedia(dir, AssetFile(e.fsys, base, finfo.size, finfo.modTime, None));
    }

    /** passOneFsWalk over every entry of the walked archive parts, in walk order. */
    method PassOne(entries: seq<Entry>) returns (ok: bool)
      requires forall i :: 0 <= i < |entries| ==> WalkedFile(entries[i])
      requires WalkedOk(catalogs)
      modifies this`catalogs, this`albums, this`tracker
      ensures ok <==> WalkAll(env, old(State()), entries).Continue?
      ensures ok ==> State() == WalkAll(env, old(State()), entries).state && WalkedOk(catalogs)
      ensures forall k :: Tracking(tracker, k).status == Tracking(old(tracker), k).status
      ensures emitted == old(emitted)
    {
      ghost var start := State();
      for i := 0 to |entries|
        invariant WalkAll(env, start, entries[..i]) == Continue(State())
        invariant WalkedOk(catalogs)
        invariant forall k :: Tracking(tracker, k).status == Tracking(old(tracker), k).status
        invariant emitted == old(emitted)
      {
        TakeTake(entries, i);
        StepKeepsWalkedOk(env, State(), entries[i]);
        forall k ensures PassOneStep(env, State(), entries[i]).Continue? ==>
            Tracking(PassOneStep(env, State(), entries[i]).state.tracker, k).status == Tracking(tracker, k).status
        {
          if PassOneStep(env, State(), entries[i]).Continue? {
            StepKeepsStatus(env, State(), entries[i], k);
          }
        }
        ok := PassOneEntry(entries[i]);
        if !ok {
          assert WalkAll(env, start, entries[..i + 1]) == Stop;
          StopSticks(env, start, entries, i + 1);
          return false;
        }
      }
      TakeAll(entries);
      ok := true;
    }

    /** solvePuzzle: every directory, in name order, solved on its own. */
    method SolvePuzzle()
      requires forall d :: d in catalogs ==> CatalogOk(catalogs[d])
      modifies this`catalogs
      ensures catalogs == map d | d in old(catalogs) :: SolveDir(env, old(catalogs)[d])
      ensures forall d :: d in catalogs ==> CatalogOk(catalogs[d])
    {
      ghost var start := catalogs;
      ghost var done: set<string> := {};
      var dirs := SortedKeys(catalogs.Keys);
      for k := 0 to |dirs|
        invariant SolvedDirs(env, start, done, catalogs)
        invariant forall d :: d in done <==> d in dirs[..k]
      {
        var dir := dirs[k];
        SortedDistinct(dirs, k);
        var cat := SolveCatalog(env, catalogs[dir]);
        SolvedDirsStep(env, start, done, catalogs, dir, cat);
        catalogs := catalogs[dir := cat];
        done := done + {dir};
        TakeSnoc(dirs, k);
      }
      TakeAll(dirs);
      SolvedDirsDone(env, start, done, catalogs);
    }

    /**
     * makeAsset: the asset for file `f` of directory `dir`, added to group
     * `g`, or None when the file is dropped; the file's tracker entry is
     * written back on every path.
     */
    method MakeAsset(dir: string, f: AssetFile, g: OutGroup) returns (a: Option<LocalAsset>, g': OutGroup)
      modifies this`tracker
      ensures var r := MakeAssetSpec(env, albums, old(tracker), dir, f, g);
              a == r.asset && g' == r.group && tracker == old(tracker)[KeyOf(f) := r.track]
    {
      var key := FileKey(f.base, f.length);
      var track := Tracking(tracker, key);
      track := track.(metadata := f.md);
      var file := Join(dir, f.base);
      var asset := LocalAsset(file, f.length, f.base, f.fsys, f.date, 0, false, false, false, 0.0, 0.0);
      g' := g;
      var filtered := FilterOnMetadata(env, f.md, env.readMetadata(asset));
      if filtered.Drop? {
        track := track.(status := filtered.code);
        tracker := tracker[key := track];
        return None, g;
      }
      var md := filtered.md;
      if md.Some? && md.value.fileName != "" {
        asset := asset.(title := ReconcileTitle(md.value.fileName, file));
      }
      if env.importFromAlbum != "" {
        var keep := false;
        if dir in albums {
          keep := keep || albums[dir].title == env.importFromAlbum;
        }
        if !keep {
          track := track.(status := Discarded);
          tracker := tracker[key := track];
          return None, g;
        }
      }
      var groupAlbums := AlbumsOf(Tracking(tracker, key).paths, md, g'.albums);
      g' := g'.(albums := groupAlbums);
      asset := ApplyMd(asset, md, groupAlbums);
      g' := g'.(assets := g'.assets + [asset]);
      tracker := tracker[key := track];
      a := Some(asset);
    }

    /** makeAsset's album handling: the forced album, or the albums of the file's directories, then the partner album. */
    method AlbumsOf(paths: seq<string>, md: Option<Metadata>, acc: seq<LocalAlbum>) returns (r: seq<LocalAlbum>)
      ensures r == GroupAlbums(env, albums, paths, md, acc)
    {
      r := acc;
      if env.createAlbums {
        if env.importIntoAlbum != "" {
          r := env.addAlbum(r, TitledAlbum(env.importIntoAlbum));
        } else {
          r := CollectAlbums(env, albums, paths, r);
        }
        if env.partnerSharedAlbum != "" && md.Some? && md.value.fromPartner {
          r := env.addAlbum(r, TitledAlbum(env.partnerSharedAlbum));
        }
      }
    }

    /** passTwo's switch over a linked entry: the group of its image and video, the video first. */
    method BuildGroup(dir: string, cat: DirCatalog, l: Linked) returns (g: OutGroup)
      requires NamesOf(l) <= cat.matched.Keys
      modifies this`tracker
      ensures Built(g, tracker) == BuildSpec(env, albums, old(tracker), dir, cat, l)
    {
      g := EmptyGroup;
      if l.image.Some? && l.video.Some? {
        var liveVideo, mainAsset;
        liveVideo, g := MakeAsset(dir, cat.matched[l.video.value], g);
        mainAsset, g := MakeAsset(dir, cat.matched[l.image.value], g);
        if mainAsset.Some? && liveVideo.Some? {
          g := g.(kind := GroupKindMotionPhoto);
        } else if mainAsset.Some? && liveVideo.None? {
          g := g.(kind := GroupKindNone);
        } else if liveVideo.Some? {
          g := g.(kind := GroupKindNone);
        }
      } else if l.image.Some? && l.video.None? {
        var mainAsset;
        mainAsset, g := MakeAsset(dir, cat.matched[l.image.value], g);
      } else if l.video.Some? && l.image.None? {
        var mainAsset;
        mainAsset, g := MakeAsset(dir, cat.matched[l.video.value], g);
      }
    }

    /** The tracker loop over a sent group's assets: each asset's (base name, size) key is marked uploaded. */
    method MarkUploaded(g: OutGroup)
      modifies this`tracker
      ensures tracker == MarkKeys(old(tracker), AssetKeys(g.assets))
      ensures MarkedUploaded(old(tracker), AssetKeys(g.assets), tracker)
    {
      ghost var keys := AssetKeys(g.assets);
      for k := 0 to |g.assets|
        invariant tracker == MarkKeys(old(tracker), keys[..k])
      {
        var a := g.assets[k];
        var key := FileKey(Base(a.fileName), a.fileSize);
        TakeSnoc(keys, k);
        var track := Tracking(tracker, key);
        track := track.(status := Uploaded);
        tracker := tracker[key := track];
      }
      assert keys[..|g.assets|] == keys;
      MarkKeysMarks(old(tracker), keys);
    }

    /**
     * passTwo's first loop: the matched files in name order, without those
     * already uploaded, and an entry for each image among them.
     */
    method SkipUploaded(cat: DirCatalog) returns (kept: seq<string>, linked: map<string, Linked>)
      ensures StrictlySorted(kept)
      ensures forall n :: n in kept <==> n in cat.matched && NotSent(tracker, cat, n)
      ensures forall n :: n in linked <==> n in kept && IsImage(env, n)
      ensures forall n :: n in linked ==> linked[n] == Linked(Some(n), None)
    {
      var matchedFiles := SortedKeys(cat.matched.Keys);
      kept := [];
      linked := map[];
      for k := 0 to |matchedFiles|
        invariant StrictlySorted(kept)
        invariant forall n :: n in kept <==> n in matchedFiles[..k] && NotSent(tracker, cat, n)
        invariant forall n :: n in linked <==> n in kept && IsImage(env, n)
        invariant forall n :: n in linked ==> linked[n] == Linked(Some(n), None)
      {
        var name := matchedFiles[k];
        TakeSnoc(matchedFiles, k);
        var file := cat.matched[name];
        var key := FileKey(file.base, file.length);
        var track := Tracking(tracker, key);
        if track.status == Uploaded {
          continue;
        }
        SortedSnoc(kept, matchedFiles, k);
        kept := kept + [name];
        var ext := Ext(name);
        if env.typeFromExt(ext) == TypeImage {
          var l := LinkedAt(linked, name);
          l := l.(image := Some(name));
          linked := linked[name := l];
        }
      }
      TakeAll(matchedFiles);
    }

    /**
     * One step of passTwo's second loop: video `f` joins an image entry it
     * pairs with and that has no video yet (any of them: the source ranges
     * over a map), or gets an entry of its own; other files change nothing.
     * The videos scanned before `f` sort before it.
     */
    method LinkVideo(cat: DirCatalog, f: string, linked: map<string, Linked>, ghost names: set<string>, ghost videos: set<string>)
      returns (linked': map<string, Linked>)
      requires Linking(env, cat, names, videos, linked) && f in names && f !in videos
      requires forall v :: v in videos ==> Less(v, f)
      ensures !IsVideo(env, f) ==> linked' == linked
      ensures IsVideo(env, f) && (exists i :: FreePairing(cat, linked, i, f)) ==>
                exists i :: FreePairing(cat, linked, i, f) && linked' == linked[i := linked[i].(video := Some(f))]
      ensures IsVideo(env, f) && !(exists i :: FreePairing(cat, linked, i, f)) ==>
                linked' == linked[f := Linked(None, Some(f))]
      ensures Linking(env, cat, names, if IsVideo(env, f) then videos + {f} else videos, linked')
    {
      linked' := linked;
      var fExt := Ext(f);
      if env.typeFromExt(fExt) == TypeVideo {
        var name := TrimSuffix(f, fExt);
        if exists i :: i in linked && i in cat.matched && linked[i].image.Some? && linked[i].video.None?
                       && ImageStem(cat.matched[i].base, fExt) == Some(name) {
          var i :| i in linked && i in cat.matched && linked[i].image.Some? && linked[i].video.None?
                   && ImageStem(cat.matched[i].base, fExt) == Some(name);
          assert FreePairing(cat, linked, i, f);
          LinkingLink(env, cat, names, videos, linked, f, i);
          var l := linked[i];
          l := l.(video := Some(f));
          linked' := linked[i := l];
        } else {
          assert !exists i :: FreePairing(cat, linked, i, f);
          LinkingOwn(env, cat, names, videos, linked, f);
          var l := LinkedAt(linked, f);
          l := l.(video := Some(f));
          linked' := linked[f := l];
        }
      }
    }

    /** passTwo's second loop: every video still to be sent, in name order. */
    method LinkVideos(cat: DirCatalog, kept: seq<string>, linked0: map<string, Linked>) returns (linked: map<string, Linked>)
      requires StrictlySorted(kept)
      requires Linking(env, cat, (set n | n in kept), {}, linked0)
      ensures Linking(env, cat, (set n | n in kept), (set v | v in kept && IsVideo(env, v)), linked)
    {
      ghost var names := set n | n in kept;
      ghost var videos: set<string> := {};
      linked := linked0;
      for k := 0 to |kept|
        invariant Linking(env, cat, names, videos, linked)
        invariant videos == set v | v in kept[..k] && IsVideo(env, v)
      {
        var f := kept[k];
        SortedDistinct(kept, k);
        TakeSnoc(kept, k);
        linked := LinkVideo(cat, f, linked, names, videos);
        if IsVideo(env, f) {
          videos := videos + {f};
        }
      }
      TakeAll(kept);
    }

    /**
     * One turn of passTwo's last loop: the group of entry `base` is built;
     * a valid group has its assets marked uploaded and is sent, an invalid
     * one is dropped.
     */
    method SendEntry(dir: string, cat: DirCatalog, linked: map<string, Linked>, ghost done: set<string>, base: string)
      requires CatalogOk(cat) && Partitioned(cat, linked)
      requires Emitting(cat, linked, done, emitted, tracker) && base in linked && base !in done
      modifies this`tracker, this`emitted, this`refused
      ensures Sends() == EmitEntry(env, albums, dir, cat, linked[base], old(Sends()))
      ensures Emitting(cat, linked, done + {base}, emitted, tracker)
    {
      ghost var s0 := Sends();
      var l := linked[base];
      BuildStep(env, albums, dir, cat, linked, done, emitted, tracker, base);
      var g := BuildGroup(dir, cat, l);
      EmitEntryIs(env, albums, dir, cat, l, s0, g, tracker);
      if env.validate(g) {
        ghost var t1 := tracker;
        MarkUploaded(g);
        MarkStep(cat, linked, done + {base}, emitted, t1, base, g, tracker);
        emitted := emitted + [g];
      } else {
        refused := refused + [g];
      }
    }

    /** passTwo's last loop: the entries in name order, each sent or dropped in turn. */
    method EmitLinked(dir: string, cat: DirCatalog, linked: map<string, Linked>)
      requires CatalogOk(cat) && Partitioned(cat, linked)
      requires Emitting(cat, linked, {}, emitted, tracker)
      modifies this`tracker, this`emitted, this`refused
      ensures Sends() == EmitSpec(env, albums, dir, cat, linked, Sorted(linked.Keys), old(Sends()))
      ensures EmittedOnce(emitted, tracker)
    {
      var bases := SortedKeys(linked.Keys);
      ghost var done: set<string> := {};
      for k := 0 to |bases|
        invariant Emitting(cat, linked, done, emitted, tracker)
        invariant forall b :: b in done <==> b in bases[..k]
        invariant Sends() == EmitSpec(env, albums, dir, cat, linked, bases[..k], old(Sends()))
      {
        var base := bases[k];
        SortedDistinct(bases, k);
        TakeSnoc(bases, k);
        EmitSpecSnoc(env, albums, dir, cat, linked, bases, k, old(Sends()));
        SendEntry(dir, cat, linked, done, base);
        done := done + {base};
      }
      TakeAll(bases);
    }

    /** passTwo for one directory: skip what is already uploaded, link motion photos, send the groups. */
    method PassTwo(dir: string)
      requires dir in catalogs && CatalogOk(catalogs[dir])
      requires EmittedOnce(emitted, tracker)
      modifies this`tracker, this`emitted, this`refused
      ensures PassTwoSent(env, albums, dir, catalogs[dir], old(Sends()), Sends())
      ensures EmittedOnce(emitted, tracker)
    {
      var catalog := catalogs[dir];
      var matchedFiles, linkedFiles := SkipUploaded(catalog);
      ghost var names := set n | n in matchedFiles;
      LinkingStart(env, catalog, names, linkedFiles);
      linkedFiles := LinkVideos(catalog, matchedFiles, linkedFiles);
      PassTwoReady(env, catalog, tracker, matchedFiles, linkedFiles, emitted);
      EmitLinked(dir, catalog, linkedFiles);
      PassTwoSentIntro(env, albums, dir, catalog, linkedFiles, old(Sends()), Sends());
    }

    /** nextPass: passTwo for every directory with matched files, in name order. */
    method NextPass()
      requires forall d :: d in catalogs ==> CatalogOk(catalogs[d])
      requires EmittedOnce(emitted, tracker)
      modifies this`tracker, this`emitted, this`refused
      ensures NextPassSent(env, albums, catalogs, Sorted(catalogs.Keys), old(Sends()), Sends())
      ensures Keeps(old(Sends()), Sends())
      ensures forall d :: d in catalogs ==> DirAccounted(env, catalogs[d], Sends())
      ensures EmittedOnce(emitted, tracker)
    {
      var dirs := SortedKeys(catalogs.Keys);
      for k := 0 to |dirs|
        invariant NextPassSent(env, albums, catalogs, dirs[..k], old(Sends()), Sends())
        invariant Keeps(old(Sends()), Sends())
        invariant forall d :: d in dirs[..k] ==> DirAccounted(env, catalogs[d], Sends())
        invariant EmittedOnce(emitted, tracker)
      {
        var dir := dirs[k];
        TakeSnoc(dirs, k);
        ghost var s0 := Sends();
        if |catalogs[dir].matched| > 0 {
          PassTwo(dir);
          PassTwoAccounts(env, albums, dir, catalogs[dir], s0, Sends());
          forall d | d in dirs[..k] ensures DirAccounted(env, catalogs[d], Sends()) {
            DirAccountedKeeps(env, catalogs[d], s0, Sends());
          }
          KeepsTransitive(old(Sends()), s0, Sends());
        } else {
          assert DirAccounted(env, catalogs[dir], Sends());
        }
      }
      TakeAll(dirs);
    }

    /**
     * Browse: pass one over each part of the archive, stopping at the
     * first error; then solvePuzzle and nextPass. Every (base name, size)
     * identity is sent at most once, whichever directories hold copies.
     */
    method Browse(parts: seq<seq<Entry>>) returns (ok: bool)
      requires forall p, i :: 0 <= p < |parts| && 0 <= i < |parts[p]| ==> WalkedFile(parts[p][i])
      requires WalkedOk(catalogs) && EmittedOnce(emitted, tracker)
      modifies this
      ensures ok <==> WalkParts(env, old(State()), parts).Continue?
      ensures !ok ==> emitted == old(emitted)
      ensures ok ==> var w := WalkParts(env, old(State()), parts).state;
                     && albums == w.albums
                     && catalogs == (map d | d in w.catalogs :: SolveDir(env, w.catalogs[d]))
                     && NextPassSent(env, albums, catalogs, Sorted(catalogs.Keys), Sent(old(emitted), old(refused), w.tracker), Sends())
      ensures ok ==> forall d :: d in catalogs ==> DirAccounted(env, catalogs[d], Sends())
      ensures EmittedOnce(emitted, tracker)
    {
      ghost var start := State();
      for p := 0 to |parts|
        invariant WalkParts(env, start, parts[..p]) == Continue(State())
        invariant WalkedOk(catalogs) && EmittedOnce(emitted, tracker) && emitted == old(emitted) && refused == old(refused)
      {
        ghost var t0 := tracker;
        TakeTake(parts, p);
        var walked := PassOne(parts[p]);
        if !walked {
          PartsStopSticks(env, start, parts, p + 1);
          return false;
        }
        StatusKeepsOnce(emitted, t0, tracker);
      }
      TakeAll(parts);
      ghost var w := State();
      assert WalkParts(env, start, parts) == Continue(w);
      SolvePuzzle();
      assert albums == w.albums && old(Sends()) == Sends().(tracker := old(tracker));
      NextPass();
      ok := true;
    }
  }

  /** The catalogs once the directories of `done` are solved and the others untouched. */
  ghost predicate SolvedDirs(env: Env, start: map<string, DirCatalog>, done: set<string>, catalogs: map<string, DirCatalog>) {
    && (forall d :: d in start ==> CatalogOk(start[d]))
    && done <= start.Keys
    && catalogs.Keys == start.Keys
    && (forall d :: d in start ==> catalogs[d] == if d in done then SolveDir(env, start[d]) else start[d])
  }

  lemma SolvedDirsStep(env: Env, start: map<string, DirCatalog>, done: set<string>, catalogs: map<string, DirCatalog>,
                       dir: string, cat: DirCatalog)
    requires SolvedDirs(env, start, done, catalogs) && dir in start && dir !in done
    requires cat == SolveDir(env, catalogs[dir])
    ensures SolvedDirs(env, start, done + {dir}, catalogs[dir := cat])
  {
  }

  lemma SolvedDirsDone(env: Env, start: map<string, DirCatalog>, done: set<string>, catalogs: map<string, DirCatalog>)
    requires SolvedDirs(env, start, done, catalogs) && done == start.Keys
    ensures catalogs == map d | d in start :: SolveDir(env, start[d])
    ensures forall d :: d in catalogs ==> CatalogOk(catalogs[d])
  {
    forall d | d in catalogs ensures CatalogOk(catalogs[d]) {
      SolveDirKeepsCatalogOk(env, start[d]);
    }
  }

  /** Once the walk has stopped, it stays stopped. */
  lemma StopStep(env: Env, s: Walked, es: seq<Entry>)
    requires es != [] && WalkAll(env, s, es[..|es| - 1]) == Stop
    ensures WalkAll(env, s, es) == Stop
  {
  }

  lemma {:induction false} StopSticks(env: Env, s: Walked, es: seq<Entry>, n: nat)
    requires n <= |es| && WalkAll(env, s, es[..n]) == Stop
    ensures WalkAll(env, s, es) == Stop
    decreases |es| - n
  {
    if n < |es| {
      TakeTake(es, n);
      StopStep(env, s, es[..n + 1]);
      StopSticks(env, s, es, n + 1);
    } else {
      assert es[..n] == es;
    }
  }

  /** Once a part's walk has failed, the walk over all parts has failed. */
  lemma {:induction false} PartsStopSticks(env: Env, s: Walked, parts: seq<seq<Entry>>, n: nat)
    requires n <= |parts| && WalkParts(env, s, parts[..n]) == Stop
    ensures WalkParts(env, s, parts) == Stop
    decreases |parts| - n
  {
    if n < |parts| {
      TakeTake(parts, n);
      assert WalkParts(env, s, parts[..n + 1]) == Stop;
      PartsStopSticks(env, s, parts, n + 1);
    } else {
      assert parts[..n] == parts;
    }
  }

  /** Inserting the next element of a sorted list after earlier ones keeps a list sorted. */
  lemma SortedSnoc(kept: seq<string>, s: seq<string>, k: int)
    requires StrictlySorted(s) && StrictlySorted(kept) && 0 <= k < |s|
    requires forall n :: n in kept ==> n in s[..k]
    ensures StrictlySorted(kept + [s[k]])
  {
    forall j | 0 <= j < |kept|
      ensures Less(kept[j], s[k])
    {
      assert kept[j] in s[..k];
      var p :| 0 <= p < k && s[..k][p] == kept[j];
      assert s[p] == kept[j];
    }
  }

  /** Status changes are all that matter to what was sent; pass one makes none. */
  lemma StatusKeepsOnce(gs: seq<OutGroup>, t0: map<FileKey, TrackingInfo>, t1: map<FileKey, TrackingInfo>)
    requires EmittedOnce(gs, t0)
    requires forall k :: Tracking(t1, k).status == Tracking(t0, k).status
    ensures EmittedOnce(gs, t1)
  {
  }
}
