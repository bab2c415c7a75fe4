/**
 * Pass one of the takeout adapter (passOneFsWalk): the effect of one
 * walked entry on the directory catalogs, the albums and the file tracker.
 */
module PassOne {
  import opened Wrappers
  import opened GoStrings
  import opened Media
  import opened TakeoutTypes
  import opened Policy
  import opened Puzzle

  /** The state pass one builds. */
  datatype Walked = Walked(
    catalogs: map<string, DirCatalog>,
    albums: map<string, LocalAlbum>,
    tracker: map<FileKey, TrackingInfo>)

  /** What a walk step does: carry on with a new state, or stop the walk with an error. */
  datatype StepResult = Continue(state: Walked) | Stop

  /** The directory of a walked path, without its trailing slash. */
  function DirOf(name: string): string {
    TrimSuffix(Split(name).0, "/")
  }

  /** The base name of a walked path. */
  function BaseOf(name: string): string {
    Split(name).1
  }

  /** The lower-cased extension of a walked path. */
  function ExtOf(name: string): string {
    ToLower(Ext(BaseOf(name)))
  }

  /** fs.WalkDir yields files under non-empty paths that do not end with a slash. */
  predicate WalkedFile(e: Entry) {
    e.isDir || (e.name != [] && e.name[|e.name| - 1] != '/')
  }

  /** to.catalogs[dir], with fresh empty maps for a directory seen for the first time. */
  function CatalogAt(catalogs: map<string, DirCatalog>, dir: string): DirCatalog {
    if dir in catalogs then catalogs[dir] else EmptyCatalog
  }

  /** to.albums[dir], with the zero album for a directory that has none yet. */
  function AlbumAt(albums: map<string, LocalAlbum>, dir: string): LocalAlbum {
    if dir in albums then albums[dir] else NoAlbum
  }

  /**
   * The album an album sidecar records for its directory: its title, or
   * the directory's name when untitled; the directory's name as path; and
   * the enrichment's text and location when there is one.
   */
  function AlbumFromSidecar(prev: LocalAlbum, dir: string, title: string, enrichment: Option<Enrichment>): LocalAlbum {
    var a := prev.(title := if title == "" then Base(dir) else title, path := Base(dir));
    match enrichment
    case Some(e) => a.(description := e.text, latitude := e.latitude, longitude := e.longitude)
    case None => a
  }

  /** One more copy of the file under `key`, found in `dir`. */
  function Track(tracker: map<FileKey, TrackingInfo>, key: FileKey, dir: string): map<FileKey, TrackingInfo> {
    var t := Tracking(tracker, key);
    tracker[key := t.(paths := t.paths + [dir], count := t.count + 1)]
  }

  /** An asset or album sidecar of directory `dir`. */
  function SidecarStep(env: Env, s: Walked, dir: string, base: string, sidecar: Sidecar): Walked {
    var cat := CatalogAt(s.catalogs, dir);
    match sidecar
    case AssetSidecar(md) => s.(catalogs := s.catalogs[dir := cat.(jsons := cat.jsons[base := md])])
    case AlbumSidecar(title, enrichment) =>
      if !env.keepUntitled && title == "" then s
      else
        var album := AlbumFromSidecar(AlbumAt(s.albums, dir), dir, title, enrichment);
        s.(albums := s.albums[dir := album], catalogs := s.catalogs[dir := cat])
    case _ => s
  }

  /** An accepted media file of directory `dir`: tracked, and filed as unmatched unless its base name is taken. */
  function MediaStep(s: Walked, dir: string, file: AssetFile): Walked {
    var cat := CatalogAt(s.catalogs, dir);
    var tracker := Track(s.tracker, KeyOf(file), dir);
    if file.base in cat.unmatched then s.(tracker := tracker)
    else Walked(s.catalogs[dir := cat.(unmatched := cat.unmatched[file.base := file])], s.albums, tracker)
  }

  /** The effect of one walked entry (adapters/googlePhotos/googlephotos.go:115-234). */
  function PassOneStep(env: Env, s: Walked, e: Entry): StepResult {
    if e.isDir then Continue(s)
    else if e.info.None? then Stop
    else if ExtOf(e.name) == ".json" then Continue(SidecarStep(env, s, DirOf(e.name), BaseOf(e.name), e.sidecar))
    else if !MediaVerdict(env, e.name, ExtOf(e.name)).Accepted? then Continue(s)
    else
      var info := e.info.value;
      Continue(MediaStep(s, DirOf(e.name), AssetFile(e.fsys, BaseOf(e.name), info.size, info.modTime, None)))
  }

  /** A media file that fails one of the checks changes nothing. */
  lemma DiscardedChangesNothing(env: Env, s: Walked, e: Entry)
    requires !e.isDir && e.info.Some? && ExtOf(e.name) != ".json"
    requires !MediaVerdict(env, e.name, ExtOf(e.name)).Accepted?
    ensures PassOneStep(env, s, e) == Continue(s)
  {
  }

  /**
   * An accepted media file is counted under its (base name, size) key
   * with its directory appended, even when it duplicates a file of the
   * same directory; only the first file of a base name in a directory is
   * filed as unmatched, and it is never replaced. Nothing else changes.
   */
  lemma MediaStepTracks(s: Walked, dir: string, file: AssetFile)
    ensures var r := MediaStep(s, dir, file);
            var key := KeyOf(file);
            var before := CatalogAt(s.catalogs, dir);
            Tracking(r.tracker, key).paths == Tracking(s.tracker, key).paths + [dir]
            && Tracking(r.tracker, key).count == Tracking(s.tracker, key).count + 1
            && (forall k :: k != key ==> Tracking(r.tracker, k) == Tracking(s.tracker, k))
            && dir in r.catalogs && file.base in r.catalogs[dir].unmatched
            && r.catalogs[dir].unmatched[file.base]
               == (if file.base in before.unmatched then before.unmatched[file.base] else file)
            && (forall n :: n in before.unmatched ==> r.catalogs[dir].unmatched[n] == before.unmatched[n])
            && r.catalogs[dir].jsons == before.jsons && r.catalogs[dir].matched == before.matched
            && (forall d :: d != dir ==> (d in r.catalogs <==> d in s.catalogs))
            && (forall d :: d != dir && d in s.catalogs ==> r.catalogs[d] == s.catalogs[d])
            && r.albums == s.albums
  {
    if file.base in CatalogAt(s.catalogs, dir).unmatched {
      assert dir in s.catalogs;
    }
  }

  /** A base name of a walked file is a non-empty single path element. */
  lemma BaseOfWalked(e: Entry)
    requires !e.isDir && WalkedFile(e)
    ensures BaseOf(e.name) != [] && '/' !in BaseOf(e.name)
  {
    var i := LastIndexOf(e.name, '/');
    assert i != |e.name| - 1;
  }

  /** Pass one files each media file under its own base name, and never matches anything. */
  predicate WalkedOk(catalogs: map<string, DirCatalog>) {
    forall d :: d in catalogs ==> CatalogOk(catalogs[d]) && catalogs[d].matched == map[]
  }

  lemma SidecarStepKeepsWalkedOk(env: Env, s: Walked, dir: string, base: string, sidecar: Sidecar)
    requires WalkedOk(s.catalogs)
    ensures WalkedOk(SidecarStep(env, s, dir, base, sidecar).catalogs)
  {
    var cat := CatalogAt(s.catalogs, dir);
    assert CatalogOk(cat) && cat.matched == map[];
  }

  lemma MediaStepKeepsWalkedOk(s: Walked, dir: string, file: AssetFile)
    requires WalkedOk(s.catalogs) && FileOk(file.base, file)
    ensures WalkedOk(MediaStep(s, dir, file).catalogs)
  {
    var cat := CatalogAt(s.catalogs, dir);
    assert CatalogOk(cat) && cat.matched == map[];
  }

  /** Every walk step keeps the catalogs as pass one builds them. */
  lemma StepKeepsWalkedOk(env: Env, s: Walked, e: Entry)
    requires WalkedOk(s.catalogs) && WalkedFile(e)
    ensures PassOneStep(env, s, e).Continue? ==> WalkedOk(PassOneStep(env, s, e).state.catalogs)
  {
    if !e.isDir && e.info.Some? {
      var dir, base := DirOf(e.name), BaseOf(e.name);
      if ExtOf(e.name) == ".json" {
        assert PassOneStep(env, s, e) == Continue(SidecarStep(env, s, dir, base, e.sidecar));
        SidecarStepKeepsWalkedOk(env, s, dir, base, e.sidecar);
      } else if MediaVerdict(env, e.name, ExtOf(e.name)).Accepted? {
        var info := e.info.value;
        var file := AssetFile(e.fsys, base, info.size, info.modTime, None);
        assert PassOneStep(env, s, e) == Continue(MediaStep(s, dir, file));
        BaseOfWalked(e);
        MediaStepKeepsWalkedOk(s, dir, file);
      }
    }
  }

  lemma SidecarStepKeepsTracker(env: Env, s: Walked, dir: string, base: string, sidecar: Sidecar)
    ensures SidecarStep(env, s, dir, base, sidecar).tracker == s.tracker
  {
  }

  lemma MediaStepKeepsStatus(s: Walked, dir: string, file: AssetFile, k: FileKey)
    ensures Tracking(MediaStep(s, dir, file).tracker, k).status == Tracking(s.tracker, k).status
  {
    assert MediaStep(s, dir, file).tracker == Track(s.tracker, KeyOf(file), dir);
  }

  /** Pass one never changes a tracker status: it only counts copies and records their directories. */
  lemma StepKeepsStatus(env: Env, s: Walked, e: Entry, k: FileKey)
    requires PassOneStep(env, s, e).Continue?
    ensures Tracking(PassOneStep(env, s, e).state.tracker, k).status == Tracking(s.tracker, k).status
  {
    if !e.isDir && e.info.Some? {
      if ExtOf(e.name) == ".json" {
        SidecarStepKeepsTracker(env, s, DirOf(e.name), BaseOf(e.name), e.sidecar);
      } else if MediaVerdict(env, e.name, ExtOf(e.name)).Accepted? {
        var info := e.info.value;
        MediaStepKeepsStatus(s, DirOf(e.name), AssetFile(e.fsys, BaseOf(e.name), info.size, info.modTime, None), k);
      }
    }
  }
}
