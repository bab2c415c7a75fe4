/**
 * The decision rules of the takeout adapter that are pure computations:
 * which walked files are kept, which metadata survives the keep/drop
 * flags, how a title is reconciled with the file's extension, the order
 * of tracker keys, the albums an asset joins, where a motion photo's
 * video is found, and the asset makeAsset builds.
 */
module Policy {
  import opened Wrappers
  import opened GoStrings
  import opened Media
  import opened TakeoutTypes

  // ---------------------------------------------------------------------
  // Pass one: which media files are kept
  // ---------------------------------------------------------------------

  /** Why pass one discards a non-JSON file, or the media type it keeps it as. */
  datatype Verdict = BannedFile | ExtNotSelected | ExtNotAllowed | Unsupported | FailedVideo | Accepted(mediaType: MediaType)

  /** The substring that marks videos Google Photos failed to process. */
  const FailedVideos := "Failed Videos"

  /**
   * A file is kept exactly when it passes all five checks; otherwise the
   * reason reported is the first check that fails, in the order banned
   * name, extension not included, extension excluded, unknown media type,
   * failed video.
   */
  function MediaVerdict(env: Env, name: string, ext: string): (v: Verdict)
    ensures v.Accepted? <==>
              !env.banned(name) && env.included(ext) && !env.excluded(ext)
              && env.typeFromExt(ext) != TypeUnknown
              && !(env.typeFromExt(ext) == TypeVideo && Contains(name, FailedVideos))
    ensures v.Accepted? ==> v.mediaType == env.typeFromExt(ext)
    ensures v == BannedFile <==> env.banned(name)
    ensures v == ExtNotSelected <==> !env.banned(name) && !env.included(ext)
    ensures v == ExtNotAllowed <==> !env.banned(name) && env.included(ext) && env.excluded(ext)
    ensures v == Unsupported ==> env.typeFromExt(ext) == TypeUnknown
    ensures v == FailedVideo ==> env.typeFromExt(ext) == TypeVideo && Contains(name, FailedVideos)
  {
    if env.banned(name) then BannedFile
    else if !env.included(ext) then ExtNotSelected
    else if env.excluded(ext) then ExtNotAllowed
    else
      var t := env.typeFromExt(ext);
      if t == TypeUnknown then Unsupported
      else if t == TypeVideo && Contains(name, FailedVideos) then FailedVideo
      else Accepted(t)
  }

  // ---------------------------------------------------------------------
  // filterOnMetadata
  // ---------------------------------------------------------------------

  /** The outcome of filterOnMetadata: the metadata to use, or the code the file is dropped with. */
  datatype Filtered = Keep(md: Option<Metadata>) | Drop(code: Code)

  /** The archived, partner and trashed flags let a sidecar's file through. */
  predicate AllowedByFlags(env: Env, m: Metadata) {
    (env.keepArchived || !m.archived) && (env.keepPartner || !m.fromPartner) && (env.keepTrashed || !m.trashed)
  }

  /** The date-range flag lets a capture date through. */
  predicate InDateRange(env: Env, m: Metadata) {
    !env.dateRangeSet || env.inRange(m.dateTaken)
  }

  /**
   * `md` is the sidecar's metadata; `read` is what reading the file's own
   * metadata gives (None for an error), consulted only without a sidecar.
   * The file is kept exactly when there is metadata to use, the sidecar's
   * flags allow it and its date is in range; a file is dropped as an
   * error exactly when it has no sidecar and reading fails, and as
   * discarded otherwise.
   */
  function FilterOnMetadata(env: Env, md: Option<Metadata>, read: Option<Metadata>): (r: Filtered)
    ensures var m := if md.Some? then md else read;
            (r.Keep? <==> m.Some? && (md.Some? ==> AllowedByFlags(env, md.value)) && InDateRange(env, m.value))
            && (r.Keep? ==> r.md == m)
            && (r.Drop? ==> r.code == if m.None? then Failed else Discarded)
  {
    if md.Some? && !env.keepArchived && md.value.archived then Drop(Discarded)
    else if md.Some? && !env.keepPartner && md.value.fromPartner then Drop(Discarded)
    else if md.Some? && !env.keepTrashed && md.value.trashed then Drop(Discarded)
    else
      var m := if md.Some? then md else read;
      if m.None? then Drop(Failed)
      else if env.dateRangeSet && !env.inRange(m.value.dateTaken) then Drop(Discarded)
      else Keep(m)
  }

  // ---------------------------------------------------------------------
  // Title reconciliation
  // ---------------------------------------------------------------------

  /**
   * The title taken from a sidecar's file name, made to end with the
   * extension of the file on disk: unchanged when the extensions agree;
   * otherwise one extension is dropped and, if that does not expose the
   * file's extension, a second one is replaced by it.
   */
  function ReconcileTitle(title: string, file: string): string {
    var fileExt := Ext(file);
    var titleExt := Ext(title);
    if titleExt == fileExt then title
    else
      var t1 := TrimSuffix(title, titleExt);
      if Ext(t1) == fileExt then t1
      else TrimSuffix(t1, Ext(t1)) + fileExt
  }

  /**
   * The reconciled title is the sidecar's when the extensions agree;
   * otherwise it ends with the file's extension and what precedes that
   * extension is a prefix of the sidecar's title. A file with an
   * extension always gets a title with that extension.
   */
  lemma ReconcileTitleSound(title: string, file: string)
    ensures Ext(title) == Ext(file) ==> ReconcileTitle(title, file) == title
    ensures var r := ReconcileTitle(title, file);
            Ext(title) != Ext(file) ==>
              HasSuffix(r, Ext(file)) && HasPrefix(title, r[..|r| - |Ext(file)|])
    ensures Ext(file) != [] ==> Ext(ReconcileTitle(title, file)) == Ext(file)
  {
    var fileExt := Ext(file);
    var titleExt := Ext(title);
    if titleExt != fileExt {
      var t1 := TrimSuffix(title, titleExt);
      TrimmedIsPrefix(title, titleExt);
      if Ext(t1) == fileExt {
        PrefixBeforeSuffix(title, t1, fileExt);
      } else {
        var t2 := TrimSuffix(t1, Ext(t1));
        TrimmedIsPrefix(t1, Ext(t1));
        PrefixBeforeSuffix(title, t1, t1[|t2|..]);
        assert ReconcileTitle(title, file) == t2 + fileExt;
        assert (t2 + fileExt)[..|t2|] == t2;
        if fileExt != [] {
          assert ProperExt(fileExt);
          ExtOfSuffix(t2, fileExt);
        }
      }
    }
  }

  lemma TrimmedIsPrefix(s: string, suffix: string)
    ensures HasPrefix(s, TrimSuffix(s, suffix))
  {
  }

  /** Cutting a suffix off a prefix of `s` leaves a prefix of `s`. */
  lemma PrefixBeforeSuffix(s: string, t: string, e: string)
    requires HasPrefix(s, t) && HasSuffix(t, e)
    ensures HasPrefix(s, t[..|t| - |e|])
  {
    assert t[..|t| - |e|] == s[..|t| - |e|];
  }

  // ---------------------------------------------------------------------
  // trackerKeySortFunc
  // ---------------------------------------------------------------------

  const Two63: int := 0x8000_0000_0000_0000
  const Two64: int := 0x1_0000_0000_0000_0000

  /** Two's complement wrap-around of a 64-bit int. */
  function Wrap64(x: int): (r: int)
    ensures -Two63 <= r < Two63
    ensures -Two63 <= x < Two63 ==> r == x
  {
    var m := x % Two64;
    if m >= Two63 then m - Two64 else m
  }

  /** trackerKeySortFunc: by base name, then by size, the difference computed in 64 bits. */
  function TrackerKeyCompare(a: FileKey, b: FileKey): int {
    var c := Compare(a.baseName, b.baseName);
    if c != 0 then c else Wrap64(a.size as int - b.size as int)
  }

  /** Name first, then size. */
  predicate KeyLess(a: FileKey, b: FileKey) {
    Less(a.baseName, b.baseName) || (a.baseName == b.baseName && a.size < b.size)
  }

  /**
   * For file sizes, which are never negative, the subtraction cannot wrap,
   * so trackerKeySortFunc orders keys by name and then size: negative
   * exactly for the smaller key, zero exactly for equal keys, and
   * antisymmetric.
   */
  lemma TrackerKeyCompareOrders(a: FileKey, b: FileKey)
    requires a.size >= 0 && b.size >= 0
    ensures TrackerKeyCompare(a, b) < 0 <==> KeyLess(a, b)
    ensures TrackerKeyCompare(a, b) == 0 <==> a == b
    ensures TrackerKeyCompare(a, b) < 0 <==> TrackerKeyCompare(b, a) > 0
  {
    CompareAntisymmetric(a.baseName, b.baseName);
  }

  // ---------------------------------------------------------------------
  // Albums and the GPS fallback
  // ---------------------------------------------------------------------

  /**
   * The album a directory on an asset's tracker path contributes: none
   * for a directory that is not an album, none for an untitled album
   * unless untitled albums are kept, in which case it is named after its
   * path.
   */
  function AlbumFor(env: Env, albums: map<string, LocalAlbum>, p: string): (r: Option<LocalAlbum>)
    ensures r.Some? <==> p in albums && (albums[p].title != "" || env.keepUntitled)
    ensures r.Some? ==>
              r.value.title != "" && r.value.path == p
              && r.value.description == albums[p].description
              && r.value.latitude == albums[p].latitude && r.value.longitude == albums[p].longitude
              && (albums[p].title != "" ==> r.value.title == albums[p].title)
  {
    if p !in albums then None
    else
      var album := albums[p];
      if album.title == "" && !env.keepUntitled then None
      else
        var title := if album.title == "" then Base(album.path) else album.title;
        Some(LocalAlbum(title, p, album.description, album.latitude, album.longitude))
  }

  /** The albums of every directory on the path list, added to the group's albums in path order. */
  function AddAlbums(env: Env, albums: map<string, LocalAlbum>, acc: seq<LocalAlbum>, paths: seq<string>): seq<LocalAlbum>
    decreases |paths|
  {
    if paths == [] then acc
    else
      var before := AddAlbums(env, albums, acc, paths[..|paths| - 1]);
      match AlbumFor(env, albums, paths[|paths| - 1])
      case Some(album) => env.addAlbum(before, album)
      case None => before
  }

  /** An album with a location. */
  predicate Located(album: LocalAlbum) {
    album.latitude != 0.0 || album.longitude != 0.0
  }

  /** The first album with a location, if any. */
  function FirstLocated(albums: seq<LocalAlbum>): (r: Option<nat>)
    ensures r.Some? ==> r.value < |albums| && Located(albums[r.value])
                        && forall j :: 0 <= j < r.value ==> !Located(albums[j])
    ensures r.None? ==> forall j :: 0 <= j < |albums| ==> !Located(albums[j])
  {
    if albums == [] then None
    else if Located(albums[0]) then Some(0)
    else
      match FirstLocated(albums[1..])
      case Some(i) => assert albums[1..][i] == albums[i + 1]; Some(i + 1)
      case None => assert forall j :: 1 <= j < |albums| ==> albums[j] == albums[1..][j - 1]; None
  }

  /** The albums a group holds once makeAsset has added the asset's albums. */
  function GroupAlbums(env: Env, albums: map<string, LocalAlbum>, paths: seq<string>, md: Option<Metadata>,
                       acc: seq<LocalAlbum>): seq<LocalAlbum>
  {
    if !env.createAlbums then acc
    else
      var forced := if env.importIntoAlbum != "" then env.addAlbum(acc, TitledAlbum(env.importIntoAlbum))
                    else AddAlbums(env, albums, acc, paths);
      if env.partnerSharedAlbum != "" && md.Some? && md.value.fromPartner
      then env.addAlbum(forced, TitledAlbum(env.partnerSharedAlbum))
      else forced
  }

  /** The asset's flags and location taken from its metadata, the location falling back to the first located album. */
  function ApplyMetadata(a: LocalAsset, md: Option<Metadata>, albums: seq<LocalAlbum>): (r: LocalAsset)
    ensures md.None? ==> r == a
    ensures md.Some? ==>
              r.captureDate == md.value.dateTaken && r.archived == md.value.archived
              && r.favorite == md.value.favorited && r.trashed == md.value.trashed
    ensures md.Some? && (md.value.latitude != 0.0 || md.value.longitude != 0.0) ==>
              r.latitude == md.value.latitude && r.longitude == md.value.longitude
    ensures md.Some? && md.value.latitude == 0.0 && md.value.longitude == 0.0 ==>
              match FirstLocated(albums)
              case Some(i) => r.latitude == albums[i].latitude && r.longitude == albums[i].longitude
              case None => r.latitude == 0.0 && r.longitude == 0.0
    ensures r.fileName == a.fileName && r.fileSize == a.fileSize && r.title == a.title
  {
    if md.None? then a
    else
      var m := md.value;
      var loc := if m.latitude == 0.0 && m.longitude == 0.0 then
                   match FirstLocated(albums)
                   case Some(i) => (albums[i].latitude, albums[i].longitude)
                   case None => (m.latitude, m.longitude)
                 else (m.latitude, m.longitude);
      a.(captureDate := m.dateTaken, archived := m.archived, favorite := m.favorited, trashed := m.trashed,
         latitude := loc.0, longitude := loc.1)
  }

  // ---------------------------------------------------------------------
  // makeAsset
  // ---------------------------------------------------------------------

  /** The outcome of makeAsset: the asset (None for nil), the group after it, and the tracker entry it writes back. */
  datatype Made = Made(asset: Option<LocalAsset>, group: OutGroup, track: TrackingInfo)

  /** The asset makeAsset starts from, titled after the file. */
  function BareAsset(dir: string, f: AssetFile): LocalAsset {
    LocalAsset(Join(dir, f.base), f.length, f.base, f.fsys, f.date, 0, false, false, false, 0.0, 0.0)
  }

  /** The title: the reconciled sidecar file name when there is one, the base name otherwise. */
  function TitleFor(md: Option<Metadata>, file: string, base: string): string {
    if md.Some? && md.value.fileName != "" then ReconcileTitle(md.value.fileName, file) else base
  }

  /** The import-from-album flag keeps only the files of the directory of that album. */
  predicate InImportAlbum(env: Env, albums: map<string, LocalAlbum>, dir: string) {
    env.importFromAlbum == "" || (dir in albums && albums[dir].title == env.importFromAlbum)
  }

  /** The tracker key of an emitted asset, as passTwo computes it. */
  function AssetKey(a: LocalAsset): FileKey {
    FileKey(Base(a.fileName), a.fileSize)
  }

  /**
   * makeAsset for file `f` of directory `dir`, adding to group `g`. The
   * tracker entry written back carries the file's own metadata and, when
   * the file is dropped, the code it is dropped with.
   */
  function MakeAssetSpec(env: Env, albums: map<string, LocalAlbum>, tracker: map<FileKey, TrackingInfo>,
                         dir: string, f: AssetFile, g: OutGroup): Made
  {
    var track := Tracking(tracker, KeyOf(f)).(metadata := f.md);
    var a := BareAsset(dir, f);
    match FilterOnMetadata(env, f.md, env.readMetadata(a))
    case Drop(code) => Made(None, g, track.(status := code))
    case Keep(md) =>
      if !InImportAlbum(env, albums, dir) then Made(None, g, track.(status := Discarded))
      else
        var gAlbums := GroupAlbums(env, albums, Tracking(tracker, KeyOf(f)).paths, md, g.albums);
        var made := ApplyMetadata(a.(title := TitleFor(md, a.fileName, f.base)), md, gAlbums);
        Made(Some(made), g.(albums := gAlbums, assets := g.assets + [made]), track)
  }

  /**
   * makeAsset either adds one asset to the group and leaves the tracker
   * status alone, or adds nothing and records why the file was dropped;
   * either way the tracker entry keeps its paths and count and carries the
   * file's metadata. An added asset is found again under the file's key,
   * and its title is the base name or ends with the file's extension.
   */
  lemma MakeAssetSound(env: Env, albums: map<string, LocalAlbum>, tracker: map<FileKey, TrackingInfo>,
                       dir: string, f: AssetFile, g: OutGroup)
    requires f.base != [] && '/' !in f.base
    ensures var r := MakeAssetSpec(env, albums, tracker, dir, f, g);
            var old_ := Tracking(tracker, KeyOf(f));
            r.track.paths == old_.paths && r.track.count == old_.count && r.track.metadata == f.md
            && (r.asset.Some? ==>
                  r.group.assets == g.assets + [r.asset.value] && r.group.kind == g.kind
                  && r.track.status == old_.status
                  && AssetKey(r.asset.value) == KeyOf(f)
                  && (r.asset.value.title == f.base || Ext(r.asset.value.title) == Ext(r.asset.value.fileName)
                      || Ext(r.asset.value.fileName) == []))
            && (r.asset.None? ==> r.group == g && (r.track.status == Discarded || r.track.status == Failed))
  {
    BaseOfJoin(dir, f.base);
    var a := BareAsset(dir, f);
    var filtered := FilterOnMetadata(env, f.md, env.readMetadata(a));
    if filtered.Keep? && InImportAlbum(env, albums, dir) {
      TitleForSound(filtered.md, a.fileName, f.base);
    }
  }

  /** The title is the base name, or ends with the file's extension, or the file has none. */
  lemma TitleForSound(md: Option<Metadata>, file: string, base: string)
    ensures var t := TitleFor(md, file, base);
            t == base || Ext(t) == Ext(file) || Ext(file) == []
  {
    if md.Some? && md.value.fileName != "" {
      ReconcileTitleSound(md.value.fileName, file);
    }
  }

  /**
   * makeAsset keeps a file exactly when filterOnMetadata keeps it and the
   * import-from-album flag does not exclude its directory.
   */
  lemma MakeAssetKeeps(env: Env, albums: map<string, LocalAlbum>, tracker: map<FileKey, TrackingInfo>,
                       dir: string, f: AssetFile, g: OutGroup)
    ensures MakeAssetSpec(env, albums, tracker, dir, f, g).asset.Some? <==>
              FilterOnMetadata(env, f.md, env.readMetadata(BareAsset(dir, f))).Keep?
              && InImportAlbum(env, albums, dir)
  {
  }

  // ---------------------------------------------------------------------
  // Motion photos
  // ---------------------------------------------------------------------

  /** A .MP motion-photo marker, or a numbered .MP~ one, in any letter case. */
  predicate IsMarker(ext: string) {
    ToUpper(ext) == ".MP" || HasPrefix(ToUpper(ext), ".MP~")
  }

  /**
   * What is left of an image's base name to compare with a video's stem:
   * the name without its extension, and without a marker extension that
   * follows; None when the marker is not the video's own extension.
   */
  function ImageStem(imageBase: string, videoExt: string): Option<string> {
    var p := TrimSuffix(imageBase, Ext(imageBase));
    var ext := Ext(p);
    if IsMarker(ext) then
      if videoExt != ext then None else Some(TrimSuffix(p, ext))
    else Some(p)
  }

  /** passTwo links an image with a video when the image's stem is the video's base name without its extension. */
  predicate Pairs(imageBase: string, video: string) {
    var videoExt := Ext(video);
    ImageStem(imageBase, videoExt) == Some(TrimSuffix(video, videoExt))
  }

  lemma TrimProperExt(stem: string, e: string)
    requires ProperExt(e)
    ensures Ext(stem + e) == e && TrimSuffix(stem + e, e) == stem
  {
    ExtOfSuffix(stem, e);
    var r := TrimSuffix(stem + e, e);
    assert r == (r + e)[..|r|];
  }

  /** An image and a video that share a stem without a marker are linked. */
  lemma PairsSameStem(stem: string, imageExt: string, videoExt: string)
    requires ProperExt(imageExt) && ProperExt(videoExt) && !IsMarker(Ext(stem))
    ensures Pairs(stem + imageExt, stem + videoExt)
  {
    TrimProperExt(stem, imageExt);
    TrimProperExt(stem, videoExt);
  }

  /** IMG.MP.jpg is linked with the video IMG.MP: the marker is the video's extension. */
  lemma PairsMarker(stem: string, marker: string, imageExt: string)
    requires ProperExt(marker) && IsMarker(marker) && ProperExt(imageExt)
    ensures Pairs(stem + marker + imageExt, stem + marker)
  {
    TrimProperExt(stem + marker, imageExt);
    TrimProperExt(stem, marker);
  }

  /** An image carrying a marker is never linked with a video whose extension is not that marker. */
  lemma MarkerMustMatch(stem: string, marker: string, imageExt: string, video: string)
    requires ProperExt(marker) && IsMarker(marker) && ProperExt(imageExt) && Ext(video) != marker
    ensures !Pairs(stem + marker + imageExt, video)
  {
    TrimProperExt(stem + marker, imageExt);
    TrimProperExt(stem, marker);
  }
}
