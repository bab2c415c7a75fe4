/**
 * The entities of the Google Photos takeout adapter
 * (adapters/googlePhotos/googlephotos.go): the per-directory catalogs, the
 * file tracker, the assets and groups it hands on, and the command-line
 * flags together with the collaborators whose code is not part of this
 * model.
 */
module TakeoutTypes {
  import opened Wrappers
  import opened Media

  /** Go's int64 (and int, which is 64 bits wide on the targets the tool ships for). */
  newtype int64 = x: int | -0x8000_0000_0000_0000 <= x < 0x8000_0000_0000_0000

  /** fileKeyTracker: a base name and a size, identifying copies of one file across directories. */
  datatype FileKey = FileKey(baseName: string, size: int64)

  /**
   * The fileevent codes the solver stores as a tracker status. NoCode is
   * fileevent.Code(0), the zero value; Failed is fileevent.Error.
   */
  datatype Code = NoCode | Uploaded | Discarded | Failed

  /** trackingInfo: the directories holding a copy, how many copies, the metadata last attached, and a status. */
  datatype TrackingInfo = TrackingInfo(paths: seq<string>, count: nat, metadata: Option<Metadata>, status: Code)

  /** The zero trackingInfo, which a Go map lookup yields for a missing key. */
  const NoTracking := TrackingInfo([], 0, None, NoCode)

  /** to.fileTracker[key], with Go's zero value for a missing key. */
  function Tracking(tracker: map<FileKey, TrackingInfo>, key: FileKey): TrackingInfo {
    if key in tracker then tracker[key] else NoTracking
  }

  /**
   * assetFile: the archive part (an index into the walked file systems),
   * the base name, the length, the modification date (Unix seconds) and
   * the attached metadata.
   */
  datatype AssetFile = AssetFile(fsys: nat, base: string, length: int64, date: int, md: Option<Metadata>)

  /** The tracker key of a file. */
  function KeyOf(f: AssetFile): FileKey {
    FileKey(f.base, f.length)
  }

  /** directoryCatalog: the asset sidecars by JSON base name, and the media files not yet / already matched, by base name. */
  datatype DirCatalog = DirCatalog(
    jsons: map<string, Metadata>,
    unmatched: map<string, AssetFile>,
    matched: map<string, AssetFile>)

  const EmptyCatalog := DirCatalog(map[], map[], map[])

  /** adapters.LocalAlbum */
  datatype LocalAlbum = LocalAlbum(title: string, path: string, description: string, latitude: real, longitude: real)

  /** The zero LocalAlbum. */
  const NoAlbum := LocalAlbum("", "", "", 0.0, 0.0)

  /** A LocalAlbum carrying only a title, as built for the forced and the partner albums. */
  function TitledAlbum(title: string): LocalAlbum {
    NoAlbum.(title := title)
  }

  /**
   * adapters.LocalAssetFile, restricted to the fields the solver sets.
   * Dates are Unix seconds; the zero time.Time is 0.
   */
  datatype LocalAsset = LocalAsset(
    fileName: string,
    fileSize: int64,
    title: string,
    fsys: nat,
    fileDate: int,
    captureDate: int,
    archived: bool,
    favorite: bool,
    trashed: bool,
    latitude: real,
    longitude: real)

  /** adapters.GroupKindNone (the zero kind) and adapters.GroupKindMotionPhoto. */
  datatype GroupKind = GroupKindNone | GroupKindMotionPhoto

  /** adapters.AssetGroup: a kind, the assets in the order they were added, and the albums. */
  datatype OutGroup = OutGroup(kind: GroupKind, assets: seq<LocalAsset>, albums: seq<LocalAlbum>)

  const EmptyGroup := OutGroup(GroupKindNone, [], [])

  /** The matcher rules, named as in the matchers table. */
  datatype Matcher =
    | NormalMatch
    | LivePhotoMatch
    | MatchWithOneCharOmitted
    | MatchVeryLongNameWithNumber
    | MatchDuplicateInYear
    | MatchEditedName
    | MatchForgottenDuplicates

  /** The matchers table: from the most likely rule to the least. */
  const Matchers: seq<Matcher> := [NormalMatch, LivePhotoMatch, MatchWithOneCharOmitted,
    MatchVeryLongNameWithNumber, MatchDuplicateInYear, MatchEditedName, MatchForgottenDuplicates]

  /**
   * The import flags and the collaborators whose code is not part of this
   * model, as uninterpreted functions:
   *   banned        BannedFiles.Match, on the walked path
   *   included      IncludedExtensions.Include, on the lower-cased extension
   *   excluded      ExcludedExtensions.Exclude
   *   typeFromExt   SupportedMedia.TypeFromExt
   *   matches       the body of each matcher, on (JSON name, file name)
   *   readMetadata  LocalAssetFile.ReadMetadata; None stands for an error
   *   inRange       DateRange.InRange, consulted only when dateRangeSet
   *   addAlbum      AssetGroup.AddAlbum
   *   validate      AssetGroup.Validate; false stands for an error
   */
  datatype Env = Env(
    banned: string -> bool,
    included: string -> bool,
    excluded: string -> bool,
    typeFromExt: string -> MediaType,
    matches: (Matcher, string, string) -> bool,
    readMetadata: LocalAsset -> Option<Metadata>,
    dateRangeSet: bool,
    inRange: int -> bool,
    addAlbum: (seq<LocalAlbum>, LocalAlbum) -> seq<LocalAlbum>,
    validate: OutGroup -> bool,
    keepUntitled: bool,
    keepJSONLess: bool,
    keepArchived: bool,
    keepPartner: bool,
    keepTrashed: bool,
    createAlbums: bool,
    importFromAlbum: string,
    importIntoAlbum: string,
    partnerSharedAlbum: string)

  /** The album part of a Google Photos album sidecar. */
  datatype Enrichment = Enrichment(text: string, latitude: real, longitude: real)

  /**
   * A JSON sidecar as fshelper.ReadJSON and the GoogleMetaData
   * discriminators classify it: unreadable, an asset sidecar, an album
   * sidecar, or neither.
   */
  datatype Sidecar =
    | Unreadable
    | AssetSidecar(md: Metadata)
    | AlbumSidecar(title: string, enrichment: Option<Enrichment>)
    | UnknownSidecar

  /** What d.Info() reports: the size and the modification date. */
  datatype FileInfo = FileInfo(size: int64, modTime: int)

  /**
   * One entry of fs.WalkDir: the archive part, the slash-separated path,
   * whether it is a directory, its file information (None when d.Info()
   * fails) and, for a .json file, its decoded content.
   */
  datatype Entry = Entry(fsys: nat, name: string, isDir: bool, info: Option<FileInfo>, sidecar: Sidecar)

  /** An image and/or a video of one directory that passTwo emits together, by base name. */
  datatype Linked = Linked(image: Option<string>, video: Option<string>)
}
