# immich-go: Google Photos takeout reader, series grouper and file-name parser, in Dafny

This project models the part of immich-go that turns a Google Photos takeout
archive into groups of assets ready for upload, and the part that groups a
stream of assets into series:

- **The takeout adapter** (`adapters/googlePhotos/googlephotos.go`), as the
  class `Takeout.Takeout`. Its fields are the catalogs per directory, the
  albums per directory, the file tracker keyed by (base name, size), and the
  groups sent so far.
  - Pass one walks every entry. It files sidecars and media, discards what the
    flags reject, and counts every copy of a file in the tracker.
  - `solvePuzzle` goes over the directories in name order. It tries the
    matcher rules in table order, and each rule with every sidecar in name
    order. It then keeps or leaves the files without a sidecar.
  - `nextPass`/`passTwo` skip files already uploaded and link each video with
    the image it belongs to (motion photos, including `.MP` markers). They
    build each group with `makeAsset`, mark its assets uploaded and send it.
  - The pure parts are in their own modules: the verdicts of pass one
    (`Policy.MediaVerdict`), `filterOnMetadata`, title reconciliation,
    albums, the GPS fallback and `trackerKeySortFunc`. `PassOne` holds the
    walk step, `Puzzle` a functional specification of `solvePuzzle`, and
    `PassTwo` the linking and emission invariants.
- **The series grouper** (`internal/groups/series/series.go`), module
  `Series`.
  - `Group` buffers assets while their radical repeats.
  - `sendGroup` picks the grouping kind (burst, raw+jpg, heic+jpg, none or
    other) and the cover. It then cuts the buffer wherever two capture dates
    are more than a second apart.
  - `sendAsset` sends assets one by one.
  - The channels become the returned sequence of emissions.
- **The Google Photos JSON decoding** (`assets/gp/json.go`), module `GpJson`:
  the presence markers, `Key`, and `UnmarshalJSON` of the timestamp. That
  decoding is modelled with encoding/json's rules for the member: its name is
  matched case-insensitively, the last matching string wins, a null member
  changes nothing, and a null object makes the method panic. The string then
  goes through `strconv.ParseInt`.
- **The file-name parser** (`internal/filenames`), module `Filenames`:
  `Nexus`, Samsung and Pixel names, and `GetInfo`. nexus.go and info.go are
  not part of this model. The parsers are reconstructed from
  `nexus_test.go` and `info_test.go`, and every row of both test tables is
  proved as a lemma.

Go's helpers (`strings`, `path`, `sort.Strings`, `strings.Compare`) are
modelled in `GoStrings`. Functions of the program that live outside these
files are parameters of the model, gathered in `TakeoutTypes.Env`:

- the matcher rules;
- `TypeFromExt`;
- the banned-file and extension filters;
- `ReadMetadata`;
- `InRange`;
- `AddAlbum`;
- `IsRawFile`.

A media file seen twice in one directory is counted in the tracker, and its
directory recorded, before the duplicate check (googlephotos.go:215-223); only
its catalog entry is skipped.

## Model

| member | source | states |
|---|---|---|
| `Takeout.Takeout.constructor` | adapters/googlePhotos/googlephotos.go:76-94 | a new takeout starts with empty catalogs, albums and tracker, and has sent nothing |
| `Takeout.Takeout.Browse` | adapters/googlePhotos/googlephotos.go:100-112 | succeeds exactly when pass one over every part, in turn, never stops; a failed walk sends nothing; on success the albums are the walked ones, every walked catalog is replaced by its solved form, and what is sent after the earlier groups is what nextPass sends for those solved catalogs starting from the walked tracker; every matched image or video of every directory ends up sent, with a code, or in a group Validate refused; no identity is sent twice and every sent one is marked uploaded |
| `Takeout.PartsStopSticks` | adapters/googlePhotos/googlephotos.go:101-105 | once one part's walk fails, the walk over all parts has failed, as Browse returns at the first error |
| `Takeout.Takeout.PassOne` | adapters/googlePhotos/googlephotos.go:114-237 | the walk succeeds exactly when no entry stops it, and then leaves the state of the entry-by-entry specification; it never changes a tracker status and keeps every file filed under its own base name |
| `Takeout.Takeout.PassOneEntry` | adapters/googlePhotos/googlephotos.go:115-234 | one entry changes the state as the step specification says; an entry whose `Info` fails stops the walk and changes nothing |
| `Takeout.Takeout.AddSidecar` | adapters/googlePhotos/googlephotos.go:144-179 | the state becomes that of the sidecar step: an asset sidecar is filed under its JSON name; an album sidecar sets the directory's album, unless it is untitled and untitled albums are not kept; an unknown sidecar changes nothing |
| `Takeout.Takeout.AddMedia` | adapters/googlePhotos/googlephotos.go:210-231 | the state becomes that of the media step: the copy is tracked, and the file is filed as unmatched unless its base name is already taken in that directory |
| `PassOne.DiscardedChangesNothing` | adapters/googlePhotos/googlephotos.go:180-208 | a media file that is banned, not included, excluded, of unknown type, or a failed video leaves the state unchanged |
| `PassOne.SidecarStepKeepsTracker` | adapters/googlePhotos/googlephotos.go:144-179 | a sidecar never touches the file tracker |
| `PassOne.MediaStepTracks` | adapters/googlePhotos/googlephotos.go:210-230 | an accepted file adds its directory to its tracker entry and one to its count, touches no other key, and is filed as unmatched unless its name is taken; nothing else changes |
| `PassOne.StepKeepsStatus` | adapters/googlePhotos/googlephotos.go:210-218 | pass one never changes the upload status of any tracker entry |
| `PassOne.StepKeepsWalkedOk` | adapters/googlePhotos/googlephotos.go:129-230 | every step keeps each catalog's files filed under their own non-empty, slash-free base name, with nothing matched |
| `Takeout.StopSticks` | adapters/googlePhotos/googlephotos.go:139-143 | once an entry stops the walk, the whole walk has stopped |
| `PassOne.BaseOfWalked` | adapters/googlePhotos/googlephotos.go:129 | the base name path.Split gives for a walked file is non-empty and holds no slash |
| `Policy.MediaVerdict` | adapters/googlePhotos/googlephotos.go:182-208 | a media file is accepted exactly when it is not banned, its extension is included and not excluded, its type is known, and it is not a video under "Failed Videos"; each rejection reason holds exactly in its case |
| `GoStrings.Split` | adapters/googlePhotos/googlephotos.go:129 | path.Split: the directory part and the file part concatenate back to the path, the file part holds no slash, and the directory part is empty or ends with one |
| `GoStrings.Ext` | adapters/googlePhotos/googlephotos.go:131 | path.Ext is a suffix of the path, empty or starting with the only dot it holds, and holds no slash |
| `GoStrings.ExtEmptyNoDot` | adapters/googlePhotos/googlephotos.go:131 | path.Ext is empty exactly when the last element of the path holds no dot |
| `GoStrings.ExtOfSuffix` | adapters/googlePhotos/googlephotos.go:131 | a path ending in a dot and then characters other than dots and slashes has that ending as its extension |
| `GoStrings.TrimSuffix` | adapters/googlePhotos/googlephotos.go:517-527 | strings.TrimSuffix removes the suffix when it is there, and leaves the string as it is otherwise |
| `GoStrings.BaseOfJoin` | adapters/googlePhotos/googlephotos.go:463-467 | the base name of path.Join(dir, base) is base, so passTwo finds each asset's tracker key again |
| `Takeout.Takeout.SolvePuzzle` | adapters/googlePhotos/googlephotos.go:283-322 | every directory's catalog becomes its solved catalog, directory by directory, and stays well formed |
| `Takeout.SolveCatalog` | adapters/googlePhotos/googlephotos.go:286-319 | one directory: the rules in table order, each with the sidecars in name order, then the files without a sidecar |
| `Takeout.SolveRowLoop` | adapters/googlePhotos/googlephotos.go:289-305 | one matcher with every sidecar in name order equals the row of the functional specification |
| `Takeout.MatchFiles` | adapters/googlePhotos/googlephotos.go:291-303 | one rule with one sidecar moves exactly the unmatched files the rule accepts into the matched files, with that sidecar's metadata, whatever the map's iteration order |
| `Takeout.KeepJSONLess` | adapters/googlePhotos/googlephotos.go:308-319 | the files still unmatched are moved to the matched ones, without metadata, when JSON-less files are kept, and left as they are otherwise |
| `Takeout.MoveJSONLess` | adapters/googlePhotos/googlephotos.go:311-317 | one JSON-less file is moved, or not, as the keep flag says |
| `Puzzle.SolveDirFate` | adapters/googlePhotos/googlephotos.go:283-319 | an unmatched file ends up matched with the sidecar of the first rule (in table order) and first sidecar (in name order) that accept it; with no sidecar, it is matched without metadata when JSON-less files are kept, and stays unmatched otherwise; files already matched or absent are untouched |
| `Puzzle.SolveAllFate` | adapters/googlePhotos/googlephotos.go:288-306 | after all rules, a file's fate is decided by the first rule that has any accepting sidecar, and the first such sidecar |
| `Puzzle.SolveRowFate` | adapters/googlePhotos/googlephotos.go:289-305 | within one rule, the first accepting sidecar in name order wins, and a file is matched at most once |
| `Puzzle.MoveMatchingFate` | adapters/googlePhotos/googlephotos.go:291-303 | one rule with one sidecar moves an accepted unmatched file and changes nothing else |
| `Puzzle.FinishDirFate` | adapters/googlePhotos/googlephotos.go:308-319 | keeping JSON-less files empties the unmatched files into the matched ones, metadata unchanged; otherwise the catalog is unchanged |
| `Puzzle.SolveDirConserves` | adapters/googlePhotos/googlephotos.go:283-319 | solving a directory loses and invents no file, and the unmatched files only shrink |
| `Puzzle.SolveDirKeepsCatalogOk` | adapters/googlePhotos/googlephotos.go:283-319 | solving a directory keeps every file filed under its own base name, and no file both matched and unmatched |
| `Puzzle.FirstHit` | adapters/googlePhotos/googlephotos.go:270-281 | the first rule of the matchers table with an accepting sidecar, and that sidecar; no earlier rule accepts the file with any sidecar |
| `Puzzle.FirstJson` | adapters/googlePhotos/googlephotos.go:291-303 | the first sidecar, in name order, that a rule accepts for a file; no earlier one does |
| `Takeout.Takeout.NextPass` | adapters/googlePhotos/googlephotos.go:329-347 | the directories are taken in name order, those with matched files passed to passTwo and the others skipped; nothing accounted for is lost, every matched image or video of every directory is accounted for afterwards, and each identity is sent once and marked uploaded |
| `Takeout.Takeout.PassTwo` | adapters/googlePhotos/googlephotos.go:356-482 | for a linking of the directory's matched files not yet uploaded, the groups of its entries are built and sent (or dropped when Validate refuses them) in name order; each identity is still sent once |
| `Takeout.Takeout.SkipUploaded` | adapters/googlePhotos/googlephotos.go:362-383 | the files kept are exactly the matched files not yet uploaded, in name order; each kept image has its own entry, with no video yet |
| `Takeout.Takeout.LinkVideo` | adapters/googlePhotos/googlephotos.go:387-424 | a non-video changes nothing; a video with a free image it pairs with by name is put into one such image's entry and nothing else changes; a video with none gets a new entry of its own under its name; the linking invariant is kept |
| `Takeout.Takeout.LinkVideos` | adapters/googlePhotos/googlephotos.go:386-425 | after every kept video is scanned in name order, the entries satisfy the linking invariant, which includes that a lone video pairs with no image left free or given a video that sorts after it |
| `PassTwo.EarlierVideoTakesImage` | adapters/googlePhotos/googlephotos.go:385-418 | with IMG.jpg, IMG.mov and IMG.mp4 still to be sent, linking IMG.mp4 with the image and leaving IMG.mov alone breaks the invariant, because IMG.mov is scanned first |
| `PassTwo.LinkingStart` | adapters/googlePhotos/googlephotos.go:375-381 | one entry per image still to be sent satisfies the linking invariant before any video is scanned |
| `PassTwo.LinkingLink` | adapters/googlePhotos/googlephotos.go:413-418 | linking a scanned video with a free image it pairs with keeps the linking invariant |
| `PassTwo.LinkingOwn` | adapters/googlePhotos/googlephotos.go:420-423 | a video pairing with no free image gets an entry of its own under its name, keeping the invariant |
| `PassTwo.LinkingPartition` | adapters/googlePhotos/googlephotos.go:386-425 | once every video is scanned, each image or video still to be sent is in an entry, every entry holds its own name, and no two entries share a file |
| `PassTwo.LinkingDisjoint` | adapters/googlePhotos/googlephotos.go:392-423 | two different entries share no file name |
| `Policy.PairsSameStem` | adapters/googlePhotos/googlephotos.go:402-418 | an image and a video with the same name apart from the extension are linked |
| `Policy.PairsMarker` | adapters/googlePhotos/googlephotos.go:405-412 | an image `X.MP.jpg` is linked with the video `X.MP` |
| `Policy.MarkerMustMatch` | adapters/googlePhotos/googlephotos.go:407-410 | an image with a `.MP` marker is never linked with a video whose extension is not that marker |
| `Takeout.Takeout.EmitLinked` | adapters/googlePhotos/googlephotos.go:428-481 | the sent groups, the refused groups and the tracker become the fold of one turn per entry over the entries in name order; each identity is still sent once |
| `Takeout.Takeout.SendEntry` | adapters/googlePhotos/googlephotos.go:430-480 | one turn: the entry's group is built; a valid one has its assets marked uploaded and is appended to the sent groups, an invalid one is dropped with the tracker as building left it; the other pending entries stay unsent |
| `Takeout.Takeout.BuildGroup` | adapters/googlePhotos/googlephotos.go:440-456 | the group and the tracker equal those of the build specification: makeAsset on the video, then on the image, into one group |
| `PassTwo.BuildBothGroup` | adapters/googlePhotos/googlephotos.go:441-451 | for an image with its video, the group holds the entry's own assets once each; it is a motion photo exactly when it holds two, with the video first and the image second |
| `PassTwo.BuildOneGroup` | adapters/googlePhotos/googlephotos.go:452-456 | a lone image or video makes at most its own asset, never a motion photo |
| `PassTwo.BuildSpecSound` | adapters/googlePhotos/googlephotos.go:440-456 | building an entry's group changes the tracker only at the entry's own keys, leaves its unsent files unsent, and holds only the entry's own assets, each once |
| `PassTwo.BuildStep` | adapters/googlePhotos/googlephotos.go:435-456 | building one pending entry leaves every other pending entry's files unsent, and its own assets are not uploaded yet |
| `PassTwo.MarkStep` | adapters/googlePhotos/googlephotos.go:463-477 | marking a built group's assets uploaded and sending it keeps "sent at most once, and marked uploaded" |
| `PassTwo.EmitKeepsOnce` | adapters/googlePhotos/googlephotos.go:463-479 | sending a group whose keys are distinct and not yet uploaded, and marking them uploaded, keeps "every sent identity sent once and marked uploaded" |
| `PassTwo.MarkKeysMarks` | adapters/googlePhotos/googlephotos.go:463-471 | marking a list of keys in turn marks exactly those keys uploaded, keeps the rest of their entries, and touches no other key |
| `PassTwo.EmitSpecSplits` | adapters/googlePhotos/googlephotos.go:428-481 | the last loop gives each entry exactly one group, sent when Validate accepts it and refused when it does not; the groups sent or refused before are kept in front |
| `PassTwo.PassTwoReady` | adapters/googlePhotos/googlephotos.go:362-425 | once the videos are linked, the entries partition the directory's pending images and videos, form a linking passTwo may build, and none of their files is uploaded |
| `PassTwo.MakeIntoAccounts` | adapters/googlePhotos/googlephotos.go:485-542 | makeAsset never clears a status code, keeps the group's assets, and either adds the file's asset or gives the file a code |
| `PassTwo.BuildAccounts` | adapters/googlePhotos/googlephotos.go:440-456 | building an entry's group never clears a code, and every file of the entry has its asset in the group or a code |
| `PassTwo.EmitEntryAccounts` | adapters/googlePhotos/googlephotos.go:440-480 | one turn of the last loop keeps every identity accounted for (with a code, or in a refused group) and accounts for every file of its entry |
| `PassTwo.EmitSpecAccounts` | adapters/googlePhotos/googlephotos.go:428-481 | the last loop keeps what was accounted for and accounts for every file of every entry it goes over |
| `PassTwo.PassTwoAccounts` | adapters/googlePhotos/googlephotos.go:356-482 | after passTwo, every matched image or video of the directory is sent now or before, dropped with a code, or in a group Validate refused; nothing accounted for before is lost |
| `PassTwo.DirAccountedKeeps` | adapters/googlePhotos/googlephotos.go:329-347 | a directory accounted for stays so while later directories are passed |
| `PassTwo.NameKeyInjective` | adapters/googlePhotos/googlephotos.go:364-366 | within a catalog, two file names have the same tracker key only when they are the same name |
| `Takeout.Takeout.MarkUploaded` | adapters/googlePhotos/googlephotos.go:463-471 | the tracker becomes the old one with each asset's (base name, size) key marked uploaded in turn: those keys are uploaded and keep their paths, count and metadata, and no other key changes |
| `Takeout.Takeout.MakeAsset` | adapters/googlePhotos/googlephotos.go:485-605 | the asset, group and tracker write-back of the makeAsset specification |
| `Policy.MakeAssetSound` | adapters/googlePhotos/googlephotos.go:485-605 | the tracker entry keeps its paths and count and takes the file's metadata; a made asset is appended to the group, keeps the status, carries the file's key, and its title is the base name or has the file's extension; a dropped file leaves the group as it was, with status discarded or error |
| `Policy.MakeAssetKeeps` | adapters/googlePhotos/googlephotos.go:505-542 | an asset is made exactly when filterOnMetadata keeps the file and the import-from-album flag allows its directory |
| `Policy.FilterOnMetadata` | adapters/googlePhotos/googlephotos.go:607-641 | archived, partner and trashed sidecars are dropped unless kept; without a sidecar the metadata is read, and a read error drops the file with an error code; a date outside the range drops it |
| `Policy.ReconcileTitleSound` | adapters/googlePhotos/googlephotos.go:511-528 | a title with the file's extension is kept; otherwise the result ends with the file's extension and what precedes that extension is a prefix of the title; when the file has an extension, the title always ends up with it |
| `Policy.TitleForSound` | adapters/googlePhotos/googlephotos.go:511-528 | the asset's title is the base name, or ends with the file's extension |
| `Takeout.Takeout.AlbumsOf` | adapters/googlePhotos/googlephotos.go:544-583 | the album list equals that of the specification: the forced album, or the album of every directory holding a copy in path order, then the partner album |
| `Takeout.CollectAlbums` | adapters/googlePhotos/googlephotos.go:551-569 | the loop over a file's paths adds the album of each directory that has one, in order |
| `Policy.AlbumFor` | adapters/googlePhotos/googlephotos.go:553-568 | a directory's album is added exactly when it has one with a title, or untitled albums are kept; the album keeps its path, description and location, keeps its title when it has one, and never has an empty title |
| `Policy.ApplyMetadata` | adapters/googlePhotos/googlephotos.go:585-602 | metadata sets the capture date and the archived, favorite and trashed flags; the location is the metadata's, or, when that is 0,0, the first located album's |
| `Takeout.ApplyMd` | adapters/googlePhotos/googlephotos.go:585-602 | makeAsset's use of the metadata equals its specification |
| `Takeout.GpsFallback` | adapters/googlePhotos/googlephotos.go:592-601 | an asset without a location takes the first located album's location, or keeps none |
| `Policy.FirstLocated` | adapters/googlePhotos/googlephotos.go:593-600 | the first album with a non-zero location, and no earlier one has one |
| `Policy.TrackerKeyCompareOrders` | adapters/googlePhotos/googlephotos.go:43-49 | for non-negative sizes, the comparison orders by base name and then size, is zero exactly on equal keys, and is antisymmetric |
| `GoStrings.Compare` | adapters/googlePhotos/googlephotos.go:44 | strings.Compare is -1, 0 or 1, and 0 exactly on equal strings |
| `GoStrings.CompareLexicographic` | adapters/googlePhotos/googlephotos.go:44 | strings.Compare is negative exactly when the first string is a proper prefix of the second, or the first differing character is smaller in it |
| `Policy.Wrap64` | adapters/googlePhotos/googlephotos.go:48 | the 64-bit difference wraps into the int64 range and is exact inside it |
| `GoStrings.SortedKeys` | adapters/googlePhotos/googlephotos.go:284 | the keys of a map as a strictly increasing list holding exactly those keys |
| `Series.Group` | internal/groups/series/series.go:19-45 | with either version of sendGroup, the emissions are the flushes of the input's maximal runs of equal radical, in order |
| `Series.GroupNext` | internal/groups/series/series.go:35-42 | one pass of the loop, with either version of sendGroup: a change of radical flushes the buffer, then the asset joins it |
| `Series.GroupFinish` | internal/groups/series/series.go:28-32 | at the end of input, a non-empty buffer is flushed, completing the flushes of all runs |
| `Series.FeedAllState` | internal/groups/series/series.go:19-45 | with either version of sendGroup, after any prefix the loop has flushed the complete runs and holds the open one, with its radical |
| `Series.RunsSound` | internal/groups/series/series.go:35-42 | the runs concatenate to the input, are non-empty, each has one radical, and neighbours differ in radical |
| `Series.GroupEmitsInputOnce` | internal/groups/series/series.go:17-45 | with the corrected sendGroup, every asset of the input is sent exactly once and in order; no group has fewer than two assets or mixes radicals |
| `Series.GroupSound` | internal/groups/series/series.go:19-45 | with the corrected sendGroup, flushing runs of one radical each sends their assets once, in order, in groups of at least two with one radical |
| `Series.GroupAsWrittenDuplicate` | internal/groups/series/series.go:19-45 | as written, Group sends a .jpg and a .mp4 of one radical, at most a second apart, twice: alone, then as a group; corrected, alone only |
| `Series.SendGroupAs` | internal/groups/series/series.go:47-154 | sendGroup in the version asked for: the as-written or the corrected specification |
| `Series.SendGroup` | internal/groups/series/series.go:47-154 | the corrected sendGroup equals its specification |
| `Series.SendGroupSound` | internal/groups/series/series.go:47-154 | the corrected sendGroup sends every asset of the buffer exactly once, in order; groups have at least two members, all from the buffer, with the chosen kind and cover; a buffer of fewer than two goes out one by one |
| `Series.SendGroupAsWritten` | internal/groups/series/series.go:47-154 | sendGroup as written equals its as-written specification |
| `Series.AsWrittenSendsTwice` | internal/groups/series/series.go:96-107 | as written, a two-asset GroupByNone buffer sends its assets twice |
| `Series.AsWrittenDuplicateExample` | internal/groups/series/series.go:86-153 | a .jpg and a .mp4 within a second: as written, two singles and then a group of both; corrected, the two singles only |
| `Series.NoneFlushes` | internal/groups/series/series.go:96-104 | the corrected GroupByNone pair is sent one by one; as written, the time split follows |
| `Series.LargeFlush` | internal/groups/series/series.go:107-153 | a buffer of three or more goes through the time split with its kind and cover |
| `Series.ScanBuffer` | internal/groups/series/series.go:53-83 | the first loop yields burst exactly when some member is a burst, the cover index, and the extension flags |
| `Series.CoverIndexSound` | internal/groups/series/series.go:61-83 | the cover is the last member marked as cover, and 0 when none is |
| `Series.GroupingOfSound` | internal/groups/series/series.go:53-95 | burst exactly when some member is a burst; raw+jpg and heic+jpg exactly in their two-member cases; none exactly for two non-burst members that are neither of those and mix an .mp4 or .mov with a .jpg, .heic or .heif; other for any other size |
| `Series.PhotoClipGrouping` | internal/groups/series/series.go:92-93 | a .jpg with a .mp4, neither a burst, is a GroupByNone pair |
| `Series.SplitAndSend` | internal/groups/series/series.go:107-153 | the time split sends the chunks of the buffer cut where abs(Sub) of neighbouring dates, as a saturated 64-bit duration, exceeds a second, in order |
| `Series.SplitNext` | internal/groups/series/series.go:110-137 | one pass of the loop: the first asset opens the buffer; a gap over a second flushes it and opens a new one; otherwise the asset joins |
| `Series.SplitFinish` | internal/groups/series/series.go:139-153 | flushing the last chunk completes the time split |
| `Series.SplitFeedAllState` | internal/groups/series/series.go:107-137 | after any prefix, the loop has flushed the closed chunks and holds the open one |
| `Series.SplitByGapSound` | internal/groups/series/series.go:107-137 | the chunks are non-empty and concatenate to the buffer; inside a chunk, neighbours' Go gap is at most a second (one second included); between chunks, more than a second |
| `Series.EmitChunksSound` | internal/groups/series/series.go:119-153 | flushing chunks sends their assets once each, in order; groups have at least two members from the chunks, with the given kind and cover |
| `Series.SendChunk` | internal/groups/series/series.go:120-131 | a chunk of one goes out alone, a larger chunk as one group |
| `Series.FlushChunk` | internal/groups/series/series.go:120-131 | a chunk is sent once; it forms a group only when it has two assets or more, and then the group is the whole chunk with the given kind and cover |
| `Series.FlushChunkSound` | internal/groups/series/series.go:120-131 | a flushed chunk makes groups of at least two members drawn from the chunk, with the given kind and cover |
| `Series.CoverMayPointPastSubgroup` | internal/groups/series/series.go:124-125 | the cover index is computed over the whole buffer, so a subgroup's cover index can point past its own members |
| `Series.BurstTripleFlush` | internal/groups/series/series.go:107-153 | a buffer of three with a burst, a gap over a second after the first, and the last as cover, sends the first alone and the other two as a burst group with cover index 2 |
| `Series.SendAsset` | internal/groups/series/series.go:157-165 | every asset of the buffer is sent alone, in order |
| `Series.Singles` | internal/groups/series/series.go:157-165 | the assets sent alone are exactly the buffer, in order |
| `Series.Abs` | internal/groups/series/series.go:167-172 | abs of a duration is x or -x and non-negative, except that the most negative duration wraps to itself |
| `Series.Sub` | internal/groups/series/series.go:118 | time.Time.Sub is the exact difference when it fits in a Duration, and saturates at the bound on its side otherwise |
| `Series.GapWithinRange` | internal/groups/series/series.go:118 | for dates less than about 292 years apart, the cut is "more than a second apart, in either order" |
| `Series.FarPastNeverCut` | internal/groups/series/series.go:118 | an asset more than about 292 years before the next is never cut from it, as Sub saturates and abs leaves the most negative duration negative |
| `Series.FarFutureCut` | internal/groups/series/series.go:118 | an asset more than about 292 years after the next is always cut from it |
| `Series.UnknownDateJoins` | internal/groups/series/series.go:47-154 | a burst shot with the unknown (zero) date and one from 2023 are sent as one group |
| `GpJson.MarkerIsPresence` | assets/gp/json.go:42-45 | a presence marker is true exactly when the member is in the JSON |
| `GpJson.NullMarksPresence` | assets/gp/json.go:42-45 | even a null member marks presence |
| `GpJson.DiscriminatorsArePresence` | assets/gp/json.go:25-31 | isAlbum and isPartner hold exactly when their marker members are present |
| `GpJson.KeyIdentifies` | assets/gp/json.go:35-37 | two records have the same key exactly when their titles and timestamps are equal |
| `GpJson.FormatIntInjective` | assets/gp/json.go:36 | different int64 values have different decimal renderings |
| `GpJson.FormatInt` | assets/gp/json.go:36 | the decimal rendering holds no comma, so the key's separator is unambiguous |
| `GpJson.ParseIntAccepts` | assets/gp/json.go:83 | ParseInt succeeds exactly on a sign and decimal digits whose value fits in int64, and then returns that value |
| `GpJson.ParseInt` | assets/gp/json.go:83 | a success is in int64 range; a syntax error returns 0; a range error returns the int64 bound on the value's side |
| `GpJson.ParseFormatRoundTrip` | assets/gp/json.go:83 | ParseInt reads back the decimal rendering of every int64 |
| `GpJson.UnmarshalTimeSucceeds` | assets/gp/json.go:69-86 | decoding succeeds exactly when the data is an object, no member matching "timestamp" (in any case) holds a non-string, and the last matching string member is one ParseInt accepts; the timestamp is then its value |
| `GpJson.ScanMembersSound` | assets/gp/json.go:69-86 | the string encoding/json decodes into the timestamp field exists exactly when no matching member holds a non-string, and is the last matching string member, or empty when there is none |
| `GpJson.UnmarshalTimeNullPanics` | assets/gp/json.go:78-83 | a null photoTakenTime makes the method dereference a nil pointer and panic |
| `GpJson.UnmarshalTimeFoldsKey` | assets/gp/json.go:69-86 | the member name matches case-insensitively: "Timestamp" and "TIMEſTAMP" set the timestamp |
| `GpJson.UnmarshalTimeLastWins` | assets/gp/json.go:69-86 | of several matching members the last string wins, and a later null leaves it |
| `GpJson.UnmarshalTimeRoundTrip` | assets/gp/json.go:69-86 | the decimal string of any int64 decodes to that timestamp |
| `GpJson.UnmarshalTimeRejects` | assets/gp/json.go:78-85 | a missing or non-numeric timestamp is an error that leaves 0; a non-string timestamp or a non-object is an error that leaves the old timestamp |
| `GpJson.UnmarshalTimeOutOfRange` | assets/gp/json.go:83-85 | a value beyond int64 is an error, and the timestamp is left at the int64 maximum ParseInt returns |
| `Filenames.Nexus` | internal/filenames/nexus_test.go:90-98 | a recognised name keeps the name as base and its extension, and is a burst typed by its extension |
| `Filenames.NexusSound` | internal/filenames/nexus_test.go:17-76 | a recognised radical is BURST followed by at least 14 digits, which give a valid capture time in the collector's zone; it is a cover exactly when the stem ends in _COVER; the index is the value of the leading digits |
| `Filenames.NexusAccepts` | internal/filenames/nexus_test.go:17-76 | every name of the Nexus burst form is recognised, with its radical, cover flag, index and time |
| `Filenames.NexusBurstVector` | internal/filenames/nexus_test.go:17-31 | the "BURST" row |
| `Filenames.NexusCoverVector` | internal/filenames/nexus_test.go:32-46 | the "BURST cover" row |
| `Filenames.NexusPortraitCoverVector` | internal/filenames/nexus_test.go:47-61 | the "PORTRAIT BURST cover" row |
| `Filenames.NexusPortraitVector` | internal/filenames/nexus_test.go:62-76 | the "PORTRAIT BURST" row |
| `Filenames.NexusRejectsVector` | internal/filenames/nexus_test.go:78-83 | the "InvalidFilename" row: not a Nexus name |
| `Filenames.GetInfo` | internal/filenames/info_test.go:89-96 | the result always carries the name, its extension and its type; a non-burst is neither cover nor indexed |
| `Filenames.GetInfoAgreesWithNexus` | internal/filenames/info_test.go:30-44 | a Nexus name is classified by GetInfo exactly as by Nexus |
| `Filenames.SchemesExclusive` | internal/filenames/info_test.go:17-59 | no name is both a Nexus and a Samsung name, or a Pixel name and another kind |
| `Filenames.SamsungAccepts` | internal/filenames/info_test.go:45-59 | every `YYYYMMDD_HHMMSS_NNN` name is a burst with its date-time as radical, its number as index and its time in the collector's zone |
| `Filenames.PixelAccepts` | internal/filenames/info_test.go:17-29 | every `PXL_YYYYMMDD_HHMMSS…` name keeps its stem as radical and is dated in UTC |
| `Filenames.PlainName` | internal/filenames/info_test.go:60-82 | a name whose stem starts with neither a digit nor PXL_ keeps its stem as radical, is not a burst, and takes its time from the first date-time in the name |
| `Filenames.GetInfoFallback` | internal/filenames/info_test.go:72-82 | a name no scheme recognises keeps its stem as radical, is not a burst, and takes its time from the first date-time in the name |
| `Filenames.Samsung` | internal/filenames/info_test.go:45-59 | a Samsung name is a burst, never a cover, with a 19-character stem whose first 15 form the radical, dated in the collector's zone |
| `Filenames.Pixel` | internal/filenames/info_test.go:17-29 | a Pixel name starts with PXL_, keeps its stem as radical, is neither burst nor cover, and is dated in UTC |
| `Filenames.PlainTaken` | internal/filenames/info_test.go:60-82 | a found time is a valid date-time in the collector's zone; a name with no date-time has no time |
| `Filenames.PixelVector` | internal/filenames/info_test.go:17-29 | the "Normal" row |
| `Filenames.GetInfoNexusVector` | internal/filenames/info_test.go:30-44 | the "Nexus BURST cover" row |
| `Filenames.SamsungVector` | internal/filenames/info_test.go:45-59 | the "Samsung BURST" row |
| `Filenames.RegularVector` | internal/filenames/info_test.go:60-71 | the "Regular" row |
| `Filenames.InvalidVector` | internal/filenames/info_test.go:72-82 | the "InvalidFilename" row: stem as radical, no time |
| `Filenames.JpgIsImage` | internal/filenames/nexus_test.go:86-89 | with the default media table, every spelling of .jpg and .jpeg, in any mix of cases, is an image |
| `Filenames.TypeFromExtIgnoresCase` | internal/filenames/nexus_test.go:86-89 | the type of an extension does not depend on its case: its lower-case and upper-case spellings have the same type |

## Left out

- Channels, goroutines, `context` cancellation and the `select` on `ctx.Done()` are left out. The channels become sequences of emissions, or the `emitted` field, in send order.
- File-system access is left out: `fs.WalkDir`, `d.Info()`, `fshelper.ReadJSON` and ExifTool. The walked entries, their `Info` result and the decoded sidecar are inputs. A JSON decoding error reads as an unknown sidecar, which is how the code treats it.
- Logging and the file-event recorder are left out, as is the `debugLinkedFiles` list.
- These functions are not in the modelled files: the matcher rules, `SupportedMedia.TypeFromExt`, the banned-file and extension filters, `ReadMetadata`, `DateRange.InRange`, `AssetGroup.AddAlbum` and `filetypes.IsRawFile`. They are parameters in `Env`. `AssetGroup.Validate` is the parameter `validate`, left uninterpreted: passTwo consults it for every group, sends the groups it accepts and drops the others (googlephotos.go:458-460).
- `md.Collections` is not modelled. makeAsset's rewrite of it goes through a reference that several assets can share, and the model keeps metadata by value.
- Coordinates are `real`, not 64-bit floats.
- `strings.ToUpper`/`ToLower` are ASCII-only.
- Capture times are wall-clock readings tagged with a zone (Local or UTC). Time-zone offsets and `googTimeObject.Time()` (json.go:61-66) are not modelled.
- Go map iteration order is not modelled. `solvePuzzle`'s inner loop picks any unmatched file, and passTwo's scan of `linkedFiles` picks any free image that pairs with the video. The contracts hold for every such choice. The videos themselves are scanned in sorted name order, as the source does, and the linking invariant keeps that order.
- passTwo asks `TypeFromExt` about the extension as written, not lower-cased (googlephotos.go:376-377, 388-389). The model does the same.
- `path.Join` is modelled without its path cleaning. Directory names come from `path.Split`, so they are already clean.
- The groups Validate refuses are kept in a ghost field, `refused`, that the program does not have; it only states where such groups went.
- The `Browse` error of a walk comes only from `d.Info()`. Errors passed into the walk callback are not modelled.
- nexus.go and info.go are not part of this model. `Nexus`, `Samsung`, `Pixel` and `GetInfo` are reconstructed from their test tables. Their behaviour on names outside those forms is this model's reading of the tests.
- Series.Group: `Group`, `GroupNext`, `GroupFinish` and `FeedAllState` take the version of sendGroup as a parameter. The soundness lemmas `GroupSound` and `GroupEmitsInputOnce` are stated for the corrected version only, because the version as written sends some assets twice (see Findings).
- Series.Group: assets are taken as already sorted by radical and date, as the caller promises. The sort itself is not modelled.

## Findings

| source | as written | input that shows it | evidently intended | confidence | as-written member | corrected member |
|---|---|---|---|---|---|---|
| internal/groups/series/series.go:96-107 | A two-asset GroupByNone buffer sends both assets alone, then falls through into the time split, which sends them again as one group when they are at most a second apart. | IMG_1.jpg and IMG_1.mp4 with the same radical, captured less than a second apart: `Single(jpg)`, `Single(mp4)`, then `Grouped(GroupByNone, [jpg, mp4])`. | Return after sending the two assets alone, so each asset is sent exactly once. | not executed | `Series.SendGroupAsWritten`, `Series.AsWrittenSendsTwice`, `Series.AsWrittenDuplicateExample`, `Series.GroupAsWrittenDuplicate` | `Series.SendGroup`, `Series.SendGroupSound`, `Series.GroupEmitsInputOnce` |
