/**
 * Pass two of the takeout adapter (passTwo), as pure definitions: which
 * matched files are still to be sent, how videos are linked with images
 * into motion photos, the group built for each linked entry, and the
 * invariant that no (base name, size) identity is ever sent twice.
 */
module PassTwo {
  import opened Wrappers
  import opened GoStrings
  import opened Media
  import opened TakeoutTypes
  import opened Policy
  import opened Puzzle

  /** The media type of a file name, as passTwo asks for it: from the extension as written, not lower-cased. */
  predicate IsImage(env: Env, n: string) { env.typeFromExt(Ext(n)) == TypeImage }

  predicate IsVideo(env: Env, n: string) { env.typeFromExt(Ext(n)) == TypeVideo }

  /** A matched file still to be sent: its identity is not marked uploaded yet. */
  predicate NotSent(tracker: map<FileKey, TrackingInfo>, cat: DirCatalog, n: string)
    requires n in cat.matched
  {
    Tracking(tracker, KeyOf(cat.matched[n])).status != Uploaded
  }

  /** The file names a linked entry holds. */
  function NamesOf(l: Linked): (r: set<string>)
    ensures l.image.Some? ==> l.image.value in r
    ensures l.video.Some? ==> l.video.value in r
    ensures forall n :: n in r ==> Some(n) == l.image || Some(n) == l.video
  {
    (if l.image.Some? then {l.image.value} else {}) + (if l.video.Some? then {l.video.value} else {})
  }

  /** The tracker key of a matched file, by its name in the catalog. */
  function NameKey(cat: DirCatalog, n: string): FileKey
    requires n in cat.matched
  {
    KeyOf(cat.matched[n])
  }

  /** Within a well-formed catalog, different names have different keys. */
  lemma NameKeyInjective(cat: DirCatalog, a: string, b: string)
    requires CatalogOk(cat) && a in cat.matched && b in cat.matched
    ensures NameKey(cat, a) == NameKey(cat, b) <==> a == b
  {
    assert NameKey(cat, a).baseName == a && NameKey(cat, b).baseName == b;
  }

  // ---------------------------------------------------------------------
  // Linking videos with images
  // ---------------------------------------------------------------------

  /**
   * Each entry is an image still to be sent, under its own name and
   * perhaps with a scanned video, or a scanned video alone under its own
   * name.
   */
  ghost predicate LinkShape(env: Env, cat: DirCatalog, names: set<string>, videos: set<string>, linked: map<string, Linked>) {
    && names <= cat.matched.Keys
    && videos <= names
    && (forall v :: v in videos ==> IsVideo(env, v))
    && (forall i :: i in linked ==>
          if linked[i].image.Some? then linked[i].image == Some(i) && i in names && IsImage(env, i)
          else linked[i].video == Some(i))
    && (forall i :: i in linked && linked[i].video.Some? ==> linked[i].video.value in videos)
  }

  /** Every image still to be sent has an entry, and every scanned video is in one. */
  ghost predicate LinkCovers(env: Env, names: set<string>, videos: set<string>, linked: map<string, Linked>) {
    && (forall n :: n in names && IsImage(env, n) ==> n in linked)
    && (forall v :: v in videos ==> exists i :: i in linked && linked[i].video == Some(v))
  }

  /** No video is in two entries. */
  ghost predicate LinkUnique(linked: map<string, Linked>) {
    forall i, j :: i in linked && j in linked && linked[i].video.Some? && linked[i].video == linked[j].video ==> i == j
  }

  /** An image and the video linked with it pair by name. */
  ghost predicate LinkPaired(cat: DirCatalog, linked: map<string, Linked>) {
    forall i :: i in linked && i in cat.matched && linked[i].image.Some? && linked[i].video.Some? ==>
      Pairs(cat.matched[i].base, linked[i].video.value)
  }

  /**
   * A video left alone pairs with no image that is still without a video,
   * nor with one whose video sorts after it: the videos are scanned in name
   * order, so such an image was free when the lone video was scanned.
   */
  ghost predicate LinkMaximal(cat: DirCatalog, linked: map<string, Linked>) {
    forall v, i ::
      (v in linked && linked[v].image.None? && i in linked && i in cat.matched && linked[i].image.Some?
       && (linked[i].video.None? || Less(v, linked[i].video.value))) ==> !Pairs(cat.matched[i].base, v)
  }

  /** Entry i is an image without a video yet that pairs with video f: one passTwo may link f with. */
  predicate FreePairing(cat: DirCatalog, linked: map<string, Linked>, i: string, f: string) {
    i in linked && i in cat.matched && linked[i].image.Some? && linked[i].video.None? && Pairs(cat.matched[i].base, f)
  }

  /**
   * The linked entries once the videos of `videos`, among the names still
   * to be sent (`names`), have been scanned.
   */
  ghost predicate Linking(env: Env, cat: DirCatalog, names: set<string>, videos: set<string>, linked: map<string, Linked>) {
    && LinkShape(env, cat, names, videos, linked)
    && LinkCovers(env, names, videos, linked)
    && LinkUnique(linked)
    && LinkPaired(cat, linked)
    && LinkMaximal(cat, linked)
  }

  /** The entries before any video is scanned: one per image still to be sent. */
  lemma LinkingStart(env: Env, cat: DirCatalog, names: set<string>, linked: map<string, Linked>)
    requires names <= cat.matched.Keys
    requires forall n :: n in linked <==> n in names && IsImage(env, n)
    requires forall n :: n in linked ==> linked[n] == Linked(Some(n), None)
    ensures Linking(env, cat, names, {}, linked)
  {
  }

  /** Putting scanned video `f` into entry `b` keeps every scanned video in an entry. */
  lemma CoversStep(env: Env, names: set<string>, videos: set<string>, linked: map<string, Linked>, f: string, b: string, l: Linked)
    requires LinkCovers(env, names, videos, linked)
    requires l.video == Some(f)
    requires b in linked ==> linked[b].image == l.image && linked[b].video.None?
    requires forall i :: i in linked && linked[i].video.Some? ==> linked[i].video.value in videos
    requires f !in videos
    ensures LinkCovers(env, names, videos + {f}, linked[b := l])
  {
    var linked' := linked[b := l];
    forall v | v in videos + {f}
      ensures exists j :: j in linked' && linked'[j].video == Some(v)
    {
      if v == f {
        assert linked'[b].video == Some(f);
      } else {
        var j :| j in linked && linked[j].video == Some(v);
        assert linked'[j].video == Some(v);
      }
    }
  }

  /** The shape of each entry, as LinkShape states it. */
  ghost predicate EntriesShaped(env: Env, names: set<string>, linked: map<string, Linked>) {
    forall i :: i in linked ==>
      if linked[i].image.Some? then linked[i].image == Some(i) && i in names && IsImage(env, i)
      else linked[i].video == Some(i)
  }

  /** Entry `b` becomes `l`, holding scanned video `f`: an image entry gaining it, or a new entry of its own. */
  lemma EntriesShapedStep(env: Env, names: set<string>, linked: map<string, Linked>, f: string, b: string, l: Linked)
    requires EntriesShaped(env, names, linked) && l.video == Some(f)
    requires if l.image.Some? then b in linked && linked[b].image == l.image else b == f
    ensures EntriesShaped(env, names, linked[b := l])
  {
    var linked' := linked[b := l];
    forall i | i in linked'
      ensures if linked'[i].image.Some? then linked'[i].image == Some(i) && i in names && IsImage(env, i)
              else linked'[i].video == Some(i)
    {
      if i != b {
        assert linked'[i] == linked[i];
      } else if l.image.Some? {
        assert linked[b].image == Some(b);
      }
    }
  }

  lemma VideosScannedStep(videos: set<string>, linked: map<string, Linked>, f: string, b: string, l: Linked,
                          linked': map<string, Linked>)
    requires forall i :: i in linked && linked[i].video.Some? ==> linked[i].video.value in videos
    requires l.video == Some(f) && linked' == linked[b := l]
    ensures forall i :: i in linked' && linked'[i].video.Some? ==> linked'[i].video.value in videos + {f}
  {
    forall i | i in linked' && linked'[i].video.Some?
      ensures linked'[i].video.value in videos + {f}
    {
      if i != b {
        assert linked'[i] == linked[i];
      }
    }
  }

  lemma LinkShapeStep(env: Env, cat: DirCatalog, names: set<string>, videos: set<string>, linked: map<string, Linked>,
                      f: string, b: string, l: Linked)
    requires LinkShape(env, cat, names, videos, linked)
    requires f in names && IsVideo(env, f) && l.video == Some(f)
    requires if l.image.Some? then b in linked && linked[b].image == l.image else b == f
    ensures LinkShape(env, cat, names, videos + {f}, linked[b := l])
  {
    var linked' := linked[b := l];
    assert EntriesShaped(env, names, linked);
    EntriesShapedStep(env, names, linked, f, b, l);
    VideosScannedStep(videos, linked, f, b, l, linked');
    assert videos + {f} <= names;
    assert forall v :: v in videos + {f} ==> IsVideo(env, v);
    assert EntriesShaped(env, names, linked');
  }

  lemma LinkUniqueStep(videos: set<string>, linked: map<string, Linked>, f: string, b: string, l: Linked)
    requires LinkUnique(linked) && f !in videos && l.video == Some(f)
    requires forall i :: i in linked && linked[i].video.Some? ==> linked[i].video.value in videos
    ensures LinkUnique(linked[b := l])
  {
  }

  lemma LinkPairedStep(cat: DirCatalog, linked: map<string, Linked>, f: string, b: string, l: Linked)
    requires LinkPaired(cat, linked) && l.video == Some(f)
    requires b in cat.matched && l.image.Some? ==> Pairs(cat.matched[b].base, f)
    ensures LinkPaired(cat, linked[b := l])
  {
    var linked' := linked[b := l];
    forall j | j in linked' && j in cat.matched && linked'[j].image.Some? && linked'[j].video.Some?
      ensures Pairs(cat.matched[j].base, linked'[j].video.value)
    {
      if j != b {
        assert linked'[j] == linked[j];
      }
    }
  }

  /** An image that takes a video was free, so it pairs with no video left alone. */
  lemma LinkMaximalLink(cat: DirCatalog, linked: map<string, Linked>, f: string, i: string)
    requires LinkMaximal(cat, linked) && i in linked && linked[i].image.Some? && linked[i].video.None?
    ensures LinkMaximal(cat, linked[i := linked[i].(video := Some(f))])
  {
  }

  /** A video left alone pairs with no free image, and every video linked so far sorts before it. */
  lemma LinkMaximalOwn(cat: DirCatalog, linked: map<string, Linked>, f: string)
    requires LinkMaximal(cat, linked) && f !in linked
    requires forall i :: i in linked && linked[i].image.Some? ==> i in cat.matched
    requires forall i :: i in linked && linked[i].image.Some? && linked[i].video.None? ==> !Pairs(cat.matched[i].base, f)
    requires forall i :: i in linked && linked[i].video.Some? ==> Less(linked[i].video.value, f)
    ensures LinkMaximal(cat, linked[f := Linked(None, Some(f))])
  {
    forall i | i in linked && linked[i].video.Some?
      ensures !Less(f, linked[i].video.value)
    {
      LessTotal(linked[i].video.value, f);
    }
  }

  /** Linking a scanned video with a free image it pairs with. */
  lemma LinkingLink(env: Env, cat: DirCatalog, names: set<string>, videos: set<string>, linked: map<string, Linked>,
                    f: string, i: string)
    requires Linking(env, cat, names, videos, linked)
    requires f in names && IsVideo(env, f) && f !in videos
    requires i in linked && linked[i].image.Some? && linked[i].video.None? && Pairs(cat.matched[i].base, f)
    ensures Linking(env, cat, names, videos + {f}, linked[i := linked[i].(video := Some(f))])
  {
    var l := linked[i].(video := Some(f));
    CoversStep(env, names, videos, linked, f, i, l);
    LinkShapeStep(env, cat, names, videos, linked, f, i, l);
    LinkUniqueStep(videos, linked, f, i, l);
    LinkPairedStep(cat, linked, f, i, l);
    LinkMaximalLink(cat, linked, f, i);
  }

  /** A scanned video that pairs with no free image gets an entry of its own. */
  lemma LinkingOwn(env: Env, cat: DirCatalog, names: set<string>, videos: set<string>, linked: map<string, Linked>,
                   f: string)
    requires Linking(env, cat, names, videos, linked)
    requires f in names && IsVideo(env, f) && f !in videos
    requires forall v :: v in videos ==> Less(v, f)
    requires forall i :: i in linked && linked[i].image.Some? && linked[i].video.None? ==> !Pairs(cat.matched[i].base, f)
    ensures f !in linked
    ensures Linking(env, cat, names, videos + {f}, linked[f := Linked(None, Some(f))])
  {
    var l := Linked(None, Some(f));
    assert f !in linked;
    CoversStep(env, names, videos, linked, f, f, l);
    LinkShapeStep(env, cat, names, videos, linked, f, f, l);
    LinkUniqueStep(videos, linked, f, f, l);
    LinkPairedStep(cat, linked, f, f, l);
    LinkMaximalOwn(cat, linked, f);
  }

  /**
   * The videos are scanned in name order, so with IMG.jpg, IMG.mov and
   * IMG.mp4 still to be sent, IMG.mov takes the image: linking IMG.mp4 with
   * it and leaving IMG.mov alone is not a linking passTwo can reach.
   */
  lemma EarlierVideoTakesImage(env: Env, cat: DirCatalog, names: set<string>, videos: set<string>)
    requires "IMG.jpg" in cat.matched && cat.matched["IMG.jpg"].base == "IMG.jpg"
    ensures !Linking(env, cat, names, videos,
                     map["IMG.jpg" := Linked(Some("IMG.jpg"), Some("IMG.mp4")), "IMG.mov" := Linked(None, Some("IMG.mov"))])
  {
    var linked := map["IMG.jpg" := Linked(Some("IMG.jpg"), Some("IMG.mp4")), "IMG.mov" := Linked(None, Some("IMG.mov"))];
    MovLeftAlone(cat, linked);
  }

  /** The lone IMG.mov pairs with IMG.jpg, whose video IMG.mp4 sorts after it. */
  lemma MovLeftAlone(cat: DirCatalog, linked: map<string, Linked>)
    requires "IMG.jpg" in cat.matched && cat.matched["IMG.jpg"].base == "IMG.jpg"
    requires "IMG.mov" in linked && linked["IMG.mov"] == Linked(None, Some("IMG.mov"))
    requires "IMG.jpg" in linked && linked["IMG.jpg"] == Linked(Some("IMG.jpg"), Some("IMG.mp4"))
    ensures !LinkMaximal(cat, linked)
  {
    JpgPairsMov();
    MovBeforeMp4();
  }

  lemma JpgPairsMov()
    ensures Pairs("IMG.jpg", "IMG.mov")
  {
    assert "IMG" + ".jpg" == "IMG.jpg" && "IMG" + ".mov" == "IMG.mov";
    NoDotNoMarker("IMG");
    PairsSameStem("IMG", ".jpg", ".mov");
  }

  /** A name without a dot has no extension, hence no marker. */
  lemma NoDotNoMarker(stem: string)
    requires '.' !in stem
    ensures !IsMarker(Ext(stem))
  {
    NoDotNoExt(stem);
    assert ToUpper([]) == [];
  }

  lemma NoDotNoExt(stem: string)
    requires '.' !in stem
    ensures Ext(stem) == []
  {
    ExtEmptyNoDot(stem);
    var last := stem[LastIndexOf(stem, '/') + 1..];
    assert forall k :: 0 <= k < |last| ==> last[k] in stem;
  }

  lemma MovBeforeMp4()
    ensures Less("IMG.mov", "IMG.mp4")
  {
    assert SmallerAt("IMG.mov", "IMG.mp4", 5) by { assert "IMG.mov"[..5] == "IMG.m" == "IMG.mp4"[..5]; }
    CompareLexicographic("IMG.mov", "IMG.mp4");
  }

  /**
   * The entries hold files of the catalog, an image and its video are two
   * files, and no file is in two entries.
   */
  ghost predicate Partitioned(cat: DirCatalog, linked: map<string, Linked>) {
    && (forall b :: b in linked ==> NamesOf(linked[b]) <= cat.matched.Keys)
    && (forall b :: b in linked && linked[b].image.Some? && linked[b].video.Some? ==> linked[b].image != linked[b].video)
    && (forall a, b :: a in linked && b in linked && a != b ==> NamesOf(linked[a]) !! NamesOf(linked[b]))
  }

  /**
   * Once every video is scanned, the entries hold every name still to be
   * sent that is an image or a video, each in exactly one entry, and an
   * entry's own name is among its names.
   */
  lemma LinkingPartition(env: Env, cat: DirCatalog, names: set<string>, linked: map<string, Linked>)
    requires Linking(env, cat, names, (set v | v in names && IsVideo(env, v)), linked)
    ensures forall n :: n in names && (IsImage(env, n) || IsVideo(env, n)) ==>
              exists b :: b in linked && n in NamesOf(linked[b])
    ensures forall b :: b in linked ==> b in NamesOf(linked[b]) && NamesOf(linked[b]) <= names
    ensures Partitioned(cat, linked)
  {
    var videos := set v | v in names && IsVideo(env, v);
    forall n | n in names && (IsImage(env, n) || IsVideo(env, n))
      ensures exists b :: b in linked && n in NamesOf(linked[b])
    {
      if IsImage(env, n) {
        assert linked[n].video.Some? ==> IsVideo(env, linked[n].video.value);
        assert n in NamesOf(linked[n]);
      } else {
        assert n in videos;
        var b :| b in linked && linked[b].video == Some(n);
        assert n in NamesOf(linked[b]);
      }
    }
    forall b | b in linked && linked[b].image.Some? && linked[b].video.Some?
      ensures linked[b].image != linked[b].video
    {
      assert IsVideo(env, linked[b].video.value);
    }
    forall a, b | a in linked && b in linked && a != b
      ensures NamesOf(linked[a]) !! NamesOf(linked[b])
    {
      LinkingDisjoint(env, cat, names, videos, linked, a, b);
    }
  }

  /** Two different entries share no name. */
  lemma LinkingDisjoint(env: Env, cat: DirCatalog, names: set<string>, videos: set<string>, linked: map<string, Linked>,
                        a: string, b: string)
    requires LinkShape(env, cat, names, videos, linked) && LinkUnique(linked)
    requires a in linked && b in linked && a != b
    ensures NamesOf(linked[a]) !! NamesOf(linked[b])
  {
    forall n | n in NamesOf(linked[a])
      ensures n !in NamesOf(linked[b])
    {
      if Some(n) == linked[a].image {
        assert IsImage(env, n) && !IsVideo(env, n);
      } else {
        assert IsVideo(env, n) && !IsImage(env, n);
      }
    }
  }

  // ---------------------------------------------------------------------
  // The group of one linked entry
  // ---------------------------------------------------------------------

  /** The group built for one entry, and the tracker after the makeAsset calls that build it. */
  datatype Built = Built(group: OutGroup, tracker: map<FileKey, TrackingInfo>)

  /** One makeAsset call, with its deferred write of the tracker entry. */
  function MakeInto(env: Env, albums: map<string, LocalAlbum>, tracker: map<FileKey, TrackingInfo>,
                    dir: string, f: AssetFile, g: OutGroup): (OutGroup, map<FileKey, TrackingInfo>, bool)
  {
    var m := MakeAssetSpec(env, albums, tracker, dir, f, g);
    (m.group, tracker[KeyOf(f) := m.track], m.asset.Some?)
  }

  /**
   * The group of a linked entry: for an image with its video, the video's
   * asset first and then the image's, a motion photo when both are made;
   * otherwise the one file's asset.
   */
  function BuildSpec(env: Env, albums: map<string, LocalAlbum>, tracker: map<FileKey, TrackingInfo>,
                     dir: string, cat: DirCatalog, l: Linked): Built
    requires NamesOf(l) <= cat.matched.Keys
  {
    if l.image.Some? && l.video.Some? then
      var (g1, t1, live) := MakeInto(env, albums, tracker, dir, cat.matched[l.video.value], EmptyGroup);
      var (g2, t2, main) := MakeInto(env, albums, t1, dir, cat.matched[l.image.value], g1);
      Built(g2.(kind := if main && live then GroupKindMotionPhoto else GroupKindNone), t2)
    else if l.image.Some? then
      var (g1, t1, _) := MakeInto(env, albums, tracker, dir, cat.matched[l.image.value], EmptyGroup);
      Built(g1, t1)
    else if l.video.Some? then
      var (g1, t1, _) := MakeInto(env, albums, tracker, dir, cat.matched[l.video.value], EmptyGroup);
      Built(g1, t1)
    else Built(EmptyGroup, tracker)
  }

  /** The tracker keys of a group's assets, in order. */
  function AssetKeys(assets: seq<LocalAsset>): (r: seq<FileKey>)
    ensures |r| == |assets| && forall i :: 0 <= i < |assets| ==> r[i] == AssetKey(assets[i])
  {
    seq(|assets|, i requires 0 <= i < |assets| => AssetKey(assets[i]))
  }

  predicate Distinct<T(==)>(s: seq<T>) {
    forall i, j :: 0 <= i < j < |s| ==> s[i] != s[j]
  }

  /** The keys of the names of an entry. */
  function NameKeys(cat: DirCatalog, names: set<string>): set<FileKey>
    requires names <= cat.matched.Keys
  {
    set n | n in names :: NameKey(cat, n)
  }

  /** One makeAsset call changes only the file's own tracker entry, and never marks it uploaded. */
  lemma MakeIntoTracker(env: Env, albums: map<string, LocalAlbum>, tracker: map<FileKey, TrackingInfo>,
                        dir: string, f: AssetFile, g: OutGroup)
    requires f.base != [] && '/' !in f.base
    ensures var t' := MakeInto(env, albums, tracker, dir, f, g).1;
            && (forall k :: k != KeyOf(f) ==> Tracking(t', k) == Tracking(tracker, k))
            && (Tracking(tracker, KeyOf(f)).status != Uploaded ==> Tracking(t', KeyOf(f)).status != Uploaded)
  {
    MakeAssetSound(env, albums, tracker, dir, f, g);
  }

  /** One makeAsset call adds at most one asset, the file's own, at the end of the group, and keeps the kind. */
  lemma MakeIntoAssets(env: Env, albums: map<string, LocalAlbum>, tracker: map<FileKey, TrackingInfo>,
                       dir: string, f: AssetFile, g: OutGroup)
    requires f.base != [] && '/' !in f.base
    ensures var (g', _, made) := MakeInto(env, albums, tracker, dir, f, g);
            && g'.kind == g.kind
            && (made ==> |g'.assets| == |g.assets| + 1 && g'.assets[..|g.assets|] == g.assets
                         && AssetKey(g'.assets[|g.assets|]) == KeyOf(f))
            && (!made ==> g'.assets == g.assets)
  {
    MakeAssetSound(env, albums, tracker, dir, f, g);
  }

  /**
   * The key bookkeeping of two makeAsset calls, for the video `v` and then
   * the image `i`, stated on their results alone.
   */
  lemma PairKeys(g1: OutGroup, g2: OutGroup, live: bool, main: bool, kv: FileKey, ki: FileKey)
    requires kv != ki
    requires live ==> |g1.assets| == 1 && AssetKey(g1.assets[0]) == kv
    requires !live ==> g1.assets == []
    requires main ==> |g2.assets| == |g1.assets| + 1 && g2.assets[..|g1.assets|] == g1.assets
                      && AssetKey(g2.assets[|g1.assets|]) == ki
    requires !main ==> g2.assets == g1.assets
    ensures Distinct(AssetKeys(g2.assets))
    ensures forall k :: k in AssetKeys(g2.assets) ==> k == kv || k == ki
    ensures |g2.assets| == 2 <==> live && main
    ensures live && main ==> AssetKey(g2.assets[0]) == kv && AssetKey(g2.assets[1]) == ki
  {
    if main {
      ExtendsBy(g1.assets, g2.assets);
    }
  }

  /** The tracker after building an entry's group differs only at the entry's keys, none of which becomes uploaded. */
  ghost predicate TouchesOnly(cat: DirCatalog, l: Linked, before: map<FileKey, TrackingInfo>, after: map<FileKey, TrackingInfo>)
    requires NamesOf(l) <= cat.matched.Keys
  {
    && (forall k :: k !in NameKeys(cat, NamesOf(l)) ==> Tracking(after, k) == Tracking(before, k))
    && (forall n :: n in NamesOf(l) && NotSent(before, cat, n) ==> NotSent(after, cat, n))
  }

  /** The group of an entry holds assets of the entry's own files only, each once. */
  ghost predicate OwnAssets(cat: DirCatalog, l: Linked, g: OutGroup)
    requires NamesOf(l) <= cat.matched.Keys
  {
    && Distinct(AssetKeys(g.assets))
    && (forall k :: k in AssetKeys(g.assets) ==> k in NameKeys(cat, NamesOf(l)))
  }

  lemma BuildBothTracker(env: Env, albums: map<string, LocalAlbum>, tracker: map<FileKey, TrackingInfo>,
                         dir: string, cat: DirCatalog, l: Linked)
    requires CatalogOk(cat) && NamesOf(l) <= cat.matched.Keys
    requires l.image.Some? && l.video.Some? && l.image != l.video
    ensures TouchesOnly(cat, l, tracker, BuildSpec(env, albums, tracker, dir, cat, l).tracker)
  {
    var v, i := l.video.value, l.image.value;
    var fv, fi := cat.matched[v], cat.matched[i];
    assert NamesOf(l) == {i, v};
    NameKeyInjective(cat, v, i);
    var m1 := MakeInto(env, albums, tracker, dir, fv, EmptyGroup);
    MakeIntoTracker(env, albums, tracker, dir, fv, EmptyGroup);
    var m2 := MakeInto(env, albums, m1.1, dir, fi, m1.0);
    MakeIntoTracker(env, albums, m1.1, dir, fi, m1.0);
    assert BuildSpec(env, albums, tracker, dir, cat, l).tracker == m2.1;
    assert NameKeys(cat, NamesOf(l)) == {KeyOf(fi), KeyOf(fv)};
  }

  /** The two makeAsset results of an image with its video, stated on the groups alone. */
  lemma PairGroup(cat: DirCatalog, l: Linked, g1: OutGroup, g2: OutGroup, live: bool, main: bool)
    requires CatalogOk(cat) && NamesOf(l) <= cat.matched.Keys
    requires l.image.Some? && l.video.Some? && l.image != l.video
    requires live ==> |g1.assets| == 1 && AssetKey(g1.assets[0]) == NameKey(cat, l.video.value)
    requires !live ==> g1.assets == []
    requires main ==> |g2.assets| == |g1.assets| + 1 && g2.assets[..|g1.assets|] == g1.assets
                      && AssetKey(g2.assets[|g1.assets|]) == NameKey(cat, l.image.value)
    requires !main ==> g2.assets == g1.assets
    ensures var g := g2.(kind := if main && live then GroupKindMotionPhoto else GroupKindNone);
            && OwnAssets(cat, l, g)
            && (g.kind == GroupKindMotionPhoto <==> |g.assets| == 2)
            && (g.kind == GroupKindMotionPhoto ==>
                  AssetKey(g.assets[0]) == NameKey(cat, l.video.value)
                  && AssetKey(g.assets[1]) == NameKey(cat, l.image.value))
  {
    var v, i := l.video.value, l.image.value;
    assert NamesOf(l) == {i, v};
    NameKeyInjective(cat, v, i);
    PairKeys(g1, g2, live, main, NameKey(cat, v), NameKey(cat, i));
    assert NameKeys(cat, NamesOf(l)) == {NameKey(cat, i), NameKey(cat, v)};
  }

  /** An image with its video: the video's asset first, a motion photo exactly when both are made. */
  lemma BuildBothGroup(env: Env, albums: map<string, LocalAlbum>, tracker: map<FileKey, TrackingInfo>,
                       dir: string, cat: DirCatalog, l: Linked)
    requires CatalogOk(cat) && NamesOf(l) <= cat.matched.Keys
    requires l.image.Some? && l.video.Some? && l.image != l.video
    ensures var g := BuildSpec(env, albums, tracker, dir, cat, l).group;
            && OwnAssets(cat, l, g)
            && (g.kind == GroupKindMotionPhoto <==> |g.assets| == 2)
            && (g.kind == GroupKindMotionPhoto ==>
                  AssetKey(g.assets[0]) == NameKey(cat, l.video.value)
                  && AssetKey(g.assets[1]) == NameKey(cat, l.image.value))
  {
    var fv, fi := cat.matched[l.video.value], cat.matched[l.image.value];
    var m1 := MakeInto(env, albums, tracker, dir, fv, EmptyGroup);
    MakeIntoAssets(env, albums, tracker, dir, fv, EmptyGroup);
    var m2 := MakeInto(env, albums, m1.1, dir, fi, m1.0);
    MakeIntoAssets(env, albums, m1.1, dir, fi, m1.0);
    PairGroup(cat, l, m1.0, m2.0, m1.2, m2.2);
    assert BuildSpec(env, albums, tracker, dir, cat, l).group
        == m2.0.(kind := if m2.2 && m1.2 then GroupKindMotionPhoto else GroupKindNone);
  }

  lemma BuildOneTracker(env: Env, albums: map<string, LocalAlbum>, tracker: map<FileKey, TrackingInfo>,
                        dir: string, cat: DirCatalog, l: Linked)
    requires CatalogOk(cat) && NamesOf(l) <= cat.matched.Keys
    requires !(l.image.Some? && l.video.Some?)
    ensures TouchesOnly(cat, l, tracker, BuildSpec(env, albums, tracker, dir, cat, l).tracker)
  {
    if l.image.Some? || l.video.Some? {
      var n := if l.image.Some? then l.image.value else l.video.value;
      assert NamesOf(l) == {n};
      var m := MakeInto(env, albums, tracker, dir, cat.matched[n], EmptyGroup);
      MakeIntoTracker(env, albums, tracker, dir, cat.matched[n], EmptyGroup);
      assert BuildSpec(env, albums, tracker, dir, cat, l).tracker == m.1;
      assert NameKeys(cat, NamesOf(l)) == {NameKey(cat, n)};
    }
  }

  /** The key bookkeeping of one makeAsset call into an empty group, stated on its result alone. */
  lemma OneKey(g: OutGroup, made: bool, k: FileKey)
    requires made ==> |g.assets| == 1 && AssetKey(g.assets[0]) == k
    requires !made ==> g.assets == []
    ensures Distinct(AssetKeys(g.assets)) && |g.assets| <= 1
    ensures forall x :: x in AssetKeys(g.assets) ==> x == k
  {
    var ks := AssetKeys(g.assets);
    if made {
      assert ks == [k];
    } else {
      assert ks == [];
    }
  }

  /** A lone image or video: its own asset, if made, and never a motion photo. */
  lemma BuildOneGroup(env: Env, albums: map<string, LocalAlbum>, tracker: map<FileKey, TrackingInfo>,
                      dir: string, cat: DirCatalog, l: Linked)
    requires CatalogOk(cat) && NamesOf(l) <= cat.matched.Keys
    requires !(l.image.Some? && l.video.Some?)
    ensures var g := BuildSpec(env, albums, tracker, dir, cat, l).group;
            OwnAssets(cat, l, g) && |g.assets| <= 1 && g.kind == GroupKindNone
  {
    if l.image.Some? || l.video.Some? {
      var n := if l.image.Some? then l.image.value else l.video.value;
      var f := cat.matched[n];
      assert NamesOf(l) == {n};
      var m := MakeInto(env, albums, tracker, dir, f, EmptyGroup);
      assert BuildSpec(env, albums, tracker, dir, cat, l).group == m.0;
      MakeIntoAssets(env, albums, tracker, dir, f, EmptyGroup);
      OneKey(m.0, m.2, KeyOf(f));
      assert NameKeys(cat, NamesOf(l)) == {KeyOf(f)};
    }
  }

  /**
   * The group of an entry holds the assets of the entry's own files, each
   * once; the tracker changes only at those files' keys, and none of them
   * becomes uploaded.
   */
  lemma BuildSpecSound(env: Env, albums: map<string, LocalAlbum>, tracker: map<FileKey, TrackingInfo>,
                       dir: string, cat: DirCatalog, l: Linked)
    requires CatalogOk(cat) && NamesOf(l) <= cat.matched.Keys
    requires l.image.Some? && l.video.Some? ==> l.image != l.video
    ensures var r := BuildSpec(env, albums, tracker, dir, cat, l);
            TouchesOnly(cat, l, tracker, r.tracker) && OwnAssets(cat, l, r.group)
  {
    if l.image.Some? && l.video.Some? {
      BuildBothTracker(env, albums, tracker, dir, cat, l);
      BuildBothGroup(env, albums, tracker, dir, cat, l);
    } else {
      BuildOneTracker(env, albums, tracker, dir, cat, l);
      BuildOneGroup(env, albums, tracker, dir, cat, l);
    }
  }

  // ---------------------------------------------------------------------
  // Emitted at most once
  // ---------------------------------------------------------------------

  /** The tracker keys of every asset sent so far, in send order. */
  function EmittedKeys(gs: seq<OutGroup>): seq<FileKey>
    decreases |gs|
  {
    if gs == [] then [] else EmittedKeys(gs[..|gs| - 1]) + AssetKeys(gs[|gs| - 1].assets)
  }

  /** No identity has been sent twice, and every sent one is marked uploaded. */
  ghost predicate EmittedOnce(gs: seq<OutGroup>, tracker: map<FileKey, TrackingInfo>) {
    Distinct(EmittedKeys(gs))
    && forall k :: k in EmittedKeys(gs) ==> Tracking(tracker, k).status == Uploaded
  }

  /** The tracker once each key of `keys` is marked uploaded. */
  ghost predicate MarkedUploaded(before: map<FileKey, TrackingInfo>, keys: seq<FileKey>, after: map<FileKey, TrackingInfo>) {
    forall k :: Tracking(after, k) == if k in keys then Tracking(before, k).(status := Uploaded) else Tracking(before, k)
  }

  /** Two lists without repeats and without common elements join into one without repeats. */
  lemma DistinctConcat<T>(a: seq<T>, b: seq<T>)
    requires Distinct(a) && Distinct(b)
    requires forall k :: k in b ==> k !in a
    ensures Distinct(a + b)
  {
    var all := a + b;
    forall i, j | 0 <= i < j < |all|
      ensures all[i] != all[j]
    {
      if i < |a| <= j {
        assert all[i] in a && all[j] == b[j - |a|];
      } else if |a| <= i {
        assert all[i] == b[i - |a|] && all[j] == b[j - |a|];
      }
    }
  }

  lemma EmittedKeysSnoc(gs: seq<OutGroup>, g: OutGroup)
    ensures EmittedKeys(gs + [g]) == EmittedKeys(gs) + AssetKeys(g.assets)
  {
    assert (gs + [g])[..|gs|] == gs;
  }

  /**
   * Sending a group whose identities are pairwise distinct and none yet
   * uploaded, and marking them uploaded, keeps every identity sent at most
   * once.
   */
  lemma EmitKeepsOnce(gs: seq<OutGroup>, t1: map<FileKey, TrackingInfo>, g: OutGroup, t2: map<FileKey, TrackingInfo>)
    requires EmittedOnce(gs, t1)
    requires Distinct(AssetKeys(g.assets))
    requires forall k :: k in AssetKeys(g.assets) ==> Tracking(t1, k).status != Uploaded
    requires MarkedUploaded(t1, AssetKeys(g.assets), t2)
    ensures EmittedOnce(gs + [g], t2)
  {
    EmittedKeysSnoc(gs, g);
    DistinctConcat(EmittedKeys(gs), AssetKeys(g.assets));
  }

  /** Changing only tracker entries that are not uploaded keeps what was sent marked. */
  lemma TouchKeepsOnce(gs: seq<OutGroup>, t0: map<FileKey, TrackingInfo>, touched: set<FileKey>, t1: map<FileKey, TrackingInfo>)
    requires EmittedOnce(gs, t0)
    requires forall k :: k in touched ==> Tracking(t0, k).status != Uploaded
    requires forall k :: k !in touched ==> Tracking(t1, k) == Tracking(t0, k)
    ensures EmittedOnce(gs, t1)
  {
    forall k | k in EmittedKeys(gs)
      ensures Tracking(t1, k).status == Uploaded
    {
      assert k !in touched;
    }
  }

  // ---------------------------------------------------------------------
  // Sending the entries of one directory
  // ---------------------------------------------------------------------

  /**
   * While the entries of a directory are sent: everything sent so far was
   * sent once, and no file of an entry not yet processed is uploaded.
   */
  ghost predicate Emitting(cat: DirCatalog, linked: map<string, Linked>, done: set<string>,
                           gs: seq<OutGroup>, tracker: map<FileKey, TrackingInfo>) {
    && EmittedOnce(gs, tracker)
    && (forall b, n :: b in linked && b !in done && n in NamesOf(linked[b]) && n in cat.matched ==> NotSent(tracker, cat, n))
  }

  /** The keys of an entry pending before its group is built are not uploaded yet. */
  lemma PendingKeysNotUploaded(cat: DirCatalog, linked: map<string, Linked>, done: set<string>,
                               gs: seq<OutGroup>, tracker: map<FileKey, TrackingInfo>, b: string)
    requires Partitioned(cat, linked)
    requires Emitting(cat, linked, done, gs, tracker) && b in linked && b !in done
    ensures forall k :: k in NameKeys(cat, NamesOf(linked[b])) ==> Tracking(tracker, k).status != Uploaded
  {
    forall k | k in NameKeys(cat, NamesOf(linked[b]))
      ensures Tracking(tracker, k).status != Uploaded
    {
      var n :| n in NamesOf(linked[b]) && NameKey(cat, n) == k;
      assert NotSent(tracker, cat, n);
    }
  }

  /** Touching only entry `b`'s keys leaves every other pending entry's files unsent. */
  lemma OthersStayUnsent(cat: DirCatalog, linked: map<string, Linked>, done: set<string>,
                         t0: map<FileKey, TrackingInfo>, b: string, t1: map<FileKey, TrackingInfo>)
    requires CatalogOk(cat) && Partitioned(cat, linked) && b in linked
    requires forall c, n :: c in linked && c !in done && n in NamesOf(linked[c]) && n in cat.matched ==> NotSent(t0, cat, n)
    requires forall k :: k !in NameKeys(cat, NamesOf(linked[b])) ==> Tracking(t1, k) == Tracking(t0, k)
    ensures forall c, n :: c in linked && c !in done + {b} && n in NamesOf(linked[c]) && n in cat.matched ==> NotSent(t1, cat, n)
  {
    forall c, n | c in linked && c !in done + {b} && n in NamesOf(linked[c]) && n in cat.matched
      ensures NotSent(t1, cat, n)
    {
      assert NotSent(t0, cat, n);
      forall m | m in NamesOf(linked[b])
        ensures NameKey(cat, m) != NameKey(cat, n)
      {
        NameKeyInjective(cat, m, n);
      }
      assert NameKey(cat, n) !in NameKeys(cat, NamesOf(linked[b]));
    }
  }

  /** The assets of a group built from a pending entry are not uploaded yet. */
  lemma OwnAssetsNotUploaded(cat: DirCatalog, l: Linked, t0: map<FileKey, TrackingInfo>,
                             t1: map<FileKey, TrackingInfo>, g: OutGroup)
    requires NamesOf(l) <= cat.matched.Keys
    requires forall n :: n in NamesOf(l) ==> NotSent(t0, cat, n)
    requires TouchesOnly(cat, l, t0, t1) && OwnAssets(cat, l, g)
    ensures forall k :: k in AssetKeys(g.assets) ==> Tracking(t1, k).status != Uploaded
  {
    forall k | k in AssetKeys(g.assets)
      ensures Tracking(t1, k).status != Uploaded
    {
      var n :| n in NamesOf(l) && NameKey(cat, n) == k;
      assert NotSent(t1, cat, n);
    }
  }

  /** Building the group of entry `b` leaves the other pending entries' files untouched, and its own assets not uploaded. */
  lemma BuildStep(env: Env, albums: map<string, LocalAlbum>, dir: string, cat: DirCatalog, linked: map<string, Linked>,
                  done: set<string>, gs: seq<OutGroup>, tracker: map<FileKey, TrackingInfo>, b: string)
    requires CatalogOk(cat) && Partitioned(cat, linked)
    requires Emitting(cat, linked, done, gs, tracker) && b in linked && b !in done
    ensures var r := BuildSpec(env, albums, tracker, dir, cat, linked[b]);
            && Emitting(cat, linked, done + {b}, gs, r.tracker)
            && OwnAssets(cat, linked[b], r.group)
            && (forall k :: k in AssetKeys(r.group.assets) ==> Tracking(r.tracker, k).status != Uploaded)
  {
    var l := linked[b];
    var r := BuildSpec(env, albums, tracker, dir, cat, l);
    BuildSpecSound(env, albums, tracker, dir, cat, l);
    PendingKeysNotUploaded(cat, linked, done, gs, tracker, b);
    TouchKeepsOnce(gs, tracker, NameKeys(cat, NamesOf(l)), r.tracker);
    OthersStayUnsent(cat, linked, done, tracker, b, r.tracker);
    assert forall n :: n in NamesOf(l) ==> NotSent(tracker, cat, n);
    OwnAssetsNotUploaded(cat, l, tracker, r.tracker, r.group);
  }

  /** Marking the group of a processed entry uploaded and sending it keeps the pending entries' files unsent. */
  lemma MarkStep(cat: DirCatalog, linked: map<string, Linked>, done: set<string>, gs: seq<OutGroup>,
                 t1: map<FileKey, TrackingInfo>, b: string, g: OutGroup, t2: map<FileKey, TrackingInfo>)
    requires CatalogOk(cat) && Partitioned(cat, linked)
    requires Emitting(cat, linked, done, gs, t1) && b in linked && b in done
    requires OwnAssets(cat, linked[b], g)
    requires forall k :: k in AssetKeys(g.assets) ==> Tracking(t1, k).status != Uploaded
    requires MarkedUploaded(t1, AssetKeys(g.assets), t2)
    ensures Emitting(cat, linked, done, gs + [g], t2)
  {
    EmitKeepsOnce(gs, t1, g, t2);
    forall c, n | c in linked && c !in done && n in NamesOf(linked[c]) && n in cat.matched
      ensures NotSent(t2, cat, n)
    {
      forall m | m in NamesOf(linked[b])
        ensures NameKey(cat, m) != NameKey(cat, n)
      {
        NameKeyInjective(cat, m, n);
      }
      assert NameKey(cat, n) !in NameKeys(cat, NamesOf(linked[b]));
    }
  }

  // ---------------------------------------------------------------------
  // What passTwo sends, what it refuses, and what it records
  // ---------------------------------------------------------------------

  /** The tracker once each key of `keys` is marked uploaded, in turn. */
  function MarkKeys(t: map<FileKey, TrackingInfo>, keys: seq<FileKey>): map<FileKey, TrackingInfo>
    decreases |keys|
  {
    if keys == [] then t
    else
      var m := MarkKeys(t, keys[..|keys| - 1]);
      var k := keys[|keys| - 1];
      m[k := Tracking(m, k).(status := Uploaded)]
  }

  /** Marking the keys in turn marks exactly those keys uploaded and keeps everything else of their entries. */
  lemma {:induction false} MarkKeysMarks(t: map<FileKey, TrackingInfo>, keys: seq<FileKey>)
    ensures MarkedUploaded(t, keys, MarkKeys(t, keys))
    decreases |keys|
  {
    if keys != [] {
      var p := keys[..|keys| - 1];
      MarkKeysMarks(t, p);
      assert keys == p + [keys[|keys| - 1]];
    }
  }

  /**
   * The groups sent so far, the groups AssetGroup.Validate refused (a
   * record the program does not keep: it drops them), and the tracker.
   */
  datatype Sent = Sent(groups: seq<OutGroup>, refused: seq<OutGroup>, tracker: map<FileKey, TrackingInfo>)

  /**
   * One turn of passTwo's last loop: the entry's group is built; a valid
   * one has its assets marked uploaded and is sent, an invalid one is
   * dropped.
   */
  function EmitEntry(env: Env, albums: map<string, LocalAlbum>, dir: string, cat: DirCatalog, l: Linked, s: Sent): Sent
    requires NamesOf(l) <= cat.matched.Keys
  {
    var r := BuildSpec(env, albums, s.tracker, dir, cat, l);
    if env.validate(r.group) then Sent(s.groups + [r.group], s.refused, MarkKeys(r.tracker, AssetKeys(r.group.assets)))
    else Sent(s.groups, s.refused + [r.group], r.tracker)
  }

  /** passTwo's last loop over the entries named by `bases`, in that order. */
  ghost function EmitSpec(env: Env, albums: map<string, LocalAlbum>, dir: string, cat: DirCatalog,
                          linked: map<string, Linked>, bases: seq<string>, s: Sent): Sent
    requires Partitioned(cat, linked) && forall b :: b in bases ==> b in linked
    decreases |bases|
  {
    if bases == [] then s
    else
      var p := bases[..|bases| - 1];
      assert forall b :: b in p ==> b in bases;
      EmitEntry(env, albums, dir, cat, linked[bases[|bases| - 1]], EmitSpec(env, albums, dir, cat, linked, p, s))
  }

  /**
   * The entries passTwo may link for a directory: a linking of the
   * directory's matched files whose identity is not uploaded yet.
   */
  ghost predicate LinkedFor(env: Env, cat: DirCatalog, tracker: map<FileKey, TrackingInfo>, linked: map<string, Linked>) {
    var names := set n | n in cat.matched && NotSent(tracker, cat, n);
    Linking(env, cat, names, (set v | v in names && IsVideo(env, v)), linked)
  }

  /**
   * passTwo for one directory: for some linking of its pending files (the
   * source ranges over a map when it pairs a video), the entries are sent
   * in name order.
   */
  ghost predicate PassTwoSent(env: Env, albums: map<string, LocalAlbum>, dir: string, cat: DirCatalog,
                              before: Sent, after: Sent) {
    exists linked :: LinkedFor(env, cat, before.tracker, linked) && Partitioned(cat, linked)
      && after == EmitSpec(env, albums, dir, cat, linked, Sorted(linked.Keys), before)
  }

  /** The last loop after one more entry is one more turn. */
  lemma EmitSpecSnoc(env: Env, albums: map<string, LocalAlbum>, dir: string, cat: DirCatalog,
                     linked: map<string, Linked>, bases: seq<string>, k: int, s: Sent)
    requires Partitioned(cat, linked) && (forall b :: b in bases ==> b in linked) && 0 <= k < |bases|
    ensures forall b :: b in bases[..k] ==> b in linked
    ensures forall b :: b in bases[..k + 1] ==> b in linked
    ensures EmitSpec(env, albums, dir, cat, linked, bases[..k + 1], s)
         == EmitEntry(env, albums, dir, cat, linked[bases[k]], EmitSpec(env, albums, dir, cat, linked, bases[..k], s))
  {
    assert bases[..k + 1][..k] == bases[..k];
  }

  /**
   * Once the videos are linked, the entries partition the pending image and
   * video files, form a linking passTwo may build, and none of their files
   * is uploaded yet.
   */
  lemma PassTwoReady(env: Env, cat: DirCatalog, tracker: map<FileKey, TrackingInfo>, kept: seq<string>,
                     linked: map<string, Linked>, gs: seq<OutGroup>)
    requires forall n :: n in kept <==> n in cat.matched && NotSent(tracker, cat, n)
    requires Linking(env, cat, (set n | n in kept), (set v | v in kept && IsVideo(env, v)), linked)
    requires EmittedOnce(gs, tracker)
    ensures Partitioned(cat, linked) && LinkedFor(env, cat, tracker, linked)
    ensures Emitting(cat, linked, {}, gs, tracker)
  {
    var names := set n | n in kept;
    assert names == set n | n in cat.matched && NotSent(tracker, cat, n);
    assert (set v | v in kept && IsVideo(env, v)) == (set v | v in names && IsVideo(env, v));
    LinkingPartition(env, cat, names, linked);
  }

  /** One turn of the last loop, given the group built and the tracker after building it. */
  lemma EmitEntryIs(env: Env, albums: map<string, LocalAlbum>, dir: string, cat: DirCatalog, l: Linked, s: Sent,
                    g: OutGroup, t: map<FileKey, TrackingInfo>)
    requires NamesOf(l) <= cat.matched.Keys
    requires Built(g, t) == BuildSpec(env, albums, s.tracker, dir, cat, l)
    ensures env.validate(g) ==> EmitEntry(env, albums, dir, cat, l, s) == Sent(s.groups + [g], s.refused, MarkKeys(t, AssetKeys(g.assets)))
    ensures !env.validate(g) ==> EmitEntry(env, albums, dir, cat, l, s) == Sent(s.groups, s.refused + [g], t)
  {
  }

  lemma PassTwoSentIntro(env: Env, albums: map<string, LocalAlbum>, dir: string, cat: DirCatalog,
                         linked: map<string, Linked>, before: Sent, after: Sent)
    requires LinkedFor(env, cat, before.tracker, linked) && Partitioned(cat, linked)
    requires after == EmitSpec(env, albums, dir, cat, linked, Sorted(linked.Keys), before)
    ensures PassTwoSent(env, albums, dir, cat, before, after)
  {
  }

  /**
   * nextPass: passTwo for every directory of `dirs` that has matched files,
   * in that order; the others are passed over.
   */
  ghost predicate NextPassSent(env: Env, albums: map<string, LocalAlbum>, catalogs: map<string, DirCatalog>,
                               dirs: seq<string>, before: Sent, after: Sent)
    requires forall d :: d in dirs ==> d in catalogs
    decreases |dirs|
  {
    if dirs == [] then after == before
    else
      var d := dirs[|dirs| - 1];
      var p := dirs[..|dirs| - 1];
      assert forall x :: x in p ==> x in dirs;
      if |catalogs[d].matched| == 0 then NextPassSent(env, albums, catalogs, p, before, after)
      else exists mid :: NextPassSent(env, albums, catalogs, p, before, mid) && PassTwoSent(env, albums, d, catalogs[d], mid, after)
  }

  /**
   * Each entry gives exactly one group, sent when Validate accepts it and
   * refused otherwise; what was sent and refused before stays.
   */
  lemma {:induction false} EmitSpecSplits(env: Env, albums: map<string, LocalAlbum>, dir: string, cat: DirCatalog,
                                          linked: map<string, Linked>, bases: seq<string>, s: Sent)
    requires Partitioned(cat, linked) && forall b :: b in bases ==> b in linked
    ensures var r := EmitSpec(env, albums, dir, cat, linked, bases, s);
            && s.groups <= r.groups && s.refused <= r.refused
            && |r.groups| - |s.groups| + |r.refused| - |s.refused| == |bases|
            && (forall i :: |s.groups| <= i < |r.groups| ==> env.validate(r.groups[i]))
            && (forall i :: |s.refused| <= i < |r.refused| ==> !env.validate(r.refused[i]))
    decreases |bases|
  {
    if bases != [] {
      var p := bases[..|bases| - 1];
      assert forall b :: b in p ==> b in bases;
      EmitSpecSplits(env, albums, dir, cat, linked, p, s);
    }
  }

  /**
   * An identity is accounted for: it carries a code (sent, discarded or
   * failed), or its asset is in a group Validate refused.
   */
  ghost predicate Accounted(s: Sent, k: FileKey) {
    Tracking(s.tracker, k).status != NoCode || k in EmittedKeys(s.refused)
  }

  /**
   * One makeAsset call never clears a code, and the file's asset is added
   * to the group or the file gets a code.
   */
  lemma MakeIntoAccounts(env: Env, albums: map<string, LocalAlbum>, tracker: map<FileKey, TrackingInfo>,
                         dir: string, f: AssetFile, g: OutGroup)
    requires f.base != [] && '/' !in f.base
    ensures var (g', t', _) := MakeInto(env, albums, tracker, dir, f, g);
            && (forall k :: Tracking(tracker, k).status != NoCode ==> Tracking(t', k).status != NoCode)
            && (forall k :: k in AssetKeys(g.assets) ==> k in AssetKeys(g'.assets))
            && (KeyOf(f) in AssetKeys(g'.assets) || Tracking(t', KeyOf(f)).status != NoCode)
  {
    MakeAssetSound(env, albums, tracker, dir, f, g);
    MakeIntoTracker(env, albums, tracker, dir, f, g);
    MakeIntoAssets(env, albums, tracker, dir, f, g);
    var (g', t', made) := MakeInto(env, albums, tracker, dir, f, g);
    if made {
      assert AssetKeys(g'.assets)[|g.assets|] == KeyOf(f);
      forall k | k in AssetKeys(g.assets) ensures k in AssetKeys(g'.assets) {
        var i :| 0 <= i < |g.assets| && AssetKeys(g.assets)[i] == k;
        assert g'.assets[i] == g.assets[i];
      }
    }
  }

  /**
   * Building an entry's group never clears a code, and each of the
   * entry's files either has its asset in the group or gets a code.
   */
  lemma BuildAccounts(env: Env, albums: map<string, LocalAlbum>, tracker: map<FileKey, TrackingInfo>,
                      dir: string, cat: DirCatalog, l: Linked)
    requires CatalogOk(cat) && NamesOf(l) <= cat.matched.Keys
    ensures var r := BuildSpec(env, albums, tracker, dir, cat, l);
            && (forall k :: Tracking(tracker, k).status != NoCode ==> Tracking(r.tracker, k).status != NoCode)
            && (forall n :: n in NamesOf(l) ==>
                  NameKey(cat, n) in AssetKeys(r.group.assets) || Tracking(r.tracker, NameKey(cat, n)).status != NoCode)
  {
    if l.image.Some? && l.video.Some? {
      var fv, fi := cat.matched[l.video.value], cat.matched[l.image.value];
      var m1 := MakeInto(env, albums, tracker, dir, fv, EmptyGroup);
      MakeIntoAccounts(env, albums, tracker, dir, fv, EmptyGroup);
      var m2 := MakeInto(env, albums, m1.1, dir, fi, m1.0);
      MakeIntoAccounts(env, albums, m1.1, dir, fi, m1.0);
      var r := BuildSpec(env, albums, tracker, dir, cat, l);
      assert r.tracker == m2.1 && r.group.assets == m2.0.assets;
    } else if l.image.Some? || l.video.Some? {
      var n := if l.image.Some? then l.image.value else l.video.value;
      assert NamesOf(l) == {n};
      MakeIntoAccounts(env, albums, tracker, dir, cat.matched[n], EmptyGroup);
    }
  }

  /**
   * One turn of the last loop keeps what was accounted for, and accounts
   * for every file of the entry.
   */
  lemma EmitEntryAccounts(env: Env, albums: map<string, LocalAlbum>, dir: string, cat: DirCatalog, l: Linked, s: Sent)
    requires CatalogOk(cat) && NamesOf(l) <= cat.matched.Keys
    ensures var s' := EmitEntry(env, albums, dir, cat, l, s);
            && (forall k :: Accounted(s, k) ==> Accounted(s', k))
            && (forall n :: n in NamesOf(l) ==> Accounted(s', NameKey(cat, n)))
  {
    var r := BuildSpec(env, albums, s.tracker, dir, cat, l);
    BuildAccounts(env, albums, s.tracker, dir, cat, l);
    if env.validate(r.group) {
      MarkKeysMarks(r.tracker, AssetKeys(r.group.assets));
    } else {
      EmittedKeysSnoc(s.refused, r.group);
    }
  }

  /**
   * passTwo's last loop keeps what was accounted for, and accounts for
   * every file of every entry it goes over.
   */
  lemma {:induction false} EmitSpecAccounts(env: Env, albums: map<string, LocalAlbum>, dir: string, cat: DirCatalog,
                                            linked: map<string, Linked>, bases: seq<string>, s: Sent)
    requires CatalogOk(cat) && Partitioned(cat, linked) && forall b :: b in bases ==> b in linked
    ensures var r := EmitSpec(env, albums, dir, cat, linked, bases, s);
            && (forall k :: Accounted(s, k) ==> Accounted(r, k))
            && (forall b, n :: b in bases && n in NamesOf(linked[b]) ==> Accounted(r, NameKey(cat, n)))
    decreases |bases|
  {
    if bases != [] {
      var p, b := bases[..|bases| - 1], bases[|bases| - 1];
      assert bases == p + [b];
      assert forall c :: c in p ==> c in bases;
      EmitSpecAccounts(env, albums, dir, cat, linked, p, s);
      EmitEntryAccounts(env, albums, dir, cat, linked[b], EmitSpec(env, albums, dir, cat, linked, p, s));
    }
  }

  /** Nothing accounted for in `s` is lost in `s'`. */
  ghost predicate Keeps(s: Sent, s': Sent) {
    forall k :: Accounted(s, k) ==> Accounted(s', k)
  }

  /** Every matched image or video of the directory is accounted for. */
  ghost predicate DirAccounted(env: Env, cat: DirCatalog, s: Sent) {
    forall n :: n in cat.matched && (IsImage(env, n) || IsVideo(env, n)) ==> Accounted(s, NameKey(cat, n))
  }

  lemma DirAccountedKeeps(env: Env, cat: DirCatalog, s: Sent, s': Sent)
    requires DirAccounted(env, cat, s) && Keeps(s, s')
    ensures DirAccounted(env, cat, s')
  {
  }

  /**
   * After passTwo for a directory, every matched image or video of it is
   * accounted for: sent now or before, dropped with a code, or in a group
   * Validate refused.
   */
  lemma PassTwoAccounts(env: Env, albums: map<string, LocalAlbum>, dir: string, cat: DirCatalog, before: Sent, after: Sent)
    requires CatalogOk(cat) && PassTwoSent(env, albums, dir, cat, before, after)
    ensures Keeps(before, after) && DirAccounted(env, cat, after)
  {
    var linked :| LinkedFor(env, cat, before.tracker, linked) && Partitioned(cat, linked)
      && after == EmitSpec(env, albums, dir, cat, linked, Sorted(linked.Keys), before);
    var names := set n | n in cat.matched && NotSent(before.tracker, cat, n);
    LinkingPartition(env, cat, names, linked);
    EmitSpecAccounts(env, albums, dir, cat, linked, Sorted(linked.Keys), before);
    forall n | n in cat.matched && (IsImage(env, n) || IsVideo(env, n))
      ensures Accounted(after, NameKey(cat, n))
    {
      if n in names {
        var b :| b in linked && n in NamesOf(linked[b]);
        assert b in Sorted(linked.Keys);
      } else {
        assert Accounted(before, NameKey(cat, n));
      }
    }
  }

  lemma KeepsTransitive(s1: Sent, s2: Sent, s3: Sent)
    requires Keeps(s1, s2) && Keeps(s2, s3)
    ensures Keeps(s1, s3)
  {
  }
}
