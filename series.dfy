/**
 * The series grouper of package internal/groups/series. `Group` reads
 * assets sorted by radical and then by capture time, buffers each run of
 * equal radicals and hands it to `sendGroup`, which picks a grouping kind
 * and a cover, splits the buffer wherever consecutive capture times are
 * more than one second apart, and emits each piece either as standalone
 * assets or as one group.
 *
 * The two output channels become one trace of emissions, in the order the
 * single goroutine sends them. Capture dates are nanoseconds.
 */
module Series {
  import opened Filenames
  import opened GoStrings

  /** assets.Asset, reduced to its name information and capture date. */
  datatype Asset = Asset(info: NameInfo, captureDate: int)

  /** assets.GroupByOther / GroupByBurst / GroupByRawJpg / GroupByHeicJpg / GroupByNone */
  datatype Grouping = GroupByOther | GroupByBurst | GroupByRawJpg | GroupByHeicJpg | GroupByNone

  /** assets.Group as built by assets.NewGroup and then given a cover index. */
  datatype AssetGroup = AssetGroup(grouping: Grouping, assets: seq<Asset>, coverIndex: int)

  /** One send: an asset on the asset channel, or a group on the group channel. */
  datatype Emission = Single(asset: Asset) | Grouped(group: AssetGroup)

  /** time.Second, in nanoseconds. */
  const Threshold: int := 1_000_000_000

  /** The bounds of time.Duration, a signed 64-bit count of nanoseconds. */
  const MinDuration: int := -0x8000_0000_0000_0000
  const MaxDuration: int := 0x7fff_ffff_ffff_ffff

  predicate IsDuration(d: int) { MinDuration <= d <= MaxDuration }

  /**
   * time.Time.Sub: the exact difference t - u when it fits in a
   * time.Duration, and the bound on its side when it does not.
   */
  function Sub(t: int, u: int): (d: int)
    ensures IsDuration(d)
    ensures IsDuration(t - u) ==> d == t - u
    ensures !IsDuration(t - u) ==> (d == MinDuration <==> t < u) && (d == MaxDuration <==> t > u)
  {
    if t - u < MinDuration then MinDuration
    else if t - u > MaxDuration then MaxDuration
    else t - u
  }

  /**
   * abs at time.Duration: -x in 64-bit two's complement, so the most
   * negative duration stays itself and stays negative.
   */
  function Abs(x: int): (r: int)
    requires IsDuration(x)
    ensures IsDuration(r)
    ensures x != MinDuration ==> r >= 0 && (r == x || r == -x)
    ensures x == MinDuration ==> r == MinDuration
  {
    if x >= 0 then x
    else if -x > MaxDuration then -x - 0x1_0000_0000_0000_0000
    else -x
  }

  /** The gap series.go measures between a buffered asset and the next: abs(last.CaptureDate.Sub(a.CaptureDate)). */
  function Gap(last: Asset, a: Asset): int {
    Abs(Sub(last.captureDate, a.captureDate))
  }

  // ---------------------------------------------------------------------
  // Sequences of emissions and of chunks
  // ---------------------------------------------------------------------

  function Last<T>(s: seq<T>): T
    requires s != []
  {
    s[|s| - 1]
  }

  function DropLast<T>(s: seq<T>): seq<T>
    requires s != []
  {
    s[..|s| - 1]
  }

  function Flatten<T>(ss: seq<seq<T>>): seq<T> {
    if ss == [] then [] else Flatten(DropLast(ss)) + Last(ss)
  }

  lemma FlattenAppend<T>(ss: seq<seq<T>>, s: seq<T>)
    ensures Flatten(ss + [s]) == Flatten(ss) + s
  {
    assert DropLast(ss + [s]) == ss;
  }

  /** The assets an emission carries. */
  function Carried(e: Emission): seq<Asset> {
    match e
    case Single(a) => [a]
    case Grouped(g) => g.assets
  }

  /** All assets of a trace, in emission order. */
  function AssetsOf(t: seq<Emission>): seq<Asset> {
    if t == [] then [] else AssetsOf(DropLast(t)) + Carried(Last(t))
  }

  lemma AssetsOfSnoc(t: seq<Emission>, e: Emission)
    ensures AssetsOf(t + [e]) == AssetsOf(t) + Carried(e)
  {
    assert DropLast(t + [e]) == t && Last(t + [e]) == e;
  }

  lemma {:induction false} AssetsOfAppend(t: seq<Emission>, u: seq<Emission>)
    ensures AssetsOf(t + u) == AssetsOf(t) + AssetsOf(u)
    decreases |u|
  {
    if u == [] {
      assert t + u == t;
    } else {
      var u' := DropLast(u);
      assert u == u' + [Last(u)];
      assert t + u == (t + u') + [Last(u)];
      AssetsOfSnoc(t + u', Last(u));
      AssetsOfSnoc(u', Last(u));
      AssetsOfAppend(t, u');
    }
  }

  /** No emitted group has fewer than two assets. */
  predicate GroupsAtLeastTwo(t: seq<Emission>) {
    forall k :: 0 <= k < |t| && t[k].Grouped? ==> |t[k].group.assets| >= 2
  }

  /** Every asset of an emitted group is one of `buf`. */
  predicate GroupsDrawnFrom(t: seq<Emission>, buf: seq<Asset>) {
    forall k, x :: 0 <= k < |t| && t[k].Grouped? && x in t[k].group.assets ==> x in buf
  }

  /** Assets sent one by one. */
  function Singles(buf: seq<Asset>): (t: seq<Emission>)
    ensures AssetsOf(t) == buf
    ensures forall k :: 0 <= k < |t| ==> t[k].Single?
  {
    if buf == [] then []
    else
      var t := Singles(DropLast(buf)) + [Single(Last(buf))];
      AssetsOfSnoc(Singles(DropLast(buf)), Single(Last(buf)));
      assert buf == DropLast(buf) + [Last(buf)];
      t
  }

  // ---------------------------------------------------------------------
  // What sendGroup decides: composition, kind and cover
  // ---------------------------------------------------------------------

  predicate HasExt(buf: seq<Asset>, ext: string) {
    exists i :: 0 <= i < |buf| && buf[i].info.ext == ext
  }

  predicate HasRaw(buf: seq<Asset>, isRaw: string -> bool) {
    exists i :: 0 <= i < |buf| && isRaw(buf[i].info.ext)
  }

  predicate AnyBurst(buf: seq<Asset>) {
    exists i :: 0 <= i < |buf| && buf[i].info.kind == KindBurst
  }

  /** The extension flags sendGroup accumulates (gotJPG, gotRAW, gotHEIC, gotMP4, gotMOV). */
  datatype Composition = Composition(jpg: bool, raw: bool, heic: bool, mp4: bool, mov: bool)

  function CompositionOf(buf: seq<Asset>, isRaw: string -> bool): Composition {
    Composition(HasExt(buf, ".jpg"), HasRaw(buf, isRaw), HasExt(buf, ".heic") || HasExt(buf, ".heif"),
                HasExt(buf, ".mp4"), HasExt(buf, ".mov"))
  }

  /** The index of the last member marked as cover, or 0 when none is. */
  function CoverIndex(buf: seq<Asset>): (c: nat)
    ensures buf != [] ==> c < |buf|
  {
    if buf == [] then 0
    else if Last(buf).info.isCover then |buf| - 1
    else CoverIndex(DropLast(buf))
  }

  /** The cover is the last member marked as cover, and the first member when none is. */
  lemma {:induction false} CoverIndexSound(buf: seq<Asset>)
    ensures (exists i :: 0 <= i < |buf| && buf[i].info.isCover) ==>
              var c := CoverIndex(buf);
              buf[c].info.isCover && forall j :: c < j < |buf| ==> !buf[j].info.isCover
    ensures (forall i :: 0 <= i < |buf| ==> !buf[i].info.isCover) ==> CoverIndex(buf) == 0
    decreases |buf|
  {
    if buf != [] && !Last(buf).info.isCover {
      var d := DropLast(buf);
      CoverIndexSound(d);
      assert forall i :: 0 <= i < |d| ==> d[i] == buf[i];
      if exists i :: 0 <= i < |buf| && buf[i].info.isCover {
        var i :| 0 <= i < |buf| && buf[i].info.isCover;
        assert i < |d| && d[i].info.isCover;
      }
    }
  }

  /**
   * The kind of a buffer of at least two assets: burst as soon as one
   * member is a burst shot; otherwise the extension rules, for exactly two
   * members only; otherwise GroupByOther.
   */
  function GroupingOf(buf: seq<Asset>, isRaw: string -> bool): Grouping {
    var c := CompositionOf(buf, isRaw);
    if AnyBurst(buf) then GroupByBurst
    else if |buf| == 2 then
      if c.jpg && c.raw && !c.heic then GroupByRawJpg
      else if c.jpg && !c.raw && c.heic then GroupByHeicJpg
      else if (c.mp4 || c.mov) && (c.jpg || c.heic) then GroupByNone
      else GroupByOther
    else GroupByOther
  }

  /**
   * Which kind a buffer gets, stated through the members it holds rather
   * than the accumulated flags.
   */
  lemma GroupingOfSound(buf: seq<Asset>, isRaw: string -> bool)
    ensures GroupingOf(buf, isRaw) == GroupByBurst <==> AnyBurst(buf)
    ensures GroupingOf(buf, isRaw) == GroupByRawJpg <==>
              !AnyBurst(buf) && |buf| == 2 && HasExt(buf, ".jpg") && HasRaw(buf, isRaw)
              && !HasExt(buf, ".heic") && !HasExt(buf, ".heif")
    ensures GroupingOf(buf, isRaw) == GroupByHeicJpg <==>
              !AnyBurst(buf) && |buf| == 2 && HasExt(buf, ".jpg") && !HasRaw(buf, isRaw)
              && (HasExt(buf, ".heic") || HasExt(buf, ".heif"))
    ensures GroupingOf(buf, isRaw) == GroupByNone <==>
              !AnyBurst(buf) && |buf| == 2
              && !(HasExt(buf, ".jpg") && HasRaw(buf, isRaw) && !HasExt(buf, ".heic") && !HasExt(buf, ".heif"))
              && !(HasExt(buf, ".jpg") && !HasRaw(buf, isRaw) && (HasExt(buf, ".heic") || HasExt(buf, ".heif")))
              && (HasExt(buf, ".mp4") || HasExt(buf, ".mov"))
              && (HasExt(buf, ".jpg") || HasExt(buf, ".heic") || HasExt(buf, ".heif"))
    ensures |buf| != 2 && !AnyBurst(buf) ==> GroupingOf(buf, isRaw) == GroupByOther
  {
  }

  // ---------------------------------------------------------------------
  // The time split
  // ---------------------------------------------------------------------

  /**
   * The buffer cut between every two consecutive assets for which `cut`
   * holds. Both the time split of sendGroup and the radical runs of Group
   * are cuts of this kind.
   */
  function SplitWhere(buf: seq<Asset>, cut: (Asset, Asset) -> bool): (chunks: seq<seq<Asset>>)
    ensures Flatten(chunks) == buf
    ensures forall k :: 0 <= k < |chunks| ==> chunks[k] != []
    ensures buf != [] ==> chunks != [] && Last(Last(chunks)) == Last(buf)
    decreases |buf|
  {
    if buf == [] then []
    else
      var p := SplitWhere(DropLast(buf), cut);
      var a := Last(buf);
      if p == [] then
        assert buf == [a];
        assert Flatten([[a]]) == Flatten(DropLast([[a]])) + [a];
        [[a]]
      else if cut(Last(Last(p)), a) then
        FlattenAppend(p, [a]);
        assert buf == DropLast(buf) + [a];
        p + [[a]]
      else
        FlattenAppend(DropLast(p), Last(p) + [a]);
        FlattenAppend(DropLast(p), Last(p));
        assert DropLast(p) + [Last(p)] == p;
        assert buf == DropLast(buf) + [a];
        DropLast(p) + [Last(p) + [a]]
  }

  /** No cut between neighbours inside any chunk. */
  predicate NoCutInside(c: seq<seq<Asset>>, cut: (Asset, Asset) -> bool) {
    forall k, j :: 0 <= k < |c| && 1 <= j < |c[k]| ==> !cut(c[k][j - 1], c[k][j])
  }

  /** A cut between the last asset of each chunk and the first of the next. */
  predicate CutBetween(c: seq<seq<Asset>>, cut: (Asset, Asset) -> bool)
    requires forall k :: 0 <= k < |c| ==> c[k] != []
  {
    forall k :: 1 <= k < |c| ==> cut(Last(c[k - 1]), c[k][0])
  }

  /** A cut before the new asset: it opens a chunk of its own. */
  lemma CutsNewChunk(p: seq<seq<Asset>>, a: Asset, cut: (Asset, Asset) -> bool)
    requires forall k :: 0 <= k < |p| ==> p[k] != []
    requires p != [] && NoCutInside(p, cut) && CutBetween(p, cut) && cut(Last(Last(p)), a)
    ensures NoCutInside(p + [[a]], cut) && CutBetween(p + [[a]], cut)
  {
    var c := p + [[a]];
    forall k, j | 0 <= k < |c| && 1 <= j < |c[k]|
      ensures !cut(c[k][j - 1], c[k][j])
    {
      assert c[k] == p[k];
    }
    forall k | 1 <= k < |c|
      ensures cut(Last(c[k - 1]), c[k][0])
    {
      if k < |p| {
        assert c[k - 1] == p[k - 1] && c[k] == p[k];
      } else {
        assert c[k - 1] == Last(p) && c[k] == [a];
      }
    }
  }

  /** No cut before the new asset: it joins the last chunk. */
  lemma CutsJoinChunk(p: seq<seq<Asset>>, a: Asset, cut: (Asset, Asset) -> bool)
    requires forall k :: 0 <= k < |p| ==> p[k] != []
    requires p != [] && NoCutInside(p, cut) && CutBetween(p, cut) && !cut(Last(Last(p)), a)
    ensures var c := DropLast(p) + [Last(p) + [a]];
            (forall k :: 0 <= k < |c| ==> c[k] != []) && NoCutInside(c, cut) && CutBetween(c, cut)
  {
    var c := DropLast(p) + [Last(p) + [a]];
    forall k | 0 <= k < |c| ensures c[k] != [] {
      if k < |p| - 1 {
        assert c[k] == p[k];
      }
    }
    forall k, j | 0 <= k < |c| && 1 <= j < |c[k]|
      ensures !cut(c[k][j - 1], c[k][j])
    {
      if k < |p| - 1 {
        assert c[k] == p[k];
      } else if j < |Last(p)| {
        assert c[k][j - 1] == p[k][j - 1] && c[k][j] == p[k][j];
      } else {
        assert c[k][j - 1] == Last(Last(p)) && c[k][j] == a;
      }
    }
    forall k | 1 <= k < |c|
      ensures cut(Last(c[k - 1]), c[k][0])
    {
      assert c[k - 1] == p[k - 1];
      assert c[k][0] == p[k][0];
    }
  }

  /** No cut inside a chunk, and a cut between every two neighbouring chunks. */
  lemma {:induction false} SplitWhereCuts(buf: seq<Asset>, cut: (Asset, Asset) -> bool)
    ensures NoCutInside(SplitWhere(buf, cut), cut) && CutBetween(SplitWhere(buf, cut), cut)
    decreases |buf|
  {
    if buf != [] {
      var p := SplitWhere(DropLast(buf), cut);
      var a := Last(buf);
      SplitWhereCuts(DropLast(buf), cut);
      if p == [] {
        assert SplitWhere(buf, cut) == [[a]];
      } else if cut(Last(Last(p)), a) {
        assert SplitWhere(buf, cut) == p + [[a]];
        CutsNewChunk(p, a, cut);
      } else {
        assert SplitWhere(buf, cut) == DropLast(p) + [Last(p) + [a]];
        CutsJoinChunk(p, a, cut);
      }
    }
  }

  /** The time split's cut: a gap of more than one second. */
  predicate FarApart(x: Asset, y: Asset) {
    Gap(x, y) > Threshold
  }

  /** The time split: the buffer cut wherever consecutive capture dates are more than a second apart. */
  function SplitByGap(buf: seq<Asset>): seq<seq<Asset>> {
    SplitWhere(buf, FarApart)
  }

  /**
   * The time split's chunks are non-empty, concatenate back to the
   * buffer, keep gaps of at most one second inside (exactly one second
   * included), and are separated by gaps of more than one second.
   */
  lemma SplitByGapSound(buf: seq<Asset>)
    ensures var c := SplitByGap(buf);
            Flatten(c) == buf && (forall k :: 0 <= k < |c| ==> c[k] != [])
            && (forall k, j :: 0 <= k < |c| && 1 <= j < |c[k]| ==>
                  Gap(c[k][j - 1], c[k][j]) <= Threshold)
            && (forall k :: 1 <= k < |c| ==>
                  Gap(Last(c[k - 1]), c[k][0]) > Threshold)
  {
    var c: seq<seq<Asset>> := SplitByGap(buf);
    SplitWhereCuts(buf, FarApart);
    NearInside(c);
    FarBetween(c);
  }

  /** Chunks with no time cut inside keep gaps of at most one second. */
  lemma NearInside(c: seq<seq<Asset>>)
    requires NoCutInside(c, FarApart)
    ensures forall k, j :: 0 <= k < |c| && 1 <= j < |c[k]| ==>
              Gap(c[k][j - 1], c[k][j]) <= Threshold
  {
    forall k, j | 0 <= k < |c| && 1 <= j < |c[k]|
      ensures Gap(c[k][j - 1], c[k][j]) <= Threshold
    {
      assert !FarApart(c[k][j - 1], c[k][j]);
    }
  }

  /** Chunks with a time cut between neighbours are more than one second apart. */
  lemma FarBetween(c: seq<seq<Asset>>)
    requires forall k :: 0 <= k < |c| ==> c[k] != []
    requires CutBetween(c, FarApart)
    ensures forall k :: 1 <= k < |c| ==>
              Gap(Last(c[k - 1]), c[k][0]) > Threshold
  {
    forall k | 1 <= k < |c|
      ensures Gap(Last(c[k - 1]), c[k][0]) > Threshold
    {
      assert FarApart(Last(c[k - 1]), c[k][0]);
    }
  }

  /** A chunk of fewer than two assets goes out one by one; a larger chunk as one group. */
  function FlushChunk(chunk: seq<Asset>, grouping: Grouping, cover: int): (t: seq<Emission>)
    ensures AssetsOf(t) == chunk
    ensures forall k :: 0 <= k < |t| && t[k].Grouped? ==>
              |chunk| >= 2 && t[k].group == AssetGroup(grouping, chunk, cover)
  {
    if |chunk| < 2 then Singles(chunk)
    else
      var t := [Grouped(AssetGroup(grouping, chunk, cover))];
      assert DropLast(t) == [];
      t
  }

  /** The chunks flushed one after the other. */
  function EmitChunks(chunks: seq<seq<Asset>>, grouping: Grouping, cover: int): seq<Emission> {
    if chunks == [] then [] else EmitChunks(DropLast(chunks), grouping, cover) + FlushChunk(Last(chunks), grouping, cover)
  }

  /** Every emitted group has the given kind and cover index. */
  predicate GroupsShaped(t: seq<Emission>, grouping: Grouping, cover: int) {
    forall k :: 0 <= k < |t| && t[k].Grouped? ==> t[k].group.grouping == grouping && t[k].group.coverIndex == cover
  }

  lemma AtLeastTwoConcat(t: seq<Emission>, u: seq<Emission>)
    requires GroupsAtLeastTwo(t) && GroupsAtLeastTwo(u)
    ensures GroupsAtLeastTwo(t + u)
  {
    forall k | 0 <= k < |t + u| && (t + u)[k].Grouped?
      ensures |(t + u)[k].group.assets| >= 2
    {
      if k < |t| {
        assert (t + u)[k] == t[k];
      } else {
        assert (t + u)[k] == u[k - |t|];
      }
    }
  }

  lemma DrawnFromConcat(t: seq<Emission>, u: seq<Emission>, a: seq<Asset>, b: seq<Asset>)
    requires GroupsDrawnFrom(t, a) && GroupsDrawnFrom(u, b)
    ensures GroupsDrawnFrom(t + u, a + b)
  {
    forall k, x | 0 <= k < |t + u| && (t + u)[k].Grouped? && x in (t + u)[k].group.assets
      ensures x in a + b
    {
      if k < |t| {
        assert (t + u)[k] == t[k];
        assert x in a;
      } else {
        assert (t + u)[k] == u[k - |t|];
        assert x in b;
      }
    }
  }

  lemma ShapedConcat(t: seq<Emission>, u: seq<Emission>, grouping: Grouping, cover: int)
    requires GroupsShaped(t, grouping, cover) && GroupsShaped(u, grouping, cover)
    ensures GroupsShaped(t + u, grouping, cover)
  {
    forall k | 0 <= k < |t + u| && (t + u)[k].Grouped?
      ensures (t + u)[k].group.grouping == grouping && (t + u)[k].group.coverIndex == cover
    {
      if k < |t| {
        assert (t + u)[k] == t[k];
      } else {
        assert (t + u)[k] == u[k - |t|];
      }
    }
  }

  /** A flushed chunk satisfies the three group properties on its own. */
  lemma FlushChunkSound(chunk: seq<Asset>, grouping: Grouping, cover: int)
    ensures var t := FlushChunk(chunk, grouping, cover);
            GroupsAtLeastTwo(t) && GroupsDrawnFrom(t, chunk) && GroupsShaped(t, grouping, cover)
  {
  }

  /**
   * Flushing chunks sends their assets once each, in order, and every
   * group it sends has at least two members drawn from the chunks, the
   * given kind and the given cover.
   */
  lemma {:induction false} EmitChunksSound(chunks: seq<seq<Asset>>, grouping: Grouping, cover: int)
    ensures var t := EmitChunks(chunks, grouping, cover);
            AssetsOf(t) == Flatten(chunks) && GroupsAtLeastTwo(t) && GroupsDrawnFrom(t, Flatten(chunks))
            && GroupsShaped(t, grouping, cover)
    decreases |chunks|
  {
    if chunks != [] {
      var prev := EmitChunks(DropLast(chunks), grouping, cover);
      var cur := FlushChunk(Last(chunks), grouping, cover);
      assert EmitChunks(chunks, grouping, cover) == prev + cur;
      assert Flatten(chunks) == Flatten(DropLast(chunks)) + Last(chunks);
      EmitChunksSound(DropLast(chunks), grouping, cover);
      FlushChunkSound(Last(chunks), grouping, cover);
      AssetsOfAppend(prev, cur);
      AtLeastTwoConcat(prev, cur);
      DrawnFromConcat(prev, cur, Flatten(DropLast(chunks)), Last(chunks));
      ShapedConcat(prev, cur, grouping, cover);
    }
  }

  // ---------------------------------------------------------------------
  // sendGroup
  // ---------------------------------------------------------------------

  /**
   * What sendGroup sends for one buffer, with the two-member
   * GroupByNone case returning after its standalone sends.
   */
  function SendGroupSpec(buf: seq<Asset>, isRaw: string -> bool): seq<Emission> {
    if |buf| < 2 then Singles(buf)
    else
      var g := GroupingOf(buf, isRaw);
      if |buf| == 2 && g == GroupByNone then Singles(buf)
      else EmitChunks(SplitByGap(buf), g, CoverIndex(buf))
  }

  /**
   * What series.go:47-154 sends as written: the two-member GroupByNone
   * case sends both assets and then carries on into the time split.
   */
  function SendGroupAsWrittenSpec(buf: seq<Asset>, isRaw: string -> bool): seq<Emission> {
    if |buf| < 2 then Singles(buf)
    else
      var g := GroupingOf(buf, isRaw);
      (if |buf| == 2 && g == GroupByNone then Singles(buf) else [])
        + EmitChunks(SplitByGap(buf), g, CoverIndex(buf))
  }

  /**
   * sendGroup sends every asset of the buffer exactly once, in order;
   * a buffer of fewer than two never yields a group; every group has at
   * least two members drawn from the buffer, the buffer's kind, and the
   * buffer's cover index.
   */
  lemma SendGroupSound(buf: seq<Asset>, isRaw: string -> bool)
    ensures var t := SendGroupSpec(buf, isRaw);
            AssetsOf(t) == buf && GroupsAtLeastTwo(t) && GroupsDrawnFrom(t, buf)
            && (|buf| < 2 ==> forall k :: 0 <= k < |t| ==> t[k].Single?)
            && GroupsShaped(t, GroupingOf(buf, isRaw), CoverIndex(buf))
  {
    if |buf| >= 2 && !(|buf| == 2 && GroupingOf(buf, isRaw) == GroupByNone) {
      EmitChunksSound(SplitByGap(buf), GroupingOf(buf, isRaw), CoverIndex(buf));
    }
  }

  /**
   * The as-written flush sends both members of a two-member GroupByNone
   * buffer twice: once standalone, and again from the time split.
   */
  lemma AsWrittenSendsTwice(buf: seq<Asset>, isRaw: string -> bool)
    requires |buf| == 2 && GroupingOf(buf, isRaw) == GroupByNone
    ensures AssetsOf(SendGroupAsWrittenSpec(buf, isRaw)) == buf + buf
  {
    var g := GroupingOf(buf, isRaw);
    EmitChunksSound(SplitByGap(buf), g, CoverIndex(buf));
    AssetsOfAppend(Singles(buf), EmitChunks(SplitByGap(buf), g, CoverIndex(buf)));
  }

  /** Two assets at most a second apart make one chunk. */
  lemma PairSplit(a: Asset, b: Asset)
    requires !FarApart(a, b)
    ensures SplitByGap([a, b]) == [[a, b]]
  {
    SplitWhereSnoc([], a, FarApart);
    assert [] + [a] == [a];
    SplitWhereSnoc([a], b, FarApart);
    assert [a] + [b] == [a, b];
  }

  /** Two assets at most a second apart are flushed as one group. */
  lemma PairFlush(a: Asset, b: Asset, grouping: Grouping, cover: int)
    requires !FarApart(a, b)
    ensures EmitChunks(SplitByGap([a, b]), grouping, cover) == [Grouped(AssetGroup(grouping, [a, b], cover))]
  {
    PairSplit(a, b);
    assert DropLast([[a, b]]) == [];
  }

  /** A gap after the first of three assets, none after the second. */
  lemma TripleSplit(a: Asset, b: Asset, c: Asset)
    requires FarApart(a, b) && !FarApart(b, c)
    ensures SplitByGap([a, b, c]) == [[a], [b, c]]
  {
    SplitWhereSnoc([], a, FarApart);
    assert [] + [a] == [a];
    SplitWhereSnoc([a], b, FarApart);
    assert [a] + [b] == [a, b];
    var p := SplitByGap([a, b]);
    assert p == [[a]] + [[b]];
    assert Last(Last(p)) == b && DropLast(p) == [[a]] && Last(p) + [c] == [b, c];
    SplitWhereSnoc([a, b], c, FarApart);
    assert [a, b] + [c] == [a, b, c];
  }

  /** A .jpg photo and a .mp4 clip, neither a burst nor raw, form a GroupByNone pair. */
  lemma PhotoClipGrouping(a: Asset, b: Asset, isRaw: string -> bool)
    requires a.info.ext == ".jpg" && b.info.ext == ".mp4" && !isRaw(".jpg") && !isRaw(".mp4")
    requires a.info.kind == KindNone && b.info.kind == KindNone
    ensures GroupingOf([a, b], isRaw) == GroupByNone
  {
    var buf := [a, b];
    assert !AnyBurst(buf) by {
      forall i | 0 <= i < 2 ensures buf[i].info.kind == KindNone { }
    }
    assert !HasRaw(buf, isRaw) by {
      forall i | 0 <= i < 2 ensures !isRaw(buf[i].info.ext) { }
    }
    assert !HasExt(buf, ".heic") && !HasExt(buf, ".heif") by {
      forall i | 0 <= i < 2 ensures buf[i].info.ext == ".jpg" || buf[i].info.ext == ".mp4" { }
    }
    assert buf[0].info.ext == ".jpg" && buf[1].info.ext == ".mp4";
  }

  /** The two flushes of a two-member GroupByNone buffer. */
  lemma NoneFlushes(buf: seq<Asset>, isRaw: string -> bool)
    requires |buf| == 2 && GroupingOf(buf, isRaw) == GroupByNone
    ensures SendGroupSpec(buf, isRaw) == Singles(buf)
    ensures SendGroupAsWrittenSpec(buf, isRaw)
              == Singles(buf) + EmitChunks(SplitByGap(buf), GroupByNone, CoverIndex(buf))
  {
    var g := GroupingOf(buf, isRaw);
    assert !(|buf| < 2);
    assert |buf| == 2 && g == GroupByNone;
  }

  /** A buffer of three or more goes through the time split. */
  lemma LargeFlush(buf: seq<Asset>, isRaw: string -> bool)
    requires |buf| > 2
    ensures SendGroupSpec(buf, isRaw) == EmitChunks(SplitByGap(buf), GroupingOf(buf, isRaw), CoverIndex(buf))
  {
  }

  lemma SinglesPair(a: Asset, b: Asset)
    ensures Singles([a, b]) == [Single(a), Single(b)]
  {
    assert DropLast([a, b]) == [a] && DropLast([a]) == [];
  }

  lemma CoverPair(a: Asset, b: Asset)
    requires !a.info.isCover && !b.info.isCover
    ensures CoverIndex([a, b]) == 0
  {
    CoverSnoc([], a);
    assert [] + [a] == [a];
    CoverSnoc([a], b);
    assert [a] + [b] == [a, b];
  }

  /**
   * While two dates are less than about 292 years apart, the cut is the
   * plain one: more than a second between them, in either order.
   */
  lemma GapWithinRange(x: Asset, y: Asset)
    requires MinDuration < x.captureDate - y.captureDate <= MaxDuration
    ensures FarApart(x, y) <==> x.captureDate - y.captureDate > Threshold || y.captureDate - x.captureDate > Threshold
  {
  }

  /**
   * A date more than about 292 years before the next is never cut from it:
   * Sub saturates at the most negative duration, and abs leaves that one
   * negative.
   */
  lemma FarPastNeverCut(x: Asset, y: Asset)
    requires x.captureDate - y.captureDate <= MinDuration
    ensures !FarApart(x, y)
    ensures SplitByGap([x, y]) == [[x, y]]
  {
    assert Sub(x.captureDate, y.captureDate) == MinDuration;
    PairSplit(x, y);
  }

  /** A date more than about 292 years after the next saturates at the largest duration, and is cut. */
  lemma FarFutureCut(x: Asset, y: Asset)
    requires x.captureDate - y.captureDate > MaxDuration
    ensures FarApart(x, y)
    ensures SplitByGap([x, y]) == [[x], [y]]
  {
    SplitWhereSnoc([], x, FarApart);
    assert [] + [x] == [x];
    SplitWhereSnoc([x], y, FarApart);
    assert [x] + [y] == [x, y];
  }

  /** Go's zero time, 0001-01-01 UTC, in nanoseconds from the Unix epoch: the date of an asset whose date is unknown. */
  const GoZeroTime: int := -62_135_596_800_000_000_000

  /** 2023-01-01 UTC, in nanoseconds from the Unix epoch. */
  const Jan2023: int := 1_672_531_200_000_000_000

  /**
   * Two burst shots of one radical, the first with the unknown date and the
   * second taken in 2023, are sent as one group although they are more than
   * two thousand years apart.
   */
  lemma UnknownDateJoins(x: NameInfo, y: NameInfo, isRaw: string -> bool)
    requires x.kind == KindBurst && !x.isCover && !y.isCover
    ensures SendGroupSpec([Asset(x, GoZeroTime), Asset(y, Jan2023)], isRaw)
              == [Grouped(AssetGroup(GroupByBurst, [Asset(x, GoZeroTime), Asset(y, Jan2023)], 0))]
  {
    var a, b := Asset(x, GoZeroTime), Asset(y, Jan2023);
    var buf := [a, b];
    assert AnyBurst(buf) by { assert buf[0].info.kind == KindBurst; }
    assert GroupingOf(buf, isRaw) == GroupByBurst;
    CoverPair(a, b);
    FarPastNeverCut(a, b);
    PairFlush(a, b, GroupByBurst, 0);
  }

  lemma TwoChunks(c1: seq<Asset>, c2: seq<Asset>, grouping: Grouping, cover: int)
    ensures EmitChunks([c1, c2], grouping, cover) == FlushChunk(c1, grouping, cover) + FlushChunk(c2, grouping, cover)
  {
    var f1 := FlushChunk(c1, grouping, cover);
    assert DropLast([c1]) == [] && Last([c1]) == c1;
    assert EmitChunks([c1], grouping, cover) == EmitChunks([], grouping, cover) + f1;
    assert [] + f1 == f1;
    assert DropLast([c1, c2]) == [c1] && Last([c1, c2]) == c2;
  }

  /**
   * The as-written flush of a photo and a clip of one radical, for
   * instance IMG_1.jpg and IMG_1.mp4 half a second apart, sends each of
   * them standalone and then both again as a GroupByNone group; the
   * corrected flush sends each once.
   */
  lemma AsWrittenDuplicateExample(a: Asset, b: Asset, isRaw: string -> bool)
    requires a.info.ext == ".jpg" && b.info.ext == ".mp4" && !isRaw(".jpg") && !isRaw(".mp4")
    requires a.info.kind == KindNone && b.info.kind == KindNone && !a.info.isCover && !b.info.isCover
    requires Gap(a, b) <= Threshold
    ensures SendGroupAsWrittenSpec([a, b], isRaw)
              == [Single(a), Single(b), Grouped(AssetGroup(GroupByNone, [a, b], 0))]
    ensures SendGroupSpec([a, b], isRaw) == [Single(a), Single(b)]
  {
    PhotoClipGrouping(a, b, isRaw);
    NoneFlushes([a, b], isRaw);
    CoverPair(a, b);
    PairFlush(a, b, GroupByNone, 0);
    SinglesPair(a, b);
  }

  /**
   * The cover index is the buffer's, not the sub-group's: a cover shot
   * that ends up in a later sub-group gives that sub-group an index past
   * its own end.
   */
  lemma CoverMayPointPastSubgroup(x: NameInfo, y: NameInfo)
    requires x.kind == KindBurst && !x.isCover && y.kind == KindBurst && y.isCover
    ensures var buf := [Asset(x, 0), Asset(x, 5 * Threshold), Asset(y, 5 * Threshold)];
            SendGroupSpec(buf, _ => false)
              == [Single(buf[0]), Grouped(AssetGroup(GroupByBurst, buf[1..], 2))]
  {
    var buf := [Asset(x, 0), Asset(x, 5 * Threshold), Asset(y, 5 * Threshold)];
    BurstTripleFlush(buf[0], buf[1], buf[2], _ => false);
    assert buf[1..] == [buf[1], buf[2]];
  }

  /** A burst of three whose first gap is long, second short, and last member the cover. */
  lemma BurstTripleFlush(a: Asset, b: Asset, c: Asset, isRaw: string -> bool)
    requires a.info.kind == KindBurst && FarApart(a, b) && !FarApart(b, c) && c.info.isCover
    ensures SendGroupSpec([a, b, c], isRaw) == [Single(a), Grouped(AssetGroup(GroupByBurst, [b, c], 2))]
  {
    var buf := [a, b, c];
    assert AnyBurst(buf) by { assert buf[0].info.kind == KindBurst; }
    LargeFlush(buf, isRaw);
    CoverOfLast(a, b, c);
    TripleSplit(a, b, c);
    SingleThenGroup(a, [b, c], GroupByBurst, 2);
  }

  lemma CoverOfLast(a: Asset, b: Asset, c: Asset)
    requires c.info.isCover
    ensures CoverIndex([a, b, c]) == 2
  {
    CoverSnoc([a, b], c);
    assert [a, b] + [c] == [a, b, c];
  }

  lemma SingleThenGroup(a: Asset, rest: seq<Asset>, grouping: Grouping, cover: int)
    requires |rest| >= 2
    ensures EmitChunks([[a], rest], grouping, cover) == [Single(a), Grouped(AssetGroup(grouping, rest, cover))]
  {
    TwoChunks([a], rest, grouping, cover);
    assert Singles([a]) == [Single(a)] by {
      assert DropLast([a]) == [];
    }
  }

  // ---------------------------------------------------------------------
  // The imperative flush
  // ---------------------------------------------------------------------

  /** sendAsset: the assets of a buffer, one by one. */
  method SendAsset(buf: seq<Asset>) returns (t: seq<Emission>)
    ensures t == Singles(buf)
  {
    t := [];
    for i := 0 to |buf|
      invariant t == Singles(buf[..i])
    {
      assert DropLast(buf[..i + 1]) == buf[..i] && Last(buf[..i + 1]) == buf[i];
      t := t + [Single(buf[i])];
    }
    TakeAll(buf);
  }

  lemma HasExtSnoc(buf: seq<Asset>, a: Asset, ext: string)
    ensures HasExt(buf + [a], ext) <==> HasExt(buf, ext) || a.info.ext == ext
  {
    var b := buf + [a];
    if HasExt(b, ext) && !(a.info.ext == ext) {
      var i :| 0 <= i < |b| && b[i].info.ext == ext;
      assert i < |buf| && b[i] == buf[i];
    }
    if HasExt(buf, ext) {
      var i :| 0 <= i < |buf| && buf[i].info.ext == ext;
      assert b[i] == buf[i];
    }
    assert b[|buf|] == a;
  }

  lemma HasRawSnoc(buf: seq<Asset>, a: Asset, isRaw: string -> bool)
    ensures HasRaw(buf + [a], isRaw) <==> HasRaw(buf, isRaw) || isRaw(a.info.ext)
  {
    var b := buf + [a];
    if HasRaw(b, isRaw) && !isRaw(a.info.ext) {
      var i :| 0 <= i < |b| && isRaw(b[i].info.ext);
      assert i < |buf| && b[i] == buf[i];
    }
    if HasRaw(buf, isRaw) {
      var i :| 0 <= i < |buf| && isRaw(buf[i].info.ext);
      assert b[i] == buf[i];
    }
    assert b[|buf|] == a;
  }

  lemma AnyBurstSnoc(buf: seq<Asset>, a: Asset)
    ensures AnyBurst(buf + [a]) <==> AnyBurst(buf) || a.info.kind == KindBurst
  {
    var b := buf + [a];
    if AnyBurst(b) && a.info.kind != KindBurst {
      var i :| 0 <= i < |b| && b[i].info.kind == KindBurst;
      assert i < |buf| && b[i] == buf[i];
    }
    if AnyBurst(buf) {
      var i :| 0 <= i < |buf| && buf[i].info.kind == KindBurst;
      assert b[i] == buf[i];
    }
    assert b[|buf|] == a;
  }

  /** What one more asset adds to the extension flags. */
  lemma CompositionSnoc(buf: seq<Asset>, a: Asset, isRaw: string -> bool)
    ensures var c := CompositionOf(buf, isRaw);
            CompositionOf(buf + [a], isRaw)
              == Composition(c.jpg || a.info.ext == ".jpg", c.raw || isRaw(a.info.ext),
                             c.heic || a.info.ext == ".heic" || a.info.ext == ".heif",
                             c.mp4 || a.info.ext == ".mp4", c.mov || a.info.ext == ".mov")
  {
    HasExtSnoc(buf, a, ".jpg");
    HasExtSnoc(buf, a, ".heic");
    HasExtSnoc(buf, a, ".heif");
    HasExtSnoc(buf, a, ".mp4");
    HasExtSnoc(buf, a, ".mov");
    HasRawSnoc(buf, a, isRaw);
  }

  /** One more asset moves the cover to it when it is marked as cover. */
  lemma CoverSnoc(buf: seq<Asset>, a: Asset)
    ensures CoverIndex(buf + [a]) == if a.info.isCover then |buf| else CoverIndex(buf)
  {
    assert DropLast(buf + [a]) == buf && Last(buf + [a]) == a;
  }

  /** The first loop of sendGroup: burst detection, extension flags and cover. */
  method ScanBuffer(buf: seq<Asset>, isRaw: string -> bool) returns (grouping: Grouping, cover: nat, c: Composition)
    ensures grouping == (if AnyBurst(buf) then GroupByBurst else GroupByOther)
    ensures cover == CoverIndex(buf)
    ensures c == CompositionOf(buf, isRaw)
  {
    grouping := GroupByOther;
    c := Composition(false, false, false, false, false);
    cover := 0;
    for i := 0 to |buf|
      invariant grouping == (if AnyBurst(buf[..i]) then GroupByBurst else GroupByOther)
      invariant cover == CoverIndex(buf[..i])
      invariant c == CompositionOf(buf[..i], isRaw)
    {
      var a := buf[i];
      TakeSnoc(buf, i);
      CompositionSnoc(buf[..i], a, isRaw);
      AnyBurstSnoc(buf[..i], a);
      CoverSnoc(buf[..i], a);
      c := Composition(c.jpg || a.info.ext == ".jpg", c.raw || isRaw(a.info.ext),
                       c.heic || a.info.ext == ".heic" || a.info.ext == ".heif",
                       c.mp4 || a.info.ext == ".mp4", c.mov || a.info.ext == ".mov");
      if grouping == GroupByOther {
        if a.info.kind == KindBurst {
          grouping := GroupByBurst;
        }
      }
      if a.info.isCover {
        cover := i;
      }
    }
    TakeAll(buf);
  }

  lemma SplitWhereSnoc(buf: seq<Asset>, a: Asset, cut: (Asset, Asset) -> bool)
    ensures var p := SplitWhere(buf, cut);
            SplitWhere(buf + [a], cut)
              == if p == [] then [[a]]
                 else if cut(Last(Last(p)), a) then p + [[a]]
                 else DropLast(p) + [Last(p) + [a]]
  {
    assert DropLast(buf + [a]) == buf && Last(buf + [a]) == a;
  }

  /**
   * The state of the time split after reading `prefix`: every chunk but
   * the last has been flushed, and the last is the buffer being filled.
   */
  predicate SplitState(prefix: seq<Asset>, current: seq<Asset>, t: seq<Emission>, grouping: Grouping, cover: int) {
    if prefix == [] then current == [] && t == []
    else
      var p := SplitByGap(prefix);
      p != [] && current == Last(p) && t == EmitChunks(DropLast(p), grouping, cover)
  }

  /** The first asset opens the buffer. */
  lemma SplitOpen(prefix: seq<Asset>, a: Asset, t: seq<Emission>, grouping: Grouping, cover: int)
    requires SplitState(prefix, [], t, grouping, cover)
    ensures SplitState(prefix + [a], [a], t, grouping, cover)
  {
    SplitWhereSnoc(prefix, a, FarApart);
    assert prefix + [a] == [a];
  }

  /** An asset more than a second after the buffer's last closes it and opens a new one. */
  lemma SplitClose(prefix: seq<Asset>, a: Asset, current: seq<Asset>, t: seq<Emission>, grouping: Grouping, cover: int)
    requires SplitState(prefix, current, t, grouping, cover)
    requires current != [] && FarApart(Last(current), a)
    ensures SplitState(prefix + [a], [a], t + FlushChunk(current, grouping, cover), grouping, cover)
  {
    SplitWhereSnoc(prefix, a, FarApart);
    var p := SplitByGap(prefix);
    assert p == DropLast(p) + [Last(p)];
    assert DropLast(p + [[a]]) == p;
  }

  /** An asset at most a second after the buffer's last joins it. */
  lemma SplitJoin(prefix: seq<Asset>, a: Asset, current: seq<Asset>, t: seq<Emission>, grouping: Grouping, cover: int)
    requires SplitState(prefix, current, t, grouping, cover)
    requires current != [] && !FarApart(Last(current), a)
    ensures SplitState(prefix + [a], current + [a], t, grouping, cover)
  {
    SplitWhereSnoc(prefix, a, FarApart);
    var p := SplitByGap(prefix);
    assert DropLast(DropLast(p) + [Last(p) + [a]]) == DropLast(p);
  }

  /** At the end of the buffer, flushing the last chunk completes the split. */
  lemma SplitDone(buf: seq<Asset>, current: seq<Asset>, t: seq<Emission>, grouping: Grouping, cover: int)
    requires SplitState(buf, current, t, grouping, cover)
    ensures current == [] ==> t == EmitChunks(SplitByGap(buf), grouping, cover)
    ensures current != [] ==> t + FlushChunk(current, grouping, cover) == EmitChunks(SplitByGap(buf), grouping, cover)
  {
  }

  /** Sending a closed chunk: sendAsset for a chunk of one, one group otherwise. */
  method SendChunk(current: seq<Asset>, grouping: Grouping, cover: int) returns (t: seq<Emission>)
    requires current != []
    ensures t == FlushChunk(current, grouping, cover)
  {
    if |current| == 1 {
      t := SendAsset(current);
    } else {
      t := [Grouped(AssetGroup(grouping, current, cover))];
    }
  }

  /** The time split's variables: the buffer being filled and what has been sent. */
  datatype Splitter = Splitter(current: seq<Asset>, sent: seq<Emission>)

  /** One pass of the time split's loop. */
  function SplitFeed(s: Splitter, a: Asset, grouping: Grouping, cover: int): Splitter {
    if s.current == [] then Splitter([a], s.sent)
    else if FarApart(Last(s.current), a) then Splitter([a], s.sent + FlushChunk(s.current, grouping, cover))
    else Splitter(s.current + [a], s.sent)
  }

  /** The time split's variables after reading `prefix`. */
  function SplitFeedAll(prefix: seq<Asset>, grouping: Grouping, cover: int): Splitter {
    if prefix == [] then Splitter([], [])
    else SplitFeed(SplitFeedAll(DropLast(prefix), grouping, cover), Last(prefix), grouping, cover)
  }

  /** One pass of the time split's loop keeps SplitState. */
  lemma SplitFeedStep(p: seq<Asset>, a: Asset, s: Splitter, grouping: Grouping, cover: int)
    requires SplitState(p, s.current, s.sent, grouping, cover)
    ensures var s' := SplitFeed(s, a, grouping, cover);
            SplitState(p + [a], s'.current, s'.sent, grouping, cover)
  {
    if s.current == [] {
      SplitOpen(p, a, s.sent, grouping, cover);
    } else if FarApart(Last(s.current), a) {
      SplitClose(p, a, s.current, s.sent, grouping, cover);
    } else {
      SplitJoin(p, a, s.current, s.sent, grouping, cover);
    }
  }

  /** After any prefix, the loop's variables hold the chunks flushed so far and the open chunk. */
  lemma {:induction false} SplitFeedAllState(prefix: seq<Asset>, grouping: Grouping, cover: int)
    ensures var s := SplitFeedAll(prefix, grouping, cover);
            SplitState(prefix, s.current, s.sent, grouping, cover)
    decreases |prefix|
  {
    if prefix != [] {
      var p, a := DropLast(prefix), Last(prefix);
      assert p + [a] == prefix;
      SplitFeedAllState(p, grouping, cover);
      SplitFeedStep(p, a, SplitFeedAll(p, grouping, cover), grouping, cover);
    }
  }

  /** The body of the time split's loop (series.go:108-126). */
  method SplitNext(a: Asset, current: seq<Asset>, t: seq<Emission>, grouping: Grouping, cover: int)
    returns (current': seq<Asset>, t': seq<Emission>)
    ensures Splitter(current', t') == SplitFeed(Splitter(current, t), a, grouping, cover)
  {
    current', t' := current, t;
    if |current| == 0 {
      current' := [a];
    } else {
      var last := current[|current| - 1];
      if Abs(Sub(last.captureDate, a.captureDate)) > Threshold {
        var s := SendChunk(current, grouping, cover);
        t' := t + s;
        current' := [a];
      } else {
        current' := current + [a];
      }
    }
  }

  /** The end of the time split: the chunk still open is flushed. */
  method SplitFinish(ghost buf: seq<Asset>, current: seq<Asset>, t: seq<Emission>, grouping: Grouping, cover: int)
    returns (t': seq<Emission>)
    requires SplitState(buf, current, t, grouping, cover)
    ensures t' == EmitChunks(SplitByGap(buf), grouping, cover)
  {
    SplitDone(buf, current, t, grouping, cover);
    t' := t;
    if |current| > 0 {
      var s := SendChunk(current, grouping, cover);
      t' := t + s;
    }
  }

  /** The time split of sendGroup (series.go:107-153). */
  method SplitAndSend(buf: seq<Asset>, grouping: Grouping, cover: int) returns (t: seq<Emission>)
    ensures t == EmitChunks(SplitByGap(buf), grouping, cover)
  {
    t := [];
    var current: seq<Asset> := [];
    for i := 0 to |buf|
      invariant Splitter(current, t) == SplitFeedAll(buf[..i], grouping, cover)
    {
      assert DropLast(buf[..i + 1]) == buf[..i];
      current, t := SplitNext(buf[i], current, t, grouping, cover);
    }
    TakeAll(buf);
    SplitFeedAllState(buf, grouping, cover);
    t := SplitFinish(buf, current, t, grouping, cover);
  }

  /** The extension rules of sendGroup for a buffer of exactly two (series.go:85-95). */
  function TwoMemberGrouping(grouping: Grouping, c: Composition): Grouping {
    if grouping != GroupByOther then grouping
    else if c.jpg && c.raw && !c.heic then GroupByRawJpg
    else if c.jpg && !c.raw && c.heic then GroupByHeicJpg
    else if (c.mp4 || c.mov) && (c.jpg || c.heic) then GroupByNone
    else grouping
  }

  /** sendGroup as written, including the fall-through after the GroupByNone sends. */
  method SendGroupAsWritten(buf: seq<Asset>, isRaw: string -> bool) returns (t: seq<Emission>)
    ensures t == SendGroupAsWrittenSpec(buf, isRaw)
  {
    if |buf| < 2 {
      t := SendAsset(buf);
      return;
    }
    var grouping, cover, c := ScanBuffer(buf, isRaw);
    t := [];
    if |buf| == 2 {
      grouping := TwoMemberGrouping(grouping, c);
      if grouping == GroupByNone {
        t := SendAsset(buf);
      }
    }
    var rest := SplitAndSend(buf, grouping, cover);
    t := t + rest;
  }

  /** sendGroup with the GroupByNone case ending after its standalone sends. */
  method SendGroup(buf: seq<Asset>, isRaw: string -> bool) returns (t: seq<Emission>)
    ensures t == SendGroupSpec(buf, isRaw)
  {
    if |buf| < 2 {
      t := SendAsset(buf);
      return;
    }
    var grouping, cover, c := ScanBuffer(buf, isRaw);
    if |buf| == 2 {
      grouping := TwoMemberGrouping(grouping, c);
      if grouping == GroupByNone {
        t := SendAsset(buf);
        return;
      }
    }
    t := SplitAndSend(buf, grouping, cover);
  }

  // ---------------------------------------------------------------------
  // Group: runs of equal radicals
  // ---------------------------------------------------------------------

  /** A change of radical between two neighbours. */
  predicate RadicalChanges(x: Asset, y: Asset) {
    x.info.radical != y.info.radical
  }

  /** The input cut into maximal runs of equal radical. */
  function Runs(buf: seq<Asset>): seq<seq<Asset>> {
    SplitWhere(buf, RadicalChanges)
  }

  /** One radical throughout. */
  predicate SameRadical(buf: seq<Asset>) {
    forall j :: 0 <= j < |buf| ==> buf[j].info.radical == buf[0].info.radical
  }

  lemma {:induction false} NoChangeSameRadical(buf: seq<Asset>)
    requires forall j :: 1 <= j < |buf| ==> !RadicalChanges(buf[j - 1], buf[j])
    ensures SameRadical(buf)
    decreases |buf|
  {
    if |buf| > 1 {
      NoChangeSameRadical(DropLast(buf));
      assert DropLast(buf)[0] == buf[0] && DropLast(buf)[|buf| - 2] == buf[|buf| - 2];
    }
  }

  /**
   * The runs are non-empty, concatenate back to the input, carry one
   * radical each, and each next run has a different radical.
   */
  lemma RunsSound(buf: seq<Asset>)
    ensures var runs := Runs(buf);
            Flatten(runs) == buf && (forall k :: 0 <= k < |runs| ==> runs[k] != [] && SameRadical(runs[k]))
            && forall k :: 1 <= k < |runs| ==> runs[k - 1][0].info.radical != runs[k][0].info.radical
  {
    var runs := Runs(buf);
    SplitWhereCuts(buf, RadicalChanges);
    forall k | 0 <= k < |runs|
      ensures SameRadical(runs[k])
    {
      forall j | 1 <= j < |runs[k]|
        ensures !RadicalChanges(runs[k][j - 1], runs[k][j])
      {
      }
      NoChangeSameRadical(runs[k]);
    }
    forall k | 1 <= k < |runs|
      ensures runs[k - 1][0].info.radical != runs[k][0].info.radical
    {
      assert RadicalChanges(Last(runs[k - 1]), runs[k][0]);
      assert SameRadical(runs[k - 1]);
      assert Last(runs[k - 1]) == runs[k - 1][|runs[k - 1]| - 1];
    }
  }

  /** The sendGroup Group calls: as series.go writes it, or with the two-member GroupByNone case corrected. */
  datatype Version = AsWritten | Corrected

  /** The flush of one buffer by the given version of sendGroup. */
  function Flush(buf: seq<Asset>, isRaw: string -> bool, v: Version): seq<Emission> {
    if v == Corrected then SendGroupSpec(buf, isRaw) else SendGroupAsWrittenSpec(buf, isRaw)
  }

  /** sendGroup in the given version. */
  method SendGroupAs(buf: seq<Asset>, isRaw: string -> bool, v: Version) returns (t: seq<Emission>)
    ensures v == Corrected ==> t == SendGroupSpec(buf, isRaw)
    ensures v == AsWritten ==> t == SendGroupAsWrittenSpec(buf, isRaw)
  {
    if v == Corrected {
      t := SendGroup(buf, isRaw);
    } else {
      t := SendGroupAsWritten(buf, isRaw);
    }
  }

  /** The flushes of a sequence of runs, one after the other. */
  function FlushAll(runs: seq<seq<Asset>>, isRaw: string -> bool, v: Version): seq<Emission> {
    if runs == [] then [] else FlushAll(DropLast(runs), isRaw, v) + Flush(Last(runs), isRaw, v)
  }

  /**
   * The state of Group after reading `prefix`: every run but the last has
   * been flushed, the last is the buffer, and the current radical is the
   * last asset's.
   */
  predicate GroupState(prefix: seq<Asset>, radical: string, group: seq<Asset>, t: seq<Emission>, isRaw: string -> bool, v: Version) {
    if prefix == [] then group == [] && t == []
    else
      var p := Runs(prefix);
      p != [] && group == Last(p) && radical == Last(prefix).info.radical && t == FlushAll(DropLast(p), isRaw, v)
  }

  /** A first asset, or a new radical after an empty buffer, starts a run. */
  lemma GroupOpen(prefix: seq<Asset>, a: Asset, radical: string, t: seq<Emission>, isRaw: string -> bool, v: Version)
    requires GroupState(prefix, radical, [], t, isRaw, v)
    ensures GroupState(prefix + [a], a.info.radical, [a], t, isRaw, v)
  {
    SplitWhereSnoc(prefix, a, RadicalChanges);
    assert prefix + [a] == [a];
  }

  /** A new radical flushes the buffer and starts a new run. */
  lemma GroupFlush(prefix: seq<Asset>, a: Asset, radical: string, group: seq<Asset>, t: seq<Emission>,
                   isRaw: string -> bool, v: Version)
    requires GroupState(prefix, radical, group, t, isRaw, v)
    requires a.info.radical != radical && group != []
    ensures GroupState(prefix + [a], a.info.radical, [a], t + Flush(group, isRaw, v), isRaw, v)
  {
    SplitWhereSnoc(prefix, a, RadicalChanges);
    assert Last(prefix + [a]) == a;
    var p := Runs(prefix);
    assert p == DropLast(p) + [Last(p)];
    assert DropLast(p + [[a]]) == p;
  }

  /** The same radical joins the run. */
  lemma GroupJoin(prefix: seq<Asset>, a: Asset, radical: string, group: seq<Asset>, t: seq<Emission>,
                  isRaw: string -> bool, v: Version)
    requires GroupState(prefix, radical, group, t, isRaw, v)
    requires a.info.radical == radical && group != []
    ensures GroupState(prefix + [a], radical, group + [a], t, isRaw, v)
  {
    SplitWhereSnoc(prefix, a, RadicalChanges);
    assert Last(prefix + [a]) == a;
    var p := Runs(prefix);
    assert DropLast(DropLast(p) + [Last(p) + [a]]) == DropLast(p);
  }

  /** At end of input, flushing the buffer completes the flush of every run. */
  lemma GroupDone(input: seq<Asset>, radical: string, group: seq<Asset>, t: seq<Emission>, isRaw: string -> bool, v: Version)
    requires GroupState(input, radical, group, t, isRaw, v)
    ensures group == [] ==> t == FlushAll(Runs(input), isRaw, v)
    ensures group != [] ==> t + Flush(group, isRaw, v) == FlushAll(Runs(input), isRaw, v)
  {
  }

  /** Group's variables: the current radical, the buffer, and what has been sent. */
  datatype Grouper = Grouper(radical: string, group: seq<Asset>, sent: seq<Emission>)

  /** One pass of Group's loop: flush on a change of radical, then append the asset to the buffer. */
  function Feed(s: Grouper, a: Asset, isRaw: string -> bool, v: Version): Grouper {
    if a.info.radical != s.radical then
      Grouper(a.info.radical, [a], if |s.group| > 0 then s.sent + Flush(s.group, isRaw, v) else s.sent)
    else Grouper(s.radical, s.group + [a], s.sent)
  }

  /** Group's variables after reading `prefix`, starting from an empty radical. */
  function FeedAll(prefix: seq<Asset>, isRaw: string -> bool, v: Version): Grouper {
    if prefix == [] then Grouper("", [], []) else Feed(FeedAll(DropLast(prefix), isRaw, v), Last(prefix), isRaw, v)
  }

  /** After any prefix, the loop's variables hold the runs flushed so far and the open run. */
  lemma {:induction false} FeedAllState(prefix: seq<Asset>, isRaw: string -> bool, v: Version)
    ensures var s := FeedAll(prefix, isRaw, v);
            GroupState(prefix, s.radical, s.group, s.sent, isRaw, v)
    decreases |prefix|
  {
    if prefix != [] {
      var p, a := DropLast(prefix), Last(prefix);
      assert p + [a] == prefix;
      FeedAllState(p, isRaw, v);
      FeedStep(p, a, FeedAll(p, isRaw, v), isRaw, v);
    }
  }

  /** One pass of the loop keeps GroupState. */
  lemma FeedStep(p: seq<Asset>, a: Asset, s: Grouper, isRaw: string -> bool, v: Version)
    requires GroupState(p, s.radical, s.group, s.sent, isRaw, v)
    ensures var s' := Feed(s, a, isRaw, v);
            GroupState(p + [a], s'.radical, s'.group, s'.sent, isRaw, v)
  {
    FeedCases(s, a, isRaw, v);
    if a.info.radical != s.radical {
      if |s.group| > 0 {
        GroupFlush(p, a, s.radical, s.group, s.sent, isRaw, v);
      } else {
        GroupOpen(p, a, s.radical, s.sent, isRaw, v);
      }
    } else if s.group == [] {
      assert [] + [a] == [a];
      GroupOpen(p, a, s.radical, s.sent, isRaw, v);
    } else {
      GroupJoin(p, a, s.radical, s.group, s.sent, isRaw, v);
    }
  }

  /** The three outcomes of one pass of the loop. */
  lemma FeedCases(s: Grouper, a: Asset, isRaw: string -> bool, v: Version)
    ensures a.info.radical != s.radical && |s.group| > 0 ==>
              Feed(s, a, isRaw, v) == Grouper(a.info.radical, [a], s.sent + Flush(s.group, isRaw, v))
    ensures a.info.radical != s.radical && |s.group| == 0 ==> Feed(s, a, isRaw, v) == Grouper(a.info.radical, [a], s.sent)
    ensures a.info.radical == s.radical ==> Feed(s, a, isRaw, v) == Grouper(s.radical, s.group + [a], s.sent)
  {
  }

  /** The body of Group's loop. */
  method GroupNext(a: Asset, radical: string, group: seq<Asset>, t: seq<Emission>, isRaw: string -> bool, v: Version)
    returns (radical': string, group': seq<Asset>, t': seq<Emission>)
    ensures Grouper(radical', group', t') == Feed(Grouper(radical, group, t), a, isRaw, v)
  {
    radical', group', t' := radical, group, t;
    if a.info.radical != radical {
      if |group| > 0 {
        var s := SendGroupAs(group, isRaw, v);
        t' := t + s;
      }
      group' := [];
      radical' := a.info.radical;
    }
    group' := group' + [a];
  }

  /** The end of Group's input: the buffer still held is flushed. */
  method GroupFinish(ghost input: seq<Asset>, radical: string, group: seq<Asset>, t: seq<Emission>,
                     isRaw: string -> bool, v: Version)
    returns (t': seq<Emission>)
    requires GroupState(input, radical, group, t, isRaw, v)
    ensures t' == FlushAll(Runs(input), isRaw, v)
  {
    GroupDone(input, radical, group, t, isRaw, v);
    t' := t;
    if |group| > 0 {
      var s := SendGroupAs(group, isRaw, v);
      t' := t + s;
    }
  }

  /**
   * series.Group: buffer while the radical repeats, flush on change and at
   * end of input, with the given version of sendGroup. Called with
   * AsWritten it is the program as it stands; with Corrected it is the
   * program once its two-member GroupByNone case returns.
   */
  method Group(input: seq<Asset>, isRaw: string -> bool, v: Version) returns (t: seq<Emission>)
    ensures t == FlushAll(Runs(input), isRaw, v)
  {
    var currentRadical: string := "";
    var currentGroup: seq<Asset> := [];
    t := [];
    for i := 0 to |input|
      invariant Grouper(currentRadical, currentGroup, t) == FeedAll(input[..i], isRaw, v)
    {
      assert DropLast(input[..i + 1]) == input[..i];
      currentRadical, currentGroup, t := GroupNext(input[i], currentRadical, currentGroup, t, isRaw, v);
    }
    TakeAll(input);
    FeedAllState(input, isRaw, v);
    t := GroupFinish(input, currentRadical, currentGroup, t, isRaw, v);
  }

  /** No emitted group mixes radicals. */
  predicate GroupsSameRadical(t: seq<Emission>) {
    forall k :: 0 <= k < |t| && t[k].Grouped? ==> SameRadical(t[k].group.assets)
  }

  lemma SameRadicalConcat(t: seq<Emission>, u: seq<Emission>)
    requires GroupsSameRadical(t) && GroupsSameRadical(u)
    ensures GroupsSameRadical(t + u)
  {
    forall k | 0 <= k < |t + u| && (t + u)[k].Grouped?
      ensures SameRadical((t + u)[k].group.assets)
    {
      if k < |t| {
        assert (t + u)[k] == t[k];
      } else {
        assert (t + u)[k] == u[k - |t|];
      }
    }
  }

  lemma MemberRadical(r: seq<Asset>, x: Asset)
    requires SameRadical(r) && x in r
    ensures x.info.radical == r[0].info.radical
  {
    var i :| 0 <= i < |r| && r[i] == x;
  }

  /** Groups drawn from a run of one radical carry that one radical. */
  lemma DrawnSameRadical(t: seq<Emission>, r: seq<Asset>)
    requires SameRadical(r) && GroupsDrawnFrom(t, r)
    ensures GroupsSameRadical(t)
  {
    forall k | 0 <= k < |t| && t[k].Grouped?
      ensures SameRadical(t[k].group.assets)
    {
      var g := t[k].group.assets;
      forall j | 0 <= j < |g|
        ensures g[j].info.radical == g[0].info.radical
      {
        assert g[j] in g && g[0] in g;
        MemberRadical(r, g[j]);
        MemberRadical(r, g[0]);
      }
    }
  }

  /**
   * Over the whole input, Group sends every asset exactly once and in
   * input order, never a group of fewer than two, and never a group that
   * mixes radicals.
   */
  lemma {:induction false} GroupSound(runs: seq<seq<Asset>>, isRaw: string -> bool)
    requires forall k :: 0 <= k < |runs| ==> SameRadical(runs[k])
    ensures var t := FlushAll(runs, isRaw, Corrected);
            AssetsOf(t) == Flatten(runs) && GroupsAtLeastTwo(t) && GroupsSameRadical(t)
    decreases |runs|
  {
    if runs != [] {
      var r := Last(runs);
      var prev := FlushAll(DropLast(runs), isRaw, Corrected);
      var cur := SendGroupSpec(r, isRaw);
      assert FlushAll(runs, isRaw, Corrected) == prev + cur;
      assert Flatten(runs) == Flatten(DropLast(runs)) + r;
      GroupSound(DropLast(runs), isRaw);
      SendGroupSound(r, isRaw);
      AssetsOfAppend(prev, cur);
      AtLeastTwoConcat(prev, cur);
      DrawnSameRadical(cur, r);
      SameRadicalConcat(prev, cur);
    }
  }

  /** The input runs all carry one radical each, so Group's output is sound for every input. */
  lemma GroupEmitsInputOnce(input: seq<Asset>, isRaw: string -> bool)
    ensures var t := FlushAll(Runs(input), isRaw, Corrected);
            AssetsOf(t) == input && GroupsAtLeastTwo(t) && GroupsSameRadical(t)
  {
    RunsSound(input);
    GroupSound(Runs(input), isRaw);
  }

  /**
   * Group as written sends a photo and its clip twice when they are the
   * only assets of their radical: IMG_1.jpg and IMG_1.mp4 half a second
   * apart come out as two standalone assets and then as a group of both.
   * With the corrected sendGroup they come out once each.
   */
  lemma GroupAsWrittenDuplicate(a: Asset, b: Asset, isRaw: string -> bool)
    requires a.info.radical == b.info.radical
    requires a.info.ext == ".jpg" && b.info.ext == ".mp4" && !isRaw(".jpg") && !isRaw(".mp4")
    requires a.info.kind == KindNone && b.info.kind == KindNone && !a.info.isCover && !b.info.isCover
    requires Gap(a, b) <= Threshold
    ensures FlushAll(Runs([a, b]), isRaw, AsWritten)
              == [Single(a), Single(b), Grouped(AssetGroup(GroupByNone, [a, b], 0))]
    ensures FlushAll(Runs([a, b]), isRaw, Corrected) == [Single(a), Single(b)]
  {
    RunsOfPair(a, b);
    FlushAllOne([a, b], isRaw, AsWritten);
    FlushAllOne([a, b], isRaw, Corrected);
    AsWrittenDuplicateExample(a, b, isRaw);
  }

  /** Two assets of one radical make one run. */
  lemma RunsOfPair(a: Asset, b: Asset)
    requires a.info.radical == b.info.radical
    ensures Runs([a, b]) == [[a, b]]
  {
    SplitWhereSnoc([], a, RadicalChanges);
    assert [] + [a] == [a];
    SplitWhereSnoc([a], b, RadicalChanges);
    assert [a] + [b] == [a, b];
  }

  lemma FlushAllOne(r: seq<Asset>, isRaw: string -> bool, v: Version)
    ensures FlushAll([r], isRaw, v) == Flush(r, isRaw, v)
  {
    assert DropLast([r]) == [] && Last([r]) == r;
  }
}
