/**
 * The filename classifier of package internal/filenames: `Nexus` and the
 * `GetInfo` dispatcher. Both are pure string parsers configured by a time
 * zone and a table of supported media extensions; the exact outputs they
 * must produce are fixed by the package's test tables, each of which is a
 * lemma at the end of this module.
 *
 * Naming schemes (`d` a decimal digit):
 *   Nexus burst   <d+><label>_<d+>_BURST<d{14,}>[_COVER]<ext>
 *   Samsung burst <d{8}>_<d{6}>_<d{3}><ext>
 *   Pixel         PXL_<d{8}>_<d{6}><rest><ext>
 *   plain         anything else; a <d{8}>_<d{6}> run, if any, dates it
 */
module Filenames {
  import opened Wrappers
  import opened GoStrings
  import opened Media

  /** filenames.KindNone / KindBurst */
  datatype Kind = KindNone | KindBurst

  /** The two time zones the test tables use: time.Local and time.UTC. */
  datatype Zone = Local | UTC

  datatype WallClock = WallClock(year: int, month: int, day: int, hour: int, minute: int, second: int)

  /** time.Time restricted to what a file name can encode; `NoTime` is the zero time. */
  datatype Taken = NoTime | At(clock: WallClock, zone: Zone)

  /** filenames.NameInfo */
  datatype NameInfo = NameInfo(
    radical: string,
    base: string,
    isCover: bool,
    ext: string,
    mediaType: MediaType,
    kind: Kind,
    index: int,
    taken: Taken)

  /** filenames.InfoCollector: the zone names are read in, and the supported media by lower-case extension. */
  datatype InfoCollector = InfoCollector(tz: Zone, sm: map<string, MediaType>)

  /** SupportedMedia.TypeFromExt: extensions are looked up in lower case; unknown ones are TypeUnknown. */
  function TypeFromExt(ic: InfoCollector, ext: string): (t: MediaType)
    ensures ToLower(ext) !in ic.sm ==> t == TypeUnknown
    ensures ToLower(ext) in ic.sm ==> t == ic.sm[ToLower(ext)]
  {
    var e := ToLower(ext);
    if e in ic.sm then ic.sm[e] else TypeUnknown
  }

  /** The lookup ignores case: an extension, its lower-case and its upper-case spelling all have one type. */
  lemma TypeFromExtIgnoresCase(ic: InfoCollector, ext: string)
    ensures TypeFromExt(ic, ToLower(ext)) == TypeFromExt(ic, ext)
    ensures TypeFromExt(ic, ToUpper(ext)) == TypeFromExt(ic, ext)
  {
    assert forall i :: 0 <= i < |ext| ==> ToLower(ToLower(ext))[i] == ToLower(ext)[i];
    assert forall i :: 0 <= i < |ext| ==> ToLower(ToUpper(ext))[i] == ToLower(ext)[i];
    assert ToLower(ToLower(ext)) == ToLower(ext);
    assert ToLower(ToUpper(ext)) == ToLower(ext);
  }

  // ---------------------------------------------------------------------
  // Scanning helpers
  // ---------------------------------------------------------------------

  /** Length of the longest all-digit prefix. */
  function LeadingDigits(s: string): (n: nat)
    ensures n <= |s| && AllDigits(s[..n])
    ensures n < |s| ==> !IsDigit(s[n])
  {
    if s == [] || !IsDigit(s[0]) then 0
    else
      var m := LeadingDigits(s[1..]);
      assert s[..m + 1] == [s[0]] + s[1..][..m];
      m + 1
  }

  lemma {:induction false} LeadingDigitsOf(d: string, r: string)
    requires AllDigits(d)
    requires r == [] || !IsDigit(r[0])
    ensures LeadingDigits(d + r) == |d|
  {
    if d != [] {
      assert (d + r)[1..] == d[1..] + r;
      LeadingDigitsOf(d[1..], r);
    } else {
      assert d + r == r;
    }
  }

  /** strings.IndexByte: the first position of `c`, or -1. */
  function IndexOf(s: string, c: char): (i: int)
    ensures -1 <= i < |s|
    ensures i >= 0 ==> s[i] == c && c !in s[..i]
    ensures i < 0 ==> c !in s
  {
    if s == [] then -1
    else if s[0] == c then 0
    else
      var j := IndexOf(s[1..], c);
      if j < 0 then -1
      else
        assert s[..j + 1] == [s[0]] + s[1..][..j];
        j + 1
  }

  lemma {:induction false} IndexOfFirst(x: string, c: char, y: string)
    requires c !in x
    ensures IndexOf(x + [c] + y, c) == |x|
  {
    if x != [] {
      assert (x + [c] + y)[1..] == x[1..] + [c] + y;
      IndexOfFirst(x[1..], c, y);
    }
  }

  /** path.Ext of a name that is a dot-free prefix followed by a single extension is that extension. */
  lemma {:induction false} ExtOf(x: string, e: string)
    requires '.' !in x
    requires e == [] || (e[0] == '.' && '.' !in e[1..] && '/' !in e)
    ensures Ext(x + e) == e
    decreases |e|
  {
    if e == [] {
      assert x + e == x;
      ExtNoDot(x);
    } else if |e| == 1 {
      assert (x + e)[|x + e| - 1] == '.';
    } else {
      var c := e[|e| - 1];
      var e' := e[..|e| - 1];
      assert e'[1..] == e[1..][..|e| - 2];
      assert c in e[1..];
      ExtOf(x, e');
      assert (x + e)[..|x + e| - 1] == x + e';
    }
  }

  lemma {:induction false} ExtNoDot(x: string)
    requires '.' !in x
    ensures Ext(x) == []
    decreases |x|
  {
    if x != [] {
      assert x[|x| - 1] in x;
      ExtNoDot(x[..|x| - 1]);
    }
  }

  /** The name with its extension removed. */
  function Stem(name: string): (stem: string)
    ensures stem + Ext(name) == name
  {
    TrimSuffix(name, Ext(name))
  }

  lemma StemOf(x: string, e: string)
    requires '.' !in x
    requires e == [] || (e[0] == '.' && '.' !in e[1..] && '/' !in e)
    ensures Ext(x + e) == e && Stem(x + e) == x
  {
    ExtOf(x, e);
    var s := Stem(x + e);
    assert s + e == x + e;
    assert s == (s + e)[..|s|];
  }

  /** A well-formed extension: a dot followed by neither dot nor slash, or nothing. */
  predicate IsExt(e: string) {
    e == [] || (e[0] == '.' && '.' !in e[1..] && '/' !in e)
  }

  // ---------------------------------------------------------------------
  // Fixed-width date and time fields (the YYYYMMDDHHMMSS layout)
  // ---------------------------------------------------------------------

  function Two(s: string, i: nat): nat
    requires i + 2 <= |s| && IsDigit(s[i]) && IsDigit(s[i + 1])
  {
    DigitOf(s[i]) * 10 + DigitOf(s[i + 1])
  }

  /** The wall clock written as YYYYMMDDHHMMSS in the first 14 characters of `s`. */
  function ClockOf(s: string): WallClock
    requires |s| >= 14 && AllDigits(s[..14])
  {
    assert forall i :: 0 <= i < 14 ==> s[..14][i] == s[i];
    WallClock(Two(s, 0) * 100 + Two(s, 2), Two(s, 4), Two(s, 6), Two(s, 8), Two(s, 10), Two(s, 12))
  }

  predicate IsLeap(year: int) {
    year % 4 == 0 && (year % 100 != 0 || year % 400 == 0)
  }

  function DaysIn(year: int, month: int): int
    requires 1 <= month <= 12
  {
    if month == 2 then (if IsLeap(year) then 29 else 28)
    else if month == 4 || month == 6 || month == 9 || month == 11 then 30
    else 31
  }

  /** The range checks of time.ParseInLocation for this layout. */
  predicate ValidClock(c: WallClock) {
    1 <= c.month <= 12 && 1 <= c.day <= DaysIn(c.year, c.month)
    && 0 <= c.hour < 24 && 0 <= c.minute < 60 && 0 <= c.second < 60
  }

  // ---------------------------------------------------------------------
  // Nexus bursts
  // ---------------------------------------------------------------------

  /**
   * InfoCollector.Nexus: `<d+><label>_<d+>_BURST<d{14,}>[_COVER]<ext>`.
   * The radical keeps every digit after BURST; the first 14 are the
   * capture time in the collector's zone; the index is the value of the
   * leading digit run; the label is not interpreted.
   */
  function Nexus(ic: InfoCollector, name: string): (r: Option<NameInfo>)
    ensures r.Some? ==> r.value.base == name && r.value.ext == Ext(name)
    ensures r.Some? ==> r.value.kind == KindBurst && r.value.mediaType == TypeFromExt(ic, Ext(name))
  {
    match NexusSplit(Stem(name))
    case None => None
    case Some((lead, rest)) => BurstPart(ic, name, DecimalValue(lead), rest)
  }

  /**
   * The leading digit run of a Nexus stem, and what follows the first
   * underscore after a non-empty label.
   */
  function NexusSplit(stem: string): (r: Option<(string, string)>)
    ensures r.Some? ==> var (lead, rest) := r.value;
              lead != [] && AllDigits(lead) && LeadingDigits(stem) == |lead| && stem[..|lead|] == lead
              && |rest| < |stem| && stem[|stem| - |rest|..] == rest
  {
    var n1 := LeadingDigits(stem);
    if n1 == 0 then None
    else
      var afterIndex := stem[n1..];
      var u := IndexOf(afterIndex, '_');
      if u < 1 then None
      else
        assert stem[|stem| - |afterIndex[u + 1..]|..] == afterIndex[u + 1..];
        Some((stem[..n1], afterIndex[u + 1..]))
  }

  /**
   * What Nexus accepts: the radical is BURST and at least 14 digits, the
   * first 14 a valid time in the collector's zone; the cover flag is the
   * _COVER suffix of the stem; the index is the leading digit run.
   */
  lemma NexusSound(ic: InfoCollector, name: string)
    requires Nexus(ic, name).Some?
    ensures var r := Nexus(ic, name).value;
            IsBurstRadical(r.radical) && r.taken == At(BurstClock(r.radical), ic.tz)
            && ValidClock(BurstClock(r.radical))
            && (r.isCover <==> HasSuffix(Stem(name), "_COVER"))
            && var n := LeadingDigits(Stem(name));
               n > 0 && r.index == DecimalValue(Stem(name)[..n])
  {
    var stem := Stem(name);
    var (lead, rest) := NexusSplit(stem).value;
    BurstPartSound(ic, name, DecimalValue(lead), rest);
    var p := stem[..|stem| - |rest|];
    assert stem == p + rest;
    SuffixThroughConcat(p, rest, "_COVER");
  }

  lemma SuffixThroughConcat(p: string, s: string, x: string)
    requires |x| <= |s|
    ensures HasSuffix(p + s, x) <==> HasSuffix(s, x)
  {
    assert (p + s)[|p + s| - |x|..] == s[|s| - |x|..];
  }

  /** A Nexus radical: BURST followed by at least 14 digits. */
  predicate IsBurstRadical(radical: string) {
    |radical| >= 19 && radical[..5] == "BURST" && AllDigits(radical[5..])
  }

  /** The capture time a Nexus radical carries: its first 14 digits. */
  function BurstClock(radical: string): WallClock
    requires IsBurstRadical(radical)
  {
    var d := radical[5..];
    assert forall i :: 0 <= i < 14 ==> d[..14][i] == d[i];
    ClockOf(d)
  }

  /** `<d+>_BURST<d{14,}>[_COVER]`: the time digits and what follows them. */
  function BurstDigits(s: string): (r: Option<(string, string)>)
    ensures r.Some? ==> var (digits, tail) := r.value;
              |digits| >= 14 && AllDigits(digits) && (tail == [] || tail == "_COVER")
              && |digits| + |tail| + 7 <= |s| && s[|s| - |digits| - |tail|..] == digits + tail
  {
    var n2 := LeadingDigits(s);
    if n2 == 0 || !HasPrefix(s[n2..], "_BURST") then None
    else
      var t := s[n2 + 6..];
      var n3 := LeadingDigits(t);
      var tail := t[n3..];
      if n3 < 14 || (tail != [] && tail != "_COVER") then None
      else
        assert t == t[..n3] + tail;
        Some((t[..n3], tail))
  }

  /** `<d+>_BURST<d{14,}>[_COVER]`, the part of a Nexus stem after the label's underscore. */
  function BurstPart(ic: InfoCollector, name: string, index: nat, s: string): (r: Option<NameInfo>)
    ensures r.Some? ==> r.value.base == name && r.value.ext == Ext(name) && r.value.index == index
    ensures r.Some? ==> r.value.kind == KindBurst && r.value.mediaType == TypeFromExt(ic, Ext(name))
  {
    match BurstDigits(s)
    case None => None
    case Some((digits, tail)) =>
      assert AllDigits(digits[..14]) by {
        assert forall i :: 0 <= i < 14 ==> digits[..14][i] == digits[i];
      }
      var clock := ClockOf(digits);
      if !ValidClock(clock) then None
      else
        Some(NameInfo("BURST" + digits, name, tail == "_COVER", Ext(name),
                      TypeFromExt(ic, Ext(name)), KindBurst, index, At(clock, ic.tz)))
  }

  /**
   * What BurstPart accepts: a radical of BURST and at least 14 digits whose
   * first 14 are a valid time in the collector's zone, and the cover flag
   * exactly when the part ends in _COVER.
   */
  lemma BurstPartSound(ic: InfoCollector, name: string, index: nat, s: string)
    requires BurstPart(ic, name, index, s).Some?
    ensures var r := BurstPart(ic, name, index, s).value;
            IsBurstRadical(r.radical) && r.taken == At(BurstClock(r.radical), ic.tz)
            && ValidClock(BurstClock(r.radical))
            && |s| >= 21 && (r.isCover <==> HasSuffix(s, "_COVER"))
  {
    var (digits, tail) := BurstDigits(s).value;
    assert ("BURST" + digits)[5..] == digits && ("BURST" + digits)[..5] == "BURST";
    BurstTail(s, |s| - |digits| - |tail|, digits, tail);
  }

  /** Whether a burst stem ends in _COVER is decided by the part after its digits. */
  lemma BurstTail(s: string, k: nat, digits: string, tail: string)
    requires k <= |s| && s[k..] == digits + tail && digits != [] && AllDigits(digits)
    requires tail == [] || tail == "_COVER"
    ensures tail == "_COVER" <==> HasSuffix(s, "_COVER")
  {
    if tail == [] {
      assert s[|s| - 1] == s[k..][|s| - k - 1] == digits[|digits| - 1];
    } else {
      assert s[|s| - 6..] == s[k..][|s| - k - 6..] == tail;
    }
  }

  /** A Nexus burst name assembled from its parts. */
  function NexusName(lead: string, tag: string, seqNo: string, digits: string, cover: bool, ext: string): string {
    lead + tag + "_" + seqNo + "_BURST" + digits + (if cover then "_COVER" else "") + ext
  }

  lemma NoDotInDigits(d: string)
    requires AllDigits(d)
    ensures '.' !in d && '_' !in d
  {
  }

  /** The burst part of a well-formed Nexus name parses into its digits and cover flag. */
  lemma BurstPartAccepts(ic: InfoCollector, name: string, index: nat, seqNo: string, digits: string, cover: bool)
    requires seqNo != [] && AllDigits(seqNo)
    requires |digits| >= 14 && AllDigits(digits) && ValidClock(ClockOf(digits))
    ensures var cov := if cover then "_COVER" else "";
            BurstPart(ic, name, index, seqNo + "_BURST" + digits + cov)
              == Some(NameInfo("BURST" + digits, name, cover, Ext(name), TypeFromExt(ic, Ext(name)),
                               KindBurst, index, At(ClockOf(digits), ic.tz)))
  {
    var cov := if cover then "_COVER" else "";
    var s := seqNo + "_BURST" + digits + cov;
    CutBurst(seqNo, digits, cov);
    LeadSplit(s, seqNo, "_BURST" + (digits + cov));
    LeadSplit(digits + cov, digits, cov);
    assert cover <==> cov == "_COVER";
    BurstDigitsOf(s, |seqNo|, digits, cov);
    BurstPartFrom(ic, name, index, s, digits, cov);
  }

  lemma BurstPartFrom(ic: InfoCollector, name: string, index: nat, s: string, digits: string, tail: string)
    requires |digits| >= 14 && AllDigits(digits) && ValidClock(ClockOf(digits))
    requires BurstDigits(s) == Some((digits, tail))
    ensures BurstPart(ic, name, index, s)
              == Some(NameInfo("BURST" + digits, name, tail == "_COVER", Ext(name), TypeFromExt(ic, Ext(name)),
                               KindBurst, index, At(ClockOf(digits), ic.tz)))
  {
  }

  lemma CutBurst(seqNo: string, digits: string, cov: string)
    ensures var s := seqNo + "_BURST" + digits + cov;
            s == seqNo + ("_BURST" + (digits + cov)) && HasPrefix(s[|seqNo|..], "_BURST")
            && s[|seqNo| + 6..] == digits + cov
  {
    var s := seqNo + "_BURST" + digits + cov;
    var rest := "_BURST" + (digits + cov);
    assert s == seqNo + rest;
    assert s[|seqNo|..] == rest;
    assert rest[..6] == "_BURST";
    assert rest[6..] == digits + cov;
  }

  /** BurstDigits on a part already cut into its leading digits, _BURST, the time digits and the tail. */
  lemma BurstDigitsOf(s: string, n2: nat, digits: string, tail: string)
    requires 0 < n2 <= |s| && LeadingDigits(s) == n2 && HasPrefix(s[n2..], "_BURST")
    requires s[n2 + 6..] == digits + tail && LeadingDigits(digits + tail) == |digits|
    requires |digits| >= 14 && (tail == [] || tail == "_COVER")
    ensures BurstDigits(s) == Some((digits, tail))
  {
    var t := s[n2 + 6..];
    assert t[..|digits|] == digits;
    assert t[|digits|..] == tail;
  }

  /**
   * Every name of the Nexus shape is accepted, with the radical, cover
   * flag, index and time taken from its parts; in particular the label
   * plays no part in the result other than through Base.
   */
  lemma {:induction false} NexusAccepts(ic: InfoCollector, lead: string, tag: string, seqNo: string,
                                        digits: string, cover: bool, ext: string)
    requires lead != [] && AllDigits(lead)
    requires tag != [] && !IsDigit(tag[0]) && '_' !in tag && '.' !in tag
    requires seqNo != [] && AllDigits(seqNo)
    requires |digits| >= 14 && AllDigits(digits) && ValidClock(ClockOf(digits))
    requires IsExt(ext)
    ensures var name := NexusName(lead, tag, seqNo, digits, cover, ext);
            Nexus(ic, name) == Some(NameInfo("BURST" + digits, name, cover, ext, TypeFromExt(ic, ext),
                                             KindBurst, DecimalValue(lead), At(ClockOf(digits), ic.tz)))
  {
    var cov := if cover then "_COVER" else "";
    var burst := seqNo + "_BURST" + digits + cov;
    var stem := lead + tag + "_" + burst;
    var name := NexusName(lead, tag, seqNo, digits, cover, ext);
    assert name == stem + ext;
    assert '.' !in stem by {
      NoDotInDigits(lead);
      NoDotInDigits(seqNo);
      NoDotInDigits(digits);
      assert '.' !in "_BURST" && '.' !in cov;
    }
    StemOf(stem, ext);
    NexusOfStem(ic, name, lead, tag, burst);
    BurstPartAccepts(ic, name, DecimalValue(lead), seqNo, digits, cover);
  }

  /** Nexus reads the index from the leading digits and hands the part after the label to BurstPart. */
  lemma NexusOfStem(ic: InfoCollector, name: string, lead: string, tag: string, burst: string)
    requires lead != [] && AllDigits(lead)
    requires tag != [] && !IsDigit(tag[0]) && '_' !in tag
    requires Stem(name) == lead + tag + "_" + burst
    ensures Nexus(ic, name) == BurstPart(ic, name, DecimalValue(lead), burst)
  {
    var stem := Stem(name);
    var rest := tag + "_" + burst;
    assert stem == lead + rest;
    LeadSplit(stem, lead, rest);
    TagSplit(tag, burst);
    assert NexusSplit(stem) == Some((lead, burst));
  }

  lemma LeadSplit(stem: string, lead: string, rest: string)
    requires stem == lead + rest && AllDigits(lead)
    requires rest == [] || !IsDigit(rest[0])
    ensures LeadingDigits(stem) == |lead| && stem[..|lead|] == lead && stem[|lead|..] == rest
  {
    LeadingDigitsOf(lead, rest);
  }

  lemma TagSplit(tag: string, burst: string)
    requires '_' !in tag
    ensures IndexOf(tag + "_" + burst, '_') == |tag| && (tag + "_" + burst)[|tag| + 1..] == burst
  {
    IndexOfFirst(tag, '_', burst);
  }

  // ---------------------------------------------------------------------
  // Samsung bursts and Pixel names
  // ---------------------------------------------------------------------

  /** `<d{8}>_<d{6}>` at position i of s. */
  predicate DateTimeAt(s: string, i: nat) {
    i + 15 <= |s| && AllDigits(s[i..i + 8]) && s[i + 8] == '_' && AllDigits(s[i + 9..i + 15])
  }

  /** The wall clock of a `<d{8}>_<d{6}>` run at position i. */
  function DateTimeClock(s: string, i: nat): WallClock
    requires DateTimeAt(s, i)
  {
    var d := s[i..i + 8] + s[i + 9..i + 15];
    assert forall k :: 0 <= k < 14 ==> d[k] == (if k < 8 then s[i..i + 8][k] else s[i + 9..i + 15][k - 8]);
    assert d[..14] == d;
    ClockOf(d)
  }

  /**
   * InfoCollector.Samsung: `<d{8}>_<d{6}>_<d{3}><ext>`. The radical is the
   * date and time without the index; the time is in the collector's zone.
   */
  function Samsung(ic: InfoCollector, name: string): (r: Option<NameInfo>)
    ensures r.Some? ==> r.value.base == name && r.value.ext == Ext(name) && !r.value.isCover
    ensures r.Some? ==> r.value.kind == KindBurst && r.value.mediaType == TypeFromExt(ic, Ext(name))
    ensures r.Some? ==> |Stem(name)| == 19 && Stem(name) == r.value.radical + "_" + Stem(name)[16..]
                        && |r.value.radical| == 15 && r.value.taken.At? && r.value.taken.zone == ic.tz
  {
    var stem := Stem(name);
    if |stem| != 19 || !DateTimeAt(stem, 0) || stem[15] != '_' || !AllDigits(stem[16..]) then None
    else
      var clock := DateTimeClock(stem, 0);
      if !ValidClock(clock) then None
      else
        assert stem == stem[..15] + "_" + stem[16..];
        Some(NameInfo(stem[..15], name, false, Ext(name), TypeFromExt(ic, Ext(name)), KindBurst,
                      DecimalValue(stem[16..]), At(clock, ic.tz)))
  }

  /** InfoCollector.Pixel: `PXL_<d{8}>_<d{6}>...`; the radical is the stem and the time is UTC. */
  function Pixel(ic: InfoCollector, name: string): (r: Option<NameInfo>)
    ensures r.Some? ==> r.value.base == name && r.value.ext == Ext(name) && !r.value.isCover
    ensures r.Some? ==> r.value.kind == KindNone && r.value.index == 0
                        && r.value.mediaType == TypeFromExt(ic, Ext(name))
    ensures r.Some? ==> r.value.radical == Stem(name) && HasPrefix(Stem(name), "PXL_")
                        && r.value.taken.At? && r.value.taken.zone == UTC
  {
    var stem := Stem(name);
    if !HasPrefix(stem, "PXL_") || !DateTimeAt(stem, 4) then None
    else
      var clock := DateTimeClock(stem, 4);
      if !ValidClock(clock) then None
      else Some(NameInfo(stem, name, false, Ext(name), TypeFromExt(ic, Ext(name)), KindNone, 0, At(clock, UTC)))
  }

  // ---------------------------------------------------------------------
  // Plain names and the dispatcher
  // ---------------------------------------------------------------------

  /** The first position at or after i holding a `<d{8}>_<d{6}>` run, or -1. */
  function FindDateTime(s: string, i: nat): (p: int)
    ensures p == -1 || (i <= p && DateTimeAt(s, p))
    ensures forall k :: i <= k && (p == -1 || k < p) ==> !DateTimeAt(s, k)
    decreases |s| - i
  {
    if i + 15 > |s| then -1
    else if DateTimeAt(s, i) then i
    else FindDateTime(s, i + 1)
  }

  /** The time a plain name carries: its first date-time run, when that is a valid date, in the collector's zone. */
  function PlainTaken(ic: InfoCollector, name: string): (t: Taken)
    ensures t.At? ==> t.zone == ic.tz && ValidClock(t.clock)
    ensures (forall k :: 0 <= k ==> !DateTimeAt(name, k)) ==> t == NoTime
  {
    var p := FindDateTime(name, 0);
    if p < 0 then NoTime
    else
      var clock := DateTimeClock(name, p);
      if ValidClock(clock) then At(clock, ic.tz) else NoTime
  }

  /**
   * InfoCollector.GetInfo: the first scheme that accepts the name wins;
   * otherwise the name is plain, its stem is the radical, and only a
   * date-time run in it can give it a time.
   */
  function GetInfo(ic: InfoCollector, name: string): (r: NameInfo)
    ensures r.base == name && r.ext == Ext(name) && r.mediaType == TypeFromExt(ic, Ext(name))
    ensures r.kind == KindNone ==> !r.isCover && r.index == 0
  {
    match Nexus(ic, name)
    case Some(info) => info
    case None =>
      match Samsung(ic, name)
      case Some(info) => info
      case None =>
        match Pixel(ic, name)
        case Some(info) => info
        case None =>
          NameInfo(Stem(name), name, false, Ext(name), TypeFromExt(ic, Ext(name)), KindNone, 0, PlainTaken(ic, name))
  }

  /** A name GetInfo does not recognise keeps its stem as radical and is neither burst nor cover. */
  lemma GetInfoFallback(ic: InfoCollector, name: string)
    requires Nexus(ic, name).None? && Samsung(ic, name).None? && Pixel(ic, name).None?
    ensures var r := GetInfo(ic, name);
            r.radical == Stem(name) && r.radical + r.ext == name && r.kind == KindNone
            && r.taken == PlainTaken(ic, name)
  {
  }

  /**
   * The three schemes never accept the same name, so the order in which
   * GetInfo tries them does not matter.
   */
  lemma {:induction false} SchemesExclusive(ic: InfoCollector, name: string)
    ensures !(Nexus(ic, name).Some? && Samsung(ic, name).Some?)
    ensures !(Nexus(ic, name).Some? && Pixel(ic, name).Some?)
    ensures !(Samsung(ic, name).Some? && Pixel(ic, name).Some?)
  {
    if Samsung(ic, name).Some? {
      SamsungNotNexus(ic, name);
    }
    if Pixel(ic, name).Some? {
      PixelNotOthers(ic, name);
    }
  }

  lemma SamsungNotNexus(ic: InfoCollector, name: string)
    requires Samsung(ic, name).Some?
    ensures Nexus(ic, name).None?
  {
    var stem := Stem(name);
    assert stem[..8] == stem[0..8];
    assert stem[8..][0] == '_';
    LeadSplit(stem, stem[..8], stem[8..]);
    assert IndexOf(stem[8..], '_') == 0;
  }

  lemma PixelNotOthers(ic: InfoCollector, name: string)
    requires Pixel(ic, name).Some?
    ensures Nexus(ic, name).None? && Samsung(ic, name).None?
  {
    var stem := Stem(name);
    assert stem[0] == 'P';
    assert LeadingDigits(stem) == 0;
    assert !DateTimeAt(stem, 0) by {
      assert stem[0..8][0] == stem[0];
    }
  }

  /** A Nexus name is classified by GetInfo exactly as by Nexus. */
  lemma GetInfoAgreesWithNexus(ic: InfoCollector, name: string)
    requires Nexus(ic, name).Some?
    ensures GetInfo(ic, name) == Nexus(ic, name).value
  {
  }

  /** A Samsung burst name is classified as a burst whose radical is its date and time. */
  lemma SamsungAccepts(ic: InfoCollector, date: string, time: string, seqNo: string, ext: string)
    requires |date| == 8 && AllDigits(date) && |time| == 6 && AllDigits(time)
    requires |seqNo| == 3 && AllDigits(seqNo)
    requires ValidClock(ClockOf(date + time)) && IsExt(ext)
    ensures var name := date + "_" + time + "_" + seqNo + ext;
            GetInfo(ic, name) == NameInfo(date + "_" + time, name, false, ext, TypeFromExt(ic, ext),
                                          KindBurst, DecimalValue(seqNo), At(ClockOf(date + time), ic.tz))
  {
    var name := date + "_" + time + "_" + seqNo + ext;
    SamsungParses(ic, date, time, seqNo, ext);
    SchemesExclusive(ic, name);
  }

  lemma SamsungParses(ic: InfoCollector, date: string, time: string, seqNo: string, ext: string)
    requires |date| == 8 && AllDigits(date) && |time| == 6 && AllDigits(time)
    requires |seqNo| == 3 && AllDigits(seqNo)
    requires ValidClock(ClockOf(date + time)) && IsExt(ext)
    ensures var name := date + "_" + time + "_" + seqNo + ext;
            Samsung(ic, name) == Some(NameInfo(date + "_" + time, name, false, ext, TypeFromExt(ic, ext),
                                               KindBurst, DecimalValue(seqNo), At(ClockOf(date + time), ic.tz)))
  {
    var stem := date + "_" + time + "_" + seqNo;
    var name := stem + ext;
    assert date + "_" + time + "_" + seqNo + ext == name;
    NoDotInDigits(date);
    NoDotInDigits(time);
    NoDotInDigits(seqNo);
    StemOf(stem, ext);
    assert stem[0..8] == date;
    assert stem[9..15] == time;
    assert stem[16..] == seqNo;
    assert stem[..15] == date + "_" + time;
    assert DateTimeAt(stem, 0);
    assert DateTimeClock(stem, 0) == ClockOf(date + time);
    SamsungOf(ic, name, stem);
  }

  /** Samsung on a name whose stem has the burst layout. */
  lemma SamsungOf(ic: InfoCollector, name: string, stem: string)
    requires Stem(name) == stem && |stem| == 19 && DateTimeAt(stem, 0) && stem[15] == '_'
    requires AllDigits(stem[16..]) && ValidClock(DateTimeClock(stem, 0))
    ensures Samsung(ic, name) == Some(NameInfo(stem[..15], name, false, Ext(name), TypeFromExt(ic, Ext(name)),
                                               KindBurst, DecimalValue(stem[16..]), At(DateTimeClock(stem, 0), ic.tz)))
  {
  }

  /** A Pixel name keeps its whole stem as radical and is dated in UTC. */
  lemma PixelAccepts(ic: InfoCollector, date: string, time: string, rest: string, ext: string)
    requires |date| == 8 && AllDigits(date) && |time| == 6 && AllDigits(time) && '.' !in rest
    requires ValidClock(ClockOf(date + time)) && IsExt(ext)
    ensures var name := "PXL_" + date + "_" + time + rest + ext;
            GetInfo(ic, name) == NameInfo("PXL_" + date + "_" + time + rest, name, false, ext,
                                          TypeFromExt(ic, ext), KindNone, 0, At(ClockOf(date + time), UTC))
  {
    var name := "PXL_" + date + "_" + time + rest + ext;
    PixelParses(ic, date, time, rest, ext);
    PixelNotOthers(ic, name);
  }

  lemma PixelParses(ic: InfoCollector, date: string, time: string, rest: string, ext: string)
    requires |date| == 8 && AllDigits(date) && |time| == 6 && AllDigits(time) && '.' !in rest
    requires ValidClock(ClockOf(date + time)) && IsExt(ext)
    ensures var name := "PXL_" + date + "_" + time + rest + ext;
            Pixel(ic, name) == Some(NameInfo("PXL_" + date + "_" + time + rest, name, false, ext,
                                             TypeFromExt(ic, ext), KindNone, 0, At(ClockOf(date + time), UTC)))
  {
    var stem := "PXL_" + date + "_" + time + rest;
    var name := stem + ext;
    assert "PXL_" + date + "_" + time + rest + ext == name;
    NoDotInDigits(date);
    NoDotInDigits(time);
    assert '.' !in "PXL_";
    StemOf(stem, ext);
    assert stem[..4] == "PXL_";
    assert stem[4..12] == date;
    assert stem[13..19] == time;
    assert DateTimeAt(stem, 4);
    assert DateTimeClock(stem, 4) == ClockOf(date + time);
  }

  // ---------------------------------------------------------------------
  // The test tables of nexus_test.go and info_test.go
  // ---------------------------------------------------------------------

  /** The part of metadata.DefaultSupportedMedia the tables use. */
  const DefaultMedia: map<string, MediaType> :=
    map[".jpg" := TypeImage, ".jpeg" := TypeImage, ".heic" := TypeImage, ".dng" := TypeImage,
        ".mp4" := TypeVideo, ".mov" := TypeVideo]

  const LocalCollector := InfoCollector(Local, DefaultMedia)

  /** ext spells word with any of its letters in upper case. */
  predicate CaseVariant(ext: string, word: string) {
    |ext| == |word| && forall i :: 0 <= i < |ext| ==> ext[i] == word[i] || ext[i] == UpperChar(word[i])
  }

  /** Every case variant of a lower-case word lowers to that word. */
  lemma CaseVariantLowers(ext: string, word: string)
    requires CaseVariant(ext, word)
    requires forall i :: 0 <= i < |word| ==> !('A' <= word[i] <= 'Z')
    ensures ToLower(ext) == word
  {
    assert forall i :: 0 <= i < |ext| ==> ToLower(ext)[i] == word[i];
  }

  /** Under the default table, every spelling of .jpg and .jpeg, in any case, is an image. */
  lemma JpgIsImage(ic: InfoCollector, ext: string)
    requires ic.sm == DefaultMedia
    requires CaseVariant(ext, ".jpg") || CaseVariant(ext, ".jpeg")
    ensures TypeFromExt(ic, ext) == TypeImage
  {
    if CaseVariant(ext, ".jpg") {
      CaseVariantLowers(ext, ".jpg");
    } else {
      CaseVariantLowers(ext, ".jpeg");
    }
  }

  /*
   * Each table row is proved in two steps: a lemma of plain facts about the
   * row's string literals, and the row itself from the general lemmas above.
   */

  lemma NexusBurstName()
    ensures NexusName("00001", "IMG", "00001", "20171111030039", false, ".jpg") == "00001IMG_00001_BURST20171111030039.jpg"
  {
    assert "00001" + "IMG" == "00001IMG";
    assert "00001IMG" + "_" == "00001IMG_";
    assert "00001IMG_" + "00001" == "00001IMG_00001";
    assert "00001IMG_00001" + "_BURST" == "00001IMG_00001_BURST";
    assert "00001IMG_00001_BURST" + "20171111030039" == "00001IMG_00001_BURST20171111030039";
    assert "00001IMG_00001_BURST20171111030039" + ".jpg" == "00001IMG_00001_BURST20171111030039.jpg";
  }

  lemma NexusBurstValues()
    ensures "BURST" + "20171111030039" == "BURST20171111030039"
    ensures ClockOf("20171111030039") == WallClock(2017, 11, 11, 3, 0, 39)
    ensures DecimalValue("00001") == 1
  {
  }

  /** nexus_test.go, row "BURST". */
  lemma NexusBurstVector()
    ensures Nexus(LocalCollector, "00001IMG_00001_BURST20171111030039.jpg")
      == Some(NameInfo("BURST20171111030039", "00001IMG_00001_BURST20171111030039.jpg", false, ".jpg",
                       TypeImage, KindBurst, 1, At(WallClock(2017, 11, 11, 3, 0, 39), Local)))
  {
    NexusBurstName();
    NexusBurstValues();
    JpgIsImage(LocalCollector, ".jpg");
    NexusAccepts(LocalCollector, "00001", "IMG", "00001", "20171111030039", false, ".jpg");
  }

  lemma NexusCoverName()
    ensures NexusName("00015", "IMG", "00015", "20171111030039", true, ".jpg") == "00015IMG_00015_BURST20171111030039_COVER.jpg"
  {
    assert "00015" + "IMG" == "00015IMG";
    assert "00015IMG" + "_" == "00015IMG_";
    assert "00015IMG_" + "00015" == "00015IMG_00015";
    assert "00015IMG_00015" + "_BURST" == "00015IMG_00015_BURST";
    assert "00015IMG_00015_BURST" + "20171111030039" == "00015IMG_00015_BURST20171111030039";
    assert "00015IMG_00015_BURST20171111030039" + "_COVER" == "00015IMG_00015_BURST20171111030039_COVER";
    assert "00015IMG_00015_BURST20171111030039_COVER" + ".jpg" == "00015IMG_00015_BURST20171111030039_COVER.jpg";
  }

  lemma NexusCoverValues()
    ensures "BURST" + "20171111030039" == "BURST20171111030039"
    ensures ClockOf("20171111030039") == WallClock(2017, 11, 11, 3, 0, 39)
    ensures DecimalValue("00015") == 15
  {
  }

  /** nexus_test.go, row "BURST cover": the cover suffix sets IsCover and stays out of the radical. */
  lemma NexusCoverVector()
    ensures Nexus(LocalCollector, "00015IMG_00015_BURST20171111030039_COVER.jpg")
      == Some(NameInfo("BURST20171111030039", "00015IMG_00015_BURST20171111030039_COVER.jpg", true, ".jpg",
                       TypeImage, KindBurst, 15, At(WallClock(2017, 11, 11, 3, 0, 39), Local)))
  {
    NexusCoverName();
    NexusCoverValues();
    JpgIsImage(LocalCollector, ".jpg");
    NexusAccepts(LocalCollector, "00015", "IMG", "00015", "20171111030039", true, ".jpg");
  }

  lemma NexusPortraitCoverName()
    ensures NexusName("00100", "lPORTRAIT", "00100", "20181229213517346", true, ".jpg") == "00100lPORTRAIT_00100_BURST20181229213517346_COVER.jpg"
  {
    assert "00100" + "lPORTRAIT" == "00100lPORTRAIT";
    assert "00100lPORTRAIT" + "_" == "00100lPORTRAIT_";
    assert "00100lPORTRAIT_" + "00100" == "00100lPORTRAIT_00100";
    assert "00100lPORTRAIT_00100" + "_BURST" == "00100lPORTRAIT_00100_BURST";
    assert "00100lPORTRAIT_00100_BURST" + "20181229213517346" == "00100lPORTRAIT_00100_BURST20181229213517346";
    assert "00100lPORTRAIT_00100_BURST20181229213517346" + "_COVER" == "00100lPORTRAIT_00100_BURST20181229213517346_COVER";
    assert "00100lPORTRAIT_00100_BURST20181229213517346_COVER" + ".jpg" == "00100lPORTRAIT_00100_BURST20181229213517346_COVER.jpg";
  }

  lemma NexusPortraitCoverValues()
    ensures "BURST" + "20181229213517346" == "BURST20181229213517346"
    ensures ClockOf("20181229213517346") == WallClock(2018, 12, 29, 21, 35, 17)
    ensures DecimalValue("00100") == 100
  {
  }

  /** nexus_test.go, row "PORTRAIT BURST cover": all 17 digits stay in the radical, 14 give the time. */
  lemma NexusPortraitCoverVector()
    ensures Nexus(LocalCollector, "00100lPORTRAIT_00100_BURST20181229213517346_COVER.jpg")
      == Some(NameInfo("BURST20181229213517346", "00100lPORTRAIT_00100_BURST20181229213517346_COVER.jpg",
                       true, ".jpg", TypeImage, KindBurst, 100, At(WallClock(2018, 12, 29, 21, 35, 17), Local)))
  {
    NexusPortraitCoverName();
    NexusPortraitCoverValues();
    JpgIsImage(LocalCollector, ".jpg");
    NexusAccepts(LocalCollector, "00100", "lPORTRAIT", "00100", "20181229213517346", true, ".jpg");
  }

  lemma NexusPortraitName()
    ensures NexusName("00000", "PORTRAIT", "00000", "20190828181853475", false, ".jpg") == "00000PORTRAIT_00000_BURST20190828181853475.jpg"
  {
    assert "00000" + "PORTRAIT" == "00000PORTRAIT";
    assert "00000PORTRAIT" + "_" == "00000PORTRAIT_";
    assert "00000PORTRAIT_" + "00000" == "00000PORTRAIT_00000";
    assert "00000PORTRAIT_00000" + "_BURST" == "00000PORTRAIT_00000_BURST";
    assert "00000PORTRAIT_00000_BURST" + "20190828181853475" == "00000PORTRAIT_00000_BURST20190828181853475";
    assert "00000PORTRAIT_00000_BURST20190828181853475" + ".jpg" == "00000PORTRAIT_00000_BURST20190828181853475.jpg";
  }

  lemma NexusPortraitValues()
    ensures "BURST" + "20190828181853475" == "BURST20190828181853475"
    ensures ClockOf("20190828181853475") == WallClock(2019, 8, 28, 18, 18, 53)
    ensures DecimalValue("00000") == 0
  {
  }

  /** nexus_test.go, row "PORTRAIT BURST". */
  lemma NexusPortraitVector()
    ensures Nexus(LocalCollector, "00000PORTRAIT_00000_BURST20190828181853475.jpg")
      == Some(NameInfo("BURST20190828181853475", "00000PORTRAIT_00000_BURST20190828181853475.jpg",
                       false, ".jpg", TypeImage, KindBurst, 0, At(WallClock(2019, 8, 28, 18, 18, 53), Local)))
  {
    NexusPortraitName();
    NexusPortraitValues();
    JpgIsImage(LocalCollector, ".jpg");
    NexusAccepts(LocalCollector, "00000", "PORTRAIT", "00000", "20190828181853475", false, ".jpg");
  }

  /** nexus_test.go, row "InvalidFilename". */
  lemma NexusRejectsVector()
    ensures Nexus(LocalCollector, "IMG_1123.jpg") == None
  {
    StemOf("IMG_1123", ".jpg");
    assert "IMG_1123" + ".jpg" == "IMG_1123.jpg";
  }

  lemma PixelParts()
    ensures "PXL_" + "20231026" + "_" + "210642" + "603" + ".dng" == "PXL_20231026_210642603.dng"
    ensures "PXL_" + "20231026" + "_" + "210642" + "603" == "PXL_20231026_210642603"
    ensures ClockOf("20231026" + "210642") == WallClock(2023, 10, 26, 21, 6, 42)
    ensures TypeFromExt(LocalCollector, ".dng") == TypeImage
  {
    assert ToLower(".dng") == ".dng";
    assert "PXL_" + "20231026" == "PXL_20231026";
    assert "PXL_20231026" + "_" == "PXL_20231026_";
    assert "PXL_20231026_" + "210642" == "PXL_20231026_210642";
    assert "PXL_20231026_210642" + "603" == "PXL_20231026_210642603";
    assert "PXL_20231026_210642603" + ".dng" == "PXL_20231026_210642603.dng";
    assert "20231026" + "210642" == "20231026210642";
  }

  /** info_test.go, row "Normal": a Pixel name, dated in UTC. */
  lemma PixelVector()
    ensures GetInfo(LocalCollector, "PXL_20231026_210642603.dng")
      == NameInfo("PXL_20231026_210642603", "PXL_20231026_210642603.dng", false, ".dng", TypeImage,
                  KindNone, 0, At(WallClock(2023, 10, 26, 21, 6, 42), UTC))
  {
    PixelParts();
    PixelAccepts(LocalCollector, "20231026", "210642", "603", ".dng");
  }

  /** info_test.go, row "Nexus BURST cover". */
  lemma GetInfoNexusVector()
    ensures GetInfo(LocalCollector, "00015IMG_00015_BURST20171111030039_COVER.jpg")
      == NameInfo("BURST20171111030039", "00015IMG_00015_BURST20171111030039_COVER.jpg", true, ".jpg",
                  TypeImage, KindBurst, 15, At(WallClock(2017, 11, 11, 3, 0, 39), Local))
  {
    NexusCoverVector();
  }

  lemma SamsungParts()
    ensures "20231207" + "_" + "101605" + "_" + "031" + ".jpg" == "20231207_101605_031.jpg"
    ensures "20231207" + "_" + "101605" == "20231207_101605"
    ensures ClockOf("20231207" + "101605") == WallClock(2023, 12, 7, 10, 16, 5)
    ensures DecimalValue("031") == 31
  {
    assert "20231207" + "_" == "20231207_";
    assert "20231207_" + "101605" == "20231207_101605";
    assert "20231207_101605" + "_" == "20231207_101605_";
    assert "20231207_101605_" + "031" == "20231207_101605_031";
    assert "20231207_101605_031" + ".jpg" == "20231207_101605_031.jpg";
    assert "20231207" + "101605" == "20231207101605";
  }

  /** info_test.go, row "Samsung BURST". */
  lemma SamsungVector()
    ensures GetInfo(LocalCollector, "20231207_101605_031.jpg")
      == NameInfo("20231207_101605", "20231207_101605_031.jpg", false, ".jpg", TypeImage,
                  KindBurst, 31, At(WallClock(2023, 12, 7, 10, 16, 5), Local))
  {
    SamsungParts();
    JpgIsImage(LocalCollector, ".jpg");
    SamsungAccepts(LocalCollector, "20231207", "101605", "031", ".jpg");
  }

  /**
   * A name whose stem starts with neither a digit nor PXL_ matches no
   * scheme: its stem is the radical and its time comes from PlainTaken.
   */
  lemma PlainName(ic: InfoCollector, name: string)
    requires Stem(name) != [] && !IsDigit(Stem(name)[0]) && !HasPrefix(Stem(name), "PXL_")
    ensures GetInfo(ic, name) == NameInfo(Stem(name), name, false, Ext(name), TypeFromExt(ic, Ext(name)),
                                          KindNone, 0, PlainTaken(ic, name))
  {
    var stem := Stem(name);
    assert LeadingDigits(stem) == 0;
    assert !DateTimeAt(stem, 0) by {
      if |stem| >= 8 {
        assert stem[0..8][0] == stem[0];
      }
    }
  }

  /** PlainName for a name given as a dot-free stem and an extension. */
  lemma PlainNameOf(ic: InfoCollector, stem: string, ext: string)
    requires '.' !in stem && IsExt(ext)
    requires stem != [] && !IsDigit(stem[0]) && !HasPrefix(stem, "PXL_")
    ensures GetInfo(ic, stem + ext) == NameInfo(stem, stem + ext, false, ext, TypeFromExt(ic, ext),
                                                KindNone, 0, PlainTaken(ic, stem + ext))
  {
    StemOf(stem, ext);
    PlainName(ic, stem + ext);
  }

  lemma RegularParts()
    ensures "IMG_20171111_030128" + ".jpg" == "IMG_20171111_030128.jpg"
    ensures var s := "IMG_20171111_030128.jpg";
            !DateTimeAt(s, 0) && !DateTimeAt(s, 1) && !DateTimeAt(s, 2) && !DateTimeAt(s, 3)
            && DateTimeAt(s, 4) && DateTimeClock(s, 4) == WallClock(2017, 11, 11, 3, 1, 28)
  {
    var s := "IMG_20171111_030128.jpg";
    assert s[4..12] == "20171111";
    assert s[13..19] == "030128";
    assert "20171111" + "030128" == "20171111030128";
    assert ClockOf("20171111030128") == WallClock(2017, 11, 11, 3, 1, 28);
  }

  lemma RegularTaken()
    ensures PlainTaken(LocalCollector, "IMG_20171111_030128.jpg") == At(WallClock(2017, 11, 11, 3, 1, 28), Local)
  {
    var name := "IMG_20171111_030128.jpg";
    RegularParts();
    assert FindDateTime(name, 4) == 4;
    assert FindDateTime(name, 0) == 4;
  }

  /** info_test.go, row "Regular": a plain name dated by its date-time run. */
  lemma RegularVector()
    ensures GetInfo(LocalCollector, "IMG_20171111_030128.jpg")
      == NameInfo("IMG_20171111_030128", "IMG_20171111_030128.jpg", false, ".jpg", TypeImage,
                  KindNone, 0, At(WallClock(2017, 11, 11, 3, 1, 28), Local))
  {
    var stem := "IMG_20171111_030128";
    assert stem + ".jpg" == "IMG_20171111_030128.jpg";
    assert stem[0] == 'I' && stem[..4] != "PXL_";
    PlainNameOf(LocalCollector, stem, ".jpg");
    RegularTaken();
    JpgIsImage(LocalCollector, ".jpg");
  }

  /** info_test.go, row "InvalidFilename": no scheme and no date, only the stem as radical. */
  lemma InvalidVector()
    ensures GetInfo(LocalCollector, "IMG_1123.jpg")
      == NameInfo("IMG_1123", "IMG_1123.jpg", false, ".jpg", TypeImage, KindNone, 0, NoTime)
  {
    var stem := "IMG_1123";
    var name := "IMG_1123.jpg";
    assert stem + ".jpg" == name;
    assert stem[0] == 'I' && stem[..4] != "PXL_";
    PlainNameOf(LocalCollector, stem, ".jpg");
    assert FindDateTime(name, 0) == -1;
    JpgIsImage(LocalCollector, ".jpg");
  }
}
