/**
 * Field decoders of the Google Photos sidecar JSON (package assets/gp):
 * presence-only markers, the album and partner discriminators, the asset
 * key, and the string-encoded Unix timestamp read with strconv.ParseInt.
 */
module GpJson {
  import opened Wrappers
  import opened GoStrings

  type Byte = x: int | 0 <= x < 256

  const MaxInt64: int := 0x7fff_ffff_ffff_ffff
  const MinInt64: int := -0x8000_0000_0000_0000
  const MaxUint64: int := 0xffff_ffff_ffff_ffff

  predicate IsInt64(n: int) { MinInt64 <= n <= MaxInt64 }

  // ---------------------------------------------------------------------
  // The decoded record
  // ---------------------------------------------------------------------

  /** googTimeObject: the epoch seconds of `photoTakenTime`. */
  datatype TimeObject = TimeObject(timestamp: int)

  /** googGeoData */
  datatype GeoData = GeoData(latitude: real, longitude: real, altitude: real)

  /** googleMetaData */
  datatype GoogleMetaData = GoogleMetaData(
    title: string,
    description: string,
    datePresent: bool,
    photoTakenTime: TimeObject,
    geoDataExif: GeoData,
    trashed: bool,
    archived: bool,
    urlPresent: bool,
    fromPartnerSharing: bool)

  /** isAlbum: the `date` marker is the sign of an album description. */
  predicate IsAlbum(md: GoogleMetaData) { md.datePresent }

  /** isPartner: the `googlePhotosOrigin.fromPartnerSharing` marker. */
  predicate IsPartner(md: GoogleMetaData) { md.fromPartnerSharing }

  // ---------------------------------------------------------------------
  // Presence-only markers (googIsPresent)
  // ---------------------------------------------------------------------

  /**
   * googIsPresent.UnmarshalJSON: the decoder hands over the raw text of
   * the member's value; the marker is set when that text is not empty.
   * It never fails, so the result carries no error.
   */
  function UnmarshalPresent(raw: seq<Byte>): (present: bool)
  {
    |raw| > 0
  }

  /**
   * A marker member as the JSON decoder fills it: an absent member keeps
   * the zero value (UnmarshalJSON is not called), a present one is decoded
   * from its raw text.
   */
  function DecodeMarker(member: Option<seq<Byte>>): (present: bool)
  {
    match member
    case None => false
    case Some(raw) => UnmarshalPresent(raw)
  }

  /**
   * The raw text of any JSON value has at least one byte, so a marker is
   * set exactly when its member occurs in the document, whatever its value.
   */
  lemma MarkerIsPresence(member: Option<seq<Byte>>)
    requires member.Some? ==> |member.value| > 0
    ensures DecodeMarker(member) <==> member.Some?
  {
  }

  /** Even `"date": null` marks an album: the raw text `null` is not empty. */
  lemma NullMarksPresence()
    ensures DecodeMarker(Some([110, 117, 108, 108]))
  {
  }

  /**
   * isAlbum and isPartner are exactly the presence of the `date` and
   * `googlePhotosOrigin.fromPartnerSharing` members.
   */
  lemma DiscriminatorsArePresence(md: GoogleMetaData, date: Option<seq<Byte>>, partner: Option<seq<Byte>>)
    requires date.Some? ==> |date.value| > 0
    requires partner.Some? ==> |partner.value| > 0
    requires md.datePresent == DecodeMarker(date)
    requires md.fromPartnerSharing == DecodeMarker(partner)
    ensures IsAlbum(md) <==> date.Some?
    ensures IsPartner(md) <==> partner.Some?
  {
    MarkerIsPresence(date);
    MarkerIsPresence(partner);
  }

  // ---------------------------------------------------------------------
  // Decimal rendering (the %d verb) and strconv.ParseInt(s, 10, 64)
  // ---------------------------------------------------------------------

  function DigitChar(d: int): char
    requires 0 <= d < 10
  {
    ('0' as int + d) as char
  }

  /** Decimal digits of a natural number, most significant first, no padding. */
  function FormatNat(n: nat): (s: string)
    ensures |s| > 0 && AllDigits(s)
    ensures |s| > 1 ==> s[0] != '0'
  {
    if n < 10 then [DigitChar(n)]
    else
      var p := FormatNat(n / 10);
      p + [DigitChar(n % 10)]
  }

  /** fmt's %d for an int64. */
  function FormatInt(n: int): (s: string)
    ensures ',' !in s
  {
    var s := if n < 0 then "-" + FormatNat(-n) else FormatNat(n);
    assert forall i :: 0 <= i < |s| ==> s[i] == '-' || IsDigit(s[i]);
    s
  }

  datatype NumError = ErrSyntax | ErrRange

  datatype UintScan = UintOk(value: nat) | UintSyntax | UintRange

  /**
   * The digit loop of strconv.ParseUint for base 10: a non-digit is a
   * syntax error, and exceeding the uint64 range stops the scan at once
   * with a range error, before any later character is looked at.
   */
  function ScanUint(s: string, acc: nat): (r: UintScan)
    requires acc <= MaxUint64
    ensures r.UintOk? ==> r.value <= MaxUint64
  {
    if s == [] then UintOk(acc)
    else if !IsDigit(s[0]) then UintSyntax
    else
      var n := acc * 10 + DigitOf(s[0]);
      if n > MaxUint64 then UintRange else ScanUint(s[1..], n)
  }

  /** strconv.ParseUint(s, 10, 64) */
  function ParseUint(s: string): UintScan {
    if s == [] then UintSyntax else ScanUint(s, 0)
  }

  /**
   * strconv.ParseInt(s, 10, 64): the value and the error it returns. On a
   * syntax error the value is 0; on a range error it is the int64 bound on
   * the side of the sign.
   */
  datatype IntResult = IntResult(value: int, err: Option<NumError>)

  function ParseInt(s: string): (r: IntResult)
    ensures r.err.None? ==> IsInt64(r.value)
    ensures r.err == Some(ErrSyntax) ==> r.value == 0
    ensures r.err == Some(ErrRange) ==> r.value == MaxInt64 || r.value == MinInt64
  {
    if s == [] then IntResult(0, Some(ErrSyntax))
    else
      var neg := s[0] == '-';
      var digits := if s[0] == '+' || s[0] == '-' then s[1..] else s;
      match ParseUint(digits)
      case UintSyntax => IntResult(0, Some(ErrSyntax))
      case UintRange => IntResult(if neg then MinInt64 else MaxInt64, Some(ErrRange))
      case UintOk(un) =>
        if !neg && un > MaxInt64 then IntResult(MaxInt64, Some(ErrRange))
        else if neg && un > -MinInt64 then IntResult(MinInt64, Some(ErrRange))
        else
          var v: int := un;
          IntResult(if neg then -v else v, None)
  }

  lemma {:induction false} ScanUintOfDigits(s: string, acc: nat)
    requires acc <= MaxUint64 && AllDigits(s)
    ensures ScanUint(s, acc) == if Horner(acc, s) <= MaxUint64 then UintOk(Horner(acc, s)) else UintRange
    decreases |s|
  {
    if s != [] {
      var n := acc * 10 + DigitOf(s[0]);
      HornerGrows(n, s[1..]);
      if n <= MaxUint64 {
        ScanUintOfDigits(s[1..], n);
      }
    }
  }

  lemma {:induction false} ScanUintNonDigit(s: string, acc: nat)
    requires acc <= MaxUint64 && !AllDigits(s)
    ensures !ScanUint(s, acc).UintOk?
    decreases |s|
  {
    if IsDigit(s[0]) {
      var n := acc * 10 + DigitOf(s[0]);
      if n <= MaxUint64 {
        assert !AllDigits(s[1..]) by {
          var i :| 0 <= i < |s| && !IsDigit(s[i]);
          assert i > 0 && s[1..][i - 1] == s[i];
        }
        ScanUintNonDigit(s[1..], n);
      }
    }
  }

  /** An optional sign followed by at least one decimal digit. */
  predicate WellFormedInt(s: string) {
    var digits := if |s| > 0 && (s[0] == '+' || s[0] == '-') then s[1..] else s;
    |digits| > 0 && AllDigits(digits)
  }

  /** The value a well-formed decimal string denotes. */
  function SignedValue(s: string): int
    requires WellFormedInt(s)
  {
    if s[0] == '-' then -(DecimalValue(s[1..]) as int)
    else if s[0] == '+' then DecimalValue(s[1..])
    else DecimalValue(s)
  }

  /**
   * ParseInt succeeds exactly on an optional sign and digits whose value
   * fits in an int64, and then returns that value.
   */
  lemma ParseIntAccepts(s: string)
    ensures ParseInt(s).err.None? <==> WellFormedInt(s) && IsInt64(SignedValue(s))
    ensures ParseInt(s).err.None? ==> ParseInt(s).value == SignedValue(s)
  {
    if s != [] {
      var digits := if s[0] == '+' || s[0] == '-' then s[1..] else s;
      if digits != [] {
        if AllDigits(digits) {
          ScanUintOfDigits(digits, 0);
        } else {
          ScanUintNonDigit(digits, 0);
        }
      }
    }
  }

  lemma {:induction false} ScanFormatNat(n: nat)
    ensures AllDigits(FormatNat(n)) && DecimalValue(FormatNat(n)) == n
    decreases n
  {
    if n >= 10 {
      ScanFormatNat(n / 10);
      var c := DigitChar(n % 10);
      assert DigitOf(c) == n % 10;
      assert FormatNat(n) == FormatNat(n / 10) + [c];
      HornerAppend(0, FormatNat(n / 10), c);
    } else {
      assert FormatNat(n) == [DigitChar(n)];
      assert DigitOf(DigitChar(n)) == n;
      assert FormatNat(n)[1..] == [];
      assert Horner(0, FormatNat(n)) == Horner(DigitOf(DigitChar(n)), []);
    }
  }

  /** Round trip: ParseInt reads back the decimal rendering of any int64. */
  lemma ParseFormatRoundTrip(n: int)
    requires IsInt64(n)
    ensures ParseInt(FormatInt(n)) == IntResult(n, None)
  {
    var k: nat := if n < 0 then -n else n;
    ScanFormatNat(k);
    var s := FormatInt(n);
    if n < 0 {
      assert s[1..] == FormatNat(k);
    }
    ParseIntAccepts(s);
  }

  /** Distinct int64 values have distinct decimal renderings. */
  lemma FormatIntInjective(a: int, b: int)
    requires IsInt64(a) && IsInt64(b)
    requires FormatInt(a) == FormatInt(b)
    ensures a == b
  {
    ParseFormatRoundTrip(a);
    ParseFormatRoundTrip(b);
  }

  // ---------------------------------------------------------------------
  // Key
  // ---------------------------------------------------------------------

  /** Key: `fmt.Sprintf("%s,%d", title, timestamp)`. */
  function Key(md: GoogleMetaData): string {
    md.title + "," + FormatInt(md.photoTakenTime.timestamp)
  }

  /**
   * The key identifies (title, timestamp): the rendering of the number has
   * no comma, so the last comma of a key separates the two parts.
   */
  lemma KeyIdentifies(a: GoogleMetaData, b: GoogleMetaData)
    requires IsInt64(a.photoTakenTime.timestamp) && IsInt64(b.photoTakenTime.timestamp)
    ensures Key(a) == Key(b) <==> a.title == b.title && a.photoTakenTime == b.photoTakenTime
  {
    if Key(a) == Key(b) {
      var ka, kb := Key(a), Key(b);
      var fa, fb := FormatInt(a.photoTakenTime.timestamp), FormatInt(b.photoTakenTime.timestamp);
      LastIndexOfAfter(a.title, ',', fa);
      LastIndexOfAfter(b.title, ',', fb);
      assert ka == a.title + [','] + fa && kb == b.title + [','] + fb;
      assert |a.title| == |b.title|;
      assert a.title == ka[..|a.title|] == kb[..|b.title|] == b.title;
      assert fa == ka[|a.title| + 1..] == kb[|b.title| + 1..] == fb;
      FormatIntInjective(a.photoTakenTime.timestamp, b.photoTakenTime.timestamp);
    }
  }

  // ---------------------------------------------------------------------
  // googTimeObject.UnmarshalJSON
  // ---------------------------------------------------------------------

  /** A JSON value, as far as decoding it into a Go string can tell. */
  datatype JsonValue = JString(s: string) | JNull | JNotString

  /**
   * The text handed to UnmarshalJSON: the literal null, a JSON object with
   * its members in document order (keys already unescaped), or anything
   * else.
   */
  datatype TimeJson = NotAnObject | Null | Object(members: seq<(string, JsonValue)>)

  /**
   * The receiver after UnmarshalJSON and how the call ended: no error, an
   * error, or a run-time panic.
   */
  datatype TimeOutcome = Decoded(t: TimeObject) | Failed(t: TimeObject) | Panicked

  /**
   * encoding/json matches a member to the field tagged `timestamp` when the
   * key equals the tag under Unicode simple case folding: each letter may
   * also be its ASCII upper case, and `s` may also be U+017F (long s).
   */
  predicate FoldsTo(c: char, lower: char) {
    || c == lower
    || ('a' <= lower <= 'z' && c as int == lower as int - 32)
    || (lower == 's' && c == 'ſ')
  }

  predicate MatchesTimestamp(key: string) {
    |key| == |"timestamp"| && forall i :: 0 <= i < |key| ==> FoldsTo(key[i], "timestamp"[i])
  }

  /**
   * json.Unmarshal into the auxiliary struct whose `timestamp` field is a
   * string, member by member: a matching string member overwrites the
   * field, a matching null leaves it alone, a matching non-string member
   * is an error (None) that decoding the rest does not clear.
   */
  function ScanMembers(ms: seq<(string, JsonValue)>): Option<string> {
    if ms == [] then Some("")
    else
      var prev := ScanMembers(ms[..|ms| - 1]);
      var (k, v) := ms[|ms| - 1];
      if prev.None? || !MatchesTimestamp(k) then prev
      else match v
        case JString(s) => Some(s)
        case JNull => prev
        case JNotString => None
  }

  /**
   * googTimeObject.UnmarshalJSON. A null input sets the auxiliary pointer
   * to nil without an error, and reading its field then panics. Otherwise
   * a decoding error leaves the receiver unchanged, and ParseInt's value is
   * stored even when ParseInt fails.
   */
  function UnmarshalTime(t: TimeObject, data: TimeJson): TimeOutcome {
    match data
    case Null => Panicked
    case NotAnObject => Failed(t)
    case Object(ms) =>
      match ScanMembers(ms)
      case None => Failed(t)
      case Some(s) =>
        var p := ParseInt(s);
        if p.err.None? then Decoded(TimeObject(p.value)) else Failed(TimeObject(p.value))
  }

  /** No member that matches the tag holds a non-string, non-null value. */
  predicate NoTypeError(ms: seq<(string, JsonValue)>) {
    forall i :: 0 <= i < |ms| && MatchesTimestamp(ms[i].0) ==> !ms[i].1.JNotString?
  }

  /** Member i is the last member that matches the tag and holds a string. */
  predicate LastString(ms: seq<(string, JsonValue)>, i: int) {
    && 0 <= i < |ms| && MatchesTimestamp(ms[i].0) && ms[i].1.JString?
    && forall j :: i < j < |ms| && MatchesTimestamp(ms[j].0) ==> !ms[j].1.JString?
  }

  lemma LastStringUnique(ms: seq<(string, JsonValue)>, i: int, j: int)
    requires LastString(ms, i) && LastString(ms, j)
    ensures i == j
  {
  }

  lemma {:induction false} LastStringOfPrefix(ms: seq<(string, JsonValue)>, i: int)
    requires |ms| > 0 && LastString(ms[..|ms| - 1], i)
    requires !(MatchesTimestamp(ms[|ms| - 1].0) && ms[|ms| - 1].1.JString?)
    ensures LastString(ms, i)
  {
    var p := ms[..|ms| - 1];
    forall j | i < j < |ms| && MatchesTimestamp(ms[j].0)
      ensures !ms[j].1.JString?
    {
      if j < |ms| - 1 {
        assert ms[j] == p[j];
      }
    }
  }

  /**
   * The scan fails exactly on a type error; otherwise it yields the last
   * matching string member, or the empty string when there is none.
   */
  lemma {:induction false} ScanMembersSound(ms: seq<(string, JsonValue)>)
    ensures ScanMembers(ms).Some? <==> NoTypeError(ms)
    ensures ScanMembers(ms).Some? ==>
      || (ScanMembers(ms).value == "" && forall i :: 0 <= i < |ms| ==> !LastString(ms, i))
      || (exists i :: LastString(ms, i) && ScanMembers(ms).value == ms[i].1.s)
    decreases |ms|
  {
    if ms != [] {
      var p, m := ms[..|ms| - 1], ms[|ms| - 1];
      assert ms == p + [m];
      ScanMembersSound(p);
      assert NoTypeError(ms) <==> NoTypeError(p) && !(MatchesTimestamp(m.0) && m.1.JNotString?) by {
        forall i | 0 <= i < |p| ensures ms[i] == p[i] { }
      }
      if ScanMembers(ms).Some? {
        if MatchesTimestamp(m.0) && m.1.JString? {
          assert LastString(ms, |ms| - 1);
        } else if ScanMembers(p).value == "" && forall i :: 0 <= i < |p| ==> !LastString(p, i) {
          forall i | 0 <= i < |ms| ensures !LastString(ms, i) {
            if LastString(ms, i) {
              assert i < |p|;
              assert LastString(p, i) by {
                forall j | i < j < |p| && MatchesTimestamp(p[j].0) ensures !p[j].1.JString? {
                  assert p[j] == ms[j];
                }
              }
            }
          }
        } else {
          var i :| LastString(p, i) && ScanMembers(p).value == p[i].1.s;
          LastStringOfPrefix(ms, i);
          assert ms[i] == p[i];
        }
      }
    }
  }

  /**
   * Decoding succeeds exactly on an object with no type error whose last
   * matching string member is one ParseInt accepts, and stores its value.
   * Member names are matched without regard to case.
   */
  lemma UnmarshalTimeSucceeds(t: TimeObject, data: TimeJson)
    ensures UnmarshalTime(t, data).Decoded? <==>
      && data.Object? && NoTypeError(data.members)
      && (exists i :: LastString(data.members, i) &&
            WellFormedInt(data.members[i].1.s) && IsInt64(SignedValue(data.members[i].1.s)))
    ensures forall i :: data.Object? && LastString(data.members, i) && UnmarshalTime(t, data).Decoded? ==>
      UnmarshalTime(t, data).t.timestamp == SignedValue(data.members[i].1.s)
  {
    if data.Object? {
      var ms := data.members;
      ScanMembersSound(ms);
      forall i, j | LastString(ms, i) && LastString(ms, j) ensures i == j {
        LastStringUnique(ms, i, j);
      }
      match ScanMembers(ms)
      case None =>
      case Some(s) =>
        ParseIntAccepts(s);
        assert !WellFormedInt("");
    }
  }

  /** The JSON literal null makes UnmarshalJSON panic. */
  lemma UnmarshalTimeNullPanics(t: TimeObject)
    ensures UnmarshalTime(t, Null).Panicked?
  {
  }

  /** Round trip: the decimal string of any int64 decodes to that timestamp. */
  lemma UnmarshalTimeRoundTrip(t: TimeObject, ms: seq<(string, JsonValue)>, i: int, n: int)
    requires IsInt64(n)
    requires NoTypeError(ms) && LastString(ms, i) && ms[i].1 == JString(FormatInt(n))
    ensures UnmarshalTime(t, Object(ms)) == Decoded(TimeObject(n))
  {
    ScanMembersSound(ms);
    forall j | LastString(ms, j) ensures j == i {
      LastStringUnique(ms, i, j);
    }
    ParseFormatRoundTrip(n);
  }

  /**
   * The member name is matched without regard to case: "Timestamp" and
   * "TIMEſTAMP" (with a long s) are read like "timestamp".
   */
  lemma UnmarshalTimeFoldsKey(t: TimeObject, n: int)
    requires IsInt64(n)
    ensures UnmarshalTime(t, Object([("Timestamp", JString(FormatInt(n)))])) == Decoded(TimeObject(n))
    ensures UnmarshalTime(t, Object([("TIMEſTAMP", JString(FormatInt(n)))])) == Decoded(TimeObject(n))
  {
    var k1, k2 := "Timestamp", "TIMEſTAMP";
    assert MatchesTimestamp(k1) by {
      forall i | 0 <= i < |k1| ensures FoldsTo(k1[i], "timestamp"[i]) { }
    }
    assert MatchesTimestamp(k2) by {
      forall i | 0 <= i < |k2| ensures FoldsTo(k2[i], "timestamp"[i]) { }
    }
    UnmarshalTimeRoundTrip(t, [(k1, JString(FormatInt(n)))], 0, n);
    UnmarshalTimeRoundTrip(t, [(k2, JString(FormatInt(n)))], 0, n);
  }

  /**
   * With two matching string members the later one wins, and a later null
   * does not clear it.
   */
  lemma UnmarshalTimeLastWins(t: TimeObject, a: string, n: int)
    requires IsInt64(n)
    ensures UnmarshalTime(t, Object([("timestamp", JString(a)), ("Timestamp", JString(FormatInt(n))), ("timestamp", JNull)]))
      == Decoded(TimeObject(n))
  {
    var k1, k2 := "timestamp", "Timestamp";
    assert MatchesTimestamp(k1) by {
      forall i | 0 <= i < |k1| ensures FoldsTo(k1[i], "timestamp"[i]) { }
    }
    assert MatchesTimestamp(k2) by {
      forall i | 0 <= i < |k2| ensures FoldsTo(k2[i], "timestamp"[i]) { }
    }
    var ms := [(k1, JString(a)), (k2, JString(FormatInt(n))), (k1, JNull)];
    UnmarshalTimeRoundTrip(t, ms, 1, n);
  }

  /** An empty or non-numeric timestamp string, or a non-string one, is an error. */
  lemma UnmarshalTimeRejects()
    ensures UnmarshalTime(TimeObject(7), Object([])) == Failed(TimeObject(0))
    ensures UnmarshalTime(TimeObject(7), Object([("timestamp", JString("12a"))])) == Failed(TimeObject(0))
    ensures UnmarshalTime(TimeObject(7), Object([("timestamp", JNotString)])) == Failed(TimeObject(7))
    ensures UnmarshalTime(TimeObject(7), NotAnObject) == Failed(TimeObject(7))
  {
    var k := "timestamp";
    assert MatchesTimestamp(k) by {
      forall i | 0 <= i < |k| ensures FoldsTo(k[i], "timestamp"[i]) { }
    }
    assert [(k, JString("12a"))][..0] == [];
    assert [(k, JNotString)][..0] == [];
    assert ParseUint("12a") == UintSyntax by {
      assert "12a"[1..] == "2a" && "2a"[1..] == "a";
    }
  }

  /**
   * A digit string beyond the int64 range is a range error, and the
   * clamped bound is what ends up in the timestamp.
   */
  lemma UnmarshalTimeOutOfRange(t: TimeObject, digits: string)
    requires |digits| > 0 && AllDigits(digits) && DecimalValue(digits) > MaxInt64
    ensures UnmarshalTime(t, Object([("timestamp", JString(digits))])) == Failed(TimeObject(MaxInt64))
  {
    var k := "timestamp";
    assert MatchesTimestamp(k) by {
      forall i | 0 <= i < |k| ensures FoldsTo(k[i], "timestamp"[i]) { }
    }
    assert [(k, JString(digits))][..0] == [];
    assert ScanMembers([(k, JString(digits))]) == Some(digits);
    assert digits[0] != '+' && digits[0] != '-' by {
      assert IsDigit(digits[0]);
    }
    ScanUintOfDigits(digits, 0);
  }
}
