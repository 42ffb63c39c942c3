/**
 * `parse_time` of reminder.py and its inner `__parse`.
 *
 * `__parse` tries six patterns in turn, `(\d*)Y(\d*)M(\d*)D(\d*)h(\d*)m(\d*)s` first and
 * `(\d*)s` last; pattern k is the chain of units k..5, every one of them ending in `s`. Each
 * is applied with `re.search`, so the first pattern that matches anywhere wins, at its
 * leftmost match. Here each pattern is an explicit scanner over the unit letters.
 */
module TimeParse {
  import opened Results
  import opened Calendar
  import opened Encoding

  datatype Field = Year | Month | Day | Hour | Minute | Second

  /** The unit letter that closes each field, in the order the patterns chain them. */
  const Units: seq<char> := ['Y', 'M', 'D', 'h', 'm', 's']

  const AllFields: set<Field> := {Year, Month, Day, Hour, Minute, Second}

  function FieldIndex(f: Field): nat {
    match f
    case Year => 0
    case Month => 1
    case Day => 2
    case Hour => 3
    case Minute => 4
    case Second => 5
  }

  lemma AllFieldsComplete()
    ensures forall f: Field :: f in AllFields
  {
    forall f: Field ensures f in AllFields {
      match f
      case Year =>
      case Month =>
      case Day =>
      case Hour =>
      case Minute =>
      case Second =>
    }
  }

  /** The keys of the dict pattern p yields: the fields from p on. */
  function KeysFrom(p: nat): set<Field> {
    set f | f in AllFields && p <= FieldIndex(f)
  }

  function FieldOf(t: DateTime, f: Field): int {
    match f
    case Year => t.year
    case Month => t.month
    case Day => t.day
    case Hour => t.hour
    case Minute => t.minute
    case Second => t.second
  }

  /** What `parse_time` raises. */
  datatype TimeError =
    | InvalidFormat     // no pattern matched: "invalid format of time"
    | EmptyNumber       // a matched `\d*` group was empty and `int('')` failed
    | InvalidDateTime   // the overlaid fields are not a real date-time: "invalid datetime"
    | Overflow          // OverflowError: a field beyond a C int reached `datetime.datetime`,
                        // or `datetime + timedelta` went past 9999-12-31 23:59:59

  predicate DigitsBetween(s: string, i: nat, j: nat)
    requires i <= j <= |s|
  {
    forall p :: i <= p < j ==> IsDigit(s[p])
  }

  /** Where the greedy `\d*` that starts at i stops. */
  function DigitRunEnd(s: string, i: nat): (j: nat)
    requires i <= |s|
    ensures i <= j <= |s| && DigitsBetween(s, i, j)
    ensures j == |s| || !IsDigit(s[j])
    decreases |s| - i
  {
    if i < |s| && IsDigit(s[i]) then DigitRunEnd(s, i + 1) else i
  }

  /**
   * Pattern k (the units k..5) anchored at position i: the digit groups it captures, or
   * None. Every `\d*` is followed by a letter, which is no digit, so backtracking never
   * helps and the greedy run is the only candidate.
   */
  function MatchAt(s: string, i: nat, k: nat): (r: Option<seq<string>>)
    requires i <= |s| && k <= 6
    ensures r.Some? ==> |r.value| == 6 - k && forall g :: 0 <= g < |r.value| ==> AllDigits(r.value[g])
    decreases 6 - k
  {
    if k == 6 then Some([])
    else
      var j := DigitRunEnd(s, i);
      if j < |s| && s[j] == Units[k] then
        match MatchAt(s, j + 1, k + 1)
        case None => None
        case Some(rest) => Some([s[i..j]] + rest)
      else None
  }

  /** `pat.search(s)` from position i on: the leftmost position where pattern k matches. */
  function SearchFrom(s: string, k: nat, i: nat): (r: Option<(nat, seq<string>)>)
    requires k < 6 && i <= |s|
    ensures r.Some? ==> i <= r.value.0 <= |s| && MatchAt(s, r.value.0, k) == Some(r.value.1)
    ensures r.Some? ==> forall j :: i <= j < r.value.0 ==> MatchAt(s, j, k).None?
    ensures r.None? ==> forall j :: i <= j <= |s| ==> MatchAt(s, j, k).None?
    decreases |s| - i
  {
    match MatchAt(s, i, k)
    case Some(groups) => Some((i, groups))
    case None => if i == |s| then None else SearchFrom(s, k, i + 1)
  }

  /** The dict `__parse` builds from the groups of pattern k: `int()` of every group. */
  function GroupsToFields(groups: seq<string>, k: nat): (r: Result<map<Field, nat>, TimeError>)
    requires k < 6 && |groups| == 6 - k
    requires forall g :: 0 <= g < |groups| ==> AllDigits(groups[g])
    ensures r.Ok? <==> forall g :: 0 <= g < |groups| ==> groups[g] != []
    ensures r.Err? ==> r.error == EmptyNumber
    ensures r.Ok? ==> r.value.Keys == KeysFrom(k)
    ensures r.Ok? ==> forall f :: f in r.value ==> r.value[f] == DigitsValue(groups[FieldIndex(f) - k])
  {
    if exists g :: 0 <= g < |groups| && groups[g] == [] then Err(EmptyNumber)
    else
      Ok(map f | f in AllFields && k <= FieldIndex(f) :: DigitsValue(groups[FieldIndex(f) - k]))
  }

  function ParseFrom(s: string, k: nat): (r: Result<map<Field, nat>, TimeError>)
    requires k <= 6
    ensures r.Err? ==> r.error == InvalidFormat || r.error == EmptyNumber
    ensures r.Ok? ==> exists p :: k <= p < 6 && r.value.Keys == KeysFrom(p)
    decreases 6 - k
  {
    if k == 6 then Err(InvalidFormat)
    else
      match SearchFrom(s, k, 0)
      case Some(found) => GroupsToFields(found.1, k)
      case None => ParseFrom(s, k + 1)
  }

  /**
   * `__parse(s)`: it fails only for want of a pattern or on an empty group, and on success
   * holds exactly the fields of one pattern, a suffix of year..second.
   */
  function Parse(s: string): (r: Result<map<Field, nat>, TimeError>)
    ensures r.Err? ==> r.error == InvalidFormat || r.error == EmptyNumber
    ensures r.Ok? ==> exists p :: 0 <= p < 6 && r.value.Keys == KeysFrom(p)
  {
    ParseFrom(s, 0)
  }

  // ---------------------------------------------------------------------------------
  // The patterns read declaratively, and the scanner proved against that reading

  /**
   * Pattern k matches at position i capturing `groups`, in the regular-expression sense:
   * the first group (a run of digits, possibly empty) stands at i, the unit letter of
   * field k follows it, and the rest of the pattern matches right after that letter.
   */
  ghost predicate MatchesAt(s: string, i: nat, k: nat, groups: seq<string>)
    decreases 6 - k
  {
    && k <= 6 && i <= |s| && |groups| == 6 - k
    && (k < 6 ==>
          var e := i + |groups[0]|;
          && e < |s| && s[i..e] == groups[0] && AllDigits(groups[0]) && s[e] == Units[k]
          && MatchesAt(s, e + 1, k + 1, groups[1..]))
  }

  ghost predicate PatternOccurs(s: string, k: nat) {
    exists i: nat, groups: seq<string> :: MatchesAt(s, i, k, groups)
  }

  lemma {:induction false} DigitRunEndUnique(s: string, i: nat, j: nat)
    requires i <= j <= |s| && DigitsBetween(s, i, j) && (j == |s| || !IsDigit(s[j]))
    ensures DigitRunEnd(s, i) == j
    decreases |s| - i
  {
    if i < j {
      DigitRunEndUnique(s, i + 1, j);
    }
  }

  lemma {:induction false} MatchAtSound(s: string, i: nat, k: nat)
    requires i <= |s| && k <= 6 && MatchAt(s, i, k).Some?
    ensures MatchesAt(s, i, k, MatchAt(s, i, k).value)
    decreases 6 - k
  {
    if k < 6 {
      var groups := MatchAt(s, i, k).value;
      var j := DigitRunEnd(s, i);
      var rest := MatchAt(s, j + 1, k + 1).value;
      MatchAtStep(s, i, k);
      assert groups == [s[i..j]] + rest && groups[0] == s[i..j] && groups[1..] == rest;
      MatchAtSound(s, j + 1, k + 1);
    }
  }

  lemma {:induction false} MatchAtComplete(s: string, i: nat, k: nat, groups: seq<string>)
    requires MatchesAt(s, i, k, groups)
    ensures MatchAt(s, i, k) == Some(groups)
    decreases 6 - k
  {
    if k < 6 {
      var g0, rest := groups[0], groups[1..];
      var e := i + |g0|;
      MatchesAtHead(s, i, k, groups);
      GroupRunEnd(s, i, k, g0);
      MatchAtComplete(s, e + 1, k + 1, rest);
      MatchAtStep(s, i, k);
      assert [g0] + rest == groups;
    } else {
      assert groups == [];
    }
  }

  /** A digit group followed by a unit letter is exactly where the greedy digit run stops. */
  lemma GroupRunEnd(s: string, i: nat, k: nat, g0: string)
    requires k < 6 && i + |g0| < |s| && s[i..i + |g0|] == g0 && AllDigits(g0)
    requires s[i + |g0|] == Units[k]
    ensures DigitRunEnd(s, i) == i + |g0|
  {
    var e := i + |g0|;
    assert !IsDigit(s[e]) by {
      assert !IsDigit(Units[k]);
    }
    forall p | i <= p < e ensures IsDigit(s[p]) {
      assert s[p] == g0[p - i];
    }
    DigitRunEndUnique(s, i, e);
  }

  /** What a match of pattern k at i consists of: its first group, its unit, the rest. */
  lemma MatchesAtHead(s: string, i: nat, k: nat, groups: seq<string>)
    requires MatchesAt(s, i, k, groups) && k < 6
    ensures i + |groups[0]| < |s| && s[i..i + |groups[0]|] == groups[0] && AllDigits(groups[0])
    ensures s[i + |groups[0]|] == Units[k]
    ensures MatchesAt(s, i + |groups[0]| + 1, k + 1, groups[1..])
  {
  }

  lemma MatchAtStep(s: string, i: nat, k: nat)
    requires i <= |s| && k < 6
    requires DigitRunEnd(s, i) < |s| && s[DigitRunEnd(s, i)] == Units[k]
    requires MatchAt(s, DigitRunEnd(s, i) + 1, k + 1).Some?
    ensures MatchAt(s, i, k) == Some([s[i..DigitRunEnd(s, i)]] + MatchAt(s, DigitRunEnd(s, i) + 1, k + 1).value)
  {
  }

  /** The scanner finds a match exactly where the pattern matches, with the same groups. */
  lemma MatchAtIsMatch(s: string, i: nat, k: nat, groups: seq<string>)
    requires i <= |s| && k <= 6
    ensures MatchAt(s, i, k) == Some(groups) <==> MatchesAt(s, i, k, groups)
  {
    if MatchAt(s, i, k) == Some(groups) {
      MatchAtSound(s, i, k);
    }
    if MatchesAt(s, i, k, groups) {
      MatchAtComplete(s, i, k, groups);
    }
  }

  /** A match of any pattern needs the letter `s`, which closes every pattern. */
  lemma {:induction false} MatchNeedsSecondUnit(s: string, i: nat, k: nat)
    requires i <= |s| && k < 6 && MatchAt(s, i, k).Some?
    ensures 's' in s
    decreases 6 - k
  {
    var j := DigitRunEnd(s, i);
    if k == 5 {
      assert s[j] == 's';
    } else {
      MatchNeedsSecondUnit(s, j + 1, k + 1);
    }
  }

  /** Pattern k cannot occur in a text that lacks its first unit letter. */
  lemma PatternNeedsUnit(s: string, k: nat)
    requires k < 6 && PatternOccurs(s, k)
    ensures Units[k] in s
  {
    var i: nat, groups: seq<string> :| MatchesAt(s, i, k, groups);
    assert s[i + |groups[0]|] == Units[k];
  }

  lemma SearchNoneMeansNoMatch(s: string, k: nat)
    requires k < 6 && SearchFrom(s, k, 0).None?
    ensures !PatternOccurs(s, k)
  {
    if PatternOccurs(s, k) {
      var i: nat, groups: seq<string> :| MatchesAt(s, i, k, groups);
      MatchAtIsMatch(s, i, k, groups);
    }
  }

  lemma {:induction false} ParseFromNoOccurrence(s: string, k: nat)
    requires k <= 6
    ensures ParseFrom(s, k) == Err(InvalidFormat) <==> forall p :: k <= p < 6 ==> !PatternOccurs(s, p)
    decreases 6 - k
  {
    if k < 6 {
      ParseFromNoOccurrence(s, k + 1);
      match SearchFrom(s, k, 0)
      case Some(found) =>
        MatchAtIsMatch(s, found.0, k, found.1);
        assert PatternOccurs(s, k);
      case None =>
        SearchNoneMeansNoMatch(s, k);
    }
  }

  /**
   * `__parse` fails with "invalid format of time" exactly when no pattern matches anywhere,
   * that is exactly when the text has no `s`.
   */
  lemma InvalidFormatIffNoSecondUnit(s: string)
    ensures Parse(s) == Err(InvalidFormat) <==> forall k :: 0 <= k < 6 ==> !PatternOccurs(s, k)
    ensures Parse(s) == Err(InvalidFormat) <==> 's' !in s
  {
    ParseFromNoOccurrence(s, 0);
    if 's' in s {
      SecondUnitOccurs(s);
    } else {
      NoSecondUnitNoPattern(s);
    }
  }

  /** Wherever an `s` stands, pattern p6 matches with an empty group. */
  lemma SecondUnitOccurs(s: string)
    requires 's' in s
    ensures PatternOccurs(s, 5)
  {
    var p :| 0 <= p < |s| && s[p] == 's';
    assert DigitRunEnd(s, p) == p;
    assert MatchAt(s, p, 6) == Some([]);
    MatchAtIsMatch(s, p, 5, [[]]);
    assert MatchesAt(s, p, 5, [[]]);
  }

  lemma NoSecondUnitNoPattern(s: string)
    requires 's' !in s
    ensures forall k :: 0 <= k < 6 ==> !PatternOccurs(s, k)
  {
    forall k | 0 <= k < 6 ensures !PatternOccurs(s, k) {
      if PatternOccurs(s, k) {
        var i: nat, groups: seq<string> :| MatchesAt(s, i, k, groups);
        MatchAtIsMatch(s, i, k, groups);
        MatchNeedsSecondUnit(s, i, k);
      }
    }
  }

  lemma {:induction false} ParseFromSkips(s: string, k: nat, p: nat)
    requires k <= p < 6
    requires forall q :: k <= q < p ==> !PatternOccurs(s, q)
    ensures ParseFrom(s, k) == ParseFrom(s, p)
    decreases p - k
  {
    if k < p {
      if SearchFrom(s, k, 0).Some? {
        var found := SearchFrom(s, k, 0).value;
        MatchAtIsMatch(s, found.0, k, found.1);
        assert PatternOccurs(s, k);
      }
      ParseFromSkips(s, k + 1, p);
    }
  }

  /**
   * `__parse` takes the first pattern, in order p1..p6, that matches anywhere, reads the
   * groups of its leftmost match, and fails at `int('')` if one of them is empty.
   */
  lemma ParseIsFirstLeftmostMatch(s: string, k: nat, i: nat, groups: seq<string>)
    requires k < 6
    requires forall q :: 0 <= q < k ==> !PatternOccurs(s, q)
    requires MatchesAt(s, i, k, groups) && forall g :: 0 <= g < |groups| ==> AllDigits(groups[g])
    requires forall j: nat, g: seq<string> :: j < i ==> !MatchesAt(s, j, k, g)
    ensures Parse(s) == GroupsToFields(groups, k)
    ensures Parse(s).Ok? <==> forall g :: 0 <= g < |groups| ==> groups[g] != []
    ensures Parse(s).Ok? ==> Parse(s).value.Keys == KeysFrom(k)
  {
    ParseFromSkips(s, 0, k);
    MatchAtIsMatch(s, i, k, groups);
    var r := SearchFrom(s, k, 0);
    assert r.Some?;
    var found := r.value;
    if found.0 < i {
      MatchAtIsMatch(s, found.0, k, found.1);
      assert false;
    }
    assert found.0 == i;
    assert found.1 == groups;
    assert Parse(s) == GroupsToFields(found.1, k);
  }

  // ---------------------------------------------------------------------------------
  // parse_time

  /** Python truthiness of an optional string argument: given and not empty. */
  predicate Given(arg: Option<string>) {
    arg.Some? && arg.value != ""
  }

  /** The `when` overlay: parsed fields replace those of "now", the others stay. */
  function Overlay(now: DateTime, parsed: map<Field, nat>): (t: DateTime)
    ensures forall f :: FieldOf(t, f) == if f in parsed then parsed[f] else FieldOf(now, f)
  {
    DateTime(if Year in parsed then parsed[Year] else now.year,
             if Month in parsed then parsed[Month] else now.month,
             if Day in parsed then parsed[Day] else now.day,
             if Hour in parsed then parsed[Hour] else now.hour,
             if Minute in parsed then parsed[Minute] else now.minute,
             if Second in parsed then parsed[Second] else now.second)
  }

  function ValueOrZero(parsed: map<Field, nat>, f: Field): nat {
    if f in parsed then parsed[f] else 0
  }

  /** `timedelta(days=, hours=, minutes=, seconds=)` in seconds; year and month play no part. */
  function Offset(parsed: map<Field, nat>): nat {
    ValueOrZero(parsed, Day) * SecondsPerDay + ValueOrZero(parsed, Hour) * 3600
    + ValueOrZero(parsed, Minute) * 60 + ValueOrZero(parsed, Second)
  }

  /** `now + timedelta(seconds=offset)`, or the OverflowError past year 9999. */
  function AddSeconds(now: DateTime, offset: nat): (r: Result<DateTime, TimeError>)
    requires ValidDateTime(now)
    ensures r.Err? <==> ToSeconds(now) + offset > MaxSeconds
    ensures r.Err? ==> r.error == Overflow
    ensures r.Ok? ==> ValidDateTime(r.value) && ToSeconds(r.value) == ToSeconds(now) + offset
  {
    FromToSeconds(now);
    var total := ToSeconds(now) + offset;
    if total > MaxSeconds then Err(Overflow)
    else
      Ok(FromSeconds(total))
  }

  /**
   * `valid_datetime(year, month, day, hour, minute, second)`: whether `datetime.datetime`
   * accepts the fields. A field beyond a C int makes `datetime.datetime` raise OverflowError
   * before any range check, and `except ValueError` does not catch it, so it escapes.
   */
  function CheckDateTime(t: DateTime): (r: Result<bool, TimeError>)
    ensures r.Err? <==> !FitsCInt(t)
    ensures r.Err? ==> r.error == Overflow
    ensures r.Ok? ==> (r.value <==> ValidDateTime(t))
    ensures r == Ok(true) ==> FitsWidths(t) && Unpack(Date2Int(t)) == t
  {
    if !FitsCInt(t) then Err(Overflow)
    else if ValidDateTime(t) then
      assert FitsWidths(t) && Unpack(Date2Int(t)) == t by {
        ValidFitsWidths(t);
        UnpackPack(t);
      }
      Ok(true)
    else Ok(false)
  }

  /**
   * The `when` branch of `parse_time`: the overlay of the parsed fields on "now", encoded,
   * once `valid_datetime` accepts it.
   */
  function WhenMode(expr: string, now: DateTime): (r: Result<int, TimeError>)
    requires ValidDateTime(now)
    ensures Parse(expr).Err? ==> r == Err(Parse(expr).error)
    ensures Parse(expr).Ok? ==>
      var t := Overlay(now, Parse(expr).value);
      && (r == Err(Overflow) <==> !FitsCInt(t))
      && (r == Err(InvalidDateTime) <==> FitsCInt(t) && !ValidDateTime(t))
      && (r.Ok? <==> ValidDateTime(t))
      && (r.Ok? ==> Unpack(r.value) == t && Date2Int(Unpack(r.value)) == r.value)
  {
    match Parse(expr)
    case Err(e) => Err(e)
    case Ok(parsed) =>
      var t := Overlay(now, parsed);
      match CheckDateTime(t)
      case Err(e) => Err(e)
      case Ok(valid) => if valid then Ok(Date2Int(t)) else Err(InvalidDateTime)
  }

  /**
   * The `after` branch of `parse_time`: "now" moved on by the parsed offset, encoded;
   * past 9999-12-31 23:59:59 the addition overflows.
   */
  function AfterMode(expr: string, now: DateTime): (r: Result<int, TimeError>)
    requires ValidDateTime(now)
    ensures Parse(expr).Err? ==> r == Err(Parse(expr).error)
    ensures Parse(expr).Ok? ==>
      var offset := Offset(Parse(expr).value);
      && (r.Err? <==> ToSeconds(now) + offset > MaxSeconds)
      && (r.Err? ==> r.error == Overflow)
      && (r.Ok? ==> ValidDateTime(Unpack(r.value)) && ToSeconds(Unpack(r.value)) == ToSeconds(now) + offset
                    && Date2Int(Unpack(r.value)) == r.value)
  {
    match Parse(expr)
    case Err(e) => Err(e)
    case Ok(parsed) =>
      match AddSeconds(now, Offset(parsed))
      case Err(e) => Err(e)
      case Ok(t) =>
        assert Unpack(Date2Int(t)) == t by {
          ValidFitsWidths(t);
          UnpackPack(t);
        }
        Ok(Date2Int(t))
  }

  /**
   * `parse_time(when, after)` with the clock reading `now` passed in: `when` wins when
   * given, `after` is read only without it, and with neither the result is None.
   */
  function ParseTime(when: Option<string>, after: Option<string>, now: DateTime): (r: Result<Option<int>, TimeError>)
    requires ValidDateTime(now)
    ensures r == Ok(None) <==> !Given(when) && !Given(after)
    ensures r.Ok? && r.value.Some? ==> ValidDateTime(Unpack(r.value.value)) && Date2Int(Unpack(r.value.value)) == r.value.value
  {
    if Given(when) then
      match WhenMode(when.value, now)
      case Err(e) => Err(e)
      case Ok(n) => Ok(Some(n))
    else if Given(after) then
      match AfterMode(after.value, now)
      case Err(e) => Err(e)
      case Ok(n) => Ok(Some(n))
    else Ok(None)
  }

  /**
   * The due time `main` stores for a new reminder: the parsed time when `when` or `after`
   * is given, else the encoding of "now". Whatever it yields is a well-formed timestamp.
   */
  function DueTime(when: Option<string>, after: Option<string>, now: DateTime): (r: Result<int, TimeError>)
    requires ValidDateTime(now)
    ensures !Given(when) && !Given(after) ==> r == Ok(Date2Int(now))
    ensures Given(when) || Given(after) ==>
      && (ParseTime(when, after, now).Err? ==> r == Err(ParseTime(when, after, now).error))
      && (ParseTime(when, after, now).Ok? ==> r == Ok(ParseTime(when, after, now).value.value))
    ensures r.Ok? ==> ValidDateTime(Unpack(r.value)) && Date2Int(Unpack(r.value)) == r.value
    ensures r.Err? ==> ParseTime(when, after, now) == Err(r.error)
  {
    if Given(when) || Given(after) then
      match ParseTime(when, after, now)
      case Err(e) => Err(e)
      case Ok(o) => Ok(o.value)
    else
      assert Unpack(Date2Int(now)) == now by {
        ValidFitsWidths(now);
        UnpackPack(now);
      }
      Ok(Date2Int(now))
  }

  // ---------------------------------------------------------------------------------
  // Properties of parse_time

  /** With `when` given, `after` is never looked at. */
  lemma WhenTakesPrecedence(when: Option<string>, after1: Option<string>, after2: Option<string>, now: DateTime)
    requires ValidDateTime(now) && Given(when)
    ensures ParseTime(when, after1, now) == ParseTime(when, after2, now)
  {
  }

  /**
   * `when` mode: the result is the encoding of "now" with exactly the parsed fields
   * replaced; it fails with "invalid datetime" exactly when that overlay is no real
   * date-time, and with an overflow exactly when a field is beyond a C int.
   */
  lemma WhenOverlaysParsedFields(when: Option<string>, after: Option<string>, now: DateTime)
    requires ValidDateTime(now) && Given(when)
    ensures Parse(when.value).Err? ==> ParseTime(when, after, now) == Err(Parse(when.value).error)
    ensures Parse(when.value).Ok? ==>
      var parsed := Parse(when.value).value;
      var overlay := Overlay(now, parsed);
      && (ParseTime(when, after, now) == Err(Overflow) <==> !FitsCInt(overlay))
      && (ParseTime(when, after, now) == Err(InvalidDateTime) <==> FitsCInt(overlay) && !ValidDateTime(overlay))
      && (ValidDateTime(overlay) ==> ParseTime(when, after, now) == Ok(Some(Date2Int(overlay))))
      && (ParseTime(when, after, now).Ok? ==>
            var t := Unpack(ParseTime(when, after, now).value.value);
            && ValidDateTime(t)
            && forall f :: FieldOf(t, f) == if f in parsed then parsed[f] else FieldOf(now, f))
  {
  }

  /**
   * `after` mode, read whenever `when` is not given: "now" moves forward by
   * days*86400 + hours*3600 + minutes*60 + seconds (parsed year and month ignored) with
   * calendar carry, so the encoding never decreases; past 9999-12-31 23:59:59 it overflows.
   */
  lemma AfterAdvancesNow(when: Option<string>, after: Option<string>, now: DateTime)
    requires ValidDateTime(now) && !Given(when) && Given(after)
    ensures Parse(after.value).Err? ==> ParseTime(when, after, now) == Err(Parse(after.value).error)
    ensures Parse(after.value).Ok? ==>
      var offset := Offset(Parse(after.value).value);
      && (ParseTime(when, after, now) == Err(Overflow) <==> ToSeconds(now) + offset > MaxSeconds)
      && (ParseTime(when, after, now).Ok? ==>
            var n := ParseTime(when, after, now).value.value;
            && ValidDateTime(Unpack(n))
            && ToSeconds(Unpack(n)) == ToSeconds(now) + offset
            && Date2Int(now) <= n)
  {
    var r := AfterMode(after.value, now);
    if r.Ok? {
      var t := Unpack(r.value);
      EncodingIsChronological(t, now);
    }
  }

  /** The text pattern k spells out around the given groups: g0 U_k g1 U_k+1 ... */
  function Layout(groups: seq<string>, k: nat): string
    requires k + |groups| <= 6
    decreases |groups|
  {
    if groups == [] then [] else groups[0] + [Units[k]] + Layout(groups[1..], k + 1)
  }

  /** Text laid out by pattern k matches pattern k, with the groups it was laid out from. */
  lemma {:induction false} LayoutMatches(pre: string, groups: seq<string>, k: nat)
    requires k + |groups| == 6 && forall g :: 0 <= g < |groups| ==> AllDigits(groups[g])
    ensures MatchesAt(pre + Layout(groups, k), |pre|, k, groups)
    decreases |groups|
  {
    if groups != [] {
      var g0, rest := groups[0], groups[1..];
      var pre' := pre + g0 + [Units[k]];
      var s := pre + Layout(groups, k);
      LayoutSplit(pre, groups, k);
      RestDigits(groups);
      LayoutMatches(pre', rest, k + 1);
      MatchesAtCons(s, |pre|, |pre'|, k, g0, rest);
      assert [g0] + rest == groups;
    } else {
      assert MatchesAt(pre + Layout(groups, k), |pre|, k, groups);
    }
  }

  /** Laying out the first group: its digits, its unit letter, then the layout of the rest. */
  lemma LayoutSplit(pre: string, groups: seq<string>, k: nat)
    requires k + |groups| == 6 && groups != []
    ensures var s, e := pre + Layout(groups, k), |pre| + |groups[0]|;
      && s == (pre + groups[0] + [Units[k]]) + Layout(groups[1..], k + 1)
      && e < |s| && s[|pre|..e] == groups[0] && s[e] == Units[k]
  {
    var pre' := pre + groups[0] + [Units[k]];
    var s, e := pre + Layout(groups, k), |pre| + |groups[0]|;
    assert s == pre' + Layout(groups[1..], k + 1);
    assert s[|pre|..e] == pre'[|pre|..e];
  }

  lemma RestDigits(groups: seq<string>)
    requires groups != [] && forall g :: 0 <= g < |groups| ==> AllDigits(groups[g])
    ensures forall g :: 0 <= g < |groups[1..]| ==> AllDigits(groups[1..][g])
  {
    forall g | 0 <= g < |groups[1..]| ensures AllDigits(groups[1..][g]) {
      assert groups[1..][g] == groups[g + 1];
    }
  }

  /** One step of `MatchesAt`: the first group, its unit letter, and a match of the rest. */
  lemma MatchesAtCons(s: string, i: nat, j: nat, k: nat, g0: string, rest: seq<string>)
    requires k < 6 && |rest| == 5 - k && j == i + |g0| + 1 && j <= |s|
    requires s[i..i + |g0|] == g0 && AllDigits(g0) && s[i + |g0|] == Units[k]
    requires MatchesAt(s, j, k + 1, rest)
    ensures MatchesAt(s, i, k, [g0] + rest)
  {
    assert ([g0] + rest)[0] == g0 && ([g0] + rest)[1..] == rest;
  }

  /** The six fields of a date-time as decimal digit groups, year first. */
  function FieldGroups(t: DateTime): (groups: seq<string>)
    requires NonNegative(t)
    ensures |groups| == 6 && forall g :: 0 <= g < 6 ==> AllDigits(groups[g]) && groups[g] != []
    ensures forall f :: DigitsValue(groups[FieldIndex(f)]) == FieldOf(t, f)
  {
    [Str(t.year), Str(t.month), Str(t.day), Str(t.hour), Str(t.minute), Str(t.second)]
  }

  /** A full expression such as 2015Y10M12D15h22m30s: the whole pattern p1. */
  function FullExpression(t: DateTime): string
    requires NonNegative(t)
  {
    Layout(FieldGroups(t), 0)
  }

  /** Text laid out by the whole pattern p1 parses back to its six groups. */
  lemma ParseLayout(groups: seq<string>)
    requires |groups| == 6
    requires forall g :: 0 <= g < 6 ==> AllDigits(groups[g]) && groups[g] != []
    ensures Parse(Layout(groups, 0)) == GroupsToFields(groups, 0)
    ensures Parse(Layout(groups, 0)).Ok?
  {
    var s := Layout(groups, 0);
    LayoutMatches([], groups, 0);
    assert [] + s == s;
    MatchAtIsMatch(s, 0, 0, groups);
    assert SearchFrom(s, 0, 0) == Some((0, groups));
  }

  /** A full expression is read back field for field. */
  lemma ParseFullExpression(t: DateTime)
    requires NonNegative(t)
    ensures Parse(FullExpression(t)).Ok?
    ensures var parsed := Parse(FullExpression(t)).value;
      parsed.Keys == AllFields && forall f :: f in parsed ==> parsed[f] == FieldOf(t, f)
  {
    var groups := FieldGroups(t);
    ParseLayout(groups);
    var parsed := GroupsToFields(groups, 0).value;
    assert parsed.Keys == AllFields by {
      AllFieldsComplete();
    }
    forall f | f in parsed ensures parsed[f] == FieldOf(t, f) {
      assert parsed[f] == DigitsValue(groups[FieldIndex(f) - 0]);
    }
  }

  /** Overlaying a parse that holds every field yields exactly those fields. */
  lemma OverlayAllFields(now: DateTime, parsed: map<Field, nat>, t: DateTime)
    requires parsed.Keys == AllFields && forall f :: f in parsed ==> parsed[f] == FieldOf(t, f)
    ensures Overlay(now, parsed) == t
  {
    assert Year in parsed && Month in parsed && Day in parsed;
    assert Hour in parsed && Minute in parsed && Second in parsed;
  }

  /** A full `when` expression reproduces exactly its six fields, whatever "now" is. */
  lemma FullExpressionIsExact(t: DateTime, after: Option<string>, now: DateTime)
    requires ValidDateTime(t) && ValidDateTime(now)
    ensures ParseTime(Some(FullExpression(t)), after, now) == Ok(Some(Pack(t)))
  {
    var expr := FullExpression(t);
    ParseFullExpression(t);
    OverlayAllFields(now, Parse(expr).value, t);
    ValidFitsWidths(t);
    assert WhenMode(expr, now) == Ok(Date2Int(t));
  }
}
