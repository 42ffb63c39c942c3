/** The behaviour of `parse_time` on the expressions its tests and documentation use. */
module ParseExamples {
  import opened Results
  import opened Calendar
  import opened Encoding
  import opened TimeParse

  /** Every letter of a laid-out text is a digit or one of the units k..5. */
  lemma {:induction false} LayoutLetters(groups: seq<string>, k: nat)
    requires k + |groups| <= 6 && forall g :: 0 <= g < |groups| ==> AllDigits(groups[g])
    ensures forall p :: 0 <= p < |Layout(groups, k)| ==>
      IsDigit(Layout(groups, k)[p]) || Layout(groups, k)[p] in Units[k..]
    decreases |groups|
  {
    if groups != [] {
      var s, head, rest := Layout(groups, k), groups[0] + [Units[k]], Layout(groups[1..], k + 1);
      LayoutLetters(groups[1..], k + 1);
      assert s == head + rest;
      forall p | 0 <= p < |s| ensures IsDigit(s[p]) || s[p] in Units[k..] {
        if p < |groups[0]| {
          assert s[p] == groups[0][p];
        } else if p == |groups[0]| {
          assert s[p] == Units[k];
        } else {
          assert s[p] == rest[p - |head|];
          assert Units[k + 1..] == Units[k..][1..];
        }
      }
    }
  }

  /** A clock expression such as 12h3m45s: pattern p4 laid out around three numbers. */
  function ClockExpression(h: nat, m: nat, sec: nat): string {
    Layout([Str(h), Str(m), Str(sec)], 3)
  }

  /**
   * A clock expression is read by pattern p4, since the units Y, M and D of the earlier
   * patterns do not appear in it: exactly its hour, minute and second.
   */
  lemma ParseClockExpression(h: nat, m: nat, sec: nat)
    ensures Parse(ClockExpression(h, m, sec)) == Ok(map[Hour := h, Minute := m, Second := sec])
  {
    var groups := [Str(h), Str(m), Str(sec)];
    var s := Layout(groups, 3);
    NoDateUnits(groups);
    assert MatchesAt(s, 0, 3, groups) by {
      LayoutMatches([], groups, 3);
      assert [] + s == s;
    }
    ParseIsFirstLeftmostMatch(s, 3, 0, groups);
    ClockFields(groups, h, m, sec);
  }

  /** Without Y, M or D in the text, patterns p1..p3 match nowhere. */
  lemma NoDateUnits(groups: seq<string>)
    requires |groups| == 3 && forall g :: 0 <= g < 3 ==> AllDigits(groups[g])
    ensures forall q :: 0 <= q < 3 ==> !PatternOccurs(Layout(groups, 3), q)
  {
    var s := Layout(groups, 3);
    forall q | 0 <= q < 3 ensures !PatternOccurs(s, q) {
      if PatternOccurs(s, q) {
        PatternNeedsUnit(s, q);
        var p :| 0 <= p < |s| && s[p] == Units[q];
        LayoutLetters(groups, 3);
        assert false;
      }
    }
  }

  lemma ClockFields(groups: seq<string>, h: nat, m: nat, sec: nat)
    requires groups == [Str(h), Str(m), Str(sec)]
    ensures GroupsToFields(groups, 3) == Ok(map[Hour := h, Minute := m, Second := sec])
  {
    var r := GroupsToFields(groups, 3);
    assert r.Ok?;
    var parsed := r.value;
    assert parsed.Keys == {Hour, Minute, Second} by {
      KeysFromHour();
    }
    assert parsed[Hour] == h by {
      assert parsed[Hour] == DigitsValue(groups[FieldIndex(Hour) - 3]);
    }
    assert parsed[Minute] == m by {
      assert parsed[Minute] == DigitsValue(groups[FieldIndex(Minute) - 3]);
    }
    assert parsed[Second] == sec by {
      assert parsed[Second] == DigitsValue(groups[FieldIndex(Second) - 3]);
    }
    assert parsed == map[Hour := h, Minute := m, Second := sec];
  }

  lemma KeysFromHour()
    ensures KeysFrom(3) == {Hour, Minute, Second}
  {
    AllFieldsComplete();
  }

  /** `13h2m` names no seconds, so no pattern matches: "invalid format of time". */
  lemma MinutesWithoutSecondsRejected()
    ensures Parse("13h2m") == Err(InvalidFormat)
  {
    InvalidFormatIffNoSecondUnit("13h2m");
  }

  lemma ClockText(s: string, h: nat, m: nat, sec: nat, sh: string, sm: string, ss: string)
    requires sh == Str(h) && sm == Str(m) && ss == Str(sec)
    requires s == sh + "h" + sm + "m" + ss + "s"
    ensures s == ClockExpression(h, m, sec)
  {
    var last := ss + "s";
    assert Layout([ss], 5) == last by {
      assert [ss][1..] == [];
    }
    var rest := sm + "m" + last;
    assert Layout([sm, ss], 4) == rest by {
      assert [sm, ss][1..] == [ss];
    }
    assert Layout([sh, sm, ss], 3) == sh + "h" + rest by {
      assert [sh, sm, ss][1..] == [sm, ss];
    }
    assert s == sh + "h" + rest;
  }

  /** The expression of the test suite is read by pattern p4 as hour 12, minute 3, second 45. */
  lemma TestExpressionParses()
    ensures Parse("12h3m45s") == Ok(map[Hour := 12, Minute := 3, Second := 45])
  {
    assert Str(12) == "12" && Str(3) == "3" && Str(45) == "45";
    ClockText("12h3m45s", 12, 3, 45, "12", "3", "45");
    ParseClockExpression(12, 3, 45);
  }

  /** A clock expression given as `when` keeps the date of "now" and sets the time of day. */
  lemma WhenClockExpression(h: nat, m: nat, sec: nat, after: Option<string>, now: DateTime)
    requires ValidDateTime(now) && h < 24 && m < 60 && sec < 60
    ensures ParseTime(Some(ClockExpression(h, m, sec)), after, now)
         == Ok(Some(Pack(DateTime(now.year, now.month, now.day, h, m, sec))))
  {
    var t := DateTime(now.year, now.month, now.day, h, m, sec);
    ParseClockExpression(h, m, sec);
    assert Overlay(now, map[Hour := h, Minute := m, Second := sec]) == t;
    ValidFitsWidths(t);
  }

  /** The last six digits of an encoding are its time of day. */
  lemma PackTimeOfDay(t: DateTime)
    requires ValidDateTime(t)
    ensures Pack(t) % 1000000 == t.hour * 10000 + t.minute * 100 + t.second
  {
    var date := t.year * 10000 + t.month * 100 + t.day;
    var time := t.hour * 10000 + t.minute * 100 + t.second;
    assert Pack(t) == date * 1000000 + time by {
      ValidFitsWidths(t);
    }
    LowDigits(date, time);
  }

  lemma LowDigits(a: int, b: int)
    requires 0 <= b < 1000000
    ensures (a * 1000000 + b) % 1000000 == b
  {
  }

  /**
   * The test suite's `when` expression: whatever "now" is, and whether or not `after` is
   * given too, the due time ends in the digits 120345.
   */
  lemma WhenTestExpression(after: Option<string>, now: DateTime)
    requires ValidDateTime(now)
    ensures ParseTime(Some("12h3m45s"), after, now).Ok?
    ensures ParseTime(Some("12h3m45s"), after, now).value.Some?
    ensures ParseTime(Some("12h3m45s"), after, now).value.value % 1000000 == 120345
  {
    WhenTestText("12h3m45s", after, now);
  }

  lemma WhenTestText(when: string, after: Option<string>, now: DateTime)
    requires when == "12h3m45s" && ValidDateTime(now)
    ensures ParseTime(Some(when), after, now).Ok? && ParseTime(Some(when), after, now).value.Some?
    ensures ParseTime(Some(when), after, now).value.value % 1000000 == 120345
  {
    assert Str(12) == "12" && Str(3) == "3" && Str(45) == "45";
    ClockText(when, 12, 3, 45, "12", "3", "45");
    var t := DateTime(now.year, now.month, now.day, 12, 3, 45);
    WhenClockExpression(12, 3, 45, after, now);
    PackTimeOfDay(t);
  }

  /** `after` 12h3m5s from 2024-01-01 00:00:00 is due at 20240101120305. */
  lemma AfterExample()
    ensures ParseTime(None, Some("12h3m5s"), DateTime(2024, 1, 1, 0, 0, 0)) == Ok(Some(20240101120305))
  {
    AfterExampleAt("12h3m5s", DateTime(2024, 1, 1, 0, 0, 0));
  }

  lemma AfterExampleAt(expr: string, now: DateTime)
    requires expr == "12h3m5s" && now == DateTime(2024, 1, 1, 0, 0, 0)
    ensures ParseTime(None, Some(expr), now) == Ok(Some(20240101120305))
  {
    var target := DateTime(2024, 1, 1, 12, 3, 5);
    assert Parse(expr).Ok? && Offset(Parse(expr).value) == 43385 by {
      AfterExampleParses(expr);
    }
    assert ValidDateTime(now) && ValidDateTime(target) && ToSeconds(target) == ToSeconds(now) + 43385 by {
      SameDaySeconds(now, target);
    }
    AfterLandsOn(Some(expr), now, target);
    assert Pack(target) == 20240101120305;
  }

  lemma SameDaySeconds(now: DateTime, target: DateTime)
    requires now == DateTime(2024, 1, 1, 0, 0, 0) && target == DateTime(2024, 1, 1, 12, 3, 5)
    ensures ValidDateTime(now) && ValidDateTime(target) && ToSeconds(target) == ToSeconds(now) + 43385
  {
    assert Ordinal(now) == Ordinal(target);
  }

  /** `after` lands on the one date-time that lies the parsed offset after "now". */
  lemma AfterLandsOn(after: Option<string>, now: DateTime, target: DateTime)
    requires ValidDateTime(now) && ValidDateTime(target) && Given(after) && Parse(after.value).Ok?
    requires ToSeconds(target) == ToSeconds(now) + Offset(Parse(after.value).value)
    ensures ParseTime(None, after, now) == Ok(Some(Pack(target)))
  {
    AfterAdvancesNow(None, after, now);
    var n := ParseTime(None, after, now).value.value;
    assert Unpack(n) == target by {
      ChronologicalOrder(Unpack(n), target);
    }
    assert n == Pack(target) by {
      ValidFitsWidths(target);
    }
  }

  lemma AfterExampleParses(s: string)
    requires s == "12h3m5s"
    ensures Parse(s) == Ok(map[Hour := 12, Minute := 3, Second := 5])
    ensures Offset(Parse(s).value) == 43385
  {
    assert Str(12) == "12" && Str(3) == "3" && Str(5) == "5";
    ClockText(s, 12, 3, 5, "12", "3", "5");
    ParseClockExpression(12, 3, 5);
  }
}
