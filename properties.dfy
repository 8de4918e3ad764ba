/**
 * What the formatter does on whole patterns: patterns without tokens come
 * back as they are, each token alone becomes its component, the `gmt|utc`
 * and `iso` rules ignore case, and only `Week` is replaced everywhere. The
 * default pattern, with several tokens, is taken up in `NumericPatterns`.
 */
module DateProperties {
  import opened Text
  import opened WordRegex
  import opened WholeWords
  import opened ReplaceChain
  import opened DateFormat

  // ---------------------------------------------------------------------
  // Patterns without tokens.
  // ---------------------------------------------------------------------

  /** A string without letters has no match of any rule: every literal starts with a letter. */
  lemma NoLettersNoMatch(s: string, k: nat)
    requires k < RuleCount
    requires forall i :: 0 <= i < |s| ==> !IsLetter(s[i])
    ensures NoMatchIn(s, Rule(k))
  {
    RulesShape(k);
    var re := Rule(k);
    forall i, j | 0 <= i < |s| && 0 <= j < |re.alts| ensures !SameChar(s[i], re.alts[j].lit[0], re.ignoreCase) {
      assert Upper(s[i]) == s[i];
    }
    NoMatchWithoutFirstChar(s, re);
  }

  /** A pattern without ASCII letters comes back unchanged. */
  lemma FormatWithoutLetters(pattern: string, m: Moment)
    requires m.fields.Valid()
    requires forall i :: 0 <= i < |pattern| ==> !IsLetter(pattern[i])
    ensures Format(pattern, m) == pattern
  {
    forall k | 0 <= k < RuleCount ensures NoMatchIn(pattern, Rule(k)) {
      NoLettersNoMatch(pattern, k);
    }
  }

  /** A regex whose literals are all longer than the string matches nowhere in it. */
  lemma ShortNoMatch(s: string, re: Regex)
    requires forall j :: 0 <= j < |re.alts| ==> |re.alts[j].lit| > |s|
    ensures NoMatchIn(s, re)
  {
    forall i, j | 0 <= i <= |s| && 0 <= j < |re.alts| ensures !BranchAt(s, i, re.alts[j], re.ignoreCase) {
    }
  }

  /** No token literal has a match of `gmt|utc` in it. */
  lemma GmtNotInLit(i: nat)
    requires i < |TokenLits|
    ensures NoMatchIn(TokenLits[i], Rule(0))
  {
    var w := TokenLits[i];
    if |w| < 3 {
      ShortNoMatch(w, Rule(0));
    } else {
      assert w == "iso" || w == "Month" || w == "Week";
      forall c, j | 0 <= c < |w| && 0 <= j < 2 ensures !SameChar(w[c], Rule(0).alts[j].lit[0], true) {
      }
      NoMatchWithoutFirstChar(w, Rule(0));
    }
  }

  /** The literals are told apart by the rules' own comparison. */
  lemma LitsDistinct(i: nat, j: nat)
    requires i < |TokenLits| && j < |TokenLits|
    ensures WordEq(TokenLits[i], TokenLits[j], j == 0) <==> i == j
  {
    if j == 0 {
      if i == 0 {
        assert TokenLits[0][0..3] == TokenLits[0];
      }
    } else {
      WordEqCaseSensitive(TokenLits[i], TokenLits[j]);
    }
  }

  // ---------------------------------------------------------------------
  // One token alone.
  // ---------------------------------------------------------------------

  /**
   * A pattern that is just the literal of rule `k` becomes that rule's value,
   * provided the value has no `$` and no later rule matches in it.
   */
  lemma FormatToken(k: nat, m: Moment)
    requires m.fields.Valid() && 1 <= k < RuleCount
    requires '$' !in Value(m, k)
    requires forall j :: k < j < RuleCount ==> NoMatchIn(Value(m, k), Rule(j))
    ensures Format(TokenLits[k - 1], m) == Value(m, k)
  {
    var w, v, steps := TokenLits[k - 1], Value(m, k), Steps(m);
    TokenLitsShape();
    forall j | 0 <= j < k ensures NoMatchIn(w, steps[j].re) {
      if j == 0 {
        GmtNotInLit(k - 1);
      } else {
        RulesShape(j);
        LitsDistinct(k - 1, j - 1);
        WordNoMatch(w, Rule(j));
      }
    }
    RulesShape(k);
    LitsDistinct(k - 1, k - 1);
    WholeWordReplaceInWord(w, Rule(k), v);
    assert Replace(w, steps[k].re, steps[k].value) == v;
    ApplyOnly(w, steps, k);
  }

  /** A token whose value is all digits becomes that value: no later rule finds a letter in it. */
  lemma FormatDigits(k: nat, m: Moment)
    requires m.fields.Valid() && 1 <= k < RuleCount && AllDigits(Value(m, k))
    ensures Format(TokenLits[k - 1], m) == Value(m, k)
  {
    forall j | k < j < RuleCount ensures NoMatchIn(Value(m, k), Rule(j)) {
      NoLettersNoMatch(Value(m, k), j);
    }
    FormatToken(k, m);
  }

  /** What the year rules put in, read as digits. */
  lemma YearValues(m: Moment)
    requires m.fields.Valid()
    ensures var y := m.fields.year;
      && (y >= 0 ==> AllDigits(Value(m, 2)) && DigitsValue(Value(m, 2)) == y)
      && (1000 <= y < 10000 ==> |Value(m, 2)| == 4)
      && AllDigits(Value(m, 3))
      && (1000 <= y < 10000 ==> |Value(m, 3)| == 2 && DigitsValue(Value(m, 3)) == y % 100)
      && (0 <= y < 100 ==> Value(m, 3) == "")
    ensures var y := m.fields.year;
      && (y >= 0 ==> 1 <= |Value(m, 2)| && (Value(m, 2)[0] != '0' || y == 0))
      && (0 <= y < 1000 ==> |Value(m, 2)| < 4)
      && (100 <= y < 1000 ==> |Value(m, 3)| == 1 && DigitsValue(Value(m, 3)) == y % 10)
      && (10000 <= y ==> |Value(m, 3)| >= 3)
  {
  }

  /** What the numeric month rules put in, read as digits. */
  lemma MonthValues(m: Moment)
    requires m.fields.Valid()
    ensures |Value(m, 6)| == 2 && AllDigits(Value(m, 6)) && DigitsValue(Value(m, 6)) == m.fields.month + 1
    ensures AllDigits(Value(m, 7)) && DigitsValue(Value(m, 7)) == m.fields.month + 1
    ensures |Value(m, 7)| == 1 <==> m.fields.month < 9
  {
    MonthTables();
  }

  /** What the hour rules put in, read as digits. */
  lemma HourValues(m: Moment)
    requires m.fields.Valid()
    ensures var h := m.fields.hour;
      && AllDigits(Value(m, 9)) && DigitsValue(Value(m, 9)) == h && (|Value(m, 9)| == 1 <==> h < 10)
      && AllDigits(Value(m, 10)) && DigitsValue(Value(m, 10)) == Hour12(h)
      && |Value(m, 11)| == 2 && AllDigits(Value(m, 11)) && DigitsValue(Value(m, 11)) == h
      && AllDigits(Value(m, 12)) && DigitsValue(Value(m, 12)) == Hour12(h) && (|Value(m, 12)| == 1 <==> 13 <= h <= 21)
  {
  }

  /** What the date rules put in, spelled with the text functions. */
  lemma DateTexts(m: Moment)
    requires m.fields.Valid()
    ensures Value(m, 2) == IntToString(m.fields.year) && Value(m, 6) == MonthDigits[m.fields.month]
    ensures Value(m, 7) == Decimal(m.fields.month + 1) && Value(m, 8) == Pad2(m.fields.day)
  {
    assert MonthNumbers[m.fields.month] == m.fields.month + 1 by {
      MonthTables();
    }
  }

  /** What the hour rules put in, spelled with the text functions. */
  lemma HourTexts(m: Moment)
    requires m.fields.Valid()
    ensures Value(m, 9) == Decimal(m.fields.hour) && Value(m, 10) == Decimal(Hour12(m.fields.hour))
    ensures Value(m, 11) == Pad2(m.fields.hour) && Value(m, 12) == Hour12Text(m.fields.hour)
  {
  }

  /** What the minute and second rules put in, spelled with the text functions. */
  lemma ClockTexts(m: Moment)
    requires m.fields.Valid()
    ensures Value(m, 13) == Pad2(m.fields.minute) && Value(m, 15) == Pad2(m.fields.second)
  {
  }

  /** What the day, minute, millisecond and second rules put in, read as digits. */
  lemma PaddedValues(m: Moment)
    requires m.fields.Valid()
    ensures |Value(m, 8)| == 2 && AllDigits(Value(m, 8)) && DigitsValue(Value(m, 8)) == m.fields.day
    ensures |Value(m, 13)| == 2 && AllDigits(Value(m, 13)) && DigitsValue(Value(m, 13)) == m.fields.minute
    ensures |Value(m, 14)| == 3 && AllDigits(Value(m, 14)) && DigitsValue(Value(m, 14)) == m.fields.millisecond
    ensures |Value(m, 15)| == 2 && AllDigits(Value(m, 15)) && DigitsValue(Value(m, 15)) == m.fields.second
  {
  }

  /**
   * `Y` alone: the year in decimal without a leading zero, for a year from 0
   * on. Below the year 1000 that is fewer than four digits.
   */
  lemma FormatFullYear(m: Moment)
    requires m.fields.Valid() && m.fields.year >= 0
    ensures AllDigits(Format("Y", m)) && DigitsValue(Format("Y", m)) == m.fields.year
    ensures 1 <= |Format("Y", m)| && (Format("Y", m)[0] != '0' || m.fields.year == 0)
    ensures m.fields.year < 1000 ==> |Format("Y", m)| < 4
  {
    var v := Value(m, 2);
    assert Format("Y", m) == v by {
      YearValues(m);
      TokenLitsSpelled();
      FormatDigits(2, m);
    }
    YearValues(m);
  }

  /** `Y` alone gives four digits for a four-digit year. */
  lemma FormatFullYearWidth(m: Moment)
    requires m.fields.Valid() && 1000 <= m.fields.year < 10000
    ensures |Format("Y", m)| == 4
  {
    YearValues(m);
    TokenLitsSpelled();
    FormatDigits(2, m);
  }

  /** `y` alone: the year without its first two characters, two digits for a four-digit year. */
  lemma FormatShortYear(m: Moment)
    requires m.fields.Valid()
    ensures AllDigits(Format("y", m))
    ensures 1000 <= m.fields.year < 10000 ==> |Format("y", m)| == 2 && DigitsValue(Format("y", m)) == m.fields.year % 100
    ensures 0 <= m.fields.year < 100 ==> Format("y", m) == ""
    ensures 100 <= m.fields.year < 1000 ==> |Format("y", m)| == 1 && DigitsValue(Format("y", m)) == m.fields.year % 10
    ensures 10000 <= m.fields.year ==> |Format("y", m)| >= 3
  {
    var v := Value(m, 3);
    assert Format("y", m) == v by {
      TokenLitsSpelled();
      YearValues(m);
      FormatDigits(3, m);
    }
    YearValues(m);
  }

  /** `m` alone: the month's number in two digits. */
  lemma FormatMonthPadded(m: Moment)
    requires m.fields.Valid()
    ensures |Format("m", m)| == 2 && AllDigits(Format("m", m)) && DigitsValue(Format("m", m)) == m.fields.month + 1
  {
    TokenLitsSpelled();
    MonthValues(m);
    FormatDigits(6, m);
  }

  /** `n` alone: the month's number without padding. */
  lemma FormatMonthNumber(m: Moment)
    requires m.fields.Valid()
    ensures AllDigits(Format("n", m)) && DigitsValue(Format("n", m)) == m.fields.month + 1
    ensures |Format("n", m)| == 1 <==> m.fields.month < 9
    ensures Format("n", m) == Decimal(m.fields.month + 1)
  {
    TokenLitsSpelled();
    MonthValues(m);
    FormatDigits(7, m);
    DateTexts(m);
  }

  /** `d` alone: the day of the month in two digits. */
  lemma FormatDay(m: Moment)
    requires m.fields.Valid()
    ensures |Format("d", m)| == 2 && AllDigits(Format("d", m)) && DigitsValue(Format("d", m)) == m.fields.day
  {
    TokenLitsSpelled();
    PaddedValues(m);
    FormatDigits(8, m);
  }

  /** `G` alone: the hour from 0 to 23 without padding. */
  lemma FormatHour(m: Moment)
    requires m.fields.Valid()
    ensures AllDigits(Format("G", m)) && DigitsValue(Format("G", m)) == m.fields.hour
    ensures |Format("G", m)| == 1 <==> m.fields.hour < 10
    ensures Format("G", m) == Decimal(m.fields.hour)
  {
    TokenLitsSpelled();
    HourValues(m);
    FormatDigits(9, m);
    HourTexts(m);
  }

  /** `g` alone: the hour on the twelve-hour dial, 0 only at midnight, without padding. */
  lemma FormatHour12(m: Moment)
    requires m.fields.Valid()
    ensures AllDigits(Format("g", m)) && DigitsValue(Format("g", m)) == Hour12(m.fields.hour)
    ensures DigitsValue(Format("g", m)) <= 12 && DigitsValue(Format("g", m)) % 12 == m.fields.hour % 12
    ensures Format("g", m) == Decimal(Hour12(m.fields.hour))
  {
    TokenLitsSpelled();
    HourValues(m);
    FormatDigits(10, m);
    HourTexts(m);
  }

  /** `H` alone: the hour in two digits. */
  lemma FormatHourPadded(m: Moment)
    requires m.fields.Valid()
    ensures |Format("H", m)| == 2 && AllDigits(Format("H", m)) && DigitsValue(Format("H", m)) == m.fields.hour
  {
    TokenLitsSpelled();
    HourValues(m);
    FormatDigits(11, m);
  }

  /**
   * `h` alone: the twelve-hour value, which keeps the leading zero of the
   * padded hour up to noon and loses it for 1 PM to 9 PM.
   */
  lemma FormatHour12Text(m: Moment)
    requires m.fields.Valid()
    ensures AllDigits(Format("h", m)) && DigitsValue(Format("h", m)) == Hour12(m.fields.hour)
    ensures |Format("h", m)| == 1 <==> 13 <= m.fields.hour <= 21
    ensures Format("h", m) == Hour12Text(m.fields.hour)
  {
    TokenLitsSpelled();
    HourValues(m);
    FormatDigits(12, m);
    HourTexts(m);
  }

  /** `i` alone: the minute in two digits. */
  lemma FormatMinute(m: Moment)
    requires m.fields.Valid()
    ensures |Format("i", m)| == 2 && AllDigits(Format("i", m)) && DigitsValue(Format("i", m)) == m.fields.minute
  {
    TokenLitsSpelled();
    PaddedValues(m);
    FormatDigits(13, m);
  }

  /** `ms` alone: the millisecond in three digits; `ms` is replaced before `s` could be. */
  lemma FormatMillisecond(m: Moment)
    requires m.fields.Valid()
    ensures |Format("ms", m)| == 3 && AllDigits(Format("ms", m)) && DigitsValue(Format("ms", m)) == m.fields.millisecond
  {
    TokenLitsSpelled();
    PaddedValues(m);
    FormatDigits(14, m);
  }

  /** `s` alone: the second in two digits. */
  lemma FormatSecond(m: Moment)
    requires m.fields.Valid()
    ensures |Format("s", m)| == 2 && AllDigits(Format("s", m)) && DigitsValue(Format("s", m)) == m.fields.second
  {
    TokenLitsSpelled();
    PaddedValues(m);
    FormatDigits(15, m);
  }

  // ---------------------------------------------------------------------
  // Tokens that give names.
  // ---------------------------------------------------------------------

  /** A name without its trailing full stop, if it has one. */
  function Stem(v: string): (w: string)
    ensures v == w || v == w + "."
  {
    if |v| > 0 && v[|v| - 1] == '.' then v[..|v| - 1] else v
  }

  /** A table entry: a word of three or more characters, perhaps followed by a full stop. */
  predicate NameEntry(v: string) {
    |Stem(v)| >= 3 && AllWord(Stem(v))
  }

  /** The month names are names; none of them begins with `W`. */
  lemma MonthNamesShape(i: nat)
    requires i < 12
    ensures NameEntry(MonthNames[i]) && MonthNames[i][0] != 'W'
  {
    var v := MonthNames[i];
    assert |v| >= 3 && AllWord(v) && v[0] != 'W';
    assert Stem(v) == v;
  }

  /** The short month names are names; none of them begins with `W`. */
  lemma MonthAbbrevsShape(i: nat)
    requires i < 12
    ensures NameEntry(MonthAbbrevs[i]) && MonthAbbrevs[i][0] != 'W'
  {
  }

  /** The weekday names are names. */
  lemma WeekdayNamesShape(i: nat)
    requires i < 7
    ensures NameEntry(WeekdayNames[i])
  {
  }

  /** The short weekday names are names. */
  lemma WeekdayAbbrevsShape(i: nat)
    requires i < 7
    ensures NameEntry(WeekdayAbbrevs[i])
  {
  }

  /** The literals after `Month` are `Week` or at most two characters long; the last three are one letter. */
  lemma LaterLits()
    ensures forall i :: 4 <= i < |TokenLits| ==> TokenLits[i] == "Week" || |TokenLits[i]| <= 2
    ensures forall i :: 16 <= i < |TokenLits| ==> |TokenLits[i]| == 1
  {
    TokenLitsSpelled();
    TokenLitsShape();
  }

  /** A word that is none of the literals from rule `k + 1` on sets off none of those rules. */
  lemma WordInert(v: string, k: nat)
    requires 2 <= k < RuleCount && AllWord(v)
    requires forall i :: k <= i < |TokenLits| ==> TokenLits[i] != v
    ensures forall j :: k < j < RuleCount ==> NoMatchIn(v, Rule(j))
  {
    TokenLitsShape();
    forall j | k < j < RuleCount ensures NoMatchIn(v, Rule(j)) {
      RulesShape(j);
      WordEqCaseSensitive(v, TokenLits[j - 1]);
      WordNoMatch(v, Rule(j));
    }
  }

  /**
   * A name from the tables, put in by rule `k` from `Month` on, sets off no
   * later rule; a name that could be `Week` has to come after that rule.
   */
  lemma NameInert(v: string, k: nat)
    requires 4 <= k < RuleCount && NameEntry(v) && (k < 16 ==> v[0] != 'W')
    ensures '$' !in v
    ensures forall j :: k < j < RuleCount ==> NoMatchIn(v, Rule(j))
  {
    var w := Stem(v);
    LaterLits();
    TokenLitsShape();
    forall i | k <= i < |TokenLits| ensures TokenLits[i] != w {
    }
    WordInert(w, k);
    NoDollarInWord(w);
    if v != w {
      forall j | k < j < RuleCount ensures NoMatchIn(v, Rule(j)) {
        RulesShape(j);
        NoMatchJoin(w, '.', "", Rule(j));
        assert v == w + ['.'] + "";
      }
    }
  }

  /** `Month` alone: the month's English name. */
  lemma FormatMonthName(m: Moment)
    requires m.fields.Valid()
    ensures Format("Month", m) == MonthNames[m.fields.month]
  {
    MonthNamesShape(m.fields.month);
    NameInert(MonthNames[m.fields.month], 4);
    TokenLitsSpelled();
    FormatToken(4, m);
  }

  /** `M` alone: the month's short name. */
  lemma FormatMonthAbbrev(m: Moment)
    requires m.fields.Valid()
    ensures Format("M", m) == MonthAbbrevs[m.fields.month]
  {
    MonthAbbrevsShape(m.fields.month);
    NameInert(MonthAbbrevs[m.fields.month], 5);
    TokenLitsSpelled();
    FormatToken(5, m);
  }

  /** `Week` alone: the weekday's English name. */
  lemma FormatWeekday(m: Moment)
    requires m.fields.Valid()
    ensures Format("Week", m) == WeekdayNames[m.fields.weekday]
  {
    WeekdayNamesShape(m.fields.weekday);
    NameInert(WeekdayNames[m.fields.weekday], 16);
    TokenLitsSpelled();
    FormatToken(16, m);
  }

  /** `W` alone: the weekday's short name. */
  lemma FormatWeekdayAbbrev(m: Moment)
    requires m.fields.Valid()
    ensures Format("W", m) == WeekdayAbbrevs[m.fields.weekday]
  {
    WeekdayAbbrevsShape(m.fields.weekday);
    NameInert(WeekdayAbbrevs[m.fields.weekday], 17);
    TokenLitsSpelled();
    FormatToken(17, m);
  }

  /** `A` alone: `AM` up to and including noon, `PM` after. */
  lemma FormatMeridiemUpper(m: Moment)
    requires m.fields.Valid()
    ensures Format("A", m) == if m.fields.hour <= 12 then "AM" else "PM"
  {
    var v := Value(m, 18);
    assert v == "AM" || v == "PM";
    TokenLitsSpelled();
    WordInert(v, 18);
    FormatToken(18, m);
  }

  /** `a` alone: `am` up to and including noon, `pm` after. */
  lemma FormatMeridiemLower(m: Moment)
    requires m.fields.Valid()
    ensures Format("a", m) == if m.fields.hour <= 12 then "am" else "pm"
  {
    assert Value(m, 19) == if m.fields.hour <= 12 then "am" else "pm";
    TokenLitsSpelled();
    FormatToken(19, m);
  }
}
