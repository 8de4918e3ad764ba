/**
 * Patterns made of separators and of words that are either plain or numeric
 * tokens, such as the default `Y-m-d H:i:s`. The twenty replace calls then
 * act word by word: each numeric token is swapped for its digits at its
 * first occurrence, later copies of it and every other word stay, and the
 * digits put in never give a later rule anything to match. The default
 * pattern comes out as a fixed-width date and time.
 */
module NumericPatterns {
  import opened Text
  import opened WordRegex
  import opened WholeWords
  import opened ReplaceChain
  import opened DateFormat
  import opened DateProperties
  import opened Occurrences

  /** The position of the first `w` in `ws`, or `|ws|` when there is none. */
  function IndexOf(ws: seq<string>, w: string): (j: nat)
    ensures j <= |ws|
    ensures j < |ws| ==> ws[j] == w
    ensures forall i :: 0 <= i < j ==> ws[i] != w
  {
    if ws == [] then 0 else if ws[0] == w then 0 else 1 + IndexOf(ws[1..], w)
  }

  /** The rule whose literal `w` is, or 0 when `w` is none of the literals. */
  function RuleOf(w: string): (k: nat)
    ensures k < RuleCount
    ensures k > 0 ==> TokenLits[k - 1] == w
    ensures k == 0 ==> forall j :: 0 <= j < |TokenLits| ==> TokenLits[j] != w
  {
    var j := IndexOf(TokenLits, w);
    if j < |TokenLits| then j + 1 else 0
  }

  /** No two rules share a literal. */
  lemma LitsUnique(i: nat, j: nat)
    requires i < |TokenLits| && j < |TokenLits|
    ensures TokenLits[i] == TokenLits[j] <==> i == j
  {
    WordEqCaseSensitive(TokenLits[i], TokenLits[j]);
    WordEqCaseSensitive(TokenLits[j], TokenLits[i]);
    if j == 0 {
      LitsDistinct(j, i);
    } else {
      LitsDistinct(i, j);
    }
  }

  /** The literal of rule `k` leads back to rule `k`. */
  lemma RuleOfLit(k: nat)
    requires 1 <= k < RuleCount
    ensures RuleOf(TokenLits[k - 1]) == k
  {
    var r := RuleOf(TokenLits[k - 1]);
    assert r > 0;
    LitsUnique(r - 1, k - 1);
    assert r == k;
  }

  /**
   * A word the rules after `iso` either leave alone or swap for digits: it
   * is a word, and when it is a literal, that rule's value is a digit string.
   */
  predicate Tame(w: string, m: Moment)
    requires m.fields.Valid()
  {
    AllWord(w) && (RuleOf(w) >= 2 ==> AllDigits(Value(m, RuleOf(w))))
  }

  /** Word `i` is the first of its kind in `ws`. */
  predicate First(ws: seq<string>, i: nat)
    requires i < |ws|
  {
    forall j :: 0 <= j < i ==> ws[j] != ws[i]
  }

  /**
   * The words once rules 2 to `k - 1` have run: the first occurrence of each
   * of their literals holds the rule's value.
   */
  function Rendered(ws: seq<string>, m: Moment, k: nat): seq<string>
    requires m.fields.Valid()
  {
    seq(|ws|, i requires 0 <= i < |ws| =>
      if 2 <= RuleOf(ws[i]) < k && First(ws, i) then Value(m, RuleOf(ws[i])) else ws[i])
  }

  /** The full weekday names are not digit strings, so `Week` is never a tame word. */
  lemma WeekNotDigits(m: Moment)
    requires m.fields.Valid()
    ensures !AllDigits(Value(m, 16))
  {
    var name := WeekdayNames[m.fields.weekday];
    assert Value(m, 16) == name;
    assert !IsDigit(name[0]);
  }

  /** Each rendered word is a word, and no literal of a rule once it differs from the pattern's word. */
  lemma RenderedWords(ws: seq<string>, m: Moment, k: nat)
    requires m.fields.Valid() && forall i :: 0 <= i < |ws| ==> Tame(ws[i], m)
    ensures var cur := Rendered(ws, m, k);
      forall i :: 0 <= i < |ws| ==> AllWord(cur[i]) && (cur[i] == ws[i] || RuleOf(cur[i]) == 0)
  {
    var cur := Rendered(ws, m, k);
    forall i | 0 <= i < |ws| ensures AllWord(cur[i]) && (cur[i] == ws[i] || RuleOf(cur[i]) == 0) {
      if cur[i] != ws[i] {
        DigitsInert(cur[i]);
      }
    }
  }

  /** A rule whose literal is not among the words leaves the rendered words alone. */
  lemma RenderIdle(ws: seq<string>, m: Moment, k: nat)
    requires m.fields.Valid() && 2 <= k < RuleCount && forall i :: 0 <= i < |ws| ==> Tame(ws[i], m)
    requires forall i :: 0 <= i < |ws| ==> ws[i] != TokenLits[k - 1]
    ensures !AnyWordEq(Rendered(ws, m, k), TokenLits[k - 1], false)
    ensures Rendered(ws, m, k + 1) == Rendered(ws, m, k)
  {
    var cur, lit := Rendered(ws, m, k), TokenLits[k - 1];
    RenderedWords(ws, m, k);
    forall i | 0 <= i < |ws| ensures !WordEq(cur[i], lit, false) {
      WordEqCaseSensitive(cur[i], lit);
    }
  }

  /** Word `i` after rule `k`, when the literal of rule `k` is first found at word `j`. */
  lemma RenderedAt(ws: seq<string>, m: Moment, k: nat, j: nat, i: nat)
    requires m.fields.Valid() && 2 <= k < RuleCount && i < |ws|
    requires j < |ws| && ws[j] == TokenLits[k - 1] && forall i :: 0 <= i < j ==> ws[i] != TokenLits[k - 1]
    ensures Rendered(ws, m, k + 1)[i] == if i == j then Value(m, k) else Rendered(ws, m, k)[i]
  {
    var r := RuleOf(ws[i]);
    RuleOfLit(k);
    if i == j {
      assert r == k && First(ws, i);
    } else if r == k {
      assert ws[i] == TokenLits[k - 1];
      assert !First(ws, i) by {
        if j < i {
          assert ws[j] == ws[i];
        }
      }
    } else {
      assert (2 <= r < k) == (2 <= r < k + 1);
    }
  }

  /** Rule `k` changes the rendered words at the first occurrence `j` of its literal only. */
  lemma RenderedNext(ws: seq<string>, m: Moment, k: nat, j: nat)
    requires m.fields.Valid() && 2 <= k < RuleCount
    requires j < |ws| && ws[j] == TokenLits[k - 1] && forall i :: 0 <= i < j ==> ws[i] != TokenLits[k - 1]
    ensures Rendered(ws, m, k + 1) == Rendered(ws, m, k)[j := Value(m, k)]
  {
    var cur, next, v := Rendered(ws, m, k), Rendered(ws, m, k + 1), Value(m, k);
    forall i | 0 <= i < |ws| ensures next[i] == cur[j := v][i] {
      RenderedAt(ws, m, k, j, i);
    }
    assert |next| == |cur[j := v]|;
  }

  /** A rule whose literal is word `j`, and no word before it, swaps its value in there. */
  lemma RenderFires(ws: seq<string>, m: Moment, k: nat, j: nat)
    requires m.fields.Valid() && 2 <= k < RuleCount && forall i :: 0 <= i < |ws| ==> Tame(ws[i], m)
    requires j < |ws| && ws[j] == TokenLits[k - 1] && forall i :: 0 <= i < j ==> ws[i] != TokenLits[k - 1]
    ensures AllDigits(Value(m, k)) && k != 16
    ensures ReplaceFirstWord(Rendered(ws, m, k), TokenLits[k - 1], false, Value(m, k)) == Rendered(ws, m, k + 1)
  {
    var cur, lit, v := Rendered(ws, m, k), TokenLits[k - 1], Value(m, k);
    RuleOfLit(k);
    assert Tame(ws[j], m);
    WeekNotDigits(m);
    RenderedWords(ws, m, k);
    forall i | 0 <= i <= j ensures WordEq(cur[i], lit, false) <==> i == j {
      WordEqCaseSensitive(cur[i], lit);
    }
    ReplaceFirstWordAt(cur, lit, false, v, j);
    RenderedNext(ws, m, k, j);
  }

  /** One rule of the chain on the joined rendered words. */
  lemma ChainStep(ws: seq<string>, seps: string, m: Moment, k: nat)
    requires m.fields.Valid() && 2 <= k < RuleCount && Segmented(ws, seps)
    requires forall i :: 0 <= i < |ws| ==> Tame(ws[i], m)
    ensures Segmented(Rendered(ws, m, k), seps)
    ensures Apply(Join(Rendered(ws, m, k), seps), Steps(m), k)
         == Apply(Join(Rendered(ws, m, k + 1), seps), Steps(m), k + 1)
  {
    var cur, lit, v := Rendered(ws, m, k), TokenLits[k - 1], Value(m, k);
    var steps, s := Steps(m), Join(cur, seps);
    RenderedWords(ws, m, k);
    assert Segmented(cur, seps);
    RulesShape(k);
    assert steps[k] == Step(Rule(k), v);
    var j := IndexOf(ws, lit);
    if j < |ws| {
      RenderFires(ws, m, k, j);
      DigitsInert(v);
      SwappedJoin(cur, seps, k, v);
    } else {
      RenderIdle(ws, m, k);
      NoMatchWords(cur, seps, Rule(k));
      ApplyUnchanged(s, steps, k);
    }
  }

  /** Rules `k` to the last on the joined rendered words. */
  lemma {:induction false} ChainFrom(ws: seq<string>, seps: string, m: Moment, k: nat)
    requires m.fields.Valid() && 2 <= k <= RuleCount && Segmented(ws, seps)
    requires forall i :: 0 <= i < |ws| ==> Tame(ws[i], m)
    ensures Apply(Join(Rendered(ws, m, k), seps), Steps(m), k) == Join(Rendered(ws, m, RuleCount), seps)
    decreases RuleCount - k
  {
    if k < RuleCount {
      ChainStep(ws, seps, m, k);
      ChainFrom(ws, seps, m, k + 1);
    }
  }

  /**
   * A pattern of tame words without `gmt`/`utc` and without an `iso` word
   * comes out word by word: the first occurrence of each numeric token
   * becomes its digits, every other word and every separator stays.
   */
  lemma FormatNumeric(ws: seq<string>, seps: string, m: Moment)
    requires m.fields.Valid() && Segmented(ws, seps)
    requires NoMatchIn(Join(ws, seps), GmtRe) && !AnyWordEq(ws, "iso", true)
    requires forall i :: 0 <= i < |ws| ==> Tame(ws[i], m)
    ensures var r := Rendered(ws, m, RuleCount);
      && Format(Join(ws, seps), m) == Join(r, seps)
      && |r| == |ws|
      && forall i :: 0 <= i < |ws| ==>
           r[i] == if RuleOf(ws[i]) >= 2 && First(ws, i) then Value(m, RuleOf(ws[i])) else ws[i]
  {
    FormatStart(ws, seps, m);
    RenderedStart(ws, m);
    ChainFrom(ws, seps, m, 2);
  }

  /** Before rule 2 the rendered words are the pattern's own. */
  lemma RenderedStart(ws: seq<string>, m: Moment)
    requires m.fields.Valid()
    ensures Rendered(ws, m, 2) == ws
  {
    var r := Rendered(ws, m, 2);
    forall i | 0 <= i < |ws| ensures r[i] == ws[i] {
    }
  }

  /** Rules 0 and 1 find nothing in such a pattern. */
  lemma FormatStart(ws: seq<string>, seps: string, m: Moment)
    requires m.fields.Valid() && Segmented(ws, seps)
    requires NoMatchIn(Join(ws, seps), GmtRe) && !AnyWordEq(ws, "iso", true)
    ensures Format(Join(ws, seps), m) == Apply(Join(ws, seps), Steps(m), 2)
  {
    var s, steps := Join(ws, seps), Steps(m);
    assert TokenLits[0] == "iso";
    RulesShape(1);
    NoMatchWords(ws, seps, Rule(1));
    ApplyUnchanged(s, steps, 0);
    ApplyUnchanged(s, steps, 1);
  }

  // ---------------------------------------------------------------------
  // Patterns of distinct numeric tokens.
  // ---------------------------------------------------------------------

  /** The literals of the rules `ids`, in that order. */
  function TokenWords(ids: seq<nat>): (ws: seq<string>)
    requires forall i :: 0 <= i < |ids| ==> 1 <= ids[i] < RuleCount
    ensures |ws| == |ids|
    ensures forall i :: 0 <= i < |ids| ==> ws[i] == TokenLits[ids[i] - 1]
  {
    seq(|ids|, i requires 0 <= i < |ids| => TokenLits[ids[i] - 1])
  }

  /** The literals of different rules each lead back to their rule and are each the first of their kind. */
  lemma TokenWordsFirst(ids: seq<nat>)
    requires forall i :: 0 <= i < |ids| ==> 1 <= ids[i] < RuleCount
    requires forall i, j :: 0 <= j < i < |ids| ==> ids[j] != ids[i]
    ensures forall i :: 0 <= i < |ids| ==> RuleOf(TokenWords(ids)[i]) == ids[i] && First(TokenWords(ids), i)
  {
    var ws := TokenWords(ids);
    forall i | 0 <= i < |ids| ensures RuleOf(ws[i]) == ids[i] && First(ws, i) {
      RuleOfLit(ids[i]);
      forall j | 0 <= j < i ensures ws[j] != ws[i] {
        LitsUnique(ids[j] - 1, ids[i] - 1);
      }
    }
  }

  /**
   * The literals of different rules after `iso` whose values are digit
   * strings are tame, and together they become the rules' values.
   */
  lemma TokenWordsRendered(ids: seq<nat>, m: Moment)
    requires m.fields.Valid()
    requires forall i :: 0 <= i < |ids| ==> 2 <= ids[i] < RuleCount && AllDigits(Value(m, ids[i]))
    requires forall i, j :: 0 <= j < i < |ids| ==> ids[j] != ids[i]
    ensures forall i :: 0 <= i < |ids| ==> Tame(TokenWords(ids)[i], m)
    ensures var r := Rendered(TokenWords(ids), m, RuleCount);
      |r| == |ids| && forall i :: 0 <= i < |ids| ==> r[i] == Value(m, ids[i])
  {
    TokenLitsShape();
    TokenWordsFirst(ids);
  }

  // ---------------------------------------------------------------------
  // The default pattern.
  // ---------------------------------------------------------------------

  const DefaultWords: seq<string> := ["Y", "m", "d", "H", "i", "s"]
  const DefaultSeps: string := "-- ::"

  /** The rules whose literals the default pattern's words are. */
  const DefaultRuleIds: seq<nat> := [2, 6, 8, 11, 13, 15]

  /** `Y-m-d H:i:s` is six token words between five separators. */
  lemma DefaultSplit()
    ensures Segmented(DefaultWords, DefaultSeps) && Join(DefaultWords, DefaultSeps) == DefaultFormat
  {
    assert Segmented(DefaultWords, DefaultSeps) by {
      DefaultTokens();
      TokenLitsShape();
    }
    JoinSix("Y", "m", "d", "H", "i", "s", DefaultSeps);
  }

  /** The default pattern's words are the literals of rules 2, 6, 8, 11, 13 and 15. */
  lemma DefaultTokens()
    ensures forall i :: 0 <= i < |DefaultRuleIds| ==> 2 <= DefaultRuleIds[i] < RuleCount
    ensures forall i, j :: 0 <= j < i < |DefaultRuleIds| ==> DefaultRuleIds[j] < DefaultRuleIds[i]
    ensures TokenWords(DefaultRuleIds) == DefaultWords
  {
    TokenLitsSpelled();
  }

  /** Neither `gmt`/`utc` nor `iso` is found in the default pattern. */
  lemma DefaultNoCaseRules()
    ensures NoMatchIn(DefaultFormat, GmtRe) && !AnyWordEq(DefaultWords, "iso", true)
  {
    NoMatchWithoutFirstChar(DefaultFormat, GmtRe);
  }

  /** With a year of zero or more, every rule the default pattern names puts in digits. */
  lemma DefaultDigits(m: Moment)
    requires m.fields.Valid() && m.fields.year >= 0
    ensures forall i :: 0 <= i < |DefaultRuleIds| ==> AllDigits(Value(m, DefaultRuleIds[i]))
  {
    var ids := DefaultRuleIds;
    assert AllDigits(Value(m, 2)) by {
      YearValues(m);
    }
    assert AllDigits(Value(m, 6)) by {
      MonthValues(m);
    }
    assert AllDigits(Value(m, 11)) by {
      HourValues(m);
    }
    assert AllDigits(Value(m, 8)) && AllDigits(Value(m, 13)) && AllDigits(Value(m, 15)) by {
      PaddedValues(m);
    }
    forall i | 0 <= i < 6 ensures AllDigits(Value(m, ids[i])) {
      if i == 0 {
        assert ids[i] == 2;
      } else if i == 1 {
        assert ids[i] == 6;
      } else if i == 2 {
        assert ids[i] == 8;
      } else if i == 3 {
        assert ids[i] == 11;
      } else if i == 4 {
        assert ids[i] == 13;
      } else {
        assert ids[i] == 15;
      }
    }
  }

  /** With a year of zero or more, the default pattern's words are tame. */
  lemma DefaultTame(m: Moment)
    requires m.fields.Valid() && m.fields.year >= 0
    ensures forall i :: 0 <= i < |DefaultWords| ==> Tame(DefaultWords[i], m)
  {
    DefaultTokens();
    DefaultDigits(m);
    TokenWordsRendered(DefaultRuleIds, m);
  }

  /** With a year of zero or more, the default pattern's words become the values of their rules. */
  lemma DefaultRendered(m: Moment)
    requires m.fields.Valid() && m.fields.year >= 0
    ensures Rendered(DefaultWords, m, RuleCount)
         == [Value(m, 2), Value(m, 6), Value(m, 8), Value(m, 11), Value(m, 13), Value(m, 15)]
  {
    var ids, r := DefaultRuleIds, Rendered(DefaultWords, m, RuleCount);
    assert |r| == 6 && forall i :: 0 <= i < 6 ==> r[i] == Value(m, ids[i]) by {
      DefaultTokens();
      DefaultDigits(m);
      TokenWordsRendered(ids, m);
    }
    assert r[0] == Value(m, 2) && r[1] == Value(m, 6) && r[2] == Value(m, 8);
    assert r[3] == Value(m, 11) && r[4] == Value(m, 13) && r[5] == Value(m, 15);
    SixWords(r, Value(m, 2), Value(m, 6), Value(m, 8), Value(m, 11), Value(m, 13), Value(m, 15));
  }

  /** A list of six words is given by its six entries. */
  lemma SixWords(r: seq<string>, a: string, b: string, c: string, d: string, e: string, f: string)
    requires |r| == 6 && r[0] == a && r[1] == b && r[2] == c && r[3] == d && r[4] == e && r[5] == f
    ensures r == [a, b, c, d, e, f]
  {
  }

  /** Six words joined by five separators. */
  lemma JoinSix(a: string, b: string, c: string, d: string, e: string, f: string, seps: string)
    requires |seps| == 5
    ensures Join([a, b, c, d, e, f], seps)
         == a + [seps[0]] + b + [seps[1]] + c + [seps[2]] + d + [seps[3]] + e + [seps[4]] + f
  {
    var j4, j3 := Join([e, f], seps[4..]), Join([d, e, f], seps[3..]);
    var j2, j1 := Join([c, d, e, f], seps[2..]), Join([b, c, d, e, f], seps[1..]);
    JoinCons(e, [f], seps[4], seps[5..]);
    assert [e] + [f] == [e, f] && [seps[4]] + seps[5..] == seps[4..];
    JoinCons(d, [e, f], seps[3], seps[4..]);
    assert [d] + [e, f] == [d, e, f] && [seps[3]] + seps[4..] == seps[3..];
    JoinCons(c, [d, e, f], seps[2], seps[3..]);
    assert [c] + [d, e, f] == [c, d, e, f] && [seps[2]] + seps[3..] == seps[2..];
    JoinCons(b, [c, d, e, f], seps[1], seps[2..]);
    assert [b] + [c, d, e, f] == [b, c, d, e, f] && [seps[1]] + seps[2..] == seps[1..];
    JoinCons(a, [b, c, d, e, f], seps[0], seps[1..]);
    assert [a] + [b, c, d, e, f] == [a, b, c, d, e, f] && [seps[0]] + seps[1..] == seps;
    var p1 := a + [seps[0]];
    var p2 := p1 + b + [seps[1]];
    var p3 := p2 + c + [seps[2]];
    var p4 := p3 + d + [seps[3]];
    var p5 := p4 + e + [seps[4]];
    ShiftPiece(p1, b, seps[1], j2);
    ShiftPiece(p2, c, seps[2], j3);
    ShiftPiece(p3, d, seps[3], j4);
    ShiftPiece(p4, e, seps[4], f);
  }

  /** Moving one word and its separator from the rest of a string to the front part. */
  lemma ShiftPiece(p: string, w: string, c: char, rest: string)
    ensures p + (w + [c] + rest) == p + w + [c] + rest
  {
  }

  /**
   * `date()` with the default pattern: the year as JavaScript prints it, then
   * the month, day, hour, minute and second in two digits each, joined by
   * `-`, `-`, a space, `:` and `:`.
   */
  lemma FormatDefault(m: Moment)
    requires m.fields.Valid() && m.fields.year >= 0
    ensures var f := m.fields;
      Format(DefaultFormat, m)
        == IntToString(f.year) + "-" + MonthDigits[f.month] + "-" + Pad2(f.day) + " "
           + Pad2(f.hour) + ":" + Pad2(f.minute) + ":" + Pad2(f.second)
  {
    DefaultSplit();
    DefaultNoCaseRules();
    DefaultTame(m);
    FormatNumeric(DefaultWords, DefaultSeps, m);
    DefaultRendered(m);
    DateTexts(m);
    HourTexts(m);
    ClockTexts(m);
    var f := m.fields;
    JoinSix(IntToString(f.year), MonthDigits[f.month], Pad2(f.day), Pad2(f.hour), Pad2(f.minute), Pad2(f.second), DefaultSeps);
  }

  /** The fields of a date and time laid out as in the default pattern. */
  lemma Slices(a: string, b: string, c: string, d: string, e: string, f: string)
    requires |a| == 4 && |b| == 2 && |c| == 2 && |d| == 2 && |e| == 2 && |f| == 2
    ensures var r := a + "-" + b + "-" + c + " " + d + ":" + e + ":" + f;
      && |r| == 19 && r[4] == '-' && r[7] == '-' && r[10] == ' ' && r[13] == ':' && r[16] == ':'
      && r[..4] == a && r[5..7] == b && r[8..10] == c && r[11..13] == d && r[14..16] == e && r[17..] == f
  {
    var r := a + "-" + b + "-" + c + " " + d + ":" + e + ":" + f;
    assert r[..4] == a;
    assert r[5..7] == b by {
      forall i | 0 <= i < 2 ensures r[5 + i] == b[i] {
      }
    }
    assert r[8..10] == c by {
      forall i | 0 <= i < 2 ensures r[8 + i] == c[i] {
      }
    }
    assert r[11..13] == d by {
      forall i | 0 <= i < 2 ensures r[11 + i] == d[i] {
      }
    }
    assert r[14..16] == e by {
      forall i | 0 <= i < 2 ensures r[14 + i] == e[i] {
      }
    }
  }

  /**
   * For a four-digit year the default pattern gives nineteen characters: the
   * year, month, day, hour, minute and second as fixed-width digit groups at
   * fixed places, with `-`, `-`, a space, `:` and `:` between them.
   */
  lemma FormatDefaultWidth(m: Moment)
    requires m.fields.Valid() && 1000 <= m.fields.year < 10000
    ensures var r, f := Format(DefaultFormat, m), m.fields;
      && |r| == 19 && r[4] == '-' && r[7] == '-' && r[10] == ' ' && r[13] == ':' && r[16] == ':'
      && AllDigits(r[..4]) && DigitsValue(r[..4]) == f.year
      && AllDigits(r[5..7]) && DigitsValue(r[5..7]) == f.month + 1
      && AllDigits(r[8..10]) && DigitsValue(r[8..10]) == f.day
      && AllDigits(r[11..13]) && DigitsValue(r[11..13]) == f.hour
      && AllDigits(r[14..16]) && DigitsValue(r[14..16]) == f.minute
      && AllDigits(r[17..]) && DigitsValue(r[17..]) == f.second
  {
    var f := m.fields;
    FormatDefault(m);
    YearValues(m);
    MonthValues(m);
    DateTexts(m);
    Slices(IntToString(f.year), MonthDigits[f.month], Pad2(f.day), Pad2(f.hour), Pad2(f.minute), Pad2(f.second));
  }

  /**
   * `date(timestamp)` with a number in first place: the default pattern
   * filled in for that instant, or for the current time when it is `0`.
   */
  lemma DateOfNumber(ts: int, timestamp: Arg, now: int, host: int -> Moment)
    requires host(if ts == 0 then now else ts).fields.Valid()
    requires host(if ts == 0 then now else ts).fields.year >= 0
    ensures var f := host(if ts == 0 then now else ts).fields;
      Date(Number(ts), timestamp, now, host)
        == IntToString(f.year) + "-" + MonthDigits[f.month] + "-" + Pad2(f.day) + " "
           + Pad2(f.hour) + ":" + Pad2(f.minute) + ":" + Pad2(f.second)
  {
    FormatDefault(host(if ts == 0 then now else ts));
  }
}
