/**
 * What `date` does to a pattern with several words in it, read through the
 * words-and-separators view: a format token is swapped at its first whole-word
 * occurrence only, except `Week`, which is swapped everywhere; every other
 * word and every separator stays as it is.
 */
module Occurrences {
  import opened Text
  import opened WordRegex
  import opened WholeWords
  import opened ReplaceChain
  import opened DateFormat
  import opened DateProperties

  /** A word that no whole-word rule of the chain touches. */
  predicate Plain(w: string) {
    AllWord(w) && forall i :: 0 <= i < |TokenLits| ==> !WordEq(w, TokenLits[i], i == 0)
  }

  /** Every word is the literal of rule `k` or plain. */
  predicate OnlyToken(ws: seq<string>, k: nat)
    requires 1 <= k < RuleCount
  {
    forall i :: 0 <= i < |ws| ==> ws[i] == TokenLits[k - 1] || Plain(ws[i])
  }

  /** The rules before `k` find nothing in a pattern whose only token is that of rule `k`. */
  lemma EarlierNoMatch(ws: seq<string>, seps: string, k: nat)
    requires 1 <= k < RuleCount && Segmented(ws, seps) && OnlyToken(ws, k)
    ensures forall j :: 1 <= j < k ==> NoMatchIn(Join(ws, seps), Rule(j))
  {
    TokenLitsShape();
    forall j | 1 <= j < k ensures NoMatchIn(Join(ws, seps), Rule(j)) {
      RulesShape(j);
      forall i | 0 <= i < |ws| ensures !WordEq(ws[i], TokenLits[j - 1], j == 1) {
        if ws[i] == TokenLits[k - 1] {
          LitsDistinct(k - 1, j - 1);
        }
      }
      NoMatchWords(ws, seps, Rule(j));
    }
  }

  /**
   * After rule `k` has swapped in `v`, the rules after it find nothing, as
   * long as `v` is not itself one of their literals.
   */
  lemma LaterNoMatch(ws: seq<string>, seps: string, k: nat, v: string)
    requires 2 <= k < RuleCount && Segmented(ws, seps)
    requires forall i :: k <= i < |TokenLits| ==> TokenLits[i] != v
    requires forall i :: 0 <= i < |ws| ==> ws[i] == v || ws[i] == TokenLits[k - 1] || Plain(ws[i])
    ensures forall j :: k < j < RuleCount ==> NoMatchIn(Join(ws, seps), Rule(j))
  {
    TokenLitsShape();
    forall j | k < j < RuleCount ensures NoMatchIn(Join(ws, seps), Rule(j)) {
      RulesShape(j);
      forall i | 0 <= i < |ws| ensures !WordEq(ws[i], TokenLits[j - 1], false) {
        WordEqCaseSensitive(ws[i], TokenLits[j - 1]);
        if ws[i] == TokenLits[k - 1] {
          LitsDistinct(k - 1, j - 1);
        }
      }
      NoMatchWords(ws, seps, Rule(j));
    }
  }

  /** What rule `k` alone makes of the words: the first occurrence, or every one for `Week`. */
  function Swapped(ws: seq<string>, k: nat, v: string): (r: seq<string>)
    requires 1 <= k < RuleCount
    ensures |r| == |ws|
    ensures forall i :: 0 <= i < |ws| ==> r[i] == ws[i] || r[i] == v
  {
    if k == 16 then ReplaceEveryWord(ws, TokenLits[k - 1], false, v)
    else ReplaceFirstWord(ws, TokenLits[k - 1], false, v)
  }

  /** The replace call of rule `k` on the joined words is `Swapped` on the words. */
  lemma SwappedJoin(ws: seq<string>, seps: string, k: nat, v: string)
    requires 2 <= k < RuleCount && Segmented(ws, seps) && AllWord(v)
    ensures WellFormed(Rule(k))
    ensures Replace(Join(ws, seps), Rule(k), v) == Join(Swapped(ws, k, v), seps)
    ensures Segmented(Swapped(ws, k, v), seps)
  {
    RulesShape(k);
    if k == 16 {
      ReplaceAllWords(ws, seps, Rule(k), v);
    } else {
      ReplaceFirstWords(ws, seps, Rule(k), v);
    }
  }

  /**
   * A pattern whose only format token is that of rule `k` (any number of
   * times, between plain words and separators) comes out with the token
   * swapped as `Swapped` says, when its value is a word that no later rule
   * picks up.
   */
  lemma FormatOneToken(k: nat, m: Moment, ws: seq<string>, seps: string)
    requires m.fields.Valid() && 2 <= k < RuleCount
    requires AllWord(Value(m, k)) && forall i :: k <= i < |TokenLits| ==> TokenLits[i] != Value(m, k)
    requires Segmented(ws, seps) && NoMatchIn(Join(ws, seps), GmtRe) && OnlyToken(ws, k)
    ensures Format(Join(ws, seps), m) == Join(Swapped(ws, k, Value(m, k)), seps)
  {
    var v, steps, s := Value(m, k), Steps(m), Join(ws, seps);
    EarlierNoMatch(ws, seps, k);
    SwappedJoin(ws, seps, k, v);
    var ws2 := Swapped(ws, k, v);
    LaterNoMatch(ws2, seps, k, v);
    assert Replace(s, steps[k].re, steps[k].value) == Join(ws2, seps);
    ApplyOnly(s, steps, k);
  }

  /**
   * Without `g`: when the token of rule `k` occurs several times, the first
   * occurrence (word `j`) becomes the value and the later ones stay as they are.
   */
  lemma FormatFirstOccurrence(k: nat, m: Moment, ws: seq<string>, seps: string, j: nat)
    requires m.fields.Valid() && 2 <= k < RuleCount && k != 16
    requires AllWord(Value(m, k)) && forall i :: k <= i < |TokenLits| ==> TokenLits[i] != Value(m, k)
    requires Segmented(ws, seps) && NoMatchIn(Join(ws, seps), GmtRe) && OnlyToken(ws, k)
    requires j < |ws| && ws[j] == TokenLits[k - 1] && forall i :: 0 <= i < j ==> ws[i] != TokenLits[k - 1]
    ensures Format(Join(ws, seps), m) == Join(ws[j := Value(m, k)], seps)
  {
    var lit := TokenLits[k - 1];
    FormatOneToken(k, m, ws, seps);
    forall i | 0 <= i <= j ensures WordEq(ws[i], lit, false) <==> i == j {
      WordEqCaseSensitive(ws[i], lit);
    }
    ReplaceFirstWordAt(ws, lit, false, Value(m, k), j);
  }

  /** A string of digits is a word and none of the literals. */
  lemma DigitsInert(v: string)
    requires AllDigits(v)
    ensures AllWord(v) && forall i :: 0 <= i < |TokenLits| ==> TokenLits[i] != v
  {
    TokenLitsShape();
  }

  /** The numeric tokens: each occurrence after the first is left as the literal. */
  lemma FormatFirstDigits(k: nat, m: Moment, ws: seq<string>, seps: string, j: nat)
    requires m.fields.Valid() && 2 <= k < RuleCount && k != 16 && AllDigits(Value(m, k))
    requires Segmented(ws, seps) && NoMatchIn(Join(ws, seps), GmtRe) && OnlyToken(ws, k)
    requires j < |ws| && ws[j] == TokenLits[k - 1] && forall i :: 0 <= i < j ==> ws[i] != TokenLits[k - 1]
    ensures Format(Join(ws, seps), m) == Join(ws[j := Value(m, k)], seps)
  {
    DigitsInert(Value(m, k));
    FormatFirstOccurrence(k, m, ws, seps, j);
  }

  /** The full weekday names are words longer than any later literal. */
  lemma WeekdayNameWord(i: nat)
    requires i < 7
    ensures AllWord(WeekdayNames[i]) && |WeekdayNames[i]| >= 6
  {
  }

  /** With `g`: every `Week` word becomes the weekday's name. */
  lemma FormatEveryWeek(m: Moment, ws: seq<string>, seps: string)
    requires m.fields.Valid()
    requires Segmented(ws, seps) && NoMatchIn(Join(ws, seps), GmtRe) && OnlyToken(ws, 16)
    ensures var name := WeekdayNames[m.fields.weekday];
            var r := ReplaceEveryWord(ws, "Week", false, name);
            && Format(Join(ws, seps), m) == Join(r, seps)
            && forall i :: 0 <= i < |ws| ==> r[i] == if ws[i] == "Week" then name else ws[i]
  {
    var name := WeekdayNames[m.fields.weekday];
    WeekdayNameWord(m.fields.weekday);
    TokenLitsSpelled();
    FormatOneToken(16, m, ws, seps);
    forall i | 0 <= i < |ws| ensures WordEq(ws[i], "Week", false) <==> ws[i] == "Week" {
      WordEqCaseSensitive(ws[i], "Week");
    }
  }
}
