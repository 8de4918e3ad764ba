/**
 * The first two rules, `/\bgmt|utc\b/i` and `/\biso\b/i`: the only ones that
 * ignore case, and in the first the `\b` anchors belong to one alternative
 * each, so `gmt` is found at the start of a word and `utc` at its end.
 */
module IgnoreCaseRules {
  import opened Text
  import opened WordRegex
  import opened ReplaceChain
  import opened WholeWords
  import opened DateFormat

  /** The three characters from `i` on are `a`, `b`, `c` once upper-cased. */
  predicate Spells(s: string, i: nat, a: char, b: char, c: char) {
    i + 3 <= |s| && Upper(s[i]) == a && Upper(s[i + 1]) == b && Upper(s[i + 2]) == c
  }

  /** The string begins with `gmt`, in any case. */
  predicate StartsGmt(s: string) {
    Spells(s, 0, 'G', 'M', 'T')
  }

  /** The string ends with `utc`, in any case. */
  predicate EndsUtc(s: string) {
    |s| >= 3 && Spells(s, |s| - 3, 'U', 'T', 'C')
  }

  /** A three-character literal occurs, ignoring case, where its upper-cased characters are spelled. */
  lemma LitAtThree(s: string, i: nat, lit: string)
    requires |lit| == 3
    ensures LitAt(s, i, lit, true) <==> Spells(s, i, Upper(lit[0]), Upper(lit[1]), Upper(lit[2]))
  {
    if i + 3 <= |s| {
      var x := s[i..i + 3];
      assert x[0] == s[i] && x[1] == s[i + 1] && x[2] == s[i + 2];
      if Spells(s, i, Upper(lit[0]), Upper(lit[1]), Upper(lit[2])) {
        assert UpperString(x) == UpperString(lit);
      }
    }
  }

  /** Spelled letters are letters. */
  lemma SpellsLetters(s: string, i: nat, a: char, b: char, c: char)
    requires Spells(s, i, a, b, c) && IsLetter(a) && IsLetter(b) && IsLetter(c)
    ensures IsLetter(s[i]) && IsLetter(s[i + 1]) && IsLetter(s[i + 2])
  {
  }

  lemma GmtReShape()
    ensures GmtRe.ignoreCase && !GmtRe.global && |GmtRe.alts| == 2 && WellFormed(GmtRe) && WordLits(GmtRe)
    ensures GmtRe.alts[0] == Branch(true, "gmt", false) && GmtRe.alts[1] == Branch(false, "utc", true)
    ensures forall s: string, i: nat :: LitAt(s, i, GmtRe.alts[0].lit, true) <==> Spells(s, i, 'G', 'M', 'T')
    ensures forall s: string, i: nat :: LitAt(s, i, GmtRe.alts[1].lit, true) <==> Spells(s, i, 'U', 'T', 'C')
  {
    forall s: string, i: nat ensures LitAt(s, i, "gmt", true) <==> Spells(s, i, 'G', 'M', 'T') {
      LitAtThree(s, i, "gmt");
    }
    forall s: string, i: nat ensures LitAt(s, i, "utc", true) <==> Spells(s, i, 'U', 'T', 'C') {
      LitAtThree(s, i, "utc");
    }
  }

  /**
   * Within one word, `/\bgmt|utc\b/i` finds something exactly when the word
   * begins with `gmt` or ends with `utc`.
   */
  lemma GmtInWord(s: string)
    requires AllWord(s)
    ensures NoMatchIn(s, GmtRe) <==> !StartsGmt(s) && !EndsUtc(s)
  {
    GmtReShape();
    var re := GmtRe;
    if StartsGmt(s) {
      BoundaryInWord(s, 0);
      assert BranchAt(s, 0, re.alts[0], true);
      MatchAtAny(s, 0, re);
    } else if EndsUtc(s) {
      BoundaryInWord(s, |s|);
      assert BranchAt(s, |s| - 3, re.alts[1], true);
      MatchAtAny(s, |s| - 3, re);
    } else {
      forall i | 0 <= i <= |s| ensures !Matches(s, i, re) {
        MatchAtAny(s, i, re);
        BoundaryInWord(s, i);
        if BranchAt(s, i, re.alts[1], true) {
          BoundaryInWord(s, i + 3);
        }
      }
    }
  }

  /** `replace` without `g` puts the replacement in place of the leftmost match. */
  lemma ReplaceFirstAt(s: string, re: Regex, repl: string, j: nat, len: nat)
    requires WellFormed(re) && Leftmost(s, re, j) && MatchAt(s, j, re) == Match(j, len) && '$' !in repl
    ensures j + len <= |s|
    ensures ReplaceFirst(s, re, repl) == s[..j] + repl + s[j + len..]
  {
    ReplaceFirstLeftmost(s, re, repl, j);
  }

  /** A string that begins with `gmt` has it replaced, whatever follows. */
  lemma GmtAtStart(s: string, u: string)
    requires StartsGmt(s) && '$' !in u
    ensures Replace(s, GmtRe, u) == u + s[3..]
  {
    GmtReShape();
    SpellsLetters(s, 0, 'G', 'M', 'T');
    assert BranchAt(s, 0, GmtRe.alts[0], true);
    ReplaceFirstAt(s, GmtRe, u, 0, 3);
  }

  /** In a word that ends with `utc` and does not begin with `gmt`, the leftmost match is that `utc`. */
  lemma UtcLeftmost(s: string)
    requires AllWord(s) && !StartsGmt(s) && EndsUtc(s)
    ensures Leftmost(s, GmtRe, |s| - 3) && MatchAt(s, |s| - 3, GmtRe) == Match(|s| - 3, 3)
  {
    GmtReShape();
    var i := |s| - 3;
    BoundaryInWord(s, |s|);
    BoundaryInWord(s, i);
    assert BranchAt(s, i, GmtRe.alts[1], true);
    assert !BranchAt(s, i, GmtRe.alts[0], true);
    forall k | 0 <= k < i ensures !Matches(s, k, GmtRe) {
      MatchAtAny(s, k, GmtRe);
      BoundaryInWord(s, k);
      if BranchAt(s, k, GmtRe.alts[1], true) {
        BoundaryInWord(s, k + 3);
      }
    }
  }

  /** A word that ends with `utc` and does not begin with `gmt` has its `utc` replaced. */
  lemma UtcAtEnd(s: string, u: string)
    requires AllWord(s) && !StartsGmt(s) && EndsUtc(s) && '$' !in u
    ensures Replace(s, GmtRe, u) == s[..|s| - 3] + u
  {
    GmtReShape();
    UtcLeftmost(s);
    ReplaceFirstAt(s, GmtRe, u, |s| - 3, 3);
  }

  /**
   * A pattern that begins with `gmt`, in any case: the UTC string takes the
   * place of those three letters and the other rules go on from there.
   */
  lemma FormatGmtAtStart(s: string, m: Moment)
    requires m.fields.Valid() && StartsGmt(s) && '$' !in m.utc
    ensures Format(s, m) == Apply(m.utc + s[3..], Steps(m), 1)
  {
    GmtAtStart(s, m.utc);
    ApplyFirst(s, Steps(m));
  }

  /**
   * A word that ends with `utc`, in any case, and does not begin with `gmt`:
   * the UTC string takes the place of the `utc`.
   */
  lemma FormatUtcAtEnd(s: string, m: Moment)
    requires m.fields.Valid() && AllWord(s) && !StartsGmt(s) && EndsUtc(s) && '$' !in m.utc
    ensures Format(s, m) == Apply(s[..|s| - 3] + m.utc, Steps(m), 1)
  {
    UtcAtEnd(s, m.utc);
    ApplyFirst(s, Steps(m));
  }

  /** A word that neither begins with `gmt` nor ends with `utc` is left to the other rules. */
  lemma FormatGmtInsideWord(s: string, m: Moment)
    requires m.fields.Valid() && AllWord(s) && !StartsGmt(s) && !EndsUtc(s)
    ensures Format(s, m) == Apply(s, Steps(m), 1)
  {
    GmtInWord(s);
    ApplyFirst(s, Steps(m));
  }

  /** Once no rule from `lo` on finds anything in the string, the rest of the chain leaves it as it is. */
  lemma RestInert(t: string, m: Moment, lo: nat)
    requires m.fields.Valid() && lo <= RuleCount
    requires forall j :: lo <= j < RuleCount ==> NoMatchIn(t, Rule(j))
    ensures Apply(t, Steps(m), lo) == t
  {
  }

  /** A three-letter word is `gmt` or `utc` in any case. */
  predicate GmtWord(s: string) {
    |s| == 3 && (Spells(s, 0, 'G', 'M', 'T') || Spells(s, 0, 'U', 'T', 'C'))
  }

  /** `gmt` or `utc` alone, in any case, is replaced by the UTC string before any other rule runs. */
  lemma GmtWordFirst(s: string, m: Moment)
    requires m.fields.Valid() && GmtWord(s) && '$' !in m.utc
    ensures Format(s, m) == Apply(m.utc, Steps(m), 1)
  {
    if StartsGmt(s) {
      FormatGmtAtStart(s, m);
      assert m.utc + s[3..] == m.utc;
    } else {
      SpellsLetters(s, 0, 'U', 'T', 'C');
      FormatUtcAtEnd(s, m);
      assert s[..|s| - 3] + m.utc == m.utc;
    }
  }

  /**
   * `gmt` or `utc` alone, in any case, gives the UTC string when no other
   * rule finds anything in it.
   */
  lemma FormatGmtWord(s: string, m: Moment)
    requires m.fields.Valid() && GmtWord(s)
    requires '$' !in m.utc && forall j :: 1 <= j < RuleCount ==> NoMatchIn(m.utc, Rule(j))
    ensures Format(s, m) == m.utc
  {
    GmtWordFirst(s, m);
    RestInert(m.utc, m, 1);
  }

  /** A three-letter word is `iso` in any case. */
  predicate IsoWord(s: string) {
    |s| == 3 && Spells(s, 0, 'I', 'S', 'O')
  }

  /** `iso` alone, in any case, is the one word the `iso` rule replaces, and `gmt|utc` finds nothing in it. */
  lemma IsoWordMatches(s: string)
    requires IsoWord(s)
    ensures AllWord(s) && NoMatchIn(s, Rule(0))
    ensures IsWholeWord(Rule(1)) && WordEq(s, Rule(1).alts[0].lit, Rule(1).ignoreCase)
  {
    SpellsLetters(s, 0, 'I', 'S', 'O');
    GmtInWord(s);
    TokenLitsSpelled();
    RulesShape(1);
    LitAtThree(s, 0, "iso");
  }

  /** `iso` alone, in any case, gives the ISO string when no later rule finds anything in it. */
  lemma FormatIsoWord(s: string, m: Moment)
    requires m.fields.Valid() && IsoWord(s)
    requires '$' !in m.iso && forall j :: 2 <= j < RuleCount ==> NoMatchIn(m.iso, Rule(j))
    ensures Format(s, m) == m.iso
  {
    IsoWordMatches(s);
    WholeWordReplaceInWord(s, Rule(1), m.iso);
    ApplyOnly(s, Steps(m), 1);
  }
}
