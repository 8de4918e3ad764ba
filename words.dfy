/**
 * A reference reading of the whole-word rules. A pattern is seen as words of
 * word characters separated by single non-word characters (an empty word
 * stands between two adjacent separators); a `\blit\b` rule then acts on the
 * list of words: `replace` without `g` swaps the first word equal to the
 * literal, with `g` every such word, and every separator stays where it is.
 */
module WholeWords {
  import opened Text
  import opened WordRegex

  /** The words with the separators between them: `ws[0] + [seps[0]] + ws[1] + ...`. */
  function Join(ws: seq<string>, seps: string): string
    requires |ws| == |seps| + 1
    decreases |seps|
  {
    if |seps| == 0 then ws[0] else ws[0] + [seps[0]] + Join(ws[1..], seps[1..])
  }

  /** Every word is made of word characters and every separator is not one. */
  predicate Segmented(ws: seq<string>, seps: string) {
    && |ws| == |seps| + 1
    && (forall i :: 0 <= i < |ws| ==> AllWord(ws[i]))
    && (forall i :: 0 <= i < |seps| ==> !IsWordChar(seps[i]))
  }

  /** Some word of the list is the literal. */
  predicate AnyWordEq(ws: seq<string>, lit: string, ignoreCase: bool) {
    exists i :: 0 <= i < |ws| && WordEq(ws[i], lit, ignoreCase)
  }

  /** The list with its first word equal to the literal swapped for `repl`. */
  function ReplaceFirstWord(ws: seq<string>, lit: string, ignoreCase: bool, repl: string): (r: seq<string>)
    ensures |r| == |ws|
    ensures !AnyWordEq(ws, lit, ignoreCase) ==> r == ws
    ensures forall i :: 0 <= i < |ws| ==> r[i] == ws[i] || (r[i] == repl && WordEq(ws[i], lit, ignoreCase))
    decreases |ws|
  {
    if ws == [] then []
    else if WordEq(ws[0], lit, ignoreCase) then [repl] + ws[1..]
    else
      assert !AnyWordEq(ws, lit, ignoreCase) ==> !AnyWordEq(ws[1..], lit, ignoreCase) by {
        if AnyWordEq(ws[1..], lit, ignoreCase) {
          var i :| 0 <= i < |ws| - 1 && WordEq(ws[1..][i], lit, ignoreCase);
          assert WordEq(ws[i + 1], lit, ignoreCase);
        }
      }
      [ws[0]] + ReplaceFirstWord(ws[1..], lit, ignoreCase, repl)
  }

  /** The list with every word equal to the literal swapped for `repl`. */
  function ReplaceEveryWord(ws: seq<string>, lit: string, ignoreCase: bool, repl: string): (r: seq<string>)
    ensures |r| == |ws|
    ensures forall i :: 0 <= i < |ws| ==> r[i] == if WordEq(ws[i], lit, ignoreCase) then repl else ws[i]
    decreases |ws|
  {
    if ws == [] then []
    else [if WordEq(ws[0], lit, ignoreCase) then repl else ws[0]] + ReplaceEveryWord(ws[1..], lit, ignoreCase, repl)
  }

  lemma NoDollarInWord(w: string)
    requires AllWord(w)
    ensures '$' !in w
  {
  }

  /** A word has no match of `\blit\b` exactly when it is not the literal. */
  lemma WordNoMatch(w: string, re: Regex)
    requires AllWord(w) && IsWholeWord(re)
    ensures NoMatchIn(w, re) <==> !WordEq(w, re.alts[0].lit, re.ignoreCase)
  {
    forall j | 0 <= j <= |w| ensures Matches(w, j, re) <==> j == 0 && WordEq(w, re.alts[0].lit, re.ignoreCase) {
      WholeWordMatchInWord(w, j, re);
    }
    if WordEq(w, re.alts[0].lit, re.ignoreCase) {
      assert Matches(w, 0, re);
    }
  }

  lemma SegmentedTail(ws: seq<string>, seps: string)
    requires Segmented(ws, seps) && |seps| > 0
    ensures Segmented(ws[1..], seps[1..]) && AllWord(ws[0]) && !IsWordChar(seps[0])
  {
    assert forall i :: 0 <= i < |ws| - 1 ==> ws[1..][i] == ws[i + 1];
    assert forall i :: 0 <= i < |seps| - 1 ==> seps[1..][i] == seps[i + 1];
  }

  lemma JoinCons(w: string, ws: seq<string>, c: char, seps: string)
    requires |ws| == |seps| + 1
    ensures Join([w] + ws, [c] + seps) == w + [c] + Join(ws, seps)
  {
    assert ([w] + ws)[1..] == ws;
    assert ([c] + seps)[1..] == seps;
  }

  /** Without a word equal to the literal, `\blit\b` matches nowhere in the joined string. */
  lemma {:induction false} NoMatchWords(ws: seq<string>, seps: string, re: Regex)
    requires Segmented(ws, seps) && IsWholeWord(re) && !AnyWordEq(ws, re.alts[0].lit, re.ignoreCase)
    ensures NoMatchIn(Join(ws, seps), re)
    decreases |seps|
  {
    assert !WordEq(ws[0], re.alts[0].lit, re.ignoreCase);
    WordNoMatch(ws[0], re);
    if |seps| > 0 {
      SegmentedTail(ws, seps);
      assert !AnyWordEq(ws[1..], re.alts[0].lit, re.ignoreCase) by {
        forall i | 0 <= i < |ws| - 1 ensures !WordEq(ws[1..][i], re.alts[0].lit, re.ignoreCase) {
          assert ws[1..][i] == ws[i + 1];
        }
      }
      NoMatchWords(ws[1..], seps[1..], re);
      NoMatchJoin(ws[0], seps[0], Join(ws[1..], seps[1..]), re);
    }
  }

  /** On a word, a separator and the rest, the first match is the word itself or lies in the rest. */
  lemma FirstWordStep(w: string, c: char, rest: string, re: Regex, repl: string)
    requires AllWord(w) && !IsWordChar(c) && IsWholeWord(re) && AllWord(repl)
    ensures WellFormed(re)
    ensures ReplaceFirst(w + [c] + rest, re, repl)
         == if WordEq(w, re.alts[0].lit, re.ignoreCase) then repl + [c] + rest else w + [c] + ReplaceFirst(rest, re, repl)
  {
    NoDollarInWord(repl);
    ReplaceFirstJoin(w, c, rest, re, repl);
    WordNoMatch(w, re);
    WholeWordReplaceInWord(w, re, repl);
  }

  /**
   * `replace` without `g` on words and separators swaps the first word equal
   * to the literal and leaves every other word and separator as it is.
   */
  lemma {:induction false} ReplaceFirstWords(ws: seq<string>, seps: string, re: Regex, repl: string)
    requires Segmented(ws, seps) && IsWholeWord(re) && AllWord(repl)
    ensures WellFormed(re)
    ensures ReplaceFirst(Join(ws, seps), re, repl)
         == Join(ReplaceFirstWord(ws, re.alts[0].lit, re.ignoreCase, repl), seps)
    decreases |seps|
  {
    var lit, ic := re.alts[0].lit, re.ignoreCase;
    NoDollarInWord(repl);
    var w := ws[0];
    if |seps| == 0 {
      WholeWordReplaceInWord(w, re, repl);
      assert ws == [w];
    } else {
      SegmentedTail(ws, seps);
      var c, rest := seps[0], Join(ws[1..], seps[1..]);
      FirstWordStep(w, c, rest, re, repl);
      assert ws == [w] + ws[1..] && seps == [c] + seps[1..];
      if WordEq(w, lit, ic) {
        JoinCons(repl, ws[1..], c, seps[1..]);
      } else {
        ReplaceFirstWords(ws[1..], seps[1..], re, repl);
        JoinCons(w, ReplaceFirstWord(ws[1..], lit, ic, repl), c, seps[1..]);
      }
    }
  }

  /** On a word, a separator and the rest, the global replace treats the word and the rest apart. */
  lemma AllWordStep(w: string, c: char, rest: string, re: Regex, repl: string)
    requires AllWord(w) && !IsWordChar(c) && IsWholeWord(re) && AllWord(repl)
    ensures WellFormed(re)
    ensures ReplaceAll(w + [c] + rest, re, repl)
         == (if WordEq(w, re.alts[0].lit, re.ignoreCase) then repl else w) + [c] + ReplaceAll(rest, re, repl)
  {
    NoDollarInWord(repl);
    ReplaceAllJoin(w, c, rest, re, repl);
    WholeWordReplaceInWord(w, re, repl);
  }

  /** `replace` with `g` on words and separators swaps every word equal to the literal. */
  lemma {:induction false} ReplaceAllWords(ws: seq<string>, seps: string, re: Regex, repl: string)
    requires Segmented(ws, seps) && IsWholeWord(re) && AllWord(repl)
    ensures WellFormed(re)
    ensures ReplaceAll(Join(ws, seps), re, repl)
         == Join(ReplaceEveryWord(ws, re.alts[0].lit, re.ignoreCase, repl), seps)
    decreases |seps|
  {
    var lit, ic := re.alts[0].lit, re.ignoreCase;
    var w := ws[0];
    if |seps| == 0 {
      WholeWordReplaceInWord(w, re, repl);
      assert ws == [w];
    } else {
      SegmentedTail(ws, seps);
      var c, r := seps[0], ReplaceEveryWord(ws, lit, ic, repl);
      AllWordStep(w, c, Join(ws[1..], seps[1..]), re, repl);
      ReplaceAllWords(ws[1..], seps[1..], re, repl);
      EveryWordTail(ws, lit, ic, repl);
      assert Join(ws, seps) == w + [c] + Join(ws[1..], seps[1..]);
      assert Join(r, seps) == r[0] + [c] + Join(r[1..], seps[1..]);
    }
  }

  lemma EveryWordTail(ws: seq<string>, lit: string, ignoreCase: bool, repl: string)
    requires |ws| > 0
    ensures ReplaceEveryWord(ws, lit, ignoreCase, repl)[1..] == ReplaceEveryWord(ws[1..], lit, ignoreCase, repl)
  {
  }

  /**
   * Without `g`, only the first word equal to the literal is swapped: every
   * later one stays as it is.
   */
  lemma {:induction false} ReplaceFirstWordAt(ws: seq<string>, lit: string, ignoreCase: bool, repl: string, j: nat)
    requires j < |ws| && WordEq(ws[j], lit, ignoreCase)
    requires forall i :: 0 <= i < j ==> !WordEq(ws[i], lit, ignoreCase)
    ensures ReplaceFirstWord(ws, lit, ignoreCase, repl) == ws[j := repl]
    decreases |ws|
  {
    if j > 0 {
      var r := ReplaceFirstWord(ws, lit, ignoreCase, repl);
      FirstWordTail(ws, lit, ignoreCase, repl);
      ReplaceFirstWordAt(ws[1..], lit, ignoreCase, repl, j - 1);
      forall i | 1 <= i < |ws| ensures r[i] == ws[j := repl][i] {
        assert r[i] == r[1..][i - 1];
      }
    }
  }

  lemma FirstWordTail(ws: seq<string>, lit: string, ignoreCase: bool, repl: string)
    requires |ws| > 0 && !WordEq(ws[0], lit, ignoreCase)
    ensures var r := ReplaceFirstWord(ws, lit, ignoreCase, repl);
            r[0] == ws[0] && r[1..] == ReplaceFirstWord(ws[1..], lit, ignoreCase, repl)
  {
  }
}
