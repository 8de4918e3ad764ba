/**
 * The regular expressions the formatter passes to `String.prototype.replace`
 * and what `replace` does with them.
 *
 * Every one of them is an alternation of literals, each literal optionally
 * preceded and/or followed by `\b`, with an optional `i` (ignore case) and an
 * optional `g` (global) flag: `/\bY\b/` is one branch bounded on both sides,
 * `/\bgmt|utc\b/i` is two branches, the first bounded on the left only and the
 * second on the right only.
 */
module WordRegex {
  import opened Text

  /** One alternative: a literal, with or without `\b` before and after it. */
  datatype Branch = Branch(wordStart: bool, lit: string, wordEnd: bool)

  datatype Regex = Regex(alts: seq<Branch>, ignoreCase: bool, global: bool)

  /** Where a match starts and how many characters it covers. */
  datatype Match = NoMatch | Match(at: nat, len: nat)

  /** `/\blit\b/` with the given flags: the literal as a whole word. */
  function WordRe(lit: string, ignoreCase: bool, global: bool): (re: Regex)
    ensures |re.alts| == 1 && re.alts[0].lit == lit
  {
    Regex([Branch(true, lit, true)], ignoreCase, global)
  }

  /** Every literal is non-empty, so that a match always consumes a character. */
  predicate WellFormed(re: Regex) {
    forall k :: 0 <= k < |re.alts| ==> |re.alts[k].lit| > 0
  }

  /** Every literal is non-empty and made of word characters only. */
  predicate WordLits(re: Regex) {
    forall k :: 0 <= k < |re.alts| ==> |re.alts[k].lit| > 0 && AllWord(re.alts[k].lit)
  }

  /** A regex of the shape `\blit\b`: one branch, bounded on both sides, a word-character literal. */
  predicate IsWholeWord(re: Regex) {
    |re.alts| == 1 && re.alts[0].wordStart && re.alts[0].wordEnd && WordLits(re)
  }

  /**
   * `\b` at position `i` (between `s[i-1]` and `s[i]`): exactly one of the two
   * neighbours is a word character, the ends of the string counting as
   * non-word.
   */
  predicate Boundary(s: string, i: nat)
    requires i <= |s|
  {
    (0 < i && IsWordChar(s[i - 1])) != (i < |s| && IsWordChar(s[i]))
  }

  predicate SameChar(c: char, p: char, ignoreCase: bool) {
    if ignoreCase then Upper(c) == Upper(p) else c == p
  }

  /** What a match compares: the text itself, or its canonical form when case is ignored. */
  function Canon(s: string, ignoreCase: bool): (r: string)
    ensures |r| == |s|
  {
    if ignoreCase then UpperString(s) else s
  }

  /** The literal occurs at position `i` of `s`. */
  predicate LitAt(s: string, i: nat, lit: string, ignoreCase: bool) {
    i + |lit| <= |s| && Canon(s[i..i + |lit|], ignoreCase) == Canon(lit, ignoreCase)
  }

  /** Character by character, an occurrence of the literal compares alike. */
  lemma LitAtChar(s: string, i: nat, lit: string, ignoreCase: bool, k: nat)
    requires LitAt(s, i, lit, ignoreCase) && k < |lit|
    ensures SameChar(s[i + k], lit[k], ignoreCase)
  {
    var x := s[i..i + |lit|];
    assert x[k] == s[i + k];
    assert Canon(x, ignoreCase)[k] == Canon(lit, ignoreCase)[k];
  }

  predicate BranchAt(s: string, i: nat, b: Branch, ignoreCase: bool)
    requires i <= |s|
  {
    && (b.wordStart ==> Boundary(s, i))
    && LitAt(s, i, b.lit, ignoreCase)
    && (b.wordEnd ==> Boundary(s, i + |b.lit|))
  }

  /**
   * The index of the alternative that matches at `i`: alternatives are tried
   * from left to right and the first that matches is taken; `|alts|` when
   * none matches.
   */
  function FirstAlt(s: string, i: nat, alts: seq<Branch>, ignoreCase: bool): (k: nat)
    requires i <= |s|
    ensures k <= |alts|
    ensures k < |alts| ==> BranchAt(s, i, alts[k], ignoreCase)
    ensures forall j {:trigger BranchAt(s, i, alts[j], ignoreCase)} :: 0 <= j < k ==> !BranchAt(s, i, alts[j], ignoreCase)
    decreases |alts|
  {
    if |alts| == 0 then 0
    else if BranchAt(s, i, alts[0], ignoreCase) then 0
    else
      var k := FirstAlt(s, i, alts[1..], ignoreCase);
      assert forall j :: 1 <= j < |alts| ==> alts[j] == alts[1..][j - 1];
      k + 1
  }

  /** The match of `re` that starts at `i`, if any. */
  function MatchAt(s: string, i: nat, re: Regex): (m: Match)
    requires i <= |s|
    ensures m.Match? ==> m.at == i && i + m.len <= |s|
    ensures WellFormed(re) && m.Match? ==> m.len > 0
  {
    var k := FirstAlt(s, i, re.alts, re.ignoreCase);
    if k < |re.alts| then Match(i, |re.alts[k].lit|) else NoMatch
  }

  /** A match starts at `i` exactly when one of the alternatives matches there. */
  lemma MatchAtAny(s: string, i: nat, re: Regex)
    requires i <= |s|
    ensures Matches(s, i, re) <==> exists k :: 0 <= k < |re.alts| && BranchAt(s, i, re.alts[k], re.ignoreCase)
  {
  }

  predicate Matches(s: string, i: nat, re: Regex)
    requires i <= |s|
  {
    MatchAt(s, i, re).Match?
  }

  /** No match starts anywhere in `s`. */
  predicate NoMatchIn(s: string, re: Regex) {
    forall j :: 0 <= j <= |s| ==> !Matches(s, j, re)
  }

  /** A match starts at `j` and none starts earlier. */
  predicate Leftmost(s: string, re: Regex, j: nat) {
    j <= |s| && Matches(s, j, re) && forall k :: 0 <= k < j ==> !Matches(s, k, re)
  }

  /** The length of the match that starts at `j`, 0 when none does. */
  function MatchLen(s: string, j: nat, re: Regex): (n: nat)
    requires j <= |s|
    ensures j + n <= |s|
    ensures WellFormed(re) ==> (n > 0 <==> Matches(s, j, re))
  {
    var m := MatchAt(s, j, re);
    if m.Match? then m.len else 0
  }

  /**
   * A match table for `s`: for each position, the length of the match that
   * starts there, 0 when none does; no match reaches past the end.
   */
  predicate IsTable(s: string, t: seq<nat>) {
    |t| == |s| && forall j :: 0 <= j < |t| ==> j + t[j] <= |s|
  }

  /** The match lengths of `re` at the positions of `s` from `from` on. */
  function TableFrom(s: string, re: Regex, from: nat): (t: seq<nat>)
    requires from <= |s|
    ensures |t| == |s| - from
    ensures forall k :: 0 <= k < |t| ==> from + k + t[k] <= |s|
    decreases |s| - from
  {
    if from == |s| then [] else [MatchLen(s, from, re)] + TableFrom(s, re, from + 1)
  }

  /** The match table of `re` over `s`. */
  function MatchTable(s: string, re: Regex): (t: seq<nat>)
    ensures IsTable(s, t)
  {
    TableFrom(s, re, 0)
  }

  lemma {:induction false} TableFromAt(s: string, re: Regex, from: nat, j: nat)
    requires from <= j < |s|
    ensures TableFrom(s, re, from)[j - from] == MatchLen(s, j, re)
    decreases j - from
  {
    if from < j {
      TableFromAt(s, re, from + 1, j);
    }
  }

  /** Each entry of the match table is the length of the match that starts there. */
  lemma MatchTableAt(s: string, re: Regex, j: nat)
    requires j < |s|
    ensures MatchTable(s, re)[j] == MatchLen(s, j, re)
  {
    TableFromAt(s, re, 0, j);
  }

  /** No match anywhere in `s` exactly when the match table is all zeros. */
  lemma NoMatchTable(s: string, re: Regex)
    requires WellFormed(re)
    ensures NoMatchIn(s, re) <==> forall j :: 0 <= j < |s| ==> MatchTable(s, re)[j] == 0
  {
    var t := MatchTable(s, re);
    forall j | 0 <= j < |s| ensures t[j] == MatchLen(s, j, re) {
      MatchTableAt(s, re, j);
    }
    if forall j :: 0 <= j < |s| ==> t[j] == 0 {
      forall j | 0 <= j <= |s| ensures !Matches(s, j, re) {
        if j < |s| { assert t[j] == 0; }
      }
    }
  }

  /**
   * The first position at or after `from` where a match starts, `|t|` when
   * there is none: where a regular expression's `exec` finds its match.
   */
  function First(t: seq<nat>, from: nat): (i: nat)
    requires from <= |t|
    ensures from <= i <= |t|
    ensures i < |t| ==> t[i] > 0
    ensures forall j :: from <= j < i ==> t[j] == 0
    decreases |t| - from
  {
    if from == |t| || t[from] > 0 then from else First(t, from + 1)
  }

  /** `First` is the one position that carries a match, or is the end, with no match before it. */
  lemma {:induction false} FirstIsEarliest(t: seq<nat>, from: nat, i: nat)
    requires from <= i <= |t|
    requires i < |t| ==> t[i] > 0
    requires forall j :: from <= j < i ==> t[j] == 0
    ensures First(t, from) == i
    decreases i - from
  {
    if from < i {
      FirstIsEarliest(t, from + 1, i);
    }
  }

  /** Where a match of `len` characters at `from` ends, in a string of length `n`. */
  function MatchEnd(n: nat, from: nat, len: nat): (end: nat)
    requires from < n
    ensures from < end <= n || len == 0
    ensures from + len <= n ==> end == from + len
  {
    if from + len <= n then from + len else n
  }

  // ---------------------------------------------------------------------
  // The replacement text.
  // ---------------------------------------------------------------------

  /**
   * The replacement text `replace` inserts for a match: `$$` stands for `$`,
   * `$&` for the matched text, `` $` `` for the text before the match and `$'`
   * for the text after it; every other character, including a `$` that starts
   * none of these, stands for itself (the regexes here have no groups, so `$1`
   * and `$<` are literal too).
   */
  function Expand(t: string, matched: string, before: string, after: string): (r: string)
    ensures '$' !in t ==> r == t
    decreases |t|
  {
    if |t| == 0 then ""
    else if t[0] == '$' && |t| >= 2 && t[1] == '$' then "$" + Expand(t[2..], matched, before, after)
    else if t[0] == '$' && |t| >= 2 && t[1] == '&' then matched + Expand(t[2..], matched, before, after)
    else if t[0] == '$' && |t| >= 2 && t[1] == '`' then before + Expand(t[2..], matched, before, after)
    else if t[0] == '$' && |t| >= 2 && t[1] == '\'' then after + Expand(t[2..], matched, before, after)
    else [t[0]] + Expand(t[1..], matched, before, after)
  }

  /** How a replacement string is read from the left, one form or one character at a time. */
  lemma ExpandSteps(t: string, matched: string, before: string, after: string)
    ensures var e := Expand(t, matched, before, after);
      && (|t| >= 2 && t[..2] == "$$" ==> e == "$" + Expand(t[2..], matched, before, after))
      && (|t| >= 2 && t[..2] == "$&" ==> e == matched + Expand(t[2..], matched, before, after))
      && (|t| >= 2 && t[..2] == "$`" ==> e == before + Expand(t[2..], matched, before, after))
      && (|t| >= 2 && t[..2] == "$'" ==> e == after + Expand(t[2..], matched, before, after))
      && (|t| >= 1 && t[0] == '$' && (|t| == 1 || t[1] !in "$&`'") ==> e == "$" + Expand(t[1..], matched, before, after))
      && (|t| >= 1 && t[0] != '$' ==> e == [t[0]] + Expand(t[1..], matched, before, after))
  {
    if |t| >= 2 {
      assert t[..2] == [t[0], t[1]];
    }
  }

  /** A first character other than `$` is copied. */
  lemma ExpandPlainHead(t: string, matched: string, before: string, after: string)
    requires |t| > 0 && t[0] != '$'
    ensures Expand(t, matched, before, after) == [t[0]] + Expand(t[1..], matched, before, after)
  {
  }

  /** Each of the four forms on its own. */
  lemma ExpandForms(matched: string, before: string, after: string)
    ensures Expand("$$", matched, before, after) == "$"
    ensures Expand("$&", matched, before, after) == matched
    ensures Expand("$`", matched, before, after) == before
    ensures Expand("$'", matched, before, after) == after
  {
    assert "$$"[..2] == "$$" && "$&"[..2] == "$&" && "$`"[..2] == "$`" && "$'"[..2] == "$'";
  }

  /** Text without `$` in front of a replacement string is copied, and the rest expands on its own. */
  lemma {:induction false} ExpandPlainPrefix(a: string, b: string, matched: string, before: string, after: string)
    requires '$' !in a
    ensures Expand(a + b, matched, before, after) == a + Expand(b, matched, before, after)
    decreases |a|
  {
    if |a| == 0 {
      assert a + b == b;
    } else {
      var t, c, e := a + b, a[0], Expand(b, matched, before, after);
      var rest := Expand(a[1..] + b, matched, before, after);
      assert Expand(t, matched, before, after) == [c] + rest by {
        assert t[0] == c && t[1..] == a[1..] + b;
        assert c != '$' by {
          assert c in a;
        }
        ExpandPlainHead(t, matched, before, after);
      }
      assert rest == a[1..] + e by {
        ExpandPlainPrefix(a[1..], b, matched, before, after);
      }
      assert [c] + (a[1..] + e) == a + e by {
        assert [c] + a[1..] == a;
      }
    }
  }

  /** A whole-form unit followed by more text: the unit's expansion, then the rest's. */
  lemma ExpandFormThen(u: string, b: string, matched: string, before: string, after: string)
    requires u == "$$" || u == "$&" || u == "$`" || u == "$'"
    ensures Expand(u + b, matched, before, after) == Expand(u, matched, before, after) + Expand(b, matched, before, after)
  {
    ExpandForms(matched, before, after);
    assert (u + b)[..2] == u && (u + b)[2..] == b;
  }

  /** What `repl` expands to for the match that covers `s[at..end]`. */
  function Replacement(s: string, at: nat, end: nat, repl: string): (r: string)
    requires at <= end <= |s|
    ensures '$' !in repl ==> r == repl
  {
    Expand(repl, s[at..end], s[..at], s[end..])
  }

  /** For each position of `s`, the text a match the table gives there is replaced by. */
  function Pieces(s: string, t: seq<nat>, repl: string): (p: seq<string>)
    requires |t| == |s|
    ensures |p| == |s|
    ensures forall j :: 0 <= j < |s| ==> p[j] == Replacement(s, j, MatchEnd(|s|, j, t[j]), repl)
  {
    seq(|s|, j requires 0 <= j < |s| => Replacement(s, j, MatchEnd(|s|, j, t[j]), repl))
  }

  function Repeat<T>(x: T, n: nat): (r: seq<T>)
    ensures |r| == n
    ensures forall j :: 0 <= j < n ==> r[j] == x
  {
    seq(n, _ => x)
  }

  /** A replacement without `$` is inserted as it is wherever it goes. */
  lemma PlainPieces(s: string, t: seq<nat>, repl: string)
    requires |t| == |s| && '$' !in repl
    ensures Pieces(s, t, repl) == Repeat(repl, |s|)
  {
  }

  // ---------------------------------------------------------------------
  // `String.prototype.replace` with a regular expression.
  // ---------------------------------------------------------------------

  /** `s` with `s[at..end]` replaced by the expansion of `repl`. */
  function Splice(s: string, at: nat, end: nat, repl: string): string
    requires at <= end <= |s|
  {
    s[..at] + Replacement(s, at, end, repl) + s[end..]
  }

  /**
   * `s` with the first match of the table replaced by its piece, unchanged
   * when the table has none (a match that would reach past the end stops
   * there).
   */
  function SpliceFirst(s: string, t: seq<nat>, p: seq<string>): (r: string)
    requires |t| == |s| == |p|
    ensures (forall j :: 0 <= j < |s| ==> t[j] == 0) ==> r == s
  {
    var i := First(t, 0);
    if i == |s| then s else s[..i] + p[i] + s[MatchEnd(|s|, i, t[i])..]
  }

  /** Without a first match, `SpliceFirst` leaves the string as it is. */
  lemma SpliceFirstNone(s: string, t: seq<nat>, p: seq<string>)
    requires |t| == |s| == |p| && First(t, 0) == |s|
    ensures SpliceFirst(s, t, p) == s
  {
  }

  /**
   * `s.replace(re, repl)` for a regex without the `g` flag: only the leftmost
   * match is replaced; without a match the string comes back unchanged.
   */
  function ReplaceFirst(s: string, re: Regex, repl: string): (r: string)
    requires WellFormed(re)
    ensures NoMatchIn(s, re) ==> r == s
  {
    var t := MatchTable(s, re);
    NoMatchTable(s, re);
    SpliceFirst(s, t, Pieces(s, t, repl))
  }

  /** The match `ReplaceFirst` replaces is the leftmost one. */
  lemma ReplaceFirstLeftmost(s: string, re: Regex, repl: string, j: nat)
    requires WellFormed(re) && Leftmost(s, re, j)
    ensures j + MatchAt(s, j, re).len <= |s|
    ensures ReplaceFirst(s, re, repl) == Splice(s, j, j + MatchAt(s, j, re).len, repl)
  {
    var t := MatchTable(s, re);
    var p := Pieces(s, t, repl);
    var e := j + MatchAt(s, j, re).len;
    LeftmostFirst(s, re, j);
    assert t[j] == e - j by {
      MatchTableAt(s, re, j);
    }
    SpliceFirstAt(s, t, p, j, e, s[..j], p[j], s[e..]);
  }

  /** The leftmost match is the first entry of the match table. */
  lemma LeftmostFirst(s: string, re: Regex, j: nat)
    requires WellFormed(re) && Leftmost(s, re, j)
    ensures First(MatchTable(s, re), 0) == j
  {
    var t := MatchTable(s, re);
    forall k | 0 <= k < j ensures t[k] == 0 {
      MatchTableAt(s, re, k);
      assert !Matches(s, k, re);
    }
    MatchTableAt(s, re, j);
    FirstIsEarliest(t, 0, j);
  }

  /**
   * The global scan of `replace` with the `g` flag, from position `from` on:
   * where the table has a match its piece goes in and the scan resumes after
   * the match, elsewhere the character is kept and the scan moves one on.
   * Boundaries and `$` expansions always refer to the original string. A
   * match table never reaches past the end of its string (`IsTable`); the
   * scan stops at the end regardless, so that it needs no more of its table
   * than the right length.
   */
  function Scan(s: string, t: seq<nat>, p: seq<string>, from: nat): string
    requires |t| == |s| == |p| && from <= |s|
    decreases |s| - from
  {
    if from == |s| then ""
    else if t[from] > 0 then p[from] + Scan(s, t, p, MatchEnd(|s|, from, t[from]))
    else [s[from]] + Scan(s, t, p, from + 1)
  }

  /** `s.replace(re, repl)` for a regex with the `g` flag. */
  function ReplaceAll(s: string, re: Regex, repl: string): (r: string)
    requires WellFormed(re)
    ensures NoMatchIn(s, re) ==> r == s
  {
    var t := MatchTable(s, re);
    NoMatchTable(s, re);
    ScanUnchanged(s, t, Pieces(s, t, repl), 0);
    Scan(s, t, Pieces(s, t, repl), 0)
  }

  /** `String.prototype.replace` with a regular expression: the `g` flag decides between the two. */
  function Replace(s: string, re: Regex, repl: string): (r: string)
    requires WellFormed(re)
    ensures NoMatchIn(s, re) ==> r == s
  {
    if re.global then ReplaceAll(s, re, repl) else ReplaceFirst(s, re, repl)
  }

  lemma {:induction false} ScanUnchanged(s: string, t: seq<nat>, p: seq<string>, from: nat)
    requires |t| == |s| == |p| && from <= |s|
    ensures (forall j :: from <= j < |s| ==> t[j] == 0) ==> Scan(s, t, p, from) == s[from..]
    decreases |s| - from
  {
    if from < |s| && forall j :: from <= j < |s| ==> t[j] == 0 {
      ScanUnchanged(s, t, p, from + 1);
      assert s[from..] == [s[from]] + s[from + 1..];
    }
  }

  // ---------------------------------------------------------------------
  // Cutting a string at a non-word character.
  //
  // When every literal is made of word characters, no match can cover a
  // non-word character, and `\b` next to it only looks at the side it is
  // on. So in `a + [c] + b`, with `c` a non-word character, the matches are
  // those of `a` and those of `b`, and replacing in the whole string is
  // replacing in the two parts.
  // ---------------------------------------------------------------------

  lemma NonWordNeverSame(c: char, p: char, ignoreCase: bool)
    requires !IsWordChar(c) && IsWordChar(p)
    ensures !SameChar(c, p, ignoreCase)
  {
  }

  lemma BoundaryLeft(a: string, c: char, b: string, j: nat)
    requires !IsWordChar(c) && j <= |a|
    ensures Boundary(a + [c] + b, j) == Boundary(a, j)
  {
    var s := a + [c] + b;
    if 0 < j { assert s[j - 1] == a[j - 1]; }
    if j < |a| { assert s[j] == a[j]; } else { assert s[j] == c; }
  }

  lemma BoundaryRight(a: string, c: char, b: string, j: nat)
    requires !IsWordChar(c) && j <= |b|
    ensures Boundary(a + [c] + b, |a| + 1 + j) == Boundary(b, j)
  {
    var s := a + [c] + b;
    if 0 < j { assert s[|a| + j] == b[j - 1]; } else { assert s[|a|] == c; }
    if j < |b| { assert s[|a| + 1 + j] == b[j]; }
  }

  lemma LitLeft(a: string, c: char, b: string, j: nat, lit: string, ignoreCase: bool)
    requires !IsWordChar(c) && j <= |a| && AllWord(lit)
    ensures LitAt(a + [c] + b, j, lit, ignoreCase) == LitAt(a, j, lit, ignoreCase)
  {
    var s := a + [c] + b;
    if LitAt(s, j, lit, ignoreCase) && j + |lit| > |a| {
      var k := |a| - j;
      assert s[j + k] == c;
      NonWordNeverSame(c, lit[k], ignoreCase);
      LitAtChar(s, j, lit, ignoreCase, k);
      assert false;
    }
    if j + |lit| <= |a| {
      assert s[j..j + |lit|] == a[j..j + |lit|];
    }
  }

  lemma LitRight(a: string, c: char, b: string, j: nat, lit: string, ignoreCase: bool)
    requires j <= |b|
    ensures LitAt(a + [c] + b, |a| + 1 + j, lit, ignoreCase) == LitAt(b, j, lit, ignoreCase)
  {
    var s := a + [c] + b;
    if j + |lit| <= |b| {
      assert s[|a| + 1 + j..|a| + 1 + j + |lit|] == b[j..j + |lit|];
    }
  }

  lemma BranchLeft(a: string, c: char, b: string, j: nat, br: Branch, ignoreCase: bool)
    requires !IsWordChar(c) && j <= |a| && AllWord(br.lit)
    ensures BranchAt(a + [c] + b, j, br, ignoreCase) == BranchAt(a, j, br, ignoreCase)
  {
    BoundaryLeft(a, c, b, j);
    LitLeft(a, c, b, j, br.lit, ignoreCase);
    if LitAt(a, j, br.lit, ignoreCase) {
      BoundaryLeft(a, c, b, j + |br.lit|);
    }
  }

  lemma BranchRight(a: string, c: char, b: string, j: nat, br: Branch, ignoreCase: bool)
    requires !IsWordChar(c) && j <= |b|
    ensures BranchAt(a + [c] + b, |a| + 1 + j, br, ignoreCase) == BranchAt(b, j, br, ignoreCase)
  {
    BoundaryRight(a, c, b, j);
    LitRight(a, c, b, j, br.lit, ignoreCase);
    if LitAt(b, j, br.lit, ignoreCase) {
      BoundaryRight(a, c, b, j + |br.lit|);
    }
  }

  /** Two positions where every alternative matches alike pick the same alternative. */
  lemma {:induction false} FirstAltAlike(s: string, i: nat, t: string, j: nat, alts: seq<Branch>, ignoreCase: bool)
    requires i <= |s| && j <= |t|
    requires forall k :: 0 <= k < |alts| ==> BranchAt(s, i, alts[k], ignoreCase) == BranchAt(t, j, alts[k], ignoreCase)
    ensures FirstAlt(s, i, alts, ignoreCase) == FirstAlt(t, j, alts, ignoreCase)
    decreases |alts|
  {
    if |alts| > 0 && !BranchAt(s, i, alts[0], ignoreCase) {
      assert forall k :: 1 <= k < |alts| ==> alts[k] == alts[1..][k - 1];
      FirstAltAlike(s, i, t, j, alts[1..], ignoreCase);
    }
  }

  lemma MatchLeft(a: string, c: char, b: string, j: nat, re: Regex)
    requires WordLits(re) && !IsWordChar(c) && j <= |a|
    ensures MatchAt(a + [c] + b, j, re) == MatchAt(a, j, re)
  {
    forall k | 0 <= k < |re.alts|
      ensures BranchAt(a + [c] + b, j, re.alts[k], re.ignoreCase) == BranchAt(a, j, re.alts[k], re.ignoreCase)
    {
      BranchLeft(a, c, b, j, re.alts[k], re.ignoreCase);
    }
    FirstAltAlike(a + [c] + b, j, a, j, re.alts, re.ignoreCase);
  }

  lemma MatchRight(a: string, c: char, b: string, j: nat, re: Regex)
    requires !IsWordChar(c) && j <= |b|
    ensures Matches(a + [c] + b, |a| + 1 + j, re) == Matches(b, j, re)
    ensures Matches(b, j, re) ==> MatchAt(a + [c] + b, |a| + 1 + j, re).len == MatchAt(b, j, re).len
  {
    forall k | 0 <= k < |re.alts|
      ensures BranchAt(a + [c] + b, |a| + 1 + j, re.alts[k], re.ignoreCase) == BranchAt(b, j, re.alts[k], re.ignoreCase)
    {
      BranchRight(a, c, b, j, re.alts[k], re.ignoreCase);
    }
    FirstAltAlike(a + [c] + b, |a| + 1 + j, b, j, re.alts, re.ignoreCase);
  }

  lemma TableLeft(a: string, c: char, b: string, j: nat, re: Regex)
    requires WordLits(re) && !IsWordChar(c) && j <= |a|
    ensures MatchTable(a + [c] + b, re)[j] == if j < |a| then MatchTable(a, re)[j] else 0
  {
    MatchLeft(a, c, b, j, re);
    MatchTableAt(a + [c] + b, re, j);
    if j < |a| {
      MatchTableAt(a, re, j);
    }
  }

  lemma TableRight(a: string, c: char, b: string, j: nat, re: Regex)
    requires WordLits(re) && !IsWordChar(c) && j < |b|
    ensures MatchTable(a + [c] + b, re)[|a| + 1 + j] == MatchTable(b, re)[j]
  {
    MatchRight(a, c, b, j, re);
    MatchTableAt(a + [c] + b, re, |a| + 1 + j);
    MatchTableAt(b, re, j);
  }

  /** The match table of a string cut at a non-word character is those of the two parts around a 0. */
  lemma MatchTableJoin(a: string, c: char, b: string, re: Regex)
    requires WordLits(re) && !IsWordChar(c)
    ensures MatchTable(a + [c] + b, re) == MatchTable(a, re) + [0] + MatchTable(b, re)
  {
    var s := a + [c] + b;
    var ta, tb := MatchTable(a, re), MatchTable(b, re);
    var t, u := MatchTable(s, re), ta + [0] + tb;
    forall j | 0 <= j < |s| ensures t[j] == u[j] {
      if j <= |a| {
        TableLeft(a, c, b, j, re);
      } else {
        TableRight(a, c, b, j - |a| - 1, re);
      }
    }
  }

  lemma ZerosJoin(ta: seq<nat>, tb: seq<nat>)
    ensures (forall j :: 0 <= j < |ta + [0] + tb| ==> (ta + [0] + tb)[j] == 0)
        <==> (forall j :: 0 <= j < |ta| ==> ta[j] == 0) && (forall j :: 0 <= j < |tb| ==> tb[j] == 0)
  {
    var t := ta + [0] + tb;
    if forall j :: 0 <= j < |t| ==> t[j] == 0 {
      forall j | 0 <= j < |ta| ensures ta[j] == 0 { assert t[j] == ta[j]; }
      forall j | 0 <= j < |tb| ensures tb[j] == 0 { assert t[|ta| + 1 + j] == tb[j]; }
    }
  }

  /** A string cut at a non-word character has no match exactly when neither part has one. */
  lemma NoMatchJoin(a: string, c: char, b: string, re: Regex)
    requires WordLits(re) && !IsWordChar(c)
    ensures NoMatchIn(a + [c] + b, re) <==> NoMatchIn(a, re) && NoMatchIn(b, re)
  {
    MatchTableJoin(a, c, b, re);
    NoMatchTable(a + [c] + b, re);
    NoMatchTable(a, re);
    NoMatchTable(b, re);
    ZerosJoin(MatchTable(a, re), MatchTable(b, re));
  }

  /** The first match in two tables joined around a 0 is the first of the left one, else the first of the right one. */
  lemma FirstJoin(ta: seq<nat>, tb: seq<nat>)
    ensures First(ta + [0] + tb, 0)
         == if First(ta, 0) < |ta| then First(ta, 0) else |ta| + 1 + First(tb, 0)
  {
    var t := ta + [0] + tb;
    var i := if First(ta, 0) < |ta| then First(ta, 0) else |ta| + 1 + First(tb, 0);
    if First(ta, 0) == |ta| {
      forall j | |ta| + 1 <= j < i ensures t[j] == 0 {
        assert t[j] == tb[j - |ta| - 1];
      }
    }
    FirstIsEarliest(t, 0, i);
  }

  lemma Assoc<T>(x: seq<T>, y: seq<T>, z: seq<T>)
    ensures x + (y + z) == x + y + z
  {
  }

  lemma CutLeft<T>(a: seq<T>, c: T, b: seq<T>, i: nat, e: nat)
    requires i <= e <= |a|
    ensures (a + [c] + b)[..i] == a[..i]
    ensures (a + [c] + b)[e..] == a[e..] + [c] + b
  {
  }

  lemma CutRight<T>(a: seq<T>, c: T, b: seq<T>, i: nat, e: nat)
    requires i <= e <= |b|
    ensures (a + [c] + b)[..|a| + 1 + i] == a + [c] + b[..i]
    ensures (a + [c] + b)[|a| + 1 + e..] == b[e..]
  {
  }

  /** `SpliceFirst` where the first match is known, with the text around it named. */
  lemma SpliceFirstAt(s: string, t: seq<nat>, p: seq<string>, i: nat, e: nat, before: string, mid: string, after: string)
    requires |t| == |s| == |p| && First(t, 0) == i < |s|
    requires e == MatchEnd(|s|, i, t[i]) && p[i] == mid && s[..i] == before && s[e..] == after
    ensures SpliceFirst(s, t, p) == before + mid + after
  {
  }

  /** A first match in the first part of a cut string is replaced there. */
  lemma SpliceFirstJoinLeft(a: string, c: char, b: string, ta: seq<nat>, tb: seq<nat>, pa: seq<string>, x: string, pb: seq<string>)
    requires IsTable(a, ta) && |pa| == |a| && |tb| == |b| == |pb| && First(ta, 0) < |a|
    ensures SpliceFirst(a + [c] + b, ta + [0] + tb, pa + [x] + pb) == SpliceFirst(a, ta, pa) + [c] + b
  {
    var s, t, p := a + [c] + b, ta + [0] + tb, pa + [x] + pb;
    var i := First(ta, 0);
    var e := MatchEnd(|a|, i, ta[i]);
    assert First(t, 0) == i by { FirstJoin(ta, tb); }
    assert t[i] == ta[i] && p[i] == pa[i];
    CutLeft(a, c, b, i, e);
    SpliceFirstAt(s, t, p, i, e, a[..i], pa[i], a[e..] + [c] + b);
    SpliceFirstAt(a, ta, pa, i, e, a[..i], pa[i], a[e..]);
    Assoc(a[..i] + pa[i], a[e..], [c] + b);
    Assoc(a[..i] + pa[i] + a[e..], [c], b);
  }

  /** Without a match in the first part, the first match of the second part is replaced there. */
  lemma SpliceFirstJoinRight(a: string, c: char, b: string, ta: seq<nat>, tb: seq<nat>, pa: seq<string>, x: string, pb: seq<string>)
    requires |ta| == |pa| == |a| && |tb| == |b| == |pb| && First(ta, 0) == |a|
    ensures SpliceFirst(a + [c] + b, ta + [0] + tb, pa + [x] + pb) == a + [c] + SpliceFirst(b, tb, pb)
  {
    var s, t, p := a + [c] + b, ta + [0] + tb, pa + [x] + pb;
    var ib := First(tb, 0);
    assert First(t, 0) == |a| + 1 + ib by { FirstJoin(ta, tb); }
    if ib < |b| {
      var i := |a| + 1 + ib;
      var e := MatchEnd(|b|, ib, tb[ib]);
      assert t[i] == tb[ib] && p[i] == pb[ib];
      CutRight(a, c, b, ib, e);
      SpliceFirstAt(s, t, p, i, |a| + 1 + e, a + [c] + b[..ib], pb[ib], b[e..]);
      SpliceFirstAt(b, tb, pb, ib, e, b[..ib], pb[ib], b[e..]);
      Assoc(a + [c], b[..ib] + pb[ib], b[e..]);
      Assoc(a + [c], b[..ib], pb[ib]);
    } else {
      SpliceFirstNone(s, t, p);
      SpliceFirstNone(b, tb, pb);
    }
  }

  /** Replacing the first match of two tables joined around a 0 replaces it in its own part. */
  lemma SpliceFirstJoin(a: string, c: char, b: string, ta: seq<nat>, tb: seq<nat>, pa: seq<string>, x: string, pb: seq<string>)
    requires IsTable(a, ta) && |pa| == |a| && |tb| == |b| == |pb|
    ensures SpliceFirst(a + [c] + b, ta + [0] + tb, pa + [x] + pb)
         == if First(ta, 0) < |a| then SpliceFirst(a, ta, pa) + [c] + b else a + [c] + SpliceFirst(b, tb, pb)
  {
    if First(ta, 0) < |a| {
      SpliceFirstJoinLeft(a, c, b, ta, tb, pa, x, pb);
    } else {
      SpliceFirstJoinRight(a, c, b, ta, tb, pa, x, pb);
    }
  }

  /** Where the table has a match, the scan inserts its piece and resumes after it. */
  lemma ScanMatchStep(s: string, t: seq<nat>, p: seq<string>, from: nat)
    requires |t| == |s| == |p| && from < |s| && t[from] > 0
    ensures Scan(s, t, p, from) == p[from] + Scan(s, t, p, MatchEnd(|s|, from, t[from]))
  {
  }

  /** Where the table has no match, the scan keeps the character and moves one on. */
  lemma ScanKeepStep(s: string, t: seq<nat>, p: seq<string>, from: nat)
    requires |t| == |s| == |p| && from < |s| && t[from] == 0
    ensures Scan(s, t, p, from) == [s[from]] + Scan(s, t, p, from + 1)
  {
  }

  /**
   * The scan of a string cut at `c`, over tables and pieces cut alike, is up
   * to the cut the scan of the first part.
   */
  lemma {:induction false} ScanPrefix(a: string, c: char, b: string, ta: seq<nat>, tb: seq<nat>, pa: seq<string>, x: string, pb: seq<string>, from: nat)
    requires IsTable(a, ta) && |pa| == |a| && |tb| == |b| == |pb| && from <= |a|
    ensures Scan(a + [c] + b, ta + [0] + tb, pa + [x] + pb, from)
         == Scan(a, ta, pa, from) + Scan(a + [c] + b, ta + [0] + tb, pa + [x] + pb, |a|)
    decreases |a| - from
  {
    var s, t, p := a + [c] + b, ta + [0] + tb, pa + [x] + pb;
    if from < |a| {
      if ta[from] > 0 {
        var next := from + ta[from];
        assert t[from] == ta[from] && p[from] == pa[from];
        ScanMatchStep(s, t, p, from);
        ScanMatchStep(a, ta, pa, from);
        assert MatchEnd(|s|, from, t[from]) == next == MatchEnd(|a|, from, ta[from]);
        ScanPrefix(a, c, b, ta, tb, pa, x, pb, next);
        Assoc(pa[from], Scan(a, ta, pa, next), Scan(s, t, p, |a|));
      } else {
        assert s[from] == a[from] && t[from] == 0;
        ScanKeepStep(s, t, p, from);
        ScanKeepStep(a, ta, pa, from);
        ScanPrefix(a, c, b, ta, tb, pa, x, pb, from + 1);
        Assoc([a[from]], Scan(a, ta, pa, from + 1), Scan(s, t, p, |a|));
      }
    }
  }

  /** Where `r` has a match at `k`, the scan of `q + r` from `|q| + k` agrees with that of `r` once it does after the match. */
  lemma ShiftMatchStep(q: string, tq: seq<nat>, pq: seq<string>, r: string, tr: seq<nat>, pr: seq<string>, k: nat)
    requires |tq| == |q| == |pq| && |tr| == |r| == |pr| && k < |r| && tr[k] > 0
    requires Scan(q + r, tq + tr, pq + pr, |q| + MatchEnd(|r|, k, tr[k])) == Scan(r, tr, pr, MatchEnd(|r|, k, tr[k]))
    ensures Scan(q + r, tq + tr, pq + pr, |q| + k) == Scan(r, tr, pr, k)
  {
    var s, t, p, d := q + r, tq + tr, pq + pr, |q|;
    assert t[d + k] == tr[k] && p[d + k] == pr[k];
    assert MatchEnd(|s|, d + k, t[d + k]) == d + MatchEnd(|r|, k, tr[k]);
    ScanMatchStep(s, t, p, d + k);
    ScanMatchStep(r, tr, pr, k);
  }

  /** Where `r` keeps its character at `k`, the scan of `q + r` from `|q| + k` agrees with that of `r` once it does one on. */
  lemma ShiftKeepStep(q: string, tq: seq<nat>, pq: seq<string>, r: string, tr: seq<nat>, pr: seq<string>, k: nat)
    requires |tq| == |q| == |pq| && |tr| == |r| == |pr| && k < |r| && tr[k] == 0
    requires Scan(q + r, tq + tr, pq + pr, |q| + k + 1) == Scan(r, tr, pr, k + 1)
    ensures Scan(q + r, tq + tr, pq + pr, |q| + k) == Scan(r, tr, pr, k)
  {
    var s, t, p, d := q + r, tq + tr, pq + pr, |q|;
    assert s[d + k] == r[k] && t[d + k] == 0;
    ScanKeepStep(s, t, p, d + k);
    ScanKeepStep(r, tr, pr, k);
  }

  /**
   * The scan of a string that ends with `r`, over a table and pieces that end
   * with those of `r`, is from inside `r` on the scan of `r`.
   */
  lemma {:induction false} ScanSuffix(q: string, tq: seq<nat>, pq: seq<string>, r: string, tr: seq<nat>, pr: seq<string>, k: nat)
    requires |tq| == |q| == |pq| && |tr| == |r| == |pr| && k <= |r|
    ensures Scan(q + r, tq + tr, pq + pr, |q| + k) == Scan(r, tr, pr, k)
    decreases |r| - k
  {
    if k < |r| {
      if tr[k] > 0 {
        ScanSuffix(q, tq, pq, r, tr, pr, MatchEnd(|r|, k, tr[k]));
        ShiftMatchStep(q, tq, pq, r, tr, pr, k);
      } else {
        ScanSuffix(q, tq, pq, r, tr, pr, k + 1);
        ShiftKeepStep(q, tq, pq, r, tr, pr, k);
      }
    }
  }

  /** At the cut the scan keeps the character and goes on with the scan of the second part. */
  lemma ScanJoinCut(a: string, c: char, b: string, ta: seq<nat>, tb: seq<nat>, pa: seq<string>, x: string, pb: seq<string>)
    requires |ta| == |pa| == |a| && |tb| == |b| == |pb|
    ensures Scan(a + [c] + b, ta + [0] + tb, pa + [x] + pb, |a|) == [c] + Scan(b, tb, pb, 0)
  {
    var s, t, p := a + [c] + b, ta + [0] + tb, pa + [x] + pb;
    assert s[|a|] == c && t[|a|] == 0;
    ScanKeepStep(s, t, p, |a|);
    ScanSuffix(a + [c], ta + [0], pa + [x], b, tb, pb, 0);
  }

  /** Scanning two tables joined around a 0 scans each part and keeps the character between them. */
  lemma ScanJoin(a: string, c: char, b: string, ta: seq<nat>, tb: seq<nat>, pa: seq<string>, x: string, pb: seq<string>)
    requires IsTable(a, ta) && |pa| == |a| && |tb| == |b| == |pb|
    ensures Scan(a + [c] + b, ta + [0] + tb, pa + [x] + pb, 0) == Scan(a, ta, pa, 0) + [c] + Scan(b, tb, pb, 0)
  {
    ScanPrefix(a, c, b, ta, tb, pa, x, pb, 0);
    ScanJoinCut(a, c, b, ta, tb, pa, x, pb);
    Assoc(Scan(a, ta, pa, 0), [c], Scan(b, tb, pb, 0));
  }

  lemma RepeatJoin<T>(x: T, m: nat, n: nat)
    ensures Repeat(x, m + 1 + n) == Repeat(x, m) + [x] + Repeat(x, n)
  {
  }

  /** Without `$` in the replacement, `ReplaceFirst` inserts it as it is. */
  lemma ReplaceFirstPlain(s: string, re: Regex, repl: string)
    requires WellFormed(re) && '$' !in repl
    ensures ReplaceFirst(s, re, repl) == SpliceFirst(s, MatchTable(s, re), Repeat(repl, |s|))
  {
    PlainPieces(s, MatchTable(s, re), repl);
  }

  /** Without `$` in the replacement, `ReplaceAll` inserts it as it is. */
  lemma ReplaceAllPlain(s: string, re: Regex, repl: string)
    requires WellFormed(re) && '$' !in repl
    ensures ReplaceAll(s, re, repl) == Scan(s, MatchTable(s, re), Repeat(repl, |s|), 0)
  {
    PlainPieces(s, MatchTable(s, re), repl);
  }

  /**
   * Replacing the first match in a string cut at a non-word character replaces
   * it in the first part that has a match.
   */
  lemma ReplaceFirstJoin(a: string, c: char, b: string, re: Regex, repl: string)
    requires WordLits(re) && !IsWordChar(c) && '$' !in repl
    ensures WellFormed(re)
    ensures ReplaceFirst(a + [c] + b, re, repl)
         == if NoMatchIn(a, re) then a + [c] + ReplaceFirst(b, re, repl) else ReplaceFirst(a, re, repl) + [c] + b
  {
    var s := a + [c] + b;
    var ta, tb := MatchTable(a, re), MatchTable(b, re);
    var pa, pb := Repeat(repl, |a|), Repeat(repl, |b|);
    assert ReplaceFirst(s, re, repl) == SpliceFirst(s, ta + [0] + tb, pa + [repl] + pb) by {
      ReplaceFirstPlain(s, re, repl);
      MatchTableJoin(a, c, b, re);
      RepeatJoin(repl, |a|, |b|);
    }
    ReplaceFirstPlain(a, re, repl);
    ReplaceFirstPlain(b, re, repl);
    assert NoMatchIn(a, re) <==> First(ta, 0) == |a| by {
      NoMatchTable(a, re);
      if First(ta, 0) == |a| {
        FirstIsEarliest(ta, 0, |a|);
      }
    }
    SpliceFirstJoin(a, c, b, ta, tb, pa, repl, pb);
  }

  /** Replacing every match in a string cut at a non-word character replaces them in both parts. */
  lemma ReplaceAllJoin(a: string, c: char, b: string, re: Regex, repl: string)
    requires WordLits(re) && !IsWordChar(c) && '$' !in repl
    ensures WellFormed(re)
    ensures ReplaceAll(a + [c] + b, re, repl) == ReplaceAll(a, re, repl) + [c] + ReplaceAll(b, re, repl)
  {
    var s := a + [c] + b;
    var ta, tb := MatchTable(a, re), MatchTable(b, re);
    var pa, pb := Repeat(repl, |a|), Repeat(repl, |b|);
    assert ReplaceAll(s, re, repl) == Scan(s, ta + [0] + tb, pa + [repl] + pb, 0) by {
      ReplaceAllPlain(s, re, repl);
      MatchTableJoin(a, c, b, re);
      RepeatJoin(repl, |a|, |b|);
    }
    ReplaceAllPlain(a, re, repl);
    ReplaceAllPlain(b, re, repl);
    ScanJoin(a, c, b, ta, tb, pa, repl, pb);
  }

  // ---------------------------------------------------------------------
  // One word: a string made of word characters only.
  // ---------------------------------------------------------------------

  /** Inside a word, `\b` holds at its two ends only. */
  lemma BoundaryInWord(w: string, j: nat)
    requires AllWord(w) && j <= |w|
    ensures Boundary(w, j) <==> |w| > 0 && (j == 0 || j == |w|)
  {
    if 0 < j < |w| { assert IsWordChar(w[j - 1]) && IsWordChar(w[j]); }
    if |w| > 0 && j == 0 { assert IsWordChar(w[0]); }
    if |w| > 0 && j == |w| { assert IsWordChar(w[j - 1]); }
  }

  /** The literal occupies the whole of `w`. */
  predicate WordEq(w: string, lit: string, ignoreCase: bool) {
    |w| == |lit| && LitAt(w, 0, lit, ignoreCase)
  }

  lemma WordEqCaseSensitive(w: string, lit: string)
    ensures WordEq(w, lit, false) <==> w == lit
  {
    if |w| == |lit| {
      assert w[0..|lit|] == w;
    }
  }

  /** In a word, `\blit\b` matches only at the start, and only when the literal is the whole word. */
  lemma WholeWordMatchInWord(w: string, j: nat, re: Regex)
    requires AllWord(w) && IsWholeWord(re) && j <= |w|
    ensures Matches(w, j, re) <==> j == 0 && WordEq(w, re.alts[0].lit, re.ignoreCase)
  {
    var br := re.alts[0];
    BoundaryInWord(w, j);
    if LitAt(w, j, br.lit, re.ignoreCase) {
      BoundaryInWord(w, j + |br.lit|);
    }
    assert Matches(w, j, re) <==> BranchAt(w, j, br, re.ignoreCase);
  }

  /** On a word, replacing `\blit\b` swaps the whole word for the replacement or leaves it. */
  lemma WholeWordReplaceInWord(w: string, re: Regex, repl: string)
    requires AllWord(w) && IsWholeWord(re) && '$' !in repl
    ensures WellFormed(re)
    ensures ReplaceFirst(w, re, repl) == if WordEq(w, re.alts[0].lit, re.ignoreCase) then repl else w
    ensures ReplaceAll(w, re, repl) == if WordEq(w, re.alts[0].lit, re.ignoreCase) then repl else w
  {
    var lit := re.alts[0].lit;
    forall j | 0 <= j <= |w| ensures Matches(w, j, re) <==> j == 0 && WordEq(w, lit, re.ignoreCase) {
      WholeWordMatchInWord(w, j, re);
    }
    if WordEq(w, lit, re.ignoreCase) {
      var t := MatchTable(w, re);
      var p := Pieces(w, t, repl);
      PlainPieces(w, t, repl);
      assert Leftmost(w, re, 0);
      assert t[0] == |w| && p[0] == repl;
      FirstIsEarliest(t, 0, 0);
      assert w[..0] == "" && w[|w|..] == "";
      assert Scan(w, t, p, 0) == repl + Scan(w, t, p, |w|);
    } else {
      assert NoMatchIn(w, re);
    }
  }

  /** A string none of whose characters can start any literal has no match. */
  lemma NoMatchWithoutFirstChar(s: string, re: Regex)
    requires WellFormed(re)
    requires forall i, k :: 0 <= i < |s| && 0 <= k < |re.alts| ==> !SameChar(s[i], re.alts[k].lit[0], re.ignoreCase)
    ensures NoMatchIn(s, re)
  {
    forall j, k | 0 <= j <= |s| && 0 <= k < |re.alts| ensures !BranchAt(s, j, re.alts[k], re.ignoreCase) {
      if j < |s| && LitAt(s, j, re.alts[k].lit, re.ignoreCase) {
        LitAtChar(s, j, re.alts[k].lit, re.ignoreCase, 0);
        assert false;
      }
    }
  }
}
