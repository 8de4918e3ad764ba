/**
 * A chain of `String.prototype.replace` calls, `s.replace(re0, v0).replace(re1, v1)...`:
 * each call works on what the one before it left.
 */
module ReplaceChain {
  import opened WordRegex

  /** One `.replace(re, value)` call of the chain. */
  datatype Step = Step(re: Regex, value: string)

  predicate WellFormedSteps(steps: seq<Step>) {
    forall j :: 0 <= j < |steps| ==> WellFormed(steps[j].re)
  }

  /** Steps `k` to the last applied to `s` in order. */
  function Apply(s: string, steps: seq<Step>, k: nat): (r: string)
    requires WellFormedSteps(steps) && k <= |steps|
    ensures (forall j :: k <= j < |steps| ==> NoMatchIn(s, steps[j].re)) ==> r == s
    decreases |steps| - k
  {
    if k == |steps| then s else Apply(Replace(s, steps[k].re, steps[k].value), steps, k + 1)
  }

  /** No regex of steps `lo` up to `hi` matches anywhere in `s`. */
  predicate NoneMatch(s: string, steps: seq<Step>, lo: nat, hi: nat)
    requires lo <= hi <= |steps|
    decreases hi - lo
  {
    lo == hi || (NoMatchIn(s, steps[lo].re) && NoneMatch(s, steps, lo + 1, hi))
  }

  lemma {:induction false} NoneMatchAll(s: string, steps: seq<Step>, lo: nat, hi: nat)
    requires lo <= hi <= |steps|
    requires forall j :: lo <= j < hi ==> NoMatchIn(s, steps[j].re)
    ensures NoneMatch(s, steps, lo, hi)
    decreases hi - lo
  {
    if lo < hi {
      NoneMatchAll(s, steps, lo + 1, hi);
    }
  }

  /** The first step works on the string itself. */
  lemma ApplyFirst(s: string, steps: seq<Step>)
    requires WellFormedSteps(steps) && |steps| > 0
    ensures Apply(s, steps, 0) == Apply(Replace(s, steps[0].re, steps[0].value), steps, 1)
  {
  }

  /** Steps whose regex matches nowhere in the string can be stepped over. */
  lemma {:induction false} ApplySkip(s: string, steps: seq<Step>, lo: nat, hi: nat)
    requires WellFormedSteps(steps) && lo <= hi <= |steps|
    requires NoneMatch(s, steps, lo, hi)
    ensures Apply(s, steps, lo) == Apply(s, steps, hi)
    decreases hi - lo
  {
    if lo < hi {
      ApplySkip(s, steps, lo + 1, hi);
      ApplyUnchanged(s, steps, lo);
    }
  }

  lemma ApplyUnchanged(s: string, steps: seq<Step>, k: nat)
    requires WellFormedSteps(steps) && k < |steps| && NoMatchIn(s, steps[k].re)
    ensures Apply(s, steps, k) == Apply(s, steps, k + 1)
  {
    assert Replace(s, steps[k].re, steps[k].value) == s;
  }

  /**
   * When only step `k` finds a match, in the string or in what it leaves,
   * the chain does what that one call does.
   */
  lemma ApplyOnly(s: string, steps: seq<Step>, k: nat)
    requires WellFormedSteps(steps) && k < |steps|
    requires forall j :: 0 <= j < k ==> NoMatchIn(s, steps[j].re)
    requires forall j :: k < j < |steps| ==> NoMatchIn(Replace(s, steps[k].re, steps[k].value), steps[j].re)
    ensures Apply(s, steps, 0) == Replace(s, steps[k].re, steps[k].value)
  {
    NoneMatchAll(s, steps, 0, k);
    ApplySkip(s, steps, 0, k);
  }
}
