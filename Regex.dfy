// The POSIX matcher `regexec` as _object_rewrite uses it: it is given the
// bytes from the cursor to the end of the buffer and fills ten `regmatch_t`
// slots (the whole match and groups 1 to 9). The matching engine itself is
// foreign code, so a compiled pattern is a function value constrained only
// by the contract below.

module Regex {

  /** One `regmatch_t`: byte offsets relative to the start of the searched
      window; `so < 0` marks a group that did not take part in the match. */
  datatype Span = Span(so: int, eo: int)
  {
    predicate Present() { so >= 0 }
  }

  /** The outcome of one `regexec` call (return value 0 or REG_NOMATCH). */
  datatype RegMatch = NoMatch | Matched(slots: seq<Span>)

  /** A compiled pattern, as seen through `regexec`. */
  type Matcher = seq<char> -> RegMatch

  /** Number of slots requested: sizeof(pmatch) / sizeof(pmatch[0]). */
  const Slots: nat := 10

  /** What `regexec` promises about the slots of a match in a window of
      `n` bytes: slot 0 lies within the window, every group either lies
      within slot 0 or is absent with both offsets -1. */
  ghost predicate WellFormed(slots: seq<Span>, n: nat)
  {
    |slots| == Slots &&
    0 <= slots[0].so <= slots[0].eo <= n &&
    forall k :: 1 <= k < |slots| ==>
      (slots[k].so == -1 && slots[k].eo == -1) ||
      (slots[0].so <= slots[k].so <= slots[k].eo <= slots[0].eo)
  }

  /** Every match the pattern reports is well formed for the window searched. */
  ghost predicate Sound(re: Matcher)
  {
    forall w: seq<char> :: re(w).Matched? ==> WellFormed(re(w).slots, |w|)
  }

  /** Every match ends past the start of the window searched. The substitution
      loop makes progress only under this condition. */
  ghost predicate Advances(re: Matcher)
  {
    forall w: seq<char> :: re(w).Matched? ==> |re(w).slots| > 0 && re(w).slots[0].eo > 0
  }

  /** The slots of a reported match obey the contract. */
  lemma MatchWellFormed(re: Matcher, w: seq<char>)
    requires Sound(re) && re(w).Matched?
    ensures WellFormed(re(w).slots, |w|)
  {
  }
}
