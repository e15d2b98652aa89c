// Worked instances of the substitution semantics: a pattern matching one
// literal byte, the classic "double every a" rewrite that would never end if
// inserted text were rescanned, and a date reordered through backreferences.

module Examples {
  import opened Regex
  import opened Template
  import opened Rewrite

  /** Index of the first `c` in `w`, or |w| when there is none. */
  function FirstIndex(w: seq<char>, c: char): (i: nat)
    ensures i <= |w|
    ensures i < |w| ==> w[i] == c
    ensures forall j :: 0 <= j < i ==> w[j] != c
  {
    if w == [] then 0 else if w[0] == c then 0 else 1 + FirstIndex(w[1..], c)
  }

  /** The slots regexec reports for a one-byte match at `i`: groups 1 to 9 absent. */
  function OneByteSlots(i: nat): (m: seq<Span>)
    ensures |m| == Slots && m[0] == Span(i, i + 1)
    ensures forall k :: 1 <= k < |m| ==> m[k] == Span(-1, -1)
  {
    [Span(i, i + 1)] + seq(Slots - 1, _ => Span(-1, -1))
  }

  /** The compiled pattern for the single literal byte `c`. */
  function CharMatcher(c: char): Matcher
  {
    (w: seq<char>) => var i := FirstIndex(w, c); if i < |w| then Matched(OneByteSlots(i)) else NoMatch
  }

  /** A literal-byte pattern meets the regexec contract and always advances. */
  lemma CharMatcherBehaves(c: char)
    ensures Sound(CharMatcher(c)) && Advances(CharMatcher(c))
  {
  }

  /** `n` copies of `c`. */
  function Repeat(c: char, n: nat): (r: seq<char>)
    ensures |r| == n && forall i :: 0 <= i < n ==> r[i] == c
  {
    seq(n, _ => c)
  }

  lemma RepeatTwoMore(c: char, n: nat)
    ensures [c, c] + Repeat(c, n) == Repeat(c, n + 2)
  {
  }

  /** Replacing every "a" by "aa" in a run of n a's doubles each byte once
      and stops: the cursor moves past what was inserted, so the inserted
      "a"s are never matched again. */
  lemma {:induction false} DoubleEveryA(n: nat)
    ensures Sound(CharMatcher('a')) && Advances(CharMatcher('a'))
    ensures Substituted(Repeat('a', n), CharMatcher('a'), "aa") == Repeat('a', 2 * n)
  {
    CharMatcherBehaves('a');
    var re := CharMatcher('a');
    var w := Repeat('a', n);
    if n == 0 {
      assert re(w) == NoMatch;
    } else {
      assert FirstIndex(w, 'a') == 0;
      assert re(w) == Matched(OneByteSlots(0));
      DoubleEveryA(n - 1);
      DoubleFirstA(re, n);
    }
  }

  /** One match of DoubleEveryA: the leading "a" becomes "aa" and the search
      resumes on the original text after it. */
  lemma DoubleFirstA(re: Matcher, n: nat)
    requires Sound(re) && Advances(re) && n > 0
    requires re(Repeat('a', n)) == Matched(OneByteSlots(0))
    requires Substituted(Repeat('a', n - 1), re, "aa") == Repeat('a', 2 * (n - 1))
    ensures Substituted(Repeat('a', n), re, "aa") == Repeat('a', 2 * n)
  {
    var w, m := Repeat('a', n), OneByteSlots(0);
    assert Plain("aa");
    ExpandPlain("aa", m, w);
    assert w[1..] == Repeat('a', n - 1);
    assert w[..0] == [];
    RepeatTwoMore('a', 2 * (n - 1));
  }

  /** "\2\1" swaps two groups: against a match of (.)(.) over "ab" it
      yields "ba". */
  lemma SwapGroups()
    ensures var m := [Span(0, 2), Span(0, 1), Span(1, 2)] + seq(7, _ => Span(-1, -1));
            WellFormed(m, 2) && Expand("\\2\\1", m, "ab") == "ba"
  {
    var m := [Span(0, 2), Span(0, 1), Span(1, 2)] + seq(7, _ => Span(-1, -1));
    assert forall k :: 3 <= k < |m| ==> m[k] == Span(-1, -1);
    var w := "ab";
    assert Plain([]);
    ExpandBackref([], '1', [], m, w);
    ExpandBackref([], '2', ['\\', '1'], m, w);
    assert [] + ['\\', '1'] + [] == ['\\', '1'];
    assert [] + ['\\', '2'] + ['\\', '1'] == "\\2\\1";
  }

  /** A reference to a group that did not take part ends the expansion:
      "x\1y" with group 1 absent yields only "x". */
  lemma AbsentGroupStops()
    ensures var m := [Span(0, 1)] + seq(9, _ => Span(-1, -1));
            WellFormed(m, 1) && Expand("x\\1y", m, "q") == "x"
  {
  }
}
