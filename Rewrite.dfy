// The substitution loop of _object_rewrite: search from the cursor, expand
// the template, splice the expansion over the match in place (memmove of
// the tail, memcpy of the expansion), re-terminate, and move the cursor just
// past the inserted text.

module Rewrite {
  import opened Regex
  import opened Buffer
  import opened Template

  /** `s` with the bytes [a, b) replaced by `r`. */
  ghost function Spliced(s: seq<char>, a: nat, b: nat, r: seq<char>): seq<char>
    requires a <= b <= |s|
  {
    s[..a] + r + s[b..]
  }

  /** The match the loop acts on when the cursor is at `pos`. */
  ghost function MatchAt(s: seq<char>, pos: nat, re: Matcher): RegMatch
    requires pos <= |s|
  {
    re(s[pos..])
  }

  /** The text after one pass of the loop body, for a match `m` at cursor `pos`. */
  ghost function StepText(s: seq<char>, pos: nat, m: seq<Span>, t: seq<char>): seq<char>
    requires pos <= |s| && WellFormed(m, |s| - pos)
  {
    Spliced(s, pos + m[0].so, pos + m[0].eo, Expand(t, m, s[pos..]))
  }

  /** The cursor after one pass: `(buf_pos + rm_eo) + diff`. */
  ghost function StepCursor(s: seq<char>, pos: nat, m: seq<Span>, t: seq<char>): nat
    requires pos <= |s| && WellFormed(m, |s| - pos)
  {
    pos + m[0].eo + (|Expand(t, m, s[pos..])| - (m[0].eo - m[0].so))
  }

  /** One pass of the loop body changes the text exactly at the match, moves
      the cursor just past the replacement, leaves the unsearched text after
      the cursor exactly as it was after the match, and shrinks the distance
      from the cursor to the end of the text by exactly `rm_eo`. */
  lemma StepFacts(s: seq<char>, pos: nat, m: seq<Span>, t: seq<char>)
    requires pos <= |s| && WellFormed(m, |s| - pos)
    ensures var s', pos' := StepText(s, pos, m, t), StepCursor(s, pos, m, t);
      && pos' == pos + m[0].so + |Expand(t, m, s[pos..])|
      && pos' <= |s'|
      && s'[..pos + m[0].so] == s[..pos + m[0].so]
      && s'[pos + m[0].so..pos'] == Expand(t, m, s[pos..])
      && s'[pos'..] == s[pos + m[0].eo..]
      && |s'| - pos' == |s| - pos - m[0].eo
  {
  }

  /** The same pass, for a text split at the cursor into `p` and the searched
      window `w`: the text before the new cursor is `p`, the part of `w`
      before the match, and the replacement; after it comes the part of `w`
      after the match. */
  lemma StepLayout(p: seq<char>, w: seq<char>, m: seq<Span>, t: seq<char>)
    requires WellFormed(m, |w|)
    ensures var p' := p + w[..m[0].so] + Expand(t, m, w);
      && StepText(p + w, |p|, m, t) == p' + w[m[0].eo..]
      && StepCursor(p + w, |p|, m, t) == |p'|
  {
  }

  /** A match that ends at the cursor (rm_eo == 0) leaves the searched window
      as it was, so the next search returns the same match again: without
      Advances, the loop of the source never ends. */
  lemma EmptyEndRepeats(s: seq<char>, pos: nat, re: Matcher, t: seq<char>)
    requires pos <= |s| && Sound(re)
    requires re(s[pos..]).Matched? && re(s[pos..]).slots[0].eo == 0
    ensures var m := re(s[pos..]).slots;
      && StepCursor(s, pos, m, t) <= |StepText(s, pos, m, t)|
      && MatchAt(StepText(s, pos, m, t), StepCursor(s, pos, m, t), re) == re(s[pos..])
  {
  }

  /** The text the loop leaves when it starts at cursor `pos` in text `s`. */
  ghost function RewriteFrom(s: seq<char>, pos: nat, re: Matcher, t: seq<char>): seq<char>
    requires pos <= |s| && Sound(re) && Advances(re)
    decreases |s| - pos
  {
    match re(s[pos..])
    case NoMatch => s
    case Matched(m) =>
      StepFacts(s, pos, m, t);
      RewriteFrom(StepText(s, pos, m, t), StepCursor(s, pos, m, t), re, t)
  }

  /** Reference semantics that never looks at replaced text: search the
      original text, replace the match, and continue on the original text
      after it. */
  ghost function Substituted(w: seq<char>, re: Matcher, t: seq<char>): seq<char>
    requires Sound(re) && Advances(re)
    decreases |w|
  {
    match re(w)
    case NoMatch => w
    case Matched(m) => w[..m[0].so] + Expand(t, m, w) + Substituted(w[m[0].eo..], re, t)
  }

  /** RewriteFrom, one pass unfolded. */
  lemma RewriteFromStep(s: seq<char>, pos: nat, re: Matcher, t: seq<char>)
    requires pos <= |s| && Sound(re) && Advances(re) && re(s[pos..]).Matched?
    ensures var m := re(s[pos..]).slots;
      && StepCursor(s, pos, m, t) <= |StepText(s, pos, m, t)|
      && |StepText(s, pos, m, t)| - StepCursor(s, pos, m, t) < |s| - pos
      && RewriteFrom(s, pos, re, t) == RewriteFrom(StepText(s, pos, m, t), StepCursor(s, pos, m, t), re, t)
  {
  }

  /** One pass of RewriteFrom and one match of Substituted, unfolded side by
      side for a text split at the cursor into `p` and the window `w`: both
      continue with the new prefix `p'` (old prefix, text before the match,
      replacement) and the rest of the window after the match. */
  lemma UnfoldBoth(p: seq<char>, w: seq<char>, re: Matcher, t: seq<char>) returns (p': seq<char>, rest: seq<char>)
    requires Sound(re) && Advances(re) && re(w).Matched?
    ensures |rest| < |w|
    ensures RewriteFrom(p + w, |p|, re, t) == RewriteFrom(p' + rest, |p'|, re, t)
    ensures p + Substituted(w, re, t) == p' + Substituted(rest, re, t)
  {
    var m := re(w).slots;
    var head, r := w[..m[0].so], Expand(t, m, w);
    p', rest := p + head + r, w[m[0].eo..];
    UnfoldRewriteFrom(p, w, re, t);
    UnfoldSubstituted(p, w, re, t);
  }

  lemma UnfoldRewriteFrom(p: seq<char>, w: seq<char>, re: Matcher, t: seq<char>)
    requires Sound(re) && Advances(re) && re(w).Matched?
    ensures var m := re(w).slots;
      var p' := p + w[..m[0].so] + Expand(t, m, w);
      RewriteFrom(p + w, |p|, re, t) == RewriteFrom(p' + w[m[0].eo..], |p'|, re, t)
  {
    assert (p + w)[|p|..] == w;
    StepLayout(p, w, re(w).slots, t);
  }

  lemma UnfoldSubstituted(p: seq<char>, w: seq<char>, re: Matcher, t: seq<char>)
    requires Sound(re) && Advances(re) && re(w).Matched?
    ensures var m := re(w).slots;
      var head, r, rest := w[..m[0].so], Expand(t, m, w), w[m[0].eo..];
      p + Substituted(w, re, t) == (p + head + r) + Substituted(rest, re, t)
  {
    var m := re(w).slots;
    var head, r, rest := w[..m[0].so], Expand(t, m, w), w[m[0].eo..];
    assert p + (head + r + Substituted(rest, re, t)) == (p + head + r) + Substituted(rest, re, t);
  }

  /** With no match in the window, neither RewriteFrom nor Substituted changes anything. */
  lemma UnfoldNoMatch(p: seq<char>, w: seq<char>, re: Matcher, t: seq<char>)
    requires Sound(re) && Advances(re) && re(w).NoMatch?
    ensures RewriteFrom(p + w, |p|, re, t) == p + Substituted(w, re, t)
  {
  }

  /** The in-place loop computes the reference semantics on the text after the
      cursor and keeps the text before it: inserted text is never searched
      again. */
  lemma {:induction false} RewriteAfterCursor(p: seq<char>, w: seq<char>, re: Matcher, t: seq<char>)
    requires Sound(re) && Advances(re)
    ensures RewriteFrom(p + w, |p|, re, t) == p + Substituted(w, re, t)
    decreases |w|
  {
    if re(w).NoMatch? {
      UnfoldNoMatch(p, w, re, t);
    } else {
      var p', rest := UnfoldBoth(p, w, re, t);
      RewriteAfterCursor(p', rest, re, t);
    }
  }

  /** Corollary: the whole rewrite, started at cursor 0. */
  lemma RewriteIsSubstituted(s: seq<char>, re: Matcher, t: seq<char>)
    requires Sound(re) && Advances(re)
    ensures RewriteFrom(s, 0, re, t) == Substituted(s, re, t)
  {
    RewriteAfterCursor([], s, re, t);
    assert [] + s == s;
  }

  /** Text before the cursor is final: later passes never change it. */
  lemma RewriteFromKeepsPrefix(s: seq<char>, pos: nat, re: Matcher, t: seq<char>)
    requires pos <= |s| && Sound(re) && Advances(re)
    ensures pos <= |RewriteFrom(s, pos, re, t)|
    ensures RewriteFrom(s, pos, re, t)[..pos] == s[..pos]
  {
    var p, w := s[..pos], s[pos..];
    assert s == p + w && |p| == pos;
    RewriteAfterCursor(p, w, re, t);
    assert (p + Substituted(w, re, t))[..pos] == p;
  }

  /** Text without a match is left exactly as it was. */
  lemma NoMatchUnchanged(w: seq<char>, re: Matcher, t: seq<char>)
    requires Sound(re) && Advances(re) && re(w).NoMatch?
    ensures Substituted(w, re, t) == w
  {
  }

  /** `p` with the bytes from `at` on overwritten by `x`. */
  ghost function Overwrite(p: seq<char>, at: nat, x: seq<char>): seq<char>
    requires at + |x| <= |p|
  {
    p[..at] + x + p[at + |x|..]
  }

  /** memmove(ptr + dst, ptr + src, n): every byte is read before any is
      written, so overlapping ranges are handled. */
  method MoveBytes(ptr: array<char>, dst: nat, src: nat, n: nat)
    requires dst + n <= ptr.Length && src + n <= ptr.Length
    modifies ptr
    ensures ptr[..] == Overwrite(old(ptr[..]), dst, old(ptr[..])[src..src + n])
  {
    forall i | 0 <= i < n {
      ptr[dst + i] := ptr[src + i];
    }
    ghost var x := old(ptr[..])[src..src + n];
    forall k | 0 <= k < ptr.Length
      ensures ptr[k] == Overwrite(old(ptr[..]), dst, x)[k]
    {
      if dst <= k < dst + n {
        assert ptr[dst + (k - dst)] == x[k - dst];
      }
    }
    assert ptr[..] == Overwrite(old(ptr[..]), dst, x);
  }

  /** memcpy(ptr + dst, from, n) between distinct blocks. */
  method CopyBytes(ptr: array<char>, dst: nat, from: array<char>, n: nat)
    requires dst + n <= ptr.Length && n <= from.Length && ptr != from
    modifies ptr
    ensures ptr[..] == Overwrite(old(ptr[..]), dst, from[..n])
  {
    forall i | 0 <= i < n {
      ptr[dst + i] := from[i];
    }
    forall k | 0 <= k < ptr.Length
      ensures ptr[k] == Overwrite(old(ptr[..]), dst, from[..n])[k]
    {
      if dst <= k < dst + n {
        assert ptr[dst + (k - dst)] == from[k - dst];
      }
    }
    assert ptr[..] == Overwrite(old(ptr[..]), dst, from[..n]);
  }

  /** Moving the tail [b, len) to a + |r| and then writing r at a leaves, in
      the first len + |r| - (b - a) bytes, the splice of r over [a, b). */
  lemma SpliceByOverwrites(p0: seq<char>, a: nat, b: nat, len: nat, r: seq<char>)
    requires a <= b <= len <= |p0| && a + |r| + (len - b) <= |p0|
    ensures var p1 := Overwrite(p0, a + |r|, p0[b..len]);
      var p2 := Overwrite(p1, a, r);
      p2[..a + |r| + (len - b)] == Spliced(p0[..len], a, b, r)
  {
  }

  /** memmove of the bytes [b, len) of `ptr` to a + rlen, then memcpy of the
      first `rlen` bytes of `from` to a. */
  method SpliceInBlock(ptr: array<char>, len: nat, a: nat, b: nat, from: array<char>, rlen: nat)
    requires a <= b <= len <= ptr.Length && a + rlen + (len - b) <= ptr.Length
    requires rlen <= from.Length && ptr != from
    modifies ptr
    ensures ptr[..][..a + rlen + (len - b)] == Spliced(old(ptr[..])[..len], a, b, from[..rlen])
  {
    ghost var p0 := ptr[..];
    MoveBytes(ptr, a + rlen, b, len - b);
    assert b + (len - b) == len;
    ghost var p1 := ptr[..];
    assert p1 == Overwrite(p0, a + rlen, p0[b..len]);
    CopyBytes(ptr, a, from, rlen);
    ghost var r := from[..rlen];
    assert ptr[..] == Overwrite(p1, a, r);
    SpliceByOverwrites(p0, a, b, len, r);
  }

  /** The splice of _object_rewrite: BUF_RESERVE(buf, diff), memmove of the
      bytes after the match to their new place, memcpy of the replacement
      over the match, and `len += diff`. */
  method SpliceReplacement(buf: Buf, a: nat, b: nat, rep: Buf)
    requires buf.Valid() && rep.Valid() && buf != rep && buf.ptr != rep.ptr
    requires a <= b <= buf.len
    modifies buf, buf.ptr
    ensures buf.Valid() && buf.len < buf.size
    ensures buf.Contents() == Spliced(old(buf.Contents()), a, b, rep.Contents())
    ensures buf.ptr == old(buf.ptr) || fresh(buf.ptr)
  {
    var diff := rep.len - (b - a);
    buf.Reserve(diff);
    ghost var s := buf.Contents();
    assert s == buf.ptr[..][..buf.len];
    SpliceInBlock(buf.ptr, buf.len, a, b, rep.ptr, rep.len);
    buf.len := buf.len + diff;
    assert buf.Contents() == buf.ptr[..][..buf.len];
  }

  /** One pass of the loop body for match `m` at cursor `pos`: expand the
      template into the scratch buffer, splice it in, re-terminate, and
      return the new cursor. */
  method Step(buf: Buf, rep: Buf, pos: nat, m: seq<Span>, t: seq<char>) returns (next: nat)
    requires buf.Valid() && rep.Valid() && buf != rep && buf.ptr != rep.ptr
    requires pos <= buf.len && WellFormed(m, buf.len - pos)
    modifies buf, buf.ptr, rep, rep.ptr
    ensures buf.Valid() && buf.Terminated() && rep.Valid() && buf.ptr != rep.ptr
    ensures buf.ptr == old(buf.ptr) || fresh(buf.ptr)
    ensures rep.ptr == old(rep.ptr) || fresh(rep.ptr)
    ensures buf.Contents() == StepText(old(buf.Contents()), pos, m, t)
    ensures next == StepCursor(old(buf.Contents()), pos, m, t) && next <= buf.len
  {
    ghost var s := buf.Contents();
    StepFacts(s, pos, m, t);
    ExpandInto(rep, t, m, buf, pos);
    ghost var r := rep.Contents();
    assert buf.Contents() == s;
    assert r == Expand(t, m, s[pos..]);
    var a, b := pos + m[0].so, pos + m[0].eo;
    assert StepText(s, pos, m, t) == Spliced(s, a, b, r);
    SpliceReplacement(buf, a, b, rep);
    assert rep.Contents() == r;
    buf.Terminate();
    next := (pos + m[0].eo) + (rep.len - (m[0].eo - m[0].so));
  }

  /** _object_rewrite: returns whether at least one substitution took place.
      The buffer ends holding RewriteFrom of its old contents, still
      NUL-terminated; with no match it is left byte for byte as it was. */
  method RewriteObject(buf: Buf, re: Matcher, t: seq<char>) returns (rewrote: bool)
    requires buf.Valid() && buf.Terminated() && Sound(re) && Advances(re)
    modifies buf, buf.ptr
    ensures buf.Valid() && buf.Terminated()
    ensures buf.Contents() == RewriteFrom(old(buf.Contents()), 0, re, t)
    ensures rewrote <==> re(old(buf.Contents())).Matched?
    ensures !rewrote ==> buf.ptr == old(buf.ptr) && buf.len == old(buf.len) && buf.size == old(buf.size)
    ensures !rewrote ==> buf.ptr[..] == old(buf.ptr[..])
  {
    ghost var s0 := buf.Contents();
    rewrote := false;
    var rep := new Buf(1024);
    var pos := 0;
    assert buf.ptr[pos..buf.len] == s0[0..];
    var found := re(buf.ptr[pos..buf.len]);
    while found.Matched?
      invariant buf.Valid() && buf.Terminated() && rep.Valid()
      invariant fresh(rep) && fresh(rep.ptr) && buf.ptr != rep.ptr
      invariant buf.ptr == old(buf.ptr) || fresh(buf.ptr)
      invariant pos <= buf.len
      invariant found == re(buf.Contents()[pos..])
      invariant RewriteFrom(buf.Contents(), pos, re, t) == RewriteFrom(s0, 0, re, t)
      invariant rewrote ==> re(s0).Matched?
      invariant !rewrote ==> pos == 0 && found == re(s0) && buf.ptr == old(buf.ptr)
      invariant !rewrote ==> buf.len == old(buf.len) && buf.size == old(buf.size)
      invariant !rewrote ==> buf.ptr[..] == old(buf.ptr[..])
      decreases buf.len - pos
    {
      ghost var s := buf.Contents();
      MatchWellFormed(re, s[pos..]);
      assert |s[pos..]| == buf.len - pos;
      RewriteFromStep(s, pos, re, t);
      pos := Step(buf, rep, pos, found.slots, t);
      rewrote := true;
      assert buf.ptr[pos..buf.len] == buf.Contents()[pos..];
      found := re(buf.ptr[pos..buf.len]);
    }
  }
}
