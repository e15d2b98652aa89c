// Expansion of the replacement template of _object_rewrite: the template is
// a C string scanned byte by byte; `\` followed by a digit d inserts the
// bytes of capture d of the current match, and a reference to a group that
// did not take part in the match ends the expansion there.

module Template {
  import opened Regex
  import opened Buffer

  predicate IsDigit(c: char)
  {
    '0' <= c <= '9'
  }

  /** `*(pos + 1) - '0'` for a digit. */
  function DigitValue(c: char): (d: nat)
    requires IsDigit(c)
    ensures d < Slots
  {
    c as int - '0' as int
  }

  /** Whether the two bytes at the head of `t` form a backreference. */
  predicate IsBackref(t: seq<char>)
  {
    |t| > 1 && t[0] == '\\' && IsDigit(t[1])
  }

  /** The bytes captured by slot `g` in window `w`. */
  ghost function Capture(m: seq<Span>, w: seq<char>, g: nat): seq<char>
    requires WellFormed(m, |w|) && g < Slots && m[g].Present()
  {
    w[m[g].so..m[g].eo]
  }

  /** The replacement produced for template `t` by a match `m` found in window
      `w`. Scanning stops at the end of `t` or at a NUL byte, which ends a C
      string. */
  ghost function Expand(t: seq<char>, m: seq<Span>, w: seq<char>): seq<char>
    requires WellFormed(m, |w|)
  {
    if |t| == 0 || t[0] == '\0' then []
    else if IsBackref(t) then
      var g := DigitValue(t[1]);
      if !m[g].Present() then [] else Capture(m, w, g) + Expand(t[2..], m, w)
    else [t[0]] + Expand(t[1..], m, w)
  }

  /** A template fragment with no `\` and no NUL: every byte stands for itself. */
  predicate Plain(p: seq<char>)
  {
    forall i :: 0 <= i < |p| ==> p[i] != '\\' && p[i] != '\0'
  }

  /** A plain prefix is copied verbatim and the rest expands on its own. */
  lemma {:induction false} ExpandPlainPrefix(p: seq<char>, q: seq<char>, m: seq<Span>, w: seq<char>)
    requires WellFormed(m, |w|) && Plain(p)
    ensures Expand(p + q, m, w) == p + Expand(q, m, w)
  {
    if p != [] {
      assert (p + q)[0] == p[0];
      assert (p + q)[1..] == p[1..] + q;
      assert Plain(p[1..]) by {
        forall i | 0 <= i < |p[1..]| ensures p[1..][i] != '\\' && p[1..][i] != '\0' {
          assert p[1..][i] == p[i + 1];
        }
      }
      ExpandPlainPrefix(p[1..], q, m, w);
    } else {
      assert p + q == q;
    }
  }

  /** A template with no backreference and no NUL is its own expansion. */
  lemma ExpandPlain(p: seq<char>, m: seq<Span>, w: seq<char>)
    requires WellFormed(m, |w|) && Plain(p)
    ensures Expand(p, m, w) == p
  {
  }

  /** `\d` for a group that took part in the match inserts its capture. */
  lemma ExpandBackref(p: seq<char>, d: char, q: seq<char>, m: seq<Span>, w: seq<char>)
    requires WellFormed(m, |w|) && Plain(p) && IsDigit(d)
    requires m[DigitValue(d)].Present()
    ensures Expand(p + ['\\', d] + q, m, w) == p + Capture(m, w, DigitValue(d)) + Expand(q, m, w)
  {
    var r := ['\\', d] + q;
    assert p + ['\\', d] + q == p + r;
    ExpandPlainPrefix(p, r, m, w);
    assert r[2..] == q;
  }

  /** `\d` for a group that did not take part in the match drops the rest of
      the template: the expansion is exactly the text before the reference. */
  lemma ExpandAbsentTruncates(p: seq<char>, d: char, q: seq<char>, m: seq<Span>, w: seq<char>)
    requires WellFormed(m, |w|) && Plain(p) && IsDigit(d)
    requires !m[DigitValue(d)].Present()
    ensures Expand(p + ['\\', d] + q, m, w) == p
  {
    var r := ['\\', d] + q;
    assert p + ['\\', d] + q == p + r;
    ExpandPlainPrefix(p, r, m, w);
    assert p + [] == p;
  }

  /** A `\` that is not followed by a digit (or ends the template) is an
      ordinary byte. */
  lemma ExpandStrayBackslash(q: seq<char>, m: seq<Span>, w: seq<char>)
    requires WellFormed(m, |w|) && (q == [] || !IsDigit(q[0]))
    ensures Expand(['\\'] + q, m, w) == ['\\'] + Expand(q, m, w)
  {
  }

  /** The template read as a list of tokens: the lexical half of Expand. */
  datatype Token = Literal(c: char) | Backref(group: nat)

  function Tokens(t: seq<char>): (ts: seq<Token>)
    ensures forall i :: 0 <= i < |ts| && ts[i].Backref? ==> ts[i].group < Slots
  {
    if |t| == 0 || t[0] == '\0' then []
    else if IsBackref(t) then [Backref(DigitValue(t[1]))] + Tokens(t[2..])
    else [Literal(t[0])] + Tokens(t[1..])
  }

  /** Evaluation of a token list against one match: the semantic half. */
  ghost function Render(ts: seq<Token>, m: seq<Span>, w: seq<char>): seq<char>
    requires WellFormed(m, |w|)
    requires forall i :: 0 <= i < |ts| && ts[i].Backref? ==> ts[i].group < Slots
  {
    if ts == [] then []
    else match ts[0]
      case Literal(c) => [c] + Render(ts[1..], m, w)
      case Backref(g) => if !m[g].Present() then [] else Capture(m, w, g) + Render(ts[1..], m, w)
  }

  /** The one-pass scanner of the source equals tokenising the template once
      and evaluating the tokens per match. */
  lemma {:induction false} ExpandIsRender(t: seq<char>, m: seq<Span>, w: seq<char>)
    requires WellFormed(m, |w|)
    ensures Expand(t, m, w) == Render(Tokens(t), m, w)
  {
    if |t| == 0 || t[0] == '\0' {
    } else if IsBackref(t) {
      ExpandIsRender(t[2..], m, w);
      assert Tokens(t)[1..] == Tokens(t[2..]);
    } else {
      ExpandIsRender(t[1..], m, w);
      assert Tokens(t)[1..] == Tokens(t[1..]);
    }
  }

  /** One step of the scan: a backreference to a group that took part. */
  lemma ExpandBackrefStep(u: seq<char>, m: seq<Span>, w: seq<char>, acc: seq<char>, t: seq<char>)
    requires WellFormed(m, |w|) && IsBackref(u) && m[DigitValue(u[1])].Present()
    requires acc + Expand(u, m, w) == Expand(t, m, w)
    ensures (acc + Capture(m, w, DigitValue(u[1]))) + Expand(u[2..], m, w) == Expand(t, m, w)
  {
  }

  /** One step of the scan: a byte that stands for itself. */
  lemma ExpandLiteralStep(u: seq<char>, m: seq<Span>, w: seq<char>, acc: seq<char>, t: seq<char>)
    requires WellFormed(m, |w|) && |u| > 0 && u[0] != '\0' && !IsBackref(u)
    requires acc + Expand(u, m, w) == Expand(t, m, w)
    ensures (acc + [u[0]]) + Expand(u[1..], m, w) == Expand(t, m, w)
  {
  }

  /** The `for (pos = str_replace; *pos; pos++)` loop of _object_rewrite: the
      scratch buffer is emptied (its capacity is kept) and receives the
      expansion of `t` for match `m`, found at cursor `pos` of `buf`. */
  method ExpandInto(rep: Buf, t: seq<char>, m: seq<Span>, buf: Buf, pos: nat)
    requires rep.Valid() && buf.Valid() && rep != buf && rep.ptr != buf.ptr
    requires pos <= buf.len && WellFormed(m, buf.len - pos)
    modifies rep, rep.ptr
    ensures rep.Valid() && rep.Contents() == Expand(t, m, buf.Contents()[pos..])
    ensures rep.ptr == old(rep.ptr) || fresh(rep.ptr)
  {
    // `buf->ptr + buf_pos`: buf is not written while the template is expanded.
    var w := buf.ptr[pos..buf.len];
    assert w == buf.Contents()[pos..];
    rep.len := 0;
    var i := 0;
    assert t[i..] == t;
    while i < |t| && t[i] != '\0'
      invariant 0 <= i <= |t|
      invariant rep.Valid() && rep.ptr != buf.ptr
      invariant rep.ptr == old(rep.ptr) || fresh(rep.ptr)
      invariant rep.Contents() + Expand(t[i..], m, w) == Expand(t, m, w)
      decreases |t| - i
    {
      if IsBackref(t[i..]) {
        var g := DigitValue(t[i + 1]);
        if !m[g].Present() {
          break;
        }
        var captured := w[m[g].so..m[g].eo];
        ExpandBackrefStep(t[i..], m, w, rep.Contents(), t);
        rep.Append(captured);
        assert t[i..][2..] == t[i + 2..];
        i := i + 2;
      } else {
        ExpandLiteralStep(t[i..], m, w, rep.Contents(), t);
        rep.Push(t[i]);
        assert t[i..][1..] == t[i + 1..];
        i := i + 1;
      }
    }
    assert Expand(t[i..], m, w) == [];
  }
}
