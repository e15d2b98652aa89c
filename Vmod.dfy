// vmod_rewrite_re of src/vmod_rewrite.c: read the delivered object into a
// buffer, substitute every match of the pattern by the expanded template,
// and write the buffer back only when at least one substitution was made.

module Vmod {
  import opened Regex
  import opened Buffer
  import opened Rewrite
  import opened Storage

  /** rewrite.rewrite_re(search, replace) on an uncompressed object, with the
      pattern already compiled to `re`. An object without a match is left
      exactly as it was (body and Content-Length); otherwise its body becomes
      the substitution of every non-overlapping match, scanning left to right
      and never rescanning inserted text, and Content-Length states its length. */
  method RewriteRe(resp: Response, re: Matcher, replace: seq<char>) returns (out: Response)
    requires !resp.gzipped && Sound(re) && Advances(re)
    ensures re(Flatten(resp.store)).NoMatch? ==> out == resp
    ensures re(Flatten(resp.store)).Matched? ==>
      Flatten(out.store) == Substituted(Flatten(resp.store), re, replace)
    ensures re(Flatten(resp.store)).Matched? ==>
      out.contentLength == Some(Decimal(|Substituted(Flatten(resp.store), re, replace)|))
    ensures out.gzipped == resp.gzipped
  {
    var buf := ReadBody(resp.store);
    var rewrote := RewriteObject(buf, re, replace);
    RewriteIsSubstituted(Flatten(resp.store), re, replace);
    if rewrote {
      out := WriteBack(resp, buf);
    } else {
      out := resp;
    }
  }
}
