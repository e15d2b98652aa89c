# libvmod-rewrite: the in-place search-and-replace engine, in Dafny

`rewrite.rewrite_re(search, replace)` is a Varnish module function called from
`vcl_deliver`. It does four things:

1. It reads the delivered object's body into a growable buffer.
2. It substitutes every match of a POSIX extended regular expression with a
   replacement template. The template may use the backreferences `\0` to `\9`.
3. The substitution runs in place. A cursor moves past each inserted
   replacement, so inserted text is never searched again.
4. If at least one substitution happened, it writes the body back and sets
   `Content-Length` to the new length.

This project models that engine as it is written in `src/vmod_rewrite.c`:

- **`Buffer`** models `struct buf_t` as the class `Buf`. Its fields are an
  `array<char>` block `ptr`, the valid length `len` and the block size `size`.
  - `Grow` is `BUF_GROW`. It doubles the block and copies the old block over.
  - `Reserve` is `BUF_RESERVE`. It is a loop of doublings that stops once
    `size > len + n`.
  - `Append`, `Push` and `Terminate` are the reserve-then-write idioms the
    source repeats.
- **`Storage`** models the object side.
  - `ReadBody` is the uncompressed path of `_object_read`: a loop of appends,
    then a NUL terminator.
  - `WriteBack` is `_object_write`: the body is replaced by the buffer, and
    `Content-Length` is set to `%jd` of `buf.len`.
- **`Regex`** models `regexec` as a function value `Matcher`. It is given the
  bytes from the cursor to the end of the buffer. It returns `NoMatch` or ten
  `regmatch_t` slots. It is constrained by two predicates:
  - `Sound`: slot 0 lies inside the window, and every group either lies inside
    slot 0 or is absent (`-1`, `-1`);
  - `Advances`: every match ends past the cursor.
- **`Template`** models the expansion loop of `_object_rewrite`.
  - `Expand` is a specification function. It scans the template as a C
    string, so a NUL byte ends it.
  - `ExpandInto` is the `for` loop that fills the scratch buffer. It is proved
    against `Expand`.
- **`Rewrite`** models the `while (regexec …)` loop.
  - `SpliceInBlock` is the `memmove`/`memcpy` splice, using overlap-safe
    parallel assignments. `SpliceReplacement` adds the `BUF_RESERVE(buf, diff)`
    before it.
  - `Step` is one pass, and `RewriteObject` is the whole loop.
  - The loop is proved equal to `RewriteFrom`, the cursor semantics. The lemma
    `RewriteIsSubstituted` then shows that `RewriteFrom` equals `Substituted`.
    `Substituted` is a reference definition that searches only the original
    text after each match.
- **`Vmod`** models `vmod_rewrite_re` as `RewriteRe`: read, rewrite, and write
  back only if something was rewritten.
- **`Examples`** holds worked instances:
  - a one-byte matcher that meets the matcher contract;
  - "replace every `a` by `aa`", which doubles a run of `a`s and stops;
  - a template that swaps two groups;
  - an absent group cutting the template short.

Because `regexec` is given `buf->ptr + buf_pos` without `REG_NOTBOL`, the
matcher sees each window as a fresh string. The model passes it the window
`Contents()[pos..]` for the same reason.

## Model

| member | source | states |
|---|---|---|
| Buffer.Buf.constructor | src/vmod_rewrite.c:70-72 | A fresh buffer is empty, and its first block has twice the nominal size (one `BUF_GROW` right after `{NULL, 0, size}`). |
| Buffer.Buf.Grow | src/vmod_rewrite.c:55-59 | `BUF_GROW` doubles `size`, moves to a fresh block of exactly that size, keeps `len`, and keeps every byte of the old block. |
| Buffer.Buf.Reserve | src/vmod_rewrite.c:61-65 | `BUF_RESERVE(n)` ends with `size > len + n` and keeps `len`, the valid bytes and the whole old block. The new size is the old one times `2^Doublings(old size, len + n)`. |
| Buffer.DoublingsLeast | src/vmod_rewrite.c:61-65 | `Doublings` is the smallest number of doublings that takes `size` past `len + n`. Every smaller power of two still leaves `size <= len + n`, so the reservation never overshoots by a doubling. |
| Buffer.Buf.Append | src/vmod_rewrite.c:81-83 | Reserve, then `memcpy` at `len` and advance `len`: the contents become the old contents followed by the bytes, and `len < size`. |
| Buffer.Buf.Push | src/vmod_rewrite.c:178-179 | Reserve one byte, then `ptr[len++] = c`: the contents gain exactly that byte at the end. |
| Buffer.Buf.Terminate | src/vmod_rewrite.c:112-113 | Reserve one byte, then write NUL at `ptr[len]`: the contents and `len` are unchanged, and `size > len` with `ptr[len] == '\0'`. |
| Storage.ReadBody | src/vmod_rewrite.c:67-84 | On the uncompressed path, the buffer holds the storage segments concatenated in list order. `len` is the sum of their lengths, and the buffer is NUL-terminated with `size > len`. |
| Storage.FlattenLength | src/vmod_rewrite.c:77-84 | The length of the concatenated segments is the sum of the segment lengths that `buf.len` accumulates. |
| Storage.FlattenAppend | src/vmod_rewrite.c:77-84 | Concatenating segment lists concatenates their bodies, so where a body is cut into segments does not matter. |
| Storage.DropEmptySegment | src/vmod_rewrite.c:81-83 | An empty segment (`st->len == 0`) adds nothing to the body read. |
| Storage.Decimal | src/vmod_rewrite.c:133 | `%jd` of a length gives a non-empty string of decimal digits, with a leading `0` only for zero. |
| Storage.DecimalRoundTrip | src/vmod_rewrite.c:133 | The Content-Length text parses back to exactly the number it was printed from. |
| Storage.WriteBack | src/vmod_rewrite.c:117-135 | After write-back, the body is the buffer's valid bytes, and Content-Length is the decimal form of `buf.len`. That value equals the new body's length, and the gzip flag is untouched. |
| Template.ExpandInto | src/vmod_rewrite.c:160-181 | The expansion loop empties the scratch buffer and leaves in it exactly `Expand(template, match, window)`. |
| Template.ExpandPlainPrefix | src/vmod_rewrite.c:177-180 | Template bytes that are neither `\` nor NUL are copied verbatim, one by one, ahead of whatever the rest expands to. |
| Template.ExpandPlain | src/vmod_rewrite.c:177-180 | A template with no `\` and no NUL expands to itself, whatever the match. |
| Template.ExpandBackref | src/vmod_rewrite.c:163-176 | `\d` for a group that took part inserts the bytes of that capture (`rm_so` to `rm_eo` of the window) and skips the digit. |
| Template.ExpandAbsentTruncates | src/vmod_rewrite.c:165-168 | `\d` for a group that did not take part (`rm_so < 0`) ends the expansion. The result is exactly the text before the reference, and the rest of the template is dropped. |
| Template.ExpandStrayBackslash | src/vmod_rewrite.c:163-164 | A `\` that is not followed by a digit, including one at the end of the template, is emitted literally. |
| Template.ExpandIsRender | src/vmod_rewrite.c:161-181 | The one-pass scanner gives the same result as tokenising the template into literals and backreferences and evaluating the tokens against the match. |
| Rewrite.StepFacts | src/vmod_rewrite.c:186-198 | One splice keeps the bytes before `buf_pos + so` and writes the replacement after them. The bytes from the new cursor to `len` are exactly the old bytes from `buf_pos + eo`. The cursor is `buf_pos + so + rlen`, and `len - buf_pos` falls by exactly `rm_eo`. |
| Rewrite.StepLayout | src/vmod_rewrite.c:189-198 | Written as prefix plus window, one splice yields the new prefix (old prefix, text before the match, replacement) followed by the rest of the window after the match. The new cursor is the length of that prefix. |
| Rewrite.EmptyEndRepeats | src/vmod_rewrite.c:150-151 | If a match ends at the cursor (`rm_eo == 0`), the next `regexec` sees the same window again, so it finds the same match: the loop makes no progress. |
| Rewrite.RewriteFromStep | src/vmod_rewrite.c:150-198 | A pass that finds a match replaces the text and cursor by the spliced text and advanced cursor, and the remaining length `len - buf_pos` strictly decreases. |
| Rewrite.RewriteAfterCursor | src/vmod_rewrite.c:150-199 | Substituting from a cursor keeps the text before the cursor. The text after it becomes the reference substitution of the original remainder: inserted text is never rescanned. |
| Rewrite.RewriteIsSubstituted | src/vmod_rewrite.c:138-203 | The in-place, cursor-based substitution of a whole buffer equals the reference `Substituted`, which only searches original text. |
| Rewrite.RewriteFromKeepsPrefix | src/vmod_rewrite.c:189-198 | No later pass touches bytes before the cursor, so everything before it is final. |
| Rewrite.NoMatchUnchanged | src/vmod_rewrite.c:150-151 | If there is no match, the substitution is the identity. |
| Rewrite.MoveBytes | src/vmod_rewrite.c:189-191 | `memmove` overwrites `n` bytes at `dst` with the `n` bytes that were at `src`, for overlapping ranges too, and changes nothing else. |
| Rewrite.CopyBytes | src/vmod_rewrite.c:192 | `memcpy` from a distinct block overwrites `n` bytes at `dst` with the first `n` bytes of the source, and changes nothing else. |
| Rewrite.SpliceByOverwrites | src/vmod_rewrite.c:189-192 | Moving the tail to `a + rlen` and then copying the replacement to `a` produces exactly `old[..a] + replacement + old[b..len]`. |
| Rewrite.SpliceInBlock | src/vmod_rewrite.c:189-192 | The `memmove`/`memcpy` pair inside a block large enough leaves `old[..a] + replacement + old[b..len]` as its first `len + diff` bytes. |
| Rewrite.SpliceReplacement | src/vmod_rewrite.c:186-193 | `BUF_RESERVE(buf, diff)`, the splice and `len += diff` replace the matched bytes `[a, b)` of the contents by the replacement, with `len < size`. |
| Rewrite.Step | src/vmod_rewrite.c:157-198 | One loop pass: expand the template, splice, re-terminate with NUL and move the cursor. The new contents and cursor are `StepText` and `StepCursor` of the old contents. |
| Rewrite.RewriteObject | src/vmod_rewrite.c:138-203 | `_object_rewrite` leaves the buffer NUL-terminated and holding `RewriteFrom(old contents, 0)`. It returns true iff the first `regexec` matched, and when it returns false the buffer is byte-for-byte unchanged (same block, `len` and `size`). |
| Vmod.RewriteRe | src/vmod_rewrite.c:220-224 | With no match, the response is left exactly as it was. Otherwise the body becomes `Substituted(old body)` and Content-Length is the decimal form of its length. |
| Examples.CharMatcherBehaves | src/vmod_rewrite.c:150-151 | A pattern that matches one literal byte meets the `regexec` slot contract and always advances the cursor. |
| Examples.DoubleEveryA | src/vmod_rewrite.c:195-198 | Replacing every `a` by `aa` in a run of n `a`s gives exactly 2n `a`s: the cursor skips what was inserted, so the loop stops. |
| Examples.DoubleFirstA | src/vmod_rewrite.c:186-198 | One pass of that rewrite turns the leading `a` into `aa` and continues on the original text after it. |
| Examples.SwapGroups | src/vmod_rewrite.c:161-176 | The template `\2\1` against `(.)(.)` over `ab` expands to `ba`. |
| Examples.AbsentGroupStops | src/vmod_rewrite.c:165-168 | `x\1y` with group 1 absent expands to `x` alone. |

## Left out

- The gzip path of `_object_read` (lines 85-111) is not modelled. It is driven by the external gzip codec, whose behaviour is not visible here.
- RewriteRe: requires `!resp.gzipped`, because the only body reader modelled is the uncompressed one.
- RewriteObject: requires `Advances(re)`, that every match ends past the cursor. The source has no such guard. A match ending at the cursor (`rm_eo == 0`, as from an empty match at the cursor) makes the source loop forever. `Rewrite.EmptyEndRepeats` proves that the window, and hence the match, repeats.
- `regcomp` and the matching engine are not modelled. A compiled pattern is any `Matcher` satisfying `Sound`. A real `regexec` stops reading at the first NUL byte of the window. Such a matcher is one particular `Matcher`, so the model covers it, but it does not single it out.
- The `abort()` paths for a call outside `vcl_deliver` and for a pattern that does not compile (lines 209-218) are left out. They are host-runtime usage checks.
- `_object_write`'s runtime calls are left out: `SMS_Makesynth`, `VSB_bcpy`, `SMS_Finish`, `http_Unset`, `http_SetH`, `http_GetHdr` and `WS_Alloc`. The body written back is modelled as a single segment holding the buffer's bytes. Content-Length is modelled as the header's value, without the `Content-Length: ` prefix.
- `realloc` failure (`AN`) is left out: allocation always succeeds, and `Grow` moves to a fresh block.
- `free` of the scratch buffer and `regfree` are left out. Memory release is not modelled, and nor is the main buffer never being freed.
- Integer widths are not modelled. `size_t` lengths, `int` offsets and the `int diff` are unbounded. The 32-byte header buffer is assumed large enough for `%jd`.
- Bytes are modelled as Dafny `char` values, not 8-bit C `char`s.
- The `DEBUG` logging macro and `init_function` are left out. They do no work on the body.
