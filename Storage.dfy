// The object side of src/vmod_rewrite.c: _object_read gathers the stored
// segments of an uncompressed object into one NUL-terminated Buf, and
// _object_write replaces the body by the buffer and sets Content-Length to
// its length in decimal.

module Storage {
  import opened Buffer
  import Template

  datatype Option<T> = None | Some(value: T)

  /** The parts of the delivery state the module reads or writes: the
      object's storage segments in list order, its gzip flag, and the value
      of the response's Content-Length header. */
  datatype Response = Response(store: seq<seq<char>>, gzipped: bool, contentLength: Option<seq<char>>)

  /** The body an object's segment list stands for: the segments in list order. */
  function Flatten(store: seq<seq<char>>): seq<char>
  {
    if store == [] then [] else Flatten(store[..|store| - 1]) + store[|store| - 1]
  }

  /** The sum of the segments' `st->len`. */
  function TotalLen(store: seq<seq<char>>): nat
  {
    if store == [] then 0 else TotalLen(store[..|store| - 1]) + |store[|store| - 1]|
  }

  lemma {:induction false} FlattenLength(store: seq<seq<char>>)
    ensures |Flatten(store)| == TotalLen(store)
  {
    if store != [] {
      FlattenLength(store[..|store| - 1]);
    }
  }

  /** Where a body is cut into segments does not matter: the concatenation
      of two segment lists reads as the concatenation of their bodies. */
  lemma {:induction false} FlattenAppend(a: seq<seq<char>>, b: seq<seq<char>>)
    ensures Flatten(a + b) == Flatten(a) + Flatten(b)
    decreases |b|
  {
    if b == [] {
      assert a + b == a;
    } else {
      var b', last := b[..|b| - 1], b[|b| - 1];
      assert (a + b)[..|a + b| - 1] == a + b';
      assert (a + b)[|a + b| - 1] == last;
      FlattenAppend(a, b');
      calc {
        Flatten(a + b);
        Flatten(a + b') + last;
        (Flatten(a) + Flatten(b')) + last;
        Flatten(a) + (Flatten(b') + last);
      }
    }
  }

  /** Empty segments contribute nothing. */
  lemma DropEmptySegment(a: seq<seq<char>>, b: seq<seq<char>>)
    ensures Flatten(a + [[]] + b) == Flatten(a + b)
  {
    FlattenAppend(a + [[]], b);
    FlattenAppend(a, [[]]);
    FlattenAppend(a, b);
    assert Flatten([[]]) == Flatten([]) + [];
  }

  /** The uncompressed path of _object_read: a buffer of nominal size 4 KiB
      (8 KiB after the first BUF_GROW) receives every segment in list order
      and is then NUL-terminated. */
  method ReadBody(store: seq<seq<char>>) returns (buf: Buf)
    ensures fresh(buf) && fresh(buf.ptr)
    ensures buf.Valid() && buf.Terminated()
    ensures buf.Contents() == Flatten(store)
    ensures buf.len == TotalLen(store)
  {
    buf := new Buf(4 * 1024);
    for i := 0 to |store|
      invariant buf.Valid() && fresh(buf) && fresh(buf.ptr)
      invariant buf.Contents() == Flatten(store[..i])
    {
      assert store[..i + 1][..i] == store[..i];
      buf.Append(store[i]);
    }
    buf.Terminate();
    assert store[..|store|] == store;
    FlattenLength(store);
  }

  function DigitChar(d: nat): (c: char)
    requires d < 10
    ensures Template.IsDigit(c) && Template.DigitValue(c) == d
  {
    ('0' as int + d) as char
  }

  /** `%jd` of a non-negative value: its decimal digits, without sign,
      padding or leading zeros. */
  function Decimal(n: nat): (s: seq<char>)
    ensures |s| > 0
    ensures forall i :: 0 <= i < |s| ==> Template.IsDigit(s[i])
    ensures s[0] == '0' <==> n == 0
  {
    if n < 10 then [DigitChar(n)] else Decimal(n / 10) + [DigitChar(n % 10)]
  }

  /** The value a string of decimal digits denotes. */
  function ParseDecimal(s: seq<char>): nat
    requires forall i :: 0 <= i < |s| ==> Template.IsDigit(s[i])
  {
    if s == [] then 0 else 10 * ParseDecimal(s[..|s| - 1]) + Template.DigitValue(s[|s| - 1])
  }

  /** The Content-Length value reads back as the number it was made from. */
  lemma {:induction false} DecimalRoundTrip(n: nat)
    ensures ParseDecimal(Decimal(n)) == n
  {
    if n >= 10 {
      DecimalRoundTrip(n / 10);
      var s := Decimal(n);
      assert s[..|s| - 1] == Decimal(n / 10);
    }
  }

  /** _object_write: the object's body becomes the bytes of the buffer
      (VSB_bcpy into a synthetic body; the runtime keeps it as one segment)
      and Content-Length is replaced by the decimal value of `buf.len`. */
  method WriteBack(resp: Response, buf: Buf) returns (out: Response)
    requires buf.Valid()
    ensures Flatten(out.store) == buf.Contents()
    ensures out.contentLength == Some(Decimal(buf.len))
    ensures ParseDecimal(out.contentLength.value) == |Flatten(out.store)|
    ensures out.gzipped == resp.gzipped
  {
    var body := buf.ptr[..buf.len];
    out := resp.(store := [body], contentLength := Some(Decimal(buf.len)));
    assert Flatten([body]) == Flatten([]) + body;
    DecimalRoundTrip(buf.len);
  }
}
