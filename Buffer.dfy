// The growable byte buffer `struct buf_t` of src/vmod_rewrite.c: a heap block
// `ptr` of `size` bytes of which the first `len` are valid. It only ever grows,
// and only by doubling (BUF_GROW), until a reservation fits (BUF_RESERVE).

module Buffer {

  /** 2^k */
  function Pow2(k: nat): (p: nat)
    ensures p >= 1
  {
    if k == 0 then 1 else 2 * Pow2(k - 1)
  }

  /** How many doublings BUF_RESERVE performs to take a block of `size` bytes
      past `need`, that is until `size > need`. */
  function Doublings(size: nat, need: int): nat
    requires size > 0
    decreases need - size
  {
    if size > need then 0 else 1 + Doublings(2 * size, need)
  }

  lemma Pow2Shift(s: nat, k: nat)
    ensures s * Pow2(k + 1) == (2 * s) * Pow2(k) == 2 * (s * Pow2(k))
  {
  }

  /** The size BUF_RESERVE ends with is the old size times the SMALLEST power
      of two that makes it exceed `need`: growth never overshoots by a doubling. */
  lemma {:induction false} DoublingsLeast(size: nat, need: int)
    requires size > 0
    ensures size * Pow2(Doublings(size, need)) > need
    ensures forall k: nat :: k < Doublings(size, need) ==> size * Pow2(k) <= need
    decreases need - size
  {
    if size <= need {
      DoublingsLeast(2 * size, need);
      var d := Doublings(2 * size, need);
      Pow2Shift(size, d);
      forall k: nat | k < Doublings(size, need)
        ensures size * Pow2(k) <= need
      {
        if k > 0 {
          Pow2Shift(size, k - 1);
        }
      }
    }
  }

  class Buf {
    var ptr: array<char>
    var len: nat
    var size: nat

    /** The block is exactly `size` bytes, never empty, and holds the valid bytes. */
    ghost predicate Valid()
      reads this
    {
      ptr.Length == size && 0 < size && len <= size
    }

    /** The valid bytes, ptr[0 .. len). */
    ghost function Contents(): seq<char>
      reads this, ptr
      requires Valid()
    {
      ptr[..len]
    }

    /** There is a NUL byte just past the valid bytes, so the block can be read
        as a C string. */
    ghost predicate Terminated()
      reads this, ptr
      requires Valid()
    {
      len < size && ptr[len] == '\0'
    }

    /** `{NULL, 0, initial}` followed by one BUF_GROW: the first block has twice
        the nominal size. */
    constructor (initial: nat)
      requires initial > 0
      ensures Valid() && fresh(ptr)
      ensures len == 0 && size == 2 * initial
    {
      ptr := new char[2 * initial];
      len := 0;
      size := 2 * initial;
    }

    /** BUF_GROW: double `size` and move to a block of the new size (realloc),
        keeping every byte of the old block. */
    method Grow()
      requires Valid()
      modifies this
      ensures Valid() && fresh(ptr)
      ensures len == old(len) && size == 2 * old(size)
      ensures ptr[..old(size)] == old(ptr[..])
    {
      var block := new char[2 * size];
      forall i | 0 <= i < size {
        block[i] := ptr[i];
      }
      ptr, size := block, 2 * size;
    }

    /** BUF_RESERVE(buf, n): double until `size > len + n`. The valid bytes (in
        fact the whole old block) are kept, and the new size is the old one
        times 2^Doublings, the smallest power of two that fits. */
    method Reserve(n: int)
      requires Valid() && len + n >= 0
      modifies this
      ensures Valid() && len == old(len)
      ensures size > len + n
      ensures size == old(size) * Pow2(Doublings(old(size), len + n))
      ensures ptr == old(ptr) || fresh(ptr)
      ensures old(size) <= size && ptr[..old(size)] == old(ptr[..])
      ensures Contents() == old(Contents())
    {
      ghost var k: nat := 0;
      while size <= len + n
        invariant Valid() && len == old(len)
        invariant old(size) <= size && ptr[..old(size)] == old(ptr[..])
        invariant ptr == old(ptr) || fresh(ptr)
        invariant size == old(size) * Pow2(k)
        invariant Doublings(old(size), len + n) == k + Doublings(size, len + n)
        decreases len + n - size
      {
        Pow2Shift(old(size), k);
        Grow();
        k := k + 1;
      }
      assert ptr[..len] == ptr[..old(size)][..len];
    }

    /** BUF_RESERVE(buf, |bytes|) then memcpy at `len` and advance `len`. */
    method Append(bytes: seq<char>)
      requires Valid()
      modifies this, ptr
      ensures Valid() && Contents() == old(Contents()) + bytes
      ensures len < size
      ensures ptr == old(ptr) || fresh(ptr)
    {
      Reserve(|bytes|);
      forall i | 0 <= i < |bytes| {
        ptr[len + i] := bytes[i];
      }
      len := len + |bytes|;
    }

    /** BUF_RESERVE(buf, 1) then `ptr[len++] = c`. */
    method Push(c: char)
      requires Valid()
      modifies this, ptr
      ensures Valid() && Contents() == old(Contents()) + [c]
      ensures len < size
      ensures ptr == old(ptr) || fresh(ptr)
    {
      Reserve(1);
      ptr[len] := c;
      len := len + 1;
    }

    /** BUF_RESERVE(buf, 1) then `ptr[len] = '\0'`: the NUL is not counted. */
    method Terminate()
      requires Valid()
      modifies this, ptr
      ensures Valid() && Terminated()
      ensures len == old(len) && Contents() == old(Contents())
      ensures ptr == old(ptr) || fresh(ptr)
    {
      Reserve(1);
      ptr[len] := '\0';
    }
  }
}
