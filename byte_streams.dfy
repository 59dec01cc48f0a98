/**
 * The two java.io streams the Kotlin wrapper frames with, reduced to the calls
 * it makes: `ByteArrayInputStream` (`available`, `read(b, off, len)`) and
 * `ByteArrayOutputStream` (`write(b, off, len)`, `toByteArray`).
 */
module ByteStreams {

  /** Reads the bytes of `buf` from position `pos` on. */
  class ByteArrayInputStream {
    const buf: seq<bv8>
    var pos: nat

    predicate Valid()
      reads this
    {
      pos <= |buf|
    }

    constructor (buf: seq<bv8>)
      ensures Valid() && this.buf == buf && pos == 0
    {
      this.buf := buf;
      pos := 0;
    }

    /** `available()`: the bytes not yet read. */
    function Available(): (n: nat)
      reads this
      requires Valid()
      ensures pos + n == |buf|
    {
      |buf| - pos
    }

    /**
     * `read(b, off, len)`: -1 at the end of the stream; otherwise copies
     * `min(len, available())` bytes into `b[off..]`, advances past them and
     * returns how many.
     */
    method Read(b: array<bv8>, off: nat, len: nat) returns (n: int)
      requires Valid() && off + len <= b.Length
      modifies this, b
      ensures Valid()
      ensures old(pos) >= |buf| ==> n == -1 && pos == old(pos) && b[..] == old(b[..])
      ensures old(pos) < |buf| ==>
        n == (if len <= |buf| - old(pos) then len else |buf| - old(pos))
        && pos == old(pos) + n
        && b[..] == old(b[..off]) + buf[old(pos)..pos] + old(b[off + n..])
    {
      if pos >= |buf| {
        return -1;
      }
      n := if len <= |buf| - pos then len else |buf| - pos;
      ghost var before := b[..];
      for i := 0 to n
        modifies b
        invariant forall k | 0 <= k < b.Length ::
          b[k] == if off <= k < off + i then buf[pos + k - off] else before[k]
      {
        b[off + i] := buf[pos + i];
      }
      ghost var expected := before[..off] + buf[pos..pos + n] + before[off + n..];
      assert forall k | 0 <= k < b.Length :: b[k] == expected[k] by {
        forall k | 0 <= k < b.Length
          ensures b[k] == expected[k]
        {
          if k < off {
          } else if k < off + n {
            assert expected[k] == buf[pos..pos + n][k - off];
          } else {
            assert expected[k] == before[off + n..][k - off - n];
          }
        }
      }
      assert b[..] == expected;
      pos := pos + n;
    }
  }

  /** Collects written bytes in `buf`, in order. */
  class ByteArrayOutputStream {
    var buf: seq<bv8>

    constructor ()
      ensures buf == []
    {
      buf := [];
    }

    /** `write(b, off, len)`: appends `b[off..off + len]`. */
    method Write(b: array<bv8>, off: nat, len: nat)
      requires off + len <= b.Length
      modifies this
      ensures buf == old(buf) + b[off..off + len]
    {
      buf := buf + b[off..off + len];
    }

    /** `toByteArray()`: a copy of everything written. */
    method ToByteArray() returns (r: seq<bv8>)
      ensures r == buf
    {
      r := buf;
    }
  }
}
