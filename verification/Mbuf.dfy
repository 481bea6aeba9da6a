/** Bytes and the memory buffer that every encoder and parser of the program works on. */
module Memory {

  newtype byte = x: int | 0 <= x < 256

  /** What overwriting `data` from position `pos` on with `b` leaves. */
  function Overwrite(data: seq<byte>, pos: nat, b: seq<byte>): (r: seq<byte>)
    requires pos <= |data|
  {
    data[..pos] + b + (if pos + |b| <= |data| then data[pos + |b|..] else [])
  }

  function Concat(parts: seq<seq<byte>>): seq<byte> {
    if parts == [] then [] else parts[0] + Concat(parts[1..])
  }

  lemma {:induction false} ConcatAppend(a: seq<seq<byte>>, b: seq<seq<byte>>)
    ensures Concat(a + b) == Concat(a) + Concat(b)
  {
    if a == [] {
      assert a + b == b;
    } else {
      assert (a + b)[0] == a[0] && (a + b)[1..] == a[1..] + b;
      ConcatAppend(a[1..], b);
    }
  }

  /**
   * A growing buffer with a cursor. `buf` holds the allocated memory, `end` the number of bytes
   * that are in use, `pos` where the next read or write goes; `pos` may be set past `end`.
   */
  class Mbuf {
    var buf: seq<byte>
    var pos: nat
    var end: nat

    ghost predicate Valid()
      reads this
    {
      end <= |buf|
    }

    /** The bytes in use. */
    function Data(): (d: seq<byte>)
      requires Valid()
      reads this
      ensures |d| == end
    {
      buf[..end]
    }

    /** The bytes in use that have not been read yet. */
    function Rest(): (d: seq<byte>)
      requires Valid() && pos <= end
      reads this
      ensures |d| == end - pos
    {
      buf[pos..end]
    }

    constructor (data: seq<byte>)
      ensures Valid() && Data() == data && pos == 0 && Rest() == data
    {
      buf, pos, end := data, 0, |data|;
    }

    /**
     * Writes at `pos`, growing the memory where needed and raising `end` when passed. Nothing is
     * promised about the bytes between `end` and `pos` when the cursor was past the end.
     */
    method WriteMem(b: seq<byte>)
      requires Valid()
      modifies this
      ensures Valid()
      ensures pos == old(pos) + |b| && end == if pos > old(end) then pos else old(end)
      ensures |buf| >= |old(buf)|
      ensures old(pos <= end) ==> Data() == Overwrite(old(Data()), old(pos), b)
      ensures old(pos == end) ==> Data() == old(Data()) + b
      ensures old(pos > end) ==> Data()[..old(end)] == old(Data()) && Data()[old(pos)..] == b
    {
      ghost var was := Data();
      var n := pos + |b|;
      if |buf| < n {
        buf := buf + seq(n - |buf|, _ => 0);
      }
      buf := buf[..pos] + b + buf[n..];
      pos := n;
      if end < pos {
        end := pos;
      }
      assert old(pos <= end) ==> Data() == Overwrite(was, old(pos), b);
    }

    method WriteU8(v: byte)
      requires Valid()
      modifies this
      ensures Valid()
      ensures pos == old(pos) + 1 && end == if pos > old(end) then pos else old(end)
      ensures |buf| >= |old(buf)|
      ensures old(pos <= end) ==> Data() == Overwrite(old(Data()), old(pos), [v])
      ensures old(pos == end) ==> Data() == old(Data()) + [v]
      ensures old(pos > end) ==> Data()[..old(end)] == old(Data()) && Data()[old(pos)..] == [v]
    {
      WriteMem([v]);
    }

    /** Reads one byte; an exhausted buffer yields 0 and does not move. */
    method ReadU8() returns (v: byte)
      requires Valid()
      modifies this`pos
      ensures if old(pos) < end then v == buf[old(pos)] && pos == old(pos) + 1 else v == 0 && pos == old(pos)
    {
      if pos < end {
        v := buf[pos];
        pos := pos + 1;
      } else {
        v := 0;
      }
    }

    method ReadMem(n: nat) returns (b: seq<byte>)
      requires Valid() && pos + n <= end
      modifies this`pos
      ensures pos == old(pos) + n && b == buf[old(pos)..pos]
    {
      b := buf[pos..pos + n];
      pos := pos + n;
    }
  }
}
