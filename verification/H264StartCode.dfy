/** Finding NAL units in an Annex B byte stream (h264.c): the word-at-a-time scan and what it refines. */
module H264StartCode {
  import opened Memory

  /** A start code that at least one byte follows. */
  predicate StartCodeAt(b: seq<byte>, i: int) {
    0 <= i && i + 3 < |b| && b[i] == 0 && b[i + 1] == 0 && b[i + 2] == 1
  }

  /** The naive scan: the first start code at or after `p`, the end of the buffer if there is none. */
  function FirstStartCode(b: seq<byte>, p: nat): (r: nat)
    requires p <= |b|
    ensures p <= r <= |b|
    ensures r < |b| ==> StartCodeAt(b, r)
    ensures forall i :: p <= i < r ==> !StartCodeAt(b, i)
    decreases |b| - p
  {
    if p == |b| || StartCodeAt(b, p) then p else FirstStartCode(b, p + 1)
  }

  lemma FirstStartCodeUnique(b: seq<byte>, p: nat, r: nat)
    requires p <= r <= |b|
    requires r < |b| ==> StartCodeAt(b, r)
    requires forall i :: p <= i < r ==> !StartCodeAt(b, i)
    ensures r == FirstStartCode(b, p)
  {
  }

  /** The 32-bit word that a load from four consecutive bytes gives, on either kind of machine. */
  function LoadWord(b0: bv8, b1: bv8, b2: bv8, b3: bv8, bigEndian: bool): bv32 {
    if bigEndian then
      (b0 as bv32 << 24) | (b1 as bv32 << 16) | (b2 as bv32 << 8) | (b3 as bv32)
    else
      (b0 as bv32) | (b1 as bv32 << 8) | (b2 as bv32 << 16) | (b3 as bv32 << 24)
  }

  predicate ZeroByteTest(x: bv32) {
    (x - 0x01010101) & !x & 0x80808080 != 0
  }

  /** The subtract-and-mask test is exact: no borrow can make it fire on a word without a zero byte. */
  lemma ZeroByteTestExact(b0: bv8, b1: bv8, b2: bv8, b3: bv8, bigEndian: bool)
    ensures ZeroByteTest(LoadWord(b0, b1, b2, b3, bigEndian)) <==> b0 == 0 || b1 == 0 || b2 == 0 || b3 == 0
  {
  }

  lemma ZeroBits(b: byte)
    ensures b as bv8 == 0 <==> b == 0
  {
  }

  method LoadAndTest(b0: byte, b1: byte, b2: byte, b3: byte, bigEndian: bool) returns (hit: bool)
    ensures hit <==> b0 == 0 || b1 == 0 || b2 == 0 || b3 == 0
  {
    hit := ZeroByteTest(LoadWord(b0 as bv8, b1 as bv8, b2 as bv8, b3 as bv8, bigEndian));
    hide LoadWord, ZeroByteTest;
    ZeroByteTestExact(b0 as bv8, b1 as bv8, b2 as bv8, b3 as bv8, bigEndian);
    ZeroBits(b0);
    ZeroBits(b1);
    ZeroBits(b2);
    ZeroBits(b3);
  }

  /** One step of the word loop: the offset of the start code that begins in the word at `p`, or 4. */
  method ScanWord(b: seq<byte>, p: nat, bigEndian: bool) returns (k: nat)
    requires p + 6 < |b|
    ensures k <= 4 && (k < 4 ==> StartCodeAt(b, p + k))
    ensures forall i :: p <= i < p + k ==> !StartCodeAt(b, i)
  {
    var hit := LoadAndTest(b[p], b[p + 1], b[p + 2], b[p + 3], bigEndian);
    if hit {
      if b[p + 1] == 0 {
        if b[p] == 0 && b[p + 2] == 1 {
          return 0;
        }
        if b[p + 2] == 0 && b[p + 3] == 1 {
          return 1;
        }
      }
      if b[p + 3] == 0 {
        if b[p + 2] == 0 && b[p + 4] == 1 {
          return 2;
        }
        if b[p + 4] == 0 && b[p + 5] == 1 {
          return 3;
        }
      }
    }
    return 4;
  }

  /**
   * The fast scan. `base` is the address of `b[0]`, so that `p` is first advanced to a word boundary;
   * every byte it looks at is an index of `b`, and every word it loads is aligned.
   */
  method FindStartCode(b: seq<byte>, base: nat, p0: nat, bigEndian: bool) returns (r: nat)
    requires p0 <= |b|
    ensures r == FirstStartCode(b, p0)
  {
    var p := p0;
    var a := p + 4 - (base + p) % 4;
    while p < a && p < |b| - 3
      invariant p0 <= p <= |b| && p <= a
      invariant forall i :: p0 <= i < p ==> !StartCodeAt(b, i)
    {
      if b[p] == 0 && b[p + 1] == 0 && b[p + 2] == 1 {
        FirstStartCodeUnique(b, p0, p);
        return p;
      }
      p := p + 1;
    }

    while p < |b| - 6
      invariant p0 <= p <= |b|
      invariant p < |b| - 3 ==> (base + p) % 4 == 0
      invariant forall i :: p0 <= i < p ==> !StartCodeAt(b, i)
      decreases |b| - p
    {
      assert (base + p) % 4 == 0;
      var k := ScanWord(b, p, bigEndian);
      if k < 4 {
        FirstStartCodeUnique(b, p0, p + k);
        return p + k;
      }
      p := p + 4;
    }

    while p < |b| - 3
      invariant p0 <= p <= |b|
      invariant forall i :: p0 <= i < p ==> !StartCodeAt(b, i)
      decreases |b| - p
    {
      if b[p] == 0 && b[p + 1] == 0 && b[p + 2] == 1 {
        FirstStartCodeUnique(b, p0, p);
        return p;
      }
      p := p + 1;
    }

    r := |b|;
    FirstStartCodeUnique(b, p0, r);
  }
}
