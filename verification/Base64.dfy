/** Base64 (b64.c), section 4 of RFC 4648; a shift is a product or quotient, an or of disjoint fields a sum. */
module Base64 {

  import opened Memory

  datatype Result<+T> = Ok(value: T) | Overflow

  type sextet = x: int | 0 <= x < 64

  /** The three rows of the table of letters. */
  function Letter(k: sextet): char {
    if k < 26 then "ABCDEFGHIJKLMNOPQRSTUVWXYZ"[k]
    else if k < 52 then "abcdefghijklmnopqrstuvwxyz"[k - 26]
    else "0123456789+/"[k - 52]
  }

  /** The padding mark is a bit above the 24 that carry data. */
  const MARK: int := 0x100_0000

  function Val(c: char): nat {
    if 'A' <= c <= 'Z' then c as int - 'A' as int
    else if 'a' <= c <= 'z' then c as int - 'a' as int + 26
    else if '0' <= c <= '9' then c as int - '0' as int + 52
    else if c == '+' then 62
    else if c == '/' then 63
    else if c == '=' then MARK
    else 0
  }

  predicate InAlphabet(c: char) {
    'A' <= c <= 'Z' || 'a' <= c <= 'z' || '0' <= c <= '9' || c == '+' || c == '/'
  }

  /** The alphabet of section 4 of RFC 4648, by character codes: 26 capitals, 26 small letters, ten digits, + and /. */
  lemma LetterRows(k: sextet)
    ensures Letter(k) as int ==
            if k < 26 then 65 + k else if k < 52 then 97 + (k - 26) else if k < 62 then 48 + (k - 52)
            else if k == 62 then 43 else 47
  {
  }

  lemma LetterVal(k: sextet)
    ensures Val(Letter(k)) == k && InAlphabet(Letter(k))
  {
    LetterRows(k);
    hide Letter;
  }

  lemma ValLetter(c: char)
    requires InAlphabet(c)
    ensures Val(c) < 64 && Letter(Val(c)) == c
  {
  }

  // ----- one group

  function Quad(v: nat, pad: nat): (q: string)
    requires v < MARK
    ensures |q| == 4
  {
    [Letter(v / 0x4_0000), Letter(v / 0x1000 % 64),
     if pad >= 2 then '=' else Letter(v / 64 % 64), if pad >= 1 then '=' else Letter(v % 64)]
  }

  function Triple(a: byte, b: byte, c: byte): (v: nat)
    ensures v < MARK
  {
    a as int * 0x1_0000 + b as int * 0x100 + c as int
  }

  /** The 32-bit word made of four characters: marks of the first two fall off its top. */
  function Word(c0: char, c1: char, c2: char, c3: char): nat {
    (Val(c0) * 0x4_0000 + Val(c1) * 0x1000 + Val(c2) * 64 + Val(c3)) % 0x1_0000_0000
  }

  function Octets(v: nat): (bs: seq<byte>)
    ensures 1 <= |bs| <= 3
  {
    [(v / 0x1_0000 % 0x100) as byte]
    + (if v / 0x4000_0000 % 2 == 0 then [(v / 0x100 % 0x100) as byte] else [])
    + (if v / 0x100_0000 % 2 == 0 then [(v % 0x100) as byte] else [])
  }

  // ----- whole strings

  function EncodedSize(n: nat): nat { (n + 2) / 3 * 4 }

  function Group(data: seq<byte>): (q: string)
    requires data != []
    ensures |q| == 4
  {
    if |data| >= 3 then Quad(Triple(data[0], data[1], data[2]), 0)
    else if |data| == 2 then Quad(Triple(data[0], data[1], 0), 1)
    else Quad(Triple(data[0], 0, 0), 2)
  }

  function Rest(data: seq<byte>): seq<byte> { if |data| >= 3 then data[3..] else [] }

  function Encoded(data: seq<byte>): string
    decreases |data|
  {
    if data == [] then [] else Group(data) + Encoded(Rest(data))
  }

  function Decoded(text: string): (data: seq<byte>)
    requires |text| % 4 == 0
    ensures |data| <= |text| / 4 * 3
    decreases |text|
  {
    if text == [] then [] else Octets(Word(text[0], text[1], text[2], text[3])) + Decoded(text[4..])
  }

  lemma SizeStep(n: nat)
    ensures EncodedSize(n) == if n == 0 then 0 else 4 + EncodedSize(if n >= 3 then n - 3 else 0)
  {
  }

  lemma EncodedStep(data: seq<byte>)
    ensures Encoded(data) == if data == [] then [] else Group(data) + Encoded(Rest(data))
    ensures data != [] ==> Encoded(data)[4..] == Encoded(Rest(data)) && Encoded(data)[..4] == Group(data)
  {
    hide Group, Rest;
  }

  /** Four characters for every group of three bytes begun. */
  lemma {:induction false} EncodedLength(data: seq<byte>)
    ensures |Encoded(data)| == EncodedSize(|data|)
    decreases |data|
  {
    hide EncodedSize, Encoded, Group;
    SizeStep(|data|);
    EncodedStep(data);
    if data != [] {
      EncodedLength(Rest(data));
    }
  }

  // ----- round trips

  function Marks(pad: nat): nat {
    if pad == 0 then 0 else if pad == 1 then 0x100_0000 else 0x4100_0000
  }

  /** What is read from a word with the marks of a padded group. */
  lemma MarkedWord(v: nat, pad: nat)
    requires v < 0x100_0000 && pad <= 2
    ensures var w := v + Marks(pad);
            && w / 0x4000_0000 % 2 == (if pad >= 2 then 1 else 0)
            && w / 0x100_0000 % 2 == (if pad >= 1 then 1 else 0)
  {
  }

  lemma MarkedFields(v: nat, pad: nat)
    requires v < 0x100_0000 && pad <= 2
    ensures var w := v + Marks(pad);
            && w / 0x1_0000 % 0x100 == v / 0x1_0000 % 0x100
            && w / 0x100 % 0x100 == v / 0x100 % 0x100
            && w % 0x100 == v % 0x100
  {
    if pad == 1 {
      AddedAbove(v, 1);
    } else if pad == 2 {
      AddedAbove(v, 65);
    }
  }

  lemma AddedAbove(v: nat, m: nat)
    ensures var w := v + 0x100_0000 * m;
            w / 0x1_0000 % 0x100 == v / 0x1_0000 % 0x100 && w / 0x100 % 0x100 == v / 0x100 % 0x100 && w % 0x100 == v % 0x100
  {
    assert (v + 0x100_0000 * m) / 0x100 == v / 0x100 + 0x1_0000 * m;
    assert (v + 0x100_0000 * m) / 0x1_0000 == v / 0x1_0000 + 0x100 * m;
    AddMultiple(v / 0x1_0000, m);
    AddMultiple(v / 0x100, 0x100 * m);
    AddMultiple(v, 0x1_0000 * m);
  }

  lemma AddMultiple(x: nat, y: nat)
    ensures (x + 0x100 * y) % 0x100 == x % 0x100
  {
  }

  function Joined(s0: sextet, s1: sextet, s2: sextet, s3: sextet): (v: nat)
    ensures v < MARK
  {
    s0 * 0x4_0000 + s1 * 0x1000 + s2 * 64 + s3
  }

  function Bytes(v: nat): (bs: seq<byte>)
    ensures |bs| == 3
  {
    [(v / 0x1_0000 % 0x100) as byte, (v / 0x100 % 0x100) as byte, (v % 0x100) as byte]
  }

  lemma WordOf(s0: sextet, s1: sextet, s2: sextet, s3: sextet, pad: nat)
    requires pad <= 2
    requires pad >= 1 ==> s3 == 0
    requires pad >= 2 ==> s2 == 0
    ensures Word(Letter(s0), Letter(s1), if pad >= 2 then '=' else Letter(s2), if pad >= 1 then '=' else Letter(s3))
            == Joined(s0, s1, s2, s3) + Marks(pad)
  {
    hide Letter, Val;
    LetterVal(s0);
    LetterVal(s1);
    LetterVal(s2);
    LetterVal(s3);
    PadVal();
    var sum := Val(Letter(s0)) * 0x4_0000 + Val(Letter(s1)) * 0x1000
               + Val(if pad >= 2 then '=' else Letter(s2)) * 64 + Val(if pad >= 1 then '=' else Letter(s3));
    assert sum == Joined(s0, s1, s2, s3) + Marks(pad);
    hide Marks, Joined;
    MarkedBelow(Joined(s0, s1, s2, s3), pad);
  }

  lemma MarkedBelow(v: nat, pad: nat)
    requires v < 0x100_0000 && pad <= 2
    ensures (v + Marks(pad)) % 0x1_0000_0000 == v + Marks(pad)
  {
  }

  lemma OctetsOf(v: nat, pad: nat)
    requires v < MARK && pad <= 2
    ensures Octets(v + Marks(pad)) == Bytes(v)[..3 - pad]
  {
    hide Marks;
    MarkedWord(v, pad);
    MarkedFields(v, pad);
  }

  lemma QuadWord(s0: sextet, s1: sextet, s2: sextet, s3: sextet, pad: nat)
    requires pad <= 2
    requires pad >= 1 ==> s3 == 0
    requires pad >= 2 ==> s2 == 0
    ensures Octets(Word(Letter(s0), Letter(s1), if pad >= 2 then '=' else Letter(s2), if pad >= 1 then '=' else Letter(s3)))
            == Bytes(Joined(s0, s1, s2, s3))[..3 - pad]
  {
    hide *;
    WordOf(s0, s1, s2, s3, pad);
    OctetsOf(Joined(s0, s1, s2, s3), pad);
  }

  lemma Sextets(v: nat)
    requires v < MARK
    ensures Joined(v / 0x4_0000, v / 0x1000 % 64, v / 64 % 64, v % 64) == v
  {
    assert v / 0x1000 == v / 0x4_0000 * 64 + v / 0x1000 % 64;
    assert v / 64 == v / 0x1000 * 64 + v / 64 % 64;
  }

  lemma QuadTrip(v: nat, pad: nat)
    requires v < MARK && pad <= 2
    requires pad >= 1 ==> v % 64 == 0
    requires pad >= 2 ==> v / 64 % 64 == 0
    ensures var q := Quad(v, pad);
            Octets(Word(q[0], q[1], q[2], q[3]))
            == Bytes(v)[..3 - pad]
  {
    hide Letter, Val, Octets, Word;
    Sextets(v);
    QuadWord(v / 0x4_0000, v / 0x1000 % 64, v / 64 % 64, v % 64, pad);
  }

  lemma RestShorter(data: seq<byte>)
    requires data != []
    ensures |Rest(data)| < |data|
  {
  }

  lemma PadVal()
    ensures Val('=') == MARK
  {
  }

  lemma TripleFields(a: byte, b: byte, c: byte)
    ensures Bytes(Triple(a, b, c)) == [a, b, c]
  {
    var v := Triple(a, b, c);
    assert v / 0x100 == a as int * 0x100 + b as int;
    assert v / 0x1_0000 == a as int;
    assert v % 0x100 == c as int;
    assert v / 0x100 % 0x100 == b as int;
  }

  lemma TripleZeros(a: byte, b: byte)
    ensures Triple(a, b, 0) % 64 == 0
    ensures Triple(a, 0, 0) % 64 == 0 && Triple(a, 0, 0) / 64 % 64 == 0
  {
    assert Triple(a, b, 0) == 64 * (a as int * 0x400 + b as int * 4);
    assert Triple(a, 0, 0) == 0x1000 * (a as int * 16);
    assert Triple(a, 0, 0) / 64 == 64 * (a as int * 16);
  }

  lemma GroupTrip(data: seq<byte>)
    requires data != []
    ensures var q := Group(data);
            Octets(Word(q[0], q[1], q[2], q[3])) + Rest(data) == data
  {
    hide Quad, Octets, Word, Triple;
    var b: byte := if |data| >= 2 then data[1] else 0;
    var c: byte := if |data| >= 3 then data[2] else 0;
    TripleFields(data[0], b, c);
    TripleZeros(data[0], b);
    QuadTrip(Triple(data[0], b, c), if |data| >= 3 then 0 else 3 - |data|);
  }

  /** Decoding gives back every byte string. */
  lemma {:induction false} DecodeEncoded(data: seq<byte>)
    ensures |Encoded(data)| % 4 == 0
    ensures Decoded(Encoded(data)) == data
    decreases |data|
  {
    hide Group, Rest, Octets, Word, Encoded;
    EncodedStep(data);
    if data != [] {
      GroupTrip(data);
      RestShorter(data);
      DecodeEncoded(Rest(data));
    }
  }

  /** Four characters as the encoder writes them: padding only in the last group, and there no spare bits set. */
  predicate CanonicalQuad(q: string, final: bool)
    requires |q| == 4
  {
    && InAlphabet(q[0]) && InAlphabet(q[1])
    && if InAlphabet(q[2]) then InAlphabet(q[3]) || (final && q[3] == '=' && Val(q[2]) % 4 == 0)
       else final && q[2] == '=' && q[3] == '=' && Val(q[1]) % 16 == 0
  }

  predicate Canonical(text: string)
    decreases |text|
  {
    |text| % 4 == 0 && (text != [] ==> CanonicalQuad(text[..4], |text| == 4) && Canonical(text[4..]))
  }

  lemma SpareTriples(a: byte, b: byte)
    ensures Triple(a, b, 0) / 64 == 4 * (a as int * 0x100 + b as int)
    ensures Triple(a, 0, 0) / 0x1000 == 4 * (4 * a as int)
  {
  }

  lemma ModOf64(q: nat, r: nat)
    requires r < 64
    ensures (64 * q + r) % 64 == r
  {
  }

  lemma SpareBits(a: byte, b: byte)
    ensures Triple(a, b, 0) / 64 % 64 % 4 == 0
    ensures Triple(a, 0, 0) / 0x1000 % 64 % 16 == 0
  {
    hide Triple;
    SpareTriples(a, b);
    var x := a as int * 0x100 + b as int;
    ModOf64(x / 16, 4 * (x % 16));
    ModOf64(a as int / 4, 16 * (a as int % 4));
    assert 4 * x == 64 * (x / 16) + 4 * (x % 16);
    assert 4 * (4 * a as int) == 64 * (a as int / 4) + 16 * (a as int % 4);
  }

  lemma QuadCanonical(v: nat, pad: nat)
    requires v < MARK && pad <= 2
    requires pad == 1 ==> v / 64 % 64 % 4 == 0
    requires pad == 2 ==> v / 0x1000 % 64 % 16 == 0
    ensures CanonicalQuad(Quad(v, pad), pad > 0) && (pad == 0 ==> CanonicalQuad(Quad(v, pad), true))
  {
    hide Letter, Val;
    LetterVal(v / 0x4_0000);
    LetterVal(v / 0x1000 % 64);
    LetterVal(v / 64 % 64);
    LetterVal(v % 64);
  }

  lemma GroupCanonical(data: seq<byte>)
    requires data != []
    ensures CanonicalQuad(Group(data), Rest(data) == [])
  {
    hide Quad, CanonicalQuad, Triple;
    var b: byte := if |data| >= 2 then data[1] else 0;
    var c: byte := if |data| >= 3 then data[2] else 0;
    SpareBits(data[0], b);
    QuadCanonical(Triple(data[0], b, c), if |data| >= 3 then 0 else 3 - |data|);
  }

  lemma {:induction false} EncodedCanonical(data: seq<byte>)
    ensures Canonical(Encoded(data))
    decreases |data|
  {
    hide Group, Rest, CanonicalQuad, Encoded;
    EncodedStep(data);
    if data != [] {
      GroupCanonical(data);
      RestShorter(data);
      EncodedStep(Rest(data));
      EncodedCanonical(Rest(data));
    }
  }

  lemma QuadLetters(s0: sextet, s1: sextet, s2: sextet, s3: sextet, pad: nat)
    requires pad <= 2
    ensures Quad(Joined(s0, s1, s2, s3), pad)
            == [Letter(s0), Letter(s1), if pad >= 2 then '=' else Letter(s2), if pad >= 1 then '=' else Letter(s3)]
  {
    hide Letter;
    JoinedFields(s0, s1, s2, s3);
    hide Joined;
  }

  lemma JoinedFields(s0: sextet, s1: sextet, s2: sextet, s3: sextet)
    ensures var v := Joined(s0, s1, s2, s3);
            v / 0x4_0000 == s0 && v / 0x1000 % 64 == s1 && v / 64 % 64 == s2 && v % 64 == s3
  {
    var v := Joined(s0, s1, s2, s3);
    assert v / 64 == s0 * 0x1000 + s1 * 64 + s2;
    assert v / 0x1000 == s0 * 64 + s1;
  }

  lemma BytesTriple(v: nat)
    requires v < MARK
    ensures Triple(Bytes(v)[0], Bytes(v)[1], Bytes(v)[2]) == v
  {
    assert v == v / 0x100 * 0x100 + v % 0x100;
    assert v / 0x100 == v / 0x1_0000 * 0x100 + v / 0x100 % 0x100;
  }

  lemma ZeroBytes(x: nat)
    ensures Bytes(0x100 * x)[2] == 0
    ensures Bytes(0x1_0000 * x)[2] == 0 && Bytes(0x1_0000 * x)[1] == 0
  {
    assert 0x1_0000 * x / 0x100 == 0x100 * x;
  }

  lemma SpareOne(s0: sextet, s1: sextet, s2: sextet)
    requires s2 % 4 == 0
    ensures Bytes(Joined(s0, s1, s2, 0))[2] == 0
  {
    hide Bytes;
    var x := s0 * 0x400 + s1 * 16 + s2 / 4;
    assert Joined(s0, s1, s2, 0) == 0x100 * x;
    ZeroBytes(x);
  }

  lemma SpareTwo(s0: sextet, s1: sextet)
    requires s1 % 16 == 0
    ensures Bytes(Joined(s0, s1, 0, 0))[2] == 0 && Bytes(Joined(s0, s1, 0, 0))[1] == 0
  {
    hide Bytes;
    var x := s0 * 4 + s1 / 16;
    assert Joined(s0, s1, 0, 0) == 0x1_0000 * x;
    ZeroBytes(x);
  }

  lemma QuadBack(q: string, final: bool)
    requires |q| == 4 && CanonicalQuad(q, final)
    ensures var bs := Octets(Word(q[0], q[1], q[2], q[3]));
            Group(bs) == q && (!final ==> |bs| == 3)
  {
    hide Letter, Val, Octets, Word, Triple, Quad, InAlphabet, Joined, Bytes;
    PadVal();
    ValLetter(q[0]);
    ValLetter(q[1]);
    var pad := if InAlphabet(q[2]) then (if InAlphabet(q[3]) then 0 else 1) else 2;
    if pad < 2 {
      ValLetter(q[2]);
    }
    if pad < 1 {
      ValLetter(q[3]);
    }
    var s2: sextet := if pad < 2 then Val(q[2]) else 0;
    var s3: sextet := if pad < 1 then Val(q[3]) else 0;
    QuadLetters(Val(q[0]), Val(q[1]), s2, s3, pad);
    QuadWord(Val(q[0]), Val(q[1]), s2, s3, pad);
    BytesTriple(Joined(Val(q[0]), Val(q[1]), s2, s3));
    if pad == 1 {
      SpareOne(Val(q[0]), Val(q[1]), s2);
    } else if pad == 2 {
      SpareTwo(Val(q[0]), Val(q[1]));
    }
  }

  /** Encoding gives back exactly the texts with padding only at the end and no spare bits set. */
  lemma {:induction false} EncodeDecoded(text: string)
    requires |text| % 4 == 0
    ensures Encoded(Decoded(text)) == text <==> Canonical(text)
    decreases |text|
  {
    EncodedCanonical(Decoded(text));
    if Canonical(text) {
      CanonicalBack(text);
    }
  }

  lemma {:induction false} CanonicalBack(text: string)
    requires Canonical(text)
    ensures Encoded(Decoded(text)) == text
    decreases |text|
  {
    hide CanonicalQuad, Octets, Word, Group, Rest, Encoded;
    if text == [] {
      EncodedStep([]);
    } else {
      QuadBack(text[..4], |text| == 4);
      CanonicalBack(text[4..]);
      var bs := Octets(Word(text[0], text[1], text[2], text[3]));
      GroupOfAppend(bs, Decoded(text[4..]));
      EncodedStep(Decoded(text));
      assert text == text[..4] + text[4..];
    }
  }

  lemma GroupOfAppend(bs: seq<byte>, more: seq<byte>)
    requires 1 <= |bs| <= 3 && (|bs| == 3 || more == [])
    ensures Group(bs + more) == Group(bs) && Rest(bs + more) == more
  {
    hide Quad;
  }

  // ----- the bits

  /** The lowest `width` bits of a number, the most significant one first. */
  function Bits(v: nat, width: nat): (bits: seq<int>)
    ensures |bits| == width
  {
    if width == 0 then [] else Bits(v / 2, width - 1) + [v % 2]
  }

  function ByteBits(data: seq<byte>): seq<int> {
    if data == [] then [] else Bits(data[0] as int, 8) + ByteBits(data[1..])
  }

  function TextBits(text: string): seq<int> {
    if text == [] then [] else CharBits(text[0]) + TextBits(text[1..])
  }

  function CharBits(c: char): seq<int> {
    if InAlphabet(c) then Bits(Val(c), 6) else []
  }

  /** The bits of `x` and then the lowest `n` bits of `y`, as a number. */
  function Joint(x: nat, y: nat, n: nat): nat {
    if n == 0 then x else 2 * Joint(x, y / 2, n - 1) + y % 2
  }

  lemma {:induction false} JointBits(x: nat, m: nat, y: nat, n: nat)
    ensures Bits(Joint(x, y, n), m + n) == Bits(x, m) + Bits(y, n)
  {
    if n > 0 {
      JointBits(x, m, y / 2, n - 1);
      var low := Joint(x, y / 2, n - 1);
      assert (2 * low + y % 2) / 2 == low && (2 * low + y % 2) % 2 == y % 2;
    }
  }

  lemma JointZero(x: nat, y: nat)
    ensures Joint(x, y, 0) == x
  {
  }

  lemma Joint2(x: nat, y: nat, n: nat)
    ensures Joint(x, y, n + 2) == 4 * Joint(x, y / 4, n) + y % 4
  {
    assert Joint(x, y, n + 2) == 2 * Joint(x, y / 2, n + 1) + y % 2;
    assert y / 2 / 2 == y / 4;
  }

  lemma Joint6And8(x: nat, y: nat)
    ensures y < 64 ==> Joint(x, y, 6) == 64 * x + y
    ensures y < 0x100 ==> Joint(x, y, 8) == 0x100 * x + y
  {
    hide Joint;
    Joint2(x, y, 6);
    Joint2(x, y, 4);
    Joint2(x, y / 4, 4);
    Joint2(x, y / 4, 2);
    Joint2(x, y / 4 / 4, 2);
    Joint2(x, y / 4 / 4, 0);
    Joint2(x, y / 4 / 4 / 4, 0);
    JointZero(x, y / 4 / 4 / 4);
    JointZero(x, y / 4 / 4 / 4 / 4);
  }

  lemma SextetBits(x: nat, m: nat, y: sextet)
    ensures Bits(64 * x + y, m + 6) == Bits(x, m) + Bits(y, 6)
  {
    hide Bits, Joint;
    Joint6And8(x, y);
    JointBits(x, m, y, 6);
  }

  lemma OctetBits(x: nat, m: nat, y: byte)
    ensures Bits(0x100 * x + y as int, m + 8) == Bits(x, m) + Bits(y as int, 8)
  {
    hide Bits, Joint;
    Joint6And8(x, y as int);
    JointBits(x, m, y as int, 8);
  }

  lemma JoinedBits(s0: sextet, s1: sextet, s2: sextet, s3: sextet)
    ensures Bits(s0 * 64 + s1, 12) == Bits(s0, 6) + Bits(s1, 6)
    ensures Bits(s0 * 0x1000 + s1 * 64 + s2, 18) == Bits(s0, 6) + Bits(s1, 6) + Bits(s2, 6)
    ensures Bits(Joined(s0, s1, s2, s3), 24) == Bits(s0, 6) + Bits(s1, 6) + Bits(s2, 6) + Bits(s3, 6)
  {
    hide Bits;
    SextetBits(s0, 6, s1);
    SextetBits(s0 * 64 + s1, 12, s2);
    SextetBits(s0 * 0x1000 + s1 * 64 + s2, 18, s3);
  }

  lemma TripleBits(a: byte, b: byte, c: byte)
    ensures Bits(a as int * 0x100 + b as int, 16) == Bits(a as int, 8) + Bits(b as int, 8)
    ensures Bits(Triple(a, b, c), 24) == Bits(a as int, 8) + Bits(b as int, 8) + Bits(c as int, 8)
  {
    hide Bits;
    OctetBits(a as int, 8, b);
    OctetBits(a as int * 0x100 + b as int, 16, c);
  }

  function SpareZeros(n: nat): seq<int> {
    if n % 3 == 0 then [] else if n % 3 == 1 then [0, 0, 0, 0] else [0, 0]
  }

  lemma ZeroBits(x: nat, m: nat)
    ensures Bits(4 * x, m + 2) == Bits(x, m) + [0, 0]
  {
    assert 4 * x / 2 == 2 * x;
    assert Bits(4 * x, m + 2) == Bits(2 * x, m + 1) + [0];
    assert Bits(2 * x, m + 1) == Bits(x, m) + [0];
  }

  lemma {:induction false} TextBitsAppend(a: string, b: string)
    ensures TextBits(a + b) == TextBits(a) + TextBits(b)
  {
    hide CharBits;
    if a == [] {
      assert a + b == b;
    } else {
      assert (a + b)[1..] == a[1..] + b;
      TextBitsAppend(a[1..], b);
    }
  }

  lemma {:induction false} ByteBitsAppend(a: seq<byte>, b: seq<byte>)
    ensures ByteBits(a + b) == ByteBits(a) + ByteBits(b)
  {
    hide Bits;
    if a == [] {
      assert a + b == b;
    } else {
      assert (a + b)[1..] == a[1..] + b;
      ByteBitsAppend(a[1..], b);
    }
  }

  lemma OneChar(c: char)
    ensures TextBits([c]) == CharBits(c)
  {
    hide CharBits;
  }

  lemma OneByte(b: byte)
    ensures ByteBits([b]) == Bits(b as int, 8)
  {
    hide Bits;
  }

  lemma FourBits(c0: char, c1: char, c2: char, c3: char)
    ensures TextBits([c0, c1, c2, c3]) == CharBits(c0) + CharBits(c1) + CharBits(c2) + CharBits(c3)
  {
    hide CharBits;
    OneChar(c0);
    OneChar(c1);
    OneChar(c2);
    OneChar(c3);
    hide TextBits;
    TextBitsAppend([c0, c1, c2], [c3]);
    TextBitsAppend([c0, c1], [c2]);
    TextBitsAppend([c0], [c1]);
    assert [c0, c1, c2] + [c3] == [c0, c1, c2, c3] && [c0, c1] + [c2] == [c0, c1, c2] && [c0] + [c1] == [c0, c1];
  }

  lemma LetterBits(k: sextet)
    ensures CharBits(Letter(k)) == Bits(k, 6) && CharBits('=') == []
  {
    hide Letter, Val, Bits;
    LetterVal(k);
  }

  lemma QuadBits(s0: sextet, s1: sextet, s2: sextet, s3: sextet, pad: nat)
    requires pad <= 2
    ensures TextBits(Quad(Joined(s0, s1, s2, s3), pad))
            == if pad == 0 then Bits(Joined(s0, s1, s2, s3), 24)
               else if pad == 1 then Bits(s0 * 0x1000 + s1 * 64 + s2, 18)
               else Bits(s0 * 64 + s1, 12)
  {
    hide Letter, Bits, CharBits, Quad, Joined;
    QuadLetters(s0, s1, s2, s3, pad);
    FourBits(Letter(s0), Letter(s1), if pad >= 2 then '=' else Letter(s2), if pad >= 1 then '=' else Letter(s3));
    LetterBits(s0);
    LetterBits(s1);
    LetterBits(s2);
    LetterBits(s3);
    JoinedBits(s0, s1, s2, s3);
  }

  lemma QuadBitsOf(v: nat, pad: nat)
    requires v < MARK && pad <= 2
    ensures TextBits(Quad(v, pad))
            == if pad == 0 then Bits(v, 24) else if pad == 1 then Bits(v / 64, 18) else Bits(v / 0x1000, 12)
  {
    hide Bits, Quad, TextBits;
    Sextets(v);
    QuadBits(v / 0x4_0000, v / 0x1000 % 64, v / 64 % 64, v % 64, pad);
    assert v / 0x1000 == v / 0x4_0000 * 64 + v / 0x1000 % 64;
    assert v / 64 == v / 0x1000 * 64 + v / 64 % 64;
  }

  lemma FewByteBits(a: byte, b: byte, c: byte)
    ensures ByteBits([a]) == Bits(a as int, 8)
    ensures ByteBits([a, b]) == Bits(a as int, 8) + Bits(b as int, 8)
    ensures ByteBits([a, b, c]) == Bits(a as int, 8) + Bits(b as int, 8) + Bits(c as int, 8)
  {
    hide Bits, ByteBits;
    OneByte(a);
    OneByte(b);
    OneByte(c);
    ByteBitsAppend([a, b], [c]);
    ByteBitsAppend([a], [b]);
    assert [a, b] + [c] == [a, b, c] && [a] + [b] == [a, b];
  }

  lemma QuadOfBytes(a: byte, b: byte, c: byte)
    ensures TextBits(Quad(Triple(a, b, c), 0)) == ByteBits([a, b, c])
    ensures TextBits(Quad(Triple(a, b, 0), 1)) == ByteBits([a, b]) + [0, 0]
    ensures TextBits(Quad(Triple(a, 0, 0), 2)) == ByteBits([a]) + [0, 0, 0, 0]
  {
    hide Bits, Triple, Quad, TextBits, ByteBits;
    FewByteBits(a, b, c);
    TripleBits(a, b, c);
    SpareTriples(a, b);
    QuadBitsOf(Triple(a, b, c), 0);
    QuadBitsOf(Triple(a, b, 0), 1);
    QuadBitsOf(Triple(a, 0, 0), 2);
    ZeroBits(a as int * 0x100 + b as int, 16);
    ZeroBits(a as int, 8);
    ZeroBits(4 * a as int, 10);
  }

  lemma Spares(n: nat)
    ensures SpareZeros(0) == [] && SpareZeros(1) == [0, 0, 0, 0] && SpareZeros(2) == [0, 0]
    ensures n >= 3 ==> SpareZeros(n) == SpareZeros(n - 3)
  {
  }

  lemma GroupCases(data: seq<byte>)
    requires data != []
    ensures |data| == 1 ==> data == [data[0]] && Group(data) == Quad(Triple(data[0], 0, 0), 2)
    ensures |data| == 2 ==> data == [data[0], data[1]] && Group(data) == Quad(Triple(data[0], data[1], 0), 1)
    ensures |data| >= 3 ==> data[..3] == [data[0], data[1], data[2]]
                            && Group(data) == Quad(Triple(data[0], data[1], data[2]), 0)
  {
    hide Quad, Triple;
  }

  lemma GroupBits(data: seq<byte>)
    requires data != []
    ensures TextBits(Group(data)) == if |data| >= 3 then ByteBits(data[..3]) else ByteBits(data) + SpareZeros(|data|)
  {
    hide *;
    Spares(0);
    GroupCases(data);
    QuadOfBytes(data[0], if |data| >= 2 then data[1] else 0, if |data| >= 3 then data[2] else 0);
  }

  /** The text carries the bits of the bytes in order, followed by the zero bits that fill the last letter. */
  lemma {:induction false} EncodedBits(data: seq<byte>)
    ensures TextBits(Encoded(data)) == ByteBits(data) + SpareZeros(|data|)
    decreases |data|
  {
    hide Group, TextBits, ByteBits, Encoded;
    EncodedStep(data);
    if data == [] {
      NoBits();
    } else {
      GroupBits(data);
      TextBitsAppend(Group(data), Encoded(Rest(data)));
      EncodedBits(Rest(data));
      NoBits();
      if |data| >= 3 {
        assert data == data[..3] + data[3..];
        ByteBitsAppend(data[..3], data[3..]);
      }
    }
  }

  lemma NoBits()
    ensures TextBits([]) == [] && ByteBits([]) == []
  {
  }

  // ----- in place

  /** The encoder's own test for room asks for too little unless the length is a multiple of three. */
  lemma RoomTestExact(n: nat)
    ensures n * 4 / 3 >= EncodedSize(n) <==> n % 3 == 0
  {
  }

  method Encode(data: array<byte>, out: array<char>, olen: nat) returns (r: Result<nat>)
    requires olen <= out.Length
    requires data.Length * 4 / 3 <= olen ==> EncodedSize(data.Length) <= olen
    modifies out
    ensures r.Overflow? <==> olen < data.Length * 4 / 3
    ensures r.Ok? ==> r.value == EncodedSize(data.Length) && out[..r.value] == Encoded(data[..])
    ensures out[if r.Ok? then r.value else 0..] == old(out[if r.Ok? then r.value else 0..])
  {
    hide Quad, Encoded, EncodedSize, Group;
    if olen < data.Length * 4 / 3 {
      return Overflow;
    }
    var i, o := 0, 0;
    while i < data.Length
      invariant i <= data.Length && o + EncodedSize(data.Length - i) == EncodedSize(data.Length)
      invariant out[..o] + Encoded(data[i..]) == Encoded(data[..])
      invariant out[EncodedSize(data.Length)..] == old(out[EncodedSize(data.Length)..])
    {
      ghost var start, written := i, out[..o];
      SizeStep(data.Length - i);
      var v: nat := data[i] as int * 0x1_0000;
      var pad := 0;
      i := i + 1;
      if i < data.Length {
        v := v + data[i] as int * 0x100;
        i := i + 1;
      } else {
        pad := pad + 1;
      }
      if i < data.Length {
        v := v + data[i] as int;
        i := i + 1;
      } else {
        pad := pad + 1;
      }
      GroupOf(data[start..], v, pad);
      PutLetters(v, pad, out, o);
      o := o + 4;
      assert out[..o] == written + Quad(v, pad);
      assert data[i..] == Rest(data[start..]);
      EncodedStep(data[start..]);
    }
    EncodedStep(data[i..]);
    SizeStep(0);
    return Ok(o);
  }

  /** The four characters of one group. */
  method PutLetters(v: nat, pad: nat, out: array<char>, at: nat)
    requires v < MARK && at + 4 <= out.Length
    modifies out
    ensures out[..at + 4] == old(out[..at]) + Quad(v, pad)
    ensures out[at + 4..] == old(out[at + 4..])
  {
    hide Letter;
    out[at] := Letter(v / 0x4_0000);
    out[at + 1] := Letter(v / 0x1000 % 64);
    out[at + 2] := if pad >= 2 then '=' else Letter(v / 64 % 64);
    out[at + 3] := if pad >= 1 then '=' else Letter(v % 64);
  }

  lemma GroupOf(data: seq<byte>, v: nat, pad: nat)
    requires data != [] && pad == (if |data| >= 3 then 0 else 3 - |data|)
    requires v == data[0] as int * 0x1_0000 + (if pad <= 1 then data[1] as int * 0x100 else 0) + (if pad == 0 then data[2] as int else 0)
    ensures v < MARK && Quad(v, pad) == Group(data)
  {
    hide Quad;
  }

  method Decode(text: array<char>, out: array<byte>, olen: nat) returns (r: Result<nat>)
    requires olen <= out.Length && text.Length % 4 == 0
    modifies out
    ensures r.Overflow? <==> olen < text.Length * 3 / 4
    ensures r.Ok? ==> r.value <= olen && out[..r.value] == Decoded(text[..])
    ensures out[if r.Ok? then r.value else 0..] == old(out[if r.Ok? then r.value else 0..])
  {
    hide Word, Octets, Decoded;
    if olen < text.Length * 3 / 4 {
      return Overflow;
    }
    var i, o := 0, 0;
    ghost var g, groups := 0, text.Length / 4;
    assert text.Length == 4 * groups;
    assert text[0..] == text[..];
    while i < text.Length
      invariant i == 4 * g && o <= 3 * g && g <= groups
      invariant out[..o] + Decoded(text[i..]) == Decoded(text[..])
      invariant out[o..] == old(out[o..])
    {
      ghost var start, written := i, out[..o];
      var v := GetWord(text, i);
      i, g := i + 4, g + 1;
      o := Put(v, out, o);
      assert out[..o] == written + Octets(v);
      assert text[start..][4..] == text[i..];
      DecodedStep(text[start..]);
    }
    DecodedStep(text[i..]);
    return Ok(o);
  }

  /** Four characters as one 32-bit word. */
  method GetWord(text: array<char>, i: nat) returns (v: nat)
    requires i + 4 <= text.Length
    ensures v == Word(text[i], text[i + 1], text[i + 2], text[i + 3])
  {
    hide Word, Val;
    WordSum(text[i], text[i + 1], text[i + 2], text[i + 3]);
    v := Val(text[i]) * 0x4_0000 % 0x1_0000_0000;
    v := v + Val(text[i + 1]) * 0x1000 % 0x1_0000_0000;
    v := v + Val(text[i + 2]) * 64;
    v := v + Val(text[i + 3]);
  }

  /** The one to three bytes of one word, as its marks say. */
  method Put(v: nat, out: array<byte>, at: nat) returns (o: nat)
    requires at + 3 <= out.Length
    modifies out
    ensures o == at + |Octets(v)| && out[..o] == old(out[..at]) + Octets(v)
    ensures out[o..] == old(out[o..])
  {
    o := at;
    out[o] := (v / 0x1_0000 % 0x100) as byte;
    o := o + 1;
    if v / 0x4000_0000 % 2 == 0 {
      out[o] := (v / 0x100 % 0x100) as byte;
      o := o + 1;
    }
    if v / 0x100_0000 % 2 == 0 {
      out[o] := (v % 0x100) as byte;
      o := o + 1;
    }
  }

  lemma DecodedStep(text: string)
    requires |text| % 4 == 0
    ensures Decoded(text) == if text == [] then [] else Octets(Word(text[0], text[1], text[2], text[3])) + Decoded(text[4..])
  {
  }

  lemma WordSum(c0: char, c1: char, c2: char, c3: char)
    ensures Word(c0, c1, c2, c3)
            == Val(c0) * 0x4_0000 % 0x1_0000_0000 + Val(c1) * 0x1000 % 0x1_0000_0000 + Val(c2) * 64 + Val(c3)
  {
    hide Val;
    ValCases(c0);
    ValCases(c1);
    ValCases(c2);
    ValCases(c3);
  }

  lemma ValCases(c: char)
    ensures Val(c) < 64 || Val(c) == MARK
  {
  }
}
