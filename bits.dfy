/** Bit strings and fixed-width integers shared by the encoder and the decoder.

    The Go code keeps bits as byte slices holding the characters '0' and '1',
    formats bytes with fmt.Sprintf("%08b") and parses them back with
    strconv.ParseUint(s, 2, 8).  Here a bit string is a seq<char>, so that a
    character other than '0' or '1' (the parse error path) stays expressible. */
module Bits {

  type byte = x: int | 0 <= x < 256
  type uint16 = x: int | 0 <= x < 0x1_0000

  datatype Option<+T> = None | Some(value: T)

  /** The errors the codec can report.  EOF is io.EOF; ParseError is the
      error of strconv.ParseUint; the other messages are the decoder's own.
      NilTreePanic stands for the runtime panic of dereferencing a nil tree. */
  datatype Error =
    | EOF
    | ParseError
    | InvalidNodeType(tag: byte)
    | InvalidBit(bit: char)
    | InvalidDecodingTree
    | NilTreePanic

  function Pow2(n: nat): (r: nat)
    ensures r >= 1
  {
    if n == 0 then 1 else 2 * Pow2(n - 1)
  }

  predicate IsBit(c: char) {
    c == '0' || c == '1'
  }

  predicate IsBinary(s: seq<char>) {
    forall i :: 0 <= i < |s| ==> IsBit(s[i])
  }

  /** The number a binary string denotes, most significant bit first. */
  function BitsValue(s: seq<char>): (v: nat)
    ensures v < Pow2(|s|)
  {
    if s == [] then 0
    else 2 * BitsValue(s[..|s| - 1]) + (if s[|s| - 1] == '1' then 1 else 0)
  }

  /** n written in binary on exactly w digits, zero-padded on the left
      (fmt.Sprintf("%08b") for w = 8, "%016b" for w = 16). */
  function FixedBits(n: nat, w: nat): (r: seq<char>)
    requires n < Pow2(w)
    ensures |r| == w && IsBinary(r) && BitsValue(r) == n
  {
    if w == 0 then []
    else
      var r := FixedBits(n / 2, w - 1) + [if n % 2 == 1 then '1' else '0'];
      assert r[..|r| - 1] == FixedBits(n / 2, w - 1);
      r
  }

  /** A binary string is the fixed-width rendering of its own value. */
  lemma {:induction false} FixedBitsOfValue(s: seq<char>)
    requires IsBinary(s)
    ensures FixedBits(BitsValue(s), |s|) == s
  {
    if s != [] {
      var init := s[..|s| - 1];
      assert BitsValue(s) / 2 == BitsValue(init);
      FixedBitsOfValue(init);
    }
  }

  /** fmt.Sprintf("%08b", b): the eight bits of a byte, MSB first. */
  function ByteBits(b: byte): (r: seq<char>)
    ensures |r| == 8 && IsBinary(r) && BitsValue(r) == b
  {
    FixedBits(b, 8)
  }

  /** strconv.ParseUint(s, 2, 8): fails on an empty string, on any character
      that is not a binary digit, and on a value that does not fit 8 bits. */
  function ParseByte(s: seq<char>): Option<byte> {
    if |s| > 0 && IsBinary(s) && BitsValue(s) < 256 then Some(BitsValue(s)) else None
  }

  /** Eight characters fail to parse exactly when they are not all binary
      digits: eight binary digits always fit a byte. */
  lemma ParseOctet(s: seq<char>)
    requires |s| == 8
    ensures ParseByte(s).None? <==> !IsBinary(s)
  {
    assert Pow2(2) == 4;
    assert Pow2(4) == 16 by { assert Pow2(3) == 8; }
    assert Pow2(8) == 256 by { assert Pow2(6) == 64 by { assert Pow2(5) == 32; } assert Pow2(7) == 128; }
  }

  /** Formatting a byte and parsing it back are inverse. */
  lemma {:induction false} ParseByteBits(b: byte, s: seq<char>)
    ensures ParseByte(ByteBits(b)) == Some(b)
    ensures |s| == 8 && ParseByte(s).Some? ==> ByteBits(ParseByte(s).value) == s
  {
    if |s| == 8 && ParseByte(s).Some? {
      FixedBitsOfValue(s);
    }
  }

  /** The bit string of a byte sequence: each byte expanded MSB first. */
  function Expand(p: seq<byte>): (r: seq<char>)
    ensures |r| == 8 * |p| && IsBinary(r)
  {
    if p == [] then [] else ByteBits(p[0]) + Expand(p[1..])
  }

  lemma {:induction false} ExpandAppend(p: seq<byte>, q: seq<byte>)
    ensures Expand(p + q) == Expand(p) + Expand(q)
  {
    if p != [] {
      assert (p + q)[1..] == p[1..] + q;
      ExpandAppend(p[1..], q);
    } else {
      assert p + q == q;
    }
  }

  /** Packs a whole number of binary octets into bytes, MSB first. */
  function Pack(s: seq<char>): (p: seq<byte>)
    requires IsBinary(s) && |s| % 8 == 0
    ensures |p| == |s| / 8
  {
    if s == [] then [] else [BitsValue(s[..8])] + Pack(s[8..])
  }

  /** Packing and expanding are inverse on both sides. */
  lemma {:induction false} ExpandPack(s: seq<char>)
    requires IsBinary(s) && |s| % 8 == 0
    ensures Expand(Pack(s)) == s
  {
    if s != [] {
      FixedBitsOfValue(s[..8]);
      ExpandPack(s[8..]);
      assert s == s[..8] + s[8..];
    }
  }

  lemma {:induction false} PackExpand(p: seq<byte>)
    ensures Pack(Expand(p)) == p
  {
    if p != [] {
      var e := Expand(p);
      assert e[..8] == ByteBits(p[0]);
      assert e[8..] == Expand(p[1..]);
      PackExpand(p[1..]);
    }
  }

  lemma {:induction false} PackAppend(a: seq<char>, b: seq<char>)
    requires IsBinary(a) && |a| % 8 == 0 && IsBinary(b) && |b| % 8 == 0
    ensures IsBinary(a + b) && Pack(a + b) == Pack(a) + Pack(b)
  {
    if a != [] {
      assert (a + b)[..8] == a[..8];
      assert (a + b)[8..] == a[8..] + b;
      PackAppend(a[8..], b);
    } else {
      assert a + b == b;
    }
  }

  /** Concatenation is associative, element by element. */
  lemma Concat3<T>(a: seq<T>, b: seq<T>, c: seq<T>)
    ensures a + b + c == a + (b + c)
  {
    var x, y := a + b + c, a + (b + c);
    forall i | 0 <= i < |x| ensures x[i] == y[i] {
      if i < |a| { } else if i < |a| + |b| { } else { }
    }
  }

  /** binary.BigEndian.PutUint16. */
  function BigEndian16(n: uint16): (r: seq<byte>)
    ensures |r| == 2 && FromBigEndian16(r[0], r[1]) == n
  {
    [n / 256, n % 256]
  }

  /** binary.BigEndian.Uint16. */
  function FromBigEndian16(hi: byte, lo: byte): uint16 {
    hi * 256 + lo
  }

  /** uint16 decrement, wrapping 0 to 65535 as Go does. */
  function Dec16(n: uint16): (r: uint16)
    ensures n > 0 ==> r == n - 1
    ensures n == 0 ==> r == 0xFFFF
  {
    (n - 1) % 0x1_0000
  }
}
