/** The encodeBytes of io.go, which the prototype in main/main.go repeats
    word for word: it parses the first eight characters of the bit buffer
    but drops only seven of them, so consecutive windows share a character.
    The padToByte beside it in io.go is the same code as that of encode.go
    and is modelled by Encoder.PadToByte. */
module LegacyIo {
  import opened Bits
  import Encoder

  /** How many times the loop runs on a buffer of n characters: once for
      every start 0, 7, 14, ... that still leaves more than seven characters.
      From eight characters on, between one and seven are left over. */
  function Windows(n: nat): (k: nat)
    ensures n <= 7 ==> k == 0
    ensures n >= 8 ==> 1 <= k && 1 <= n - 7 * k <= 7
  {
    if n <= 7 then 0 else (n - 1) / 7
  }

  /** The eight characters the k-th pass parses. */
  function Window(bits: seq<char>, k: nat): (s: seq<char>)
    requires 7 * k + 8 <= |bits|
    ensures |s| == 8
  {
    bits[7 * k..7 * k + 8]
  }

  /** What is left once every window has been taken. */
  function Leftover(bits: seq<char>): (r: seq<char>)
    ensures |bits| <= 7 ==> r == bits
    ensures |bits| >= 8 ==> 1 <= |r| <= 7
  {
    bits[7 * Windows(|bits|)..]
  }

  /** The byte eight binary digits denote. */
  function Octet(s: seq<char>): (b: byte)
    requires |s| == 8 && IsBinary(s)
    ensures ParseByte(s) == Some(b)
  {
    ParseOctet(s);
    ParseByte(s).value
  }

  /** What a binary buffer leaves over is binary. */
  lemma LeftoverBinary(bits: seq<char>)
    requires IsBinary(bits)
    ensures IsBinary(Leftover(bits))
  {
    var r := Leftover(bits);
    assert forall i :: 0 <= i < |r| ==> r[i] == bits[7 * Windows(|bits|) + i];
  }

  /** The bytes the loop writes for a binary buffer: one per window. */
  function Slide(bits: seq<char>): (out: seq<byte>)
    requires IsBinary(bits)
    ensures |out| == Windows(|bits|)
    ensures forall k :: 0 <= k < |out| ==> ParseByte(Window(bits, k)) == Some(out[k])
  {
    seq(Windows(|bits|), k requires 0 <= k < Windows(|bits|) => Octet(Window(bits, k)))
  }

  /** encodeBytes of io.go: while more than seven characters are left, parse
      the first eight, drop seven and write the byte.  A window that is not
      binary stops the loop with ParseUint's error before its byte is
      written; the remainder returned then is the eight characters after the
      seven just dropped. */
  method EncodeBytes(bits: seq<char>) returns (rest: seq<char>, out: seq<byte>, err: Option<Error>)
    ensures |out| <= Windows(|bits|)
    ensures forall k :: 0 <= k < |out| ==> ParseByte(Window(bits, k)) == Some(out[k])
    ensures err.None? <==> forall k :: 0 <= k < Windows(|bits|) ==> IsBinary(Window(bits, k))
    ensures err.None? ==> |out| == Windows(|bits|) && rest == Leftover(bits)
    ensures err.Some? ==> err == Some(ParseError) && |out| < Windows(|bits|) && !IsBinary(Window(bits, |out|))
    ensures err.Some? && 7 * |out| + 15 <= |bits| ==> rest == bits[7 * |out| + 7..7 * |out| + 15]
    ensures IsBinary(bits) ==> err.None? && out == Slide(bits)
  {
    rest, out, err := bits, [], None;
    while |rest| > 7
      invariant |out| <= Windows(|bits|) && rest == bits[7 * |out|..]
      invariant forall k :: 0 <= k < |out| ==> ParseByte(Window(bits, k)) == Some(out[k])
    {
      var s := rest[..8];
      assert s == Window(bits, |out|);
      rest := rest[7..];
      var b := ParseByte(s);
      if b.None? {
        ParseOctet(s);
        if |rest| >= 8 {
          rest := rest[..8];
        }
        return rest, out, Some(ParseError);
      }
      out := out + [b.value];
    }
    forall k | 0 <= k < Windows(|bits|)
      ensures IsBinary(Window(bits, k))
    {
      ParseOctet(Window(bits, k));
    }
  }

  /** Putting 7 * w characters in front of a buffer adds w windows, provided
      a window-less front would still leave at least one character. */
  lemma WindowsShift(w: nat, n: nat)
    requires w > 0 ==> n >= 1
    ensures Windows(7 * w + n) == w + Windows(n)
  {
    if w > 0 {
      assert (7 * w + n - 1) / 7 == w + (n - 1) / 7;
    }
  }

  /** Sliding over a + b writes the windows of a, then those of what a leaves
      over followed by b, and leaves what that leaves: carrying the leftover
      of one call into the next call loses and repeats nothing. */
  lemma SlideAppend(a: seq<char>, b: seq<char>)
    requires IsBinary(a) && IsBinary(b)
    ensures IsBinary(a + b) && IsBinary(Leftover(a) + b)
    ensures Slide(a + b) == Slide(a) + Slide(Leftover(a) + b)
    ensures Leftover(a + b) == Leftover(Leftover(a) + b)
  {
    var w, r := Windows(|a|), Leftover(a);
    var ab, rb := a + b, r + b;
    Encoder.BinaryConcat(a, b);
    Encoder.BinaryConcat(r, b);
    WindowsShift(w, |rb|);
    assert ab[7 * w..] == rb;
    var left, right := Slide(a), Slide(rb);
    var all := Slide(ab);
    assert |all| == |left| + |right|;
    forall k | 0 <= k < |all|
      ensures all[k] == (left + right)[k]
    {
      if k < w {
        WindowFront(a, b, k);
        assert (left + right)[k] == left[k];
      } else {
        WindowBack(ab, rb, w, k);
        assert (left + right)[k] == right[k - w];
      }
    }
  }

  /** A window inside a is unchanged by what follows a. */
  lemma WindowFront(a: seq<char>, b: seq<char>, k: nat)
    requires 7 * k + 8 <= |a|
    ensures 7 * k + 8 <= |a + b| && Window(a + b, k) == Window(a, k)
  {
    var x, y := Window(a + b, k), Window(a, k);
    forall i | 0 <= i < 8 ensures x[i] == y[i] {
      assert x[i] == (a + b)[7 * k + i];
    }
  }

  /** A window past the first w of ab is a window of what follows them. */
  lemma WindowBack(ab: seq<char>, rb: seq<char>, w: nat, k: nat)
    requires 7 * w <= |ab| && ab[7 * w..] == rb && w <= k && 7 * (k - w) + 8 <= |rb|
    ensures 7 * k + 8 <= |ab| && Window(ab, k) == Window(rb, k - w)
  {
    var x, y := Window(ab, k), Window(rb, k - w);
    forall i | 0 <= i < 8 ensures x[i] == y[i] {
      assert y[i] == rb[7 * (k - w) + i] == ab[7 * k + i];
    }
  }

  /** The sixteen bits of the bytes 0 and 255 come back from the loop as 0
      and 127 with "11" left over, where packing them whole gives 0 and 255. */
  lemma OverlappingWindows(bits: seq<char>)
    requires bits == "0000000011111111"
    ensures IsBinary(bits) && Slide(bits) == [0, 127] && Leftover(bits) == "11"
    ensures Pack(bits) == [0, 255]
  {
    var zeros, low, ones := bits[..8], bits[7..15], bits[8..];
    assert Window(bits, 0) == zeros && Window(bits, 1) == low;
    OctetValues(zeros, low, ones);
    var tail := bits[8..];
    assert tail[..8] == ones && tail[8..] == [];
    assert Pack(tail) == [255] + Pack(tail[8..]);
  }

  /** The values of three binary octets. */
  lemma OctetValues(zeros: seq<char>, low: seq<char>, ones: seq<char>)
    requires zeros == "00000000" && low == "01111111" && ones == "11111111"
    ensures BitsValue(zeros) == 0 && BitsValue(low) == 127 && BitsValue(ones) == 255
  {
    assert Pow2(8) == 256 by { ParseOctet(zeros); }
    Repeated('0', 8);
    Repeated('1', 8);
    LeadingZero(7);
    assert zeros == Encoder.Fill('0', 8) && ones == Encoder.Fill('1', 8) && low == ['0'] + Encoder.Fill('1', 7);
  }

  /** A run of n zeros denotes 0 and a run of n ones 2^n - 1. */
  lemma {:induction false} Repeated(c: char, n: nat)
    requires IsBit(c)
    ensures BitsValue(Encoder.Fill(c, n)) == if c == '0' then 0 else Pow2(n) - 1
  {
    if n > 0 {
      var r := Encoder.Fill(c, n);
      assert r[..n - 1] == Encoder.Fill(c, n - 1);
      Repeated(c, n - 1);
    }
  }

  /** A leading zero adds nothing to a run of ones. */
  lemma {:induction false} LeadingZero(n: nat)
    ensures BitsValue(['0'] + Encoder.Fill('1', n)) == Pow2(n) - 1
  {
    var r := ['0'] + Encoder.Fill('1', n);
    if n == 0 {
      assert r[..0] == [];
    } else {
      assert r[..n] == ['0'] + Encoder.Fill('1', n - 1);
      LeadingZero(n - 1);
    }
  }
}
