/** The standalone prototype encoder of main/main.go.  It shares the
    priority queue (module PriorityQueue), buildEncodingTree (TreeBuilder),
    buildEncodingMap and padToByte (Encoder) with the library, and the
    encodeBytes of io.go (LegacyIo).  What is its own is the chunk header, a
    bit string holding the longest code length, a tag-less pre-order tree and
    the data size, written through the same seven-step encodeBytes. */
module Prototype {
  import opened Bits
  import opened HuffmanTree
  import TreeBuilder
  import Encoder
  import LegacyIo

  // ---------------------------------------------------------------------
  // sizeString and fmt's zero-padded %b

  /** sizeString: the format "%0" + size + "b", whose digits spell size. */
  function SizeString(size: uint16): (f: seq<char>)
    ensures |f| >= 4 && f[..2] == "%0" && f[|f| - 1] == 'b'
    ensures forall i :: 2 <= i < |f| - 1 ==> '0' <= f[i] <= '9'
    ensures DecimalValue(f[2..|f| - 1]) == size
  {
    var f := "%0" + Decimal(size) + "b";
    assert f[2..|f| - 1] == Decimal(size);
    f
  }

  /** fmt's %b of v: its binary digits, "0" for zero, no leading zero. */
  function Binary(v: nat): (r: seq<char>)
    ensures 1 <= |r| && IsBinary(r) && BitsValue(r) == v
    ensures |r| > 1 ==> Pow2(|r| - 1) <= v
  {
    var last := [if v % 2 == 1 then '1' else '0'];
    if v < 2 then
      assert last[..0] == [];
      last
    else
      var r := Binary(v / 2) + last;
      assert r[..|r| - 1] == Binary(v / 2);
      r
  }

  /** What the format sizeString(w) makes of v: its binary digits with zeros
      in front up to w digits; a longer rendering is kept whole. */
  function Formatted(v: nat, w: nat): (r: seq<char>)
    ensures |r| == if w <= |Binary(v)| then |Binary(v)| else w
    ensures IsBinary(r) && BitsValue(r) == v
  {
    var b := Binary(v);
    if w <= |b| then b
    else
      LeadingZeros(w - |b|, b);
      Encoder.Fill('0', w - |b|) + b
  }

  /** Zeros in front change neither the value nor binary-ness. */
  lemma {:induction false} LeadingZeros(n: nat, s: seq<char>)
    requires IsBinary(s)
    ensures IsBinary(Encoder.Fill('0', n) + s)
    ensures BitsValue(Encoder.Fill('0', n) + s) == BitsValue(s)
    decreases |s|
  {
    var z := Encoder.Fill('0', n);
    if s == [] {
      assert z + s == z;
      LegacyIo.Repeated('0', n);
    } else {
      var init := s[..|s| - 1];
      LeadingZeros(n, init);
      assert (z + s)[..|z + s| - 1] == z + init;
    }
  }

  lemma {:induction false} Pow2Monotone(a: nat, b: nat)
    requires a <= b
    ensures Pow2(a) <= Pow2(b)
    decreases b
  {
    if a < b {
      Pow2Monotone(a, b - 1);
    }
  }

  /** A value that fits w bits is formatted as exactly w digits: the same
      string as the fixed-width %016b / %08b rendering. */
  lemma FormattedFits(v: nat, w: nat)
    requires 1 <= w && v < Pow2(w)
    ensures Formatted(v, w) == FixedBits(v, w)
  {
    var b := Binary(v);
    if |b| > w {
      Pow2Monotone(w, |b| - 1);
    }
    FixedBitsOfValue(Formatted(v, w));
  }

  // ---------------------------------------------------------------------
  // buildHeader

  /** buildHeader: a nil tree adds nothing, a leaf its value formatted to
      width w (no tag), any other node '0', then its left and its right
      subtree.  What header held already is kept in front. */
  function BuildHeader(header: seq<char>, t: Tree, w: nat): (r: seq<char>)
    ensures |header| <= |r| && r[..|header|] == header
    decreases t
  {
    if t.Nil? then header
    else if IsLeaf(t) then header + Formatted(t.value, w)
    else
      var l := BuildHeader(header + "0", t.left, w);
      var r := BuildHeader(l, t.right, w);
      assert r[..|header|] == r[..|l|][..|header|];
      r
  }

  /** The tree part of the header on its own, in pre-order. */
  function TreeBits(t: Tree, w: nat): (r: seq<char>)
    ensures IsBinary(r)
  {
    if t.Nil? then []
    else if IsLeaf(t) then Formatted(t.value, w)
    else
      Encoder.BinaryConcat("0", TreeBits(t.left, w));
      Encoder.BinaryConcat("0" + TreeBits(t.left, w), TreeBits(t.right, w));
      "0" + TreeBits(t.left, w) + TreeBits(t.right, w)
  }

  /** buildHeader appends the pre-order tree bits to what header held. */
  lemma {:induction false} BuildHeaderAppends(header: seq<char>, t: Tree, w: nat)
    ensures BuildHeader(header, t, w) == header + TreeBits(t, w)
    decreases t
  {
    if t.Node? && !IsLeaf(t) {
      var a, b := TreeBits(t.left, w), TreeBits(t.right, w);
      BuildHeaderAppends(header + "0", t.left, w);
      BuildHeaderAppends(header + "0" + a, t.right, w);
      Concat3(header, "0", a);
      Concat3(header, "0" + a, b);
    }
  }

  /** When every leaf value fits w bits, each leaf takes exactly w digits and
      each other node one, so the tree part is w digits per leaf plus one per
      branch. */
  lemma {:induction false} TreeBitsLength(t: Tree, w: nat)
    requires 1 <= w && forall v :: v in Leaves(t) ==> v < Pow2(w)
    ensures |TreeBits(t, w)| == BranchCount(t) + w * LeafCount(t)
    decreases t
  {
    if t.Nil? {
      assert w * LeafCount(t) == 0;
    } else if IsLeaf(t) {
      assert t.value in Leaves(t);
      FormattedFits(t.value, w);
      assert w * LeafCount(t) == w;
    } else {
      ChildLeaves(t, w);
      TreeBitsLength(t.left, w);
      TreeBitsLength(t.right, w);
      BranchLength(t, w);
    }
  }

  /** The leaves of both children of a node are leaves of the node. */
  lemma ChildLeaves(t: Tree, w: nat)
    requires t.Node? && !IsLeaf(t) && forall v :: v in Leaves(t) ==> v < Pow2(w)
    ensures forall v :: v in Leaves(t.left) ==> v < Pow2(w)
    ensures forall v :: v in Leaves(t.right) ==> v < Pow2(w)
  {
    var l, r := Leaves(t.left), Leaves(t.right);
    assert Leaves(t) == l + r;
    forall v | v in l ensures v < Pow2(w) { assert v in l + r; }
    forall v | v in r ensures v < Pow2(w) { assert v in l + r; }
  }

  /** A branch takes one digit more than its two subtrees. */
  lemma BranchLength(t: Tree, w: nat)
    requires t.Node? && !IsLeaf(t)
    requires |TreeBits(t.left, w)| == BranchCount(t.left) + w * LeafCount(t.left)
    requires |TreeBits(t.right, w)| == BranchCount(t.right) + w * LeafCount(t.right)
    ensures |TreeBits(t, w)| == BranchCount(t) + w * LeafCount(t)
  {
    var a, b := TreeBits(t.left, w), TreeBits(t.right, w);
    assert TreeBits(t, w) == "0" + a + b;
    assert BranchCount(t) == 1 + BranchCount(t.left) + BranchCount(t.right);
    Distribute(w, LeafCount(t.left), LeafCount(t.right), LeafCount(t));
  }

  lemma Distribute(w: nat, a: nat, b: nat, c: nat)
    requires c == a + b
    ensures w * c == w * a + w * b
  {
  }

  /** Without leaf tags the header does not determine the tree: two trees
      with different shapes and leaves give the same bits at width 2. */
  lemma AmbiguousHeader(p0: Tree, p1: Tree, p2: Tree, p3: Tree, a: Tree, b: Tree)
    requires p0.Node? && IsLeaf(p0) && p0.value == 0 && p1.Node? && IsLeaf(p1) && p1.value == 1
    requires p2.Node? && IsLeaf(p2) && p2.value == 2 && p3.Node? && IsLeaf(p3) && p3.value == 3
    requires a == Node(0, Node(0, p2, p0), p3) && b == Node(0, p1, Node(0, p0, p3))
    ensures a != b && TreeBits(a, 2) == TreeBits(b, 2)
  {
    var ta := LeftHeavy(p0, p2, p3, a);
    var tb := RightHeavy(p0, p1, p3, b);
    assert ta == tb;
  }

  lemma LeftHeavy(p0: Tree, p2: Tree, p3: Tree, a: Tree) returns (bits: seq<char>)
    requires p0.Node? && IsLeaf(p0) && p0.value == 0
    requires p2.Node? && IsLeaf(p2) && p2.value == 2 && p3.Node? && IsLeaf(p3) && p3.value == 3
    requires a == Node(0, Node(0, p2, p0), p3)
    ensures bits == TreeBits(a, 2) == "0" + ("0" + "10" + "00") + "11"
  {
    var x := BranchBits(a.left, "10", "00");
    bits := BranchBits(a, x, "11");
  }

  lemma RightHeavy(p0: Tree, p1: Tree, p3: Tree, b: Tree) returns (bits: seq<char>)
    requires p0.Node? && IsLeaf(p0) && p0.value == 0 && p1.Node? && IsLeaf(p1) && p1.value == 1
    requires p3.Node? && IsLeaf(p3) && p3.value == 3
    requires b == Node(0, p1, Node(0, p0, p3))
    ensures bits == TreeBits(b, 2) == "0" + "01" + ("0" + "00" + "11")
  {
    var y := BranchBits(b.right, "00", "11");
    bits := BranchBits(b, "01", y);
  }

  /** The tree bits of a branch whose children's bits are known. */
  lemma BranchBits(t: Tree, l: seq<char>, r: seq<char>) returns (bits: seq<char>)
    requires t.Node? && !IsLeaf(t)
    requires t.left.Node? && IsLeaf(t.left) ==> |l| == 2 && IsBinary(l) && BitsValue(l) == t.left.value
    requires t.right.Node? && IsLeaf(t.right) ==> |r| == 2 && IsBinary(r) && BitsValue(r) == t.right.value
    requires !(t.left.Node? && IsLeaf(t.left)) ==> TreeBits(t.left, 2) == l
    requires !(t.right.Node? && IsLeaf(t.right)) ==> TreeBits(t.right, 2) == r
    ensures bits == TreeBits(t, 2) == "0" + l + r
  {
    if t.left.Node? && IsLeaf(t.left) {
      LeafBits(t.left.value, l);
    }
    if t.right.Node? && IsLeaf(t.right) {
      LeafBits(t.right.value, r);
    }
    bits := "0" + l + r;
  }

  /** A leaf whose value has two binary digits takes exactly those. */
  lemma LeafBits(v: byte, digits: seq<char>)
    requires |digits| == 2 && IsBinary(digits) && BitsValue(digits) == v
    ensures TreeBits(Node(v, Nil, Nil), 2) == digits
  {
    var t := Node(v, Nil, Nil);
    assert TreeBits(t, 2) == Formatted(v, 2);
    assert v < Pow2(|digits|);
    FormattedFits(v, |digits|);
    FixedBitsOfValue(digits);
  }

  // ---------------------------------------------------------------------
  // writeChunkHeader

  lemma Pow2Sixteen()
    ensures Pow2(16) == 0x1_0000
  {
    assert Pow2(4) == 16 by { assert Pow2(2) == 4; }
    assert Pow2(8) == 256 by { assert Pow2(6) == 64; }
    assert Pow2(12) == 4096 by { assert Pow2(10) == 1024; }
  }

  /** The bit string writeChunkHeader builds: bitSize on sixteen digits, the
      header of the tree at width bitSize, dataSize on sixteen digits. */
  function HeaderBits(t: Tree, bitSize: uint16, dataSize: uint16): (r: seq<char>)
    ensures IsBinary(r) && |r| >= 32
  {
    Pow2Sixteen();
    var h := BuildHeader(FixedBits(bitSize, 16), t, bitSize);
    BuildHeaderAppends(FixedBits(bitSize, 16), t, bitSize);
    Encoder.BinaryConcat(FixedBits(bitSize, 16), TreeBits(t, bitSize));
    Encoder.BinaryConcat(h, FixedBits(dataSize, 16));
    h + FixedBits(dataSize, 16)
  }

  /** The header bits are bitSize, the pre-order tree and dataSize, each
      readable back from its place. */
  lemma HeaderLayout(t: Tree, bitSize: uint16, dataSize: uint16)
    ensures var r, n := HeaderBits(t, bitSize, dataSize), |TreeBits(t, bitSize)|;
            && |r| == 32 + n
            && BitsValue(r[..16]) == bitSize
            && r[16..16 + n] == TreeBits(t, bitSize)
            && BitsValue(r[16 + n..]) == dataSize
  {
    Pow2Sixteen();
    var hi, tb, lo := FixedBits(bitSize, 16), TreeBits(t, bitSize), FixedBits(dataSize, 16);
    BuildHeaderAppends(hi, t, bitSize);
    var r := HeaderBits(t, bitSize, dataSize);
    assert r == hi + tb + lo;
    assert r[..16] == hi && r[16..16 + |tb|] == tb && r[16 + |tb|..] == lo;
  }

  /** writeChunkHeader: builds the header bits (the data size appended digit
      by digit), pads them with '1' to whole octets and hands them to the
      seven-step encodeBytes, whose leftover is dropped.  The bits are
      binary, so no error is returned. */
  method WriteChunkHeader(t: Tree, bitSize: uint16, dataSize: uint16) returns (written: seq<byte>, err: Option<Error>)
    ensures err == None
    ensures IsBinary(Encoder.Padded(HeaderBits(t, bitSize, dataSize), '1'))
    ensures written == LegacyIo.Slide(Encoder.Padded(HeaderBits(t, bitSize, dataSize), '1'))
  {
    Pow2Sixteen();
    var header := FixedBits(bitSize, 16);
    header := BuildHeader(header, t, bitSize);
    ghost var tree := header;
    var digits := FixedBits(dataSize, 16);
    var i := 0;
    while i < |digits|
      invariant 0 <= i <= |digits| && header == tree + digits[..i]
    {
      header := header + [digits[i]];
      i := i + 1;
      assert digits[..i] == digits[..i - 1] + [digits[i - 1]];
    }
    assert header == HeaderBits(t, bitSize, dataSize);
    written, err := [], None;
    Encoder.PaddedBinary(header, '1');
    if |header| > 0 {
      header := Encoder.PadToByte(header, '1');
      var rest;
      rest, written, err := LegacyIo.EncodeBytes(header);
    }
  }

  // ---------------------------------------------------------------------
  // The longest code

  /** n is the longest code length of m, or 0 for an empty table. */
  ghost predicate IsMaxLength(m: map<byte, seq<char>>, n: nat) {
    && (forall v :: v in m ==> |m[v]| <= n)
    && (n == 0 || exists v :: v in m && |m[v]| == n)
  }

  /** The longest code length is well defined. */
  lemma MaxLengthUnique(m: map<byte, seq<char>>, a: nat, b: nat)
    requires IsMaxLength(m, a) && IsMaxLength(m, b)
    ensures a == b
  {
  }

  /** The maxSize loop of EncodeChunk over the code table. */
  method MaxCodeLength(m: map<byte, seq<char>>) returns (maxSize: nat)
    ensures IsMaxLength(m, maxSize)
  {
    maxSize := 0;
    var todo := m.Keys;
    while todo != {}
      invariant todo <= m.Keys
      invariant forall v :: v in m && v !in todo ==> |m[v]| <= maxSize
      invariant maxSize == 0 || exists v :: v in m && |m[v]| == maxSize
      decreases todo
    {
      var v :| v in todo;
      if |m[v]| > maxSize {
        maxSize := |m[v]|;
      }
      todo := todo - {v};
    }
  }

  /** Below a well-formed tree reached by prefix, no code is longer than the
      prefix plus the number of leaves less one. */
  lemma {:induction false} CodeLengthBound(prefix: seq<char>, t: Tree)
    requires WellFormed(t)
    ensures forall v :: v in Encoder.Codes(prefix, t) ==> |Encoder.Codes(prefix, t)[v]| < |prefix| + LeafCount(t)
    decreases t
  {
    if !IsLeaf(t) {
      LeavesAndBranches(t.left);
      LeavesAndBranches(t.right);
      CodeLengthBound(prefix + "0", t.left);
      CodeLengthBound(prefix + "1", t.right);
    }
  }

  /** The longest code of a built tree is below 256, so Go's uint16
      conversion keeps it. */
  lemma MaxLengthSmall(t: Tree, x: seq<byte>, n: nat)
    requires Encoder.BuiltFor(t, x) && IsMaxLength(Encoder.Codes([], t), n)
    ensures n < 256
  {
    Encoder.HeaderSize(t);
    CodeLengthBound([], t);
    if n > 0 {
      var v :| v in Encoder.Codes([], t) && |Encoder.Codes([], t)[v]| == n;
    }
  }

  // ---------------------------------------------------------------------
  // EncodeChunk

  /** The bytes the seven-step loop writes for the bits, followed by those it
      writes for the leftover once that is padded with '0'. */
  function Flushed(bits: seq<char>): (p: seq<byte>)
    requires IsBinary(bits)
  {
    var rest := LegacyIo.Leftover(bits);
    LegacyIo.LeftoverBinary(bits);
    Encoder.PaddedBinary(rest, '0');
    LegacyIo.Slide(bits) + LegacyIo.Slide(Encoder.Padded(rest, '0'))
  }

  /** The payload bytes: the seven-step windows over the code bits, then,
      once the input is done, those over the leftover padded with '0'. */
  function Payload(m: map<byte, seq<char>>, x: seq<byte>): (p: seq<byte>)
    requires Encoder.Encodable(m, x) && forall v :: v in m ==> IsBinary(m[v])
  {
    Encoder.CodeBitsBinary(m, x);
    Flushed(Encoder.CodeBits(m, x))
  }

  /** Flushing the leftover writes the seven-step windows over the whole bits
      with as many '0' after them as the leftover needed to reach an octet. */
  lemma FlushedSlides(bits: seq<char>)
    requires IsBinary(bits)
    ensures var rest := LegacyIo.Leftover(bits);
            var zeros := Encoder.Fill('0', |Encoder.Padded(rest, '0')| - |rest|);
            IsBinary(bits + zeros) && Flushed(bits) == LegacyIo.Slide(bits + zeros)
  {
    var rest := LegacyIo.Leftover(bits);
    var zeros := Encoder.Fill('0', |Encoder.Padded(rest, '0')| - |rest|);
    assert Encoder.Padded(rest, '0') == rest + zeros;
    LegacyIo.Repeated('0', |zeros|);
    LegacyIo.SlideAppend(bits, zeros);
  }

  /** The payload loop of the prototype's EncodeChunk: append each byte's
      code, let the seven-step encodeBytes write what it can and carry its
      leftover on; at the end pad the leftover with '0' and write it too. */
  method EncodePayload(m: map<byte, seq<char>>, input: seq<byte>) returns (payload: seq<byte>, err: Option<Error>)
    requires Encoder.Encodable(m, input) && forall v :: v in m ==> IsBinary(m[v])
    ensures err == None && payload == Payload(m, input)
  {
    payload, err := [], None;
    var buf: seq<char> := [];
    var i := 0;
    while i < |input|
      invariant 0 <= i <= |input| && err == None
      invariant Encoder.Encodable(m, input[..i]) && IsBinary(Encoder.CodeBits(m, input[..i]))
      invariant payload == LegacyIo.Slide(Encoder.CodeBits(m, input[..i]))
      invariant buf == LegacyIo.Leftover(Encoder.CodeBits(m, input[..i]))
    {
      var code := m[input[i]];
      PayloadStep(m, input, i);
      buf := buf + code;
      var out;
      buf, out, err := LegacyIo.EncodeBytes(buf);
      payload := payload + out;
      i := i + 1;
    }
    assert input[..i] == input;
    ghost var bits := Encoder.CodeBits(m, input);
    LegacyIo.LeftoverBinary(bits);
    Encoder.PaddedBinary(buf, '0');
    if |buf| > 0 {
      buf := Encoder.PadToByte(buf, '0');
      var rest, out, e := LegacyIo.EncodeBytes(buf);
      payload := payload + out;
    } else {
      assert Encoder.Padded(buf, '0') == [];
    }
  }

  /** One more input byte: its code joins the bits, and the loop's bytes and
      leftover over the carried leftover plus the code continue those over
      the bits so far. */
  lemma PayloadStep(m: map<byte, seq<char>>, x: seq<byte>, i: nat)
    requires Encoder.Encodable(m, x) && (forall v :: v in m ==> IsBinary(m[v])) && i < |x|
    ensures Encoder.Encodable(m, x[..i]) && Encoder.Encodable(m, x[..i + 1])
    ensures var bits := Encoder.CodeBits(m, x[..i]);
            var next := Encoder.CodeBits(m, x[..i + 1]);
            && IsBinary(bits) && IsBinary(next)
            && IsBinary(LegacyIo.Leftover(bits) + m[x[i]])
            && LegacyIo.Slide(next) == LegacyIo.Slide(bits) + LegacyIo.Slide(LegacyIo.Leftover(bits) + m[x[i]])
            && LegacyIo.Leftover(next) == LegacyIo.Leftover(LegacyIo.Leftover(bits) + m[x[i]])
  {
    var a, y := x[..i], x[i];
    assert x[..i + 1] == a + [y];
    Encoder.CodeBitsAppend(m, a, [y]);
    Encoder.CodeBitsOne(m, y);
    Encoder.CodeBitsBinary(m, a);
    LegacyIo.SlideAppend(Encoder.CodeBits(m, a), m[y]);
  }

  /** The bytes the prototype's EncodeChunk writes for block x with tree t
      whose longest code has length width. */
  ghost function ChunkBytes(t: Tree, width: nat, x: seq<byte>): seq<byte>
    requires Encoder.BuiltFor(t, x) && IsMaxLength(Encoder.Codes([], t), width)
  {
    MaxLengthSmall(t, x, width);
    Encoder.BuiltForEncodable(t, x);
    LegacyIo.Slide(Encoder.Padded(HeaderBits(t, width, |x| % 0x1_0000), '1'))
      + Payload(Encoder.Codes([], t), x)
  }

  /** EncodeChunk of main/main.go: the tree and the code table as in the
      library, the longest code length, the chunk header (whose error Go
      ignores), then the payload. */
  method EncodeChunk(input: seq<byte>) returns (written: seq<byte>, err: Option<Error>, ghost tree: Tree, ghost width: nat)
    requires |input| > 0
    ensures err == None && Encoder.BuiltFor(tree, input) && IsMaxLength(Encoder.Codes([], tree), width)
    ensures written == ChunkBytes(tree, width, input)
  {
    var root := TreeBuilder.BuildEncodingTree(input);
    tree := root.tree;
    var m := Encoder.BuildEncodingMap(map[], [], root.tree);
    assert m == Encoder.Codes([], tree);
    var maxSize := MaxCodeLength(m);
    width := maxSize;
    MaxLengthSmall(tree, input, maxSize);
    Encoder.BuiltForEncodable(tree, input);
    var header, e := WriteChunkHeader(root.tree, maxSize, |input| % 0x1_0000);
    var payload;
    payload, err := EncodePayload(m, input);
    written := header + payload;
  }
}
