/** What the decoder makes of what the encoder writes: the header, one chunk
    and a whole stream round-trip for blocks holding at least two distinct
    byte values; a block of a single value is lost. */
module RoundTrip {
  import opened Bits
  import opened HuffmanTree
  import opened TreeBuilder
  import opened Encoder
  import opened Decoder

  lemma SliceThree(s: seq<byte>, pos: nat, a: seq<byte>, b: seq<byte>, c: seq<byte>)
    requires pos + |a| + |b| + |c| <= |s| && s[pos..pos + |a| + |b| + |c|] == a + b + c
    ensures s[pos..pos + |a|] == a && s[pos + |a|..pos + |a| + |b|] == b
    ensures s[pos + |a| + |b|..pos + |a| + |b| + |c|] == c
  {
    var w := a + b + c;
    SliceSub(s, pos, w, 0, |a|);
    SliceSub(s, pos, w, |a|, |a| + |b|);
    SliceSub(s, pos, w, |a| + |b|, |w|);
    assert w[..|a|] == a && w[|a|..|a| + |b|] == b && w[|a| + |b|..] == c;
  }

  lemma SliceSub(s: seq<byte>, pos: nat, c: seq<byte>, i: nat, j: nat)
    requires pos + |c| <= |s| && s[pos..pos + |c|] == c && i <= j <= |c|
    ensures s[pos + i..pos + j] == c[i..j]
  {
    forall k | 0 <= k < j - i
      ensures s[pos + i..pos + j][k] == c[i..j][k]
    {
      assert c[i + k] == s[pos..pos + |c|][i + k];
    }
  }

  // ---------------------------------------------------------------------
  // Headers

  /** The bytes of a branch's header: its tag, then its subtrees' headers. */
  lemma HeaderParts(t: Tree, s: seq<byte>, pos: nat, p2: nat)
    requires WellFormed(t) && !IsLeaf(t)
    requires pos + |Serialized(t)| <= |s| && s[pos..pos + |Serialized(t)|] == Serialized(t)
    requires p2 == pos + 1 + |Serialized(t.left)|
    ensures var hl, hr := Serialized(t.left), Serialized(t.right);
            && |Serialized(t)| == 1 + |hl| + |hr| && s[pos] == 0 && t.value == 0
            && s[pos + 1..pos + 1 + |hl|] == hl && p2 + |hr| <= |s| && s[p2..p2 + |hr|] == hr
  {
    SliceThree(s, pos, [0], Serialized(t.left), Serialized(t.right));
  }

  /** readHeader on a leaf: tag 1 and the value, costing 2. */
  lemma HeaderLeaf(t: Tree, s: seq<byte>, pos: nat, b: uint16)
    requires t.Node? && IsLeaf(t)
    requires pos + |Serialized(t)| <= |s| && s[pos..pos + |Serialized(t)|] == Serialized(t)
    requires 2 <= b as int
    ensures ReadHeader(s, pos, b) == HeaderOk(t, b - 2, pos + 2)
  {
    assert s[pos] == 1 && s[pos + 1] == t.value;
  }

  /** readHeader on a branch: tag 0, then the two subtrees, each read with
      the budget the one before left. */
  lemma HeaderBranch(t: Tree, s: seq<byte>, pos: nat, b: uint16, b1: uint16, p2: nat, b2: uint16, p3: nat, b3: uint16)
    requires t.Node? && t.value == 0 && pos < |s| && s[pos] == 0 && b > 0 && b1 as int == b as int - 1 && p2 <= |s|
    requires ReadHeader(s, pos + 1, b1) == HeaderOk(t.left, b2, p2)
    requires ReadHeader(s, p2, b2) == HeaderOk(t.right, b3, p3)
    ensures ReadHeader(s, pos, b) == HeaderOk(t, b3, p3)
  {
  }

  /** readHeader, given exactly the bytes buildHeader writes for a
      well-formed tree and at least their number as budget, rebuilds the
      tree, consumes exactly those bytes and leaves the surplus budget. */
  lemma {:induction false} HeaderRoundTrip(t: Tree, s: seq<byte>, pos: nat, b: uint16)
    requires WellFormed(t)
    requires pos + |Serialized(t)| <= |s| && s[pos..pos + |Serialized(t)|] == Serialized(t)
    requires |Serialized(t)| <= b as int
    ensures ReadHeader(s, pos, b) == HeaderOk(t, b - |Serialized(t)| as uint16, pos + |Serialized(t)|)
    decreases t
  {
    if IsLeaf(t) {
      HeaderLeaf(t, s, pos, b);
    } else {
      var hl, hr := Serialized(t.left), Serialized(t.right);
      var p2, p3 := pos + 1 + |hl|, pos + 1 + |hl| + |hr|;
      HeaderParts(t, s, pos, p2);
      var b1: uint16 := b - 1;
      var b2: uint16 := b1 - |hl| as uint16;
      var b3: uint16 := b2 - |hr| as uint16;
      HeaderRoundTrip(t.left, s, pos + 1, b1);
      assert ReadHeader(s, pos + 1, b1) == HeaderOk(t.left, b2, p2);
      HeaderRoundTrip(t.right, s, p2, b2);
      assert ReadHeader(s, p2, b2) == HeaderOk(t.right, b3, p3);
      HeaderBranch(t, s, pos, b, b1, p2, b2, p3, b3);
      assert b3 as int == b as int - |Serialized(t)|;
    }
  }

  lemma SmallMod(n: nat)
    requires n < 0x1_0000
    ensures n % 0x1_0000 == n
  {
  }

  lemma SliceAt(s: seq<byte>, pos: nat, c: seq<byte>, i: nat)
    requires pos + |c| <= |s| && s[pos..pos + |c|] == c && i < |c|
    ensures s[pos + i] == c[i]
  {
    assert s[pos + i] == s[pos..pos + |c|][i];
  }

  /** The data size sits in the last two bytes of the chunk header. */
  lemma DataSizeAt(t: Tree, d: uint16, s: seq<byte>, pos: nat)
    requires pos + |ChunkHeader(t, d)| <= |s| && s[pos..pos + |ChunkHeader(t, d)|] == ChunkHeader(t, d)
    ensures var e := pos + 2 + |BuildHeader([], t)|;
            e + 2 <= |s| && FromBigEndian16(s[e], s[e + 1]) == d
  {
    var h, c := BuildHeader([], t), ChunkHeader(t, d);
    SliceAt(s, pos, c, |h| + 2);
    SliceAt(s, pos, c, |h| + 3);
  }

  /** readChunkHeader on a stream whose header size, header and data size
      read as given. */
  lemma ChunkHeaderOk(s: seq<byte>, pos: nat, t: Tree, budget: uint16, left: uint16, e: nat, d: uint16)
    requires pos + 2 <= |s| && FromBigEndian16(s[pos], s[pos + 1]) == budget
    requires ReadHeader(s, pos + 2, budget) == HeaderOk(t, left, e)
    requires e + 2 <= |s| && FromBigEndian16(s[e], s[e + 1]) == d
    ensures ReadChunkHeader(s, pos) == ChunkOk(t, d, e + 2)
  {
  }

  /** The fields of a chunk header found in the stream. */
  lemma ChunkHeaderParts(t: Tree, d: uint16, s: seq<byte>, pos: nat)
    requires WellFormed(t) && forall x :: Leaves(t)[x] <= 1
    requires pos + |ChunkHeader(t, d)| <= |s| && s[pos..pos + |ChunkHeader(t, d)|] == ChunkHeader(t, d)
    ensures var h := Serialized(t);
            var e := pos + 2 + |h|;
            && |ChunkHeader(t, d)| == |h| + 4 && |h| < 0x1_0000
            && FromBigEndian16(s[pos], s[pos + 1]) == |h|
            && s[pos + 2..e] == h
            && FromBigEndian16(s[e], s[e + 1]) == d
  {
    var h, c := BuildHeader([], t), ChunkHeader(t, d);
    BuildHeaderSerializes([], t);
    assert [] + Serialized(t) == Serialized(t);
    HeaderSize(t);
    SmallMod(|h|);
    SliceAt(s, pos, c, 0);
    SliceAt(s, pos, c, 1);
    SliceSub(s, pos, c, 2, |h| + 2);
    DataSizeAt(t, d, s, pos);
  }

  /** readChunkHeader recovers the tree and the data size writeChunkHeader
      framed, for any tree buildEncodingTree can return. */
  lemma ChunkHeaderRoundTrip(t: Tree, d: uint16, s: seq<byte>, pos: nat) returns (p: nat)
    requires WellFormed(t) && forall x :: Leaves(t)[x] <= 1
    requires pos + |ChunkHeader(t, d)| <= |s| && s[pos..pos + |ChunkHeader(t, d)|] == ChunkHeader(t, d)
    ensures p == pos + |ChunkHeader(t, d)|
    ensures ReadChunkHeader(s, pos) == ChunkOk(t, d, p)
  {
    ChunkHeaderParts(t, d, s, pos);
    ChunkHeaderFromParts(t, d, s, pos);
    p := pos + |ChunkHeader(t, d)|;
  }

  lemma ChunkHeaderFromParts(t: Tree, d: uint16, s: seq<byte>, pos: nat)
    requires WellFormed(t)
    requires var h := Serialized(t);
             var e := pos + 2 + |h|;
             && e + 2 <= |s| && |h| < 0x1_0000
             && FromBigEndian16(s[pos], s[pos + 1]) == |h|
             && s[pos + 2..e] == h
             && FromBigEndian16(s[e], s[e + 1]) == d
    ensures ReadChunkHeader(s, pos) == ChunkOk(t, d, pos + |ChunkHeader(t, d)|)
  {
    var h := Serialized(t);
    BuildHeaderSerializes([], t);
    assert [] + h == h;
    HeaderRoundTrip(t, s, pos + 2, |h| as uint16);
    ChunkHeaderOk(s, pos, t, |h| as uint16, 0, pos + 2 + |h|, d);
  }

  // ---------------------------------------------------------------------
  // Walking the tree along codes

  /** On a path to a leaf, every node before the last bit is a branch. */
  lemma ChildOnPath(t: Tree, c: seq<char>)
    requires t.Node? && |c| >= 2 && Follow(t, c).Node? && IsLeaf(Follow(t, c))
    ensures Child(t, c[0]).Node? && !IsLeaf(Child(t, c[0]))
    ensures Follow(Child(t, c[0]), c[1..]) == Follow(t, c)
  {
    var next := Child(t, c[0]);
    FollowNil(c[1..]);
    FollowNil(c[2..]);
    assert c[1..][0] == c[1] && c[1..][1..] == c[2..];
    assert Follow(next, c[1..]) == Follow(Child(next, c[1]), c[2..]);
  }

  /** The range loop, fed a code that leads to a leaf, matches that leaf
      exactly when the code ends, whatever follows. */
  lemma {:induction false} ScanPath(node: Tree, buf: seq<char>, i: nat, c: seq<char>)
    requires node.Node? && c != [] && IsBinary(c)
    requires i + |c| <= |buf| && buf[i..i + |c|] == c
    requires Follow(node, c).Node? && IsLeaf(Follow(node, c))
    ensures Scan(node, buf, i) == Match(Follow(node, c).value, i + |c|)
    decreases |c|
  {
    assert buf[i] == c[0];
    if |c| > 1 {
      ChildOnPath(node, c);
      assert buf[i + 1..i + |c|] == c[1..];
      ScanPath(Child(node, c[0]), buf, i + 1, c[1..]);
    } else {
      assert Follow(node, c) == Follow(Child(node, c[0]), []);
    }
  }

  /** Fed only a proper prefix of such a code, it runs off the buffer. */
  lemma {:induction false} ScanPartial(node: Tree, buf: seq<char>, i: nat, c: seq<char>)
    requires node.Node? && IsBinary(c) && i <= |buf| && |buf| - i < |c|
    requires buf[i..] == c[..|buf| - i]
    requires Follow(node, c).Node? && IsLeaf(Follow(node, c))
    ensures Scan(node, buf, i) == NoMatch
    decreases |buf| - i
  {
    if i < |buf| {
      assert buf[i] == c[0];
      ChildOnPath(node, c);
      assert buf[i + 1..] == c[1..][..|buf| - (i + 1)];
      ScanPartial(Child(node, c[0]), buf, i + 1, c[1..]);
    }
  }

  /** The code of a byte in a tree whose root is a branch is a non-empty
      binary path to the leaf that holds the byte. */
  lemma CodeAt(t: Tree, v: byte)
    requires t.Node? && !IsLeaf(t) && v in Codes([], t)
    ensures var c := Codes([], t)[v];
            c != [] && IsBinary(c) && Follow(t, c) == Node(v, Nil, Nil)
  {
    CodesPaths([], t);
    assert Codes([], t)[v][0..] == Codes([], t)[v];
  }

  /** One pass of the tryAgain loop that finds a match. */
  lemma DrainMatch(t: Tree, buf: seq<char>, n: uint16, out: seq<byte>, v: byte, k: nat)
    requires Scan(t, buf, 0) == Match(v, k)
    ensures Drain(t, buf, n, out)
            == if n == 1 then Drained(buf[k..], 0, out + [v], None) else Drain(t, buf[k..], Dec16(n), out + [v])
  {
  }

  /** A pass of the tryAgain loop that finds no match ends it. */
  lemma DrainNoMatch(t: Tree, buf: seq<char>, n: uint16, out: seq<byte>)
    requires Scan(t, buf, 0) == NoMatch
    ensures Drain(t, buf, n, out) == Drained(buf, n, out, None)
  {
  }

  /** The tryAgain loop over the codes of ys followed by a tail emits ys and
      stops on the tail, either because the data size ran out or because the
      tail holds no complete code. */
  lemma {:induction false} DrainCodes(t: Tree, ys: seq<byte>, tail: seq<char>, n: uint16, out: seq<byte>)
    requires t.Node? && !IsLeaf(t) && Encodable(Codes([], t), ys)
    requires 1 <= n && |ys| <= n
    requires |ys| == n as int || Scan(t, tail, 0) == NoMatch
    ensures Drain(t, CodeBits(Codes([], t), ys) + tail, n, out) == Drained(tail, n - |ys|, out + ys, None)
  {
    var m := Codes([], t);
    if ys == [] {
      assert CodeBits(m, ys) + tail == tail;
      DrainNoMatch(t, tail, n, out);
      assert out + ys == out;
    } else {
      var y, ys', out' := ys[0], ys[1..], out + [ys[0]];
      var c := m[y];
      var rest := CodeBits(m, ys') + tail;
      var buf := c + rest;
      CodeAt(t, y);
      assert CodeBits(m, ys) == c + CodeBits(m, ys');
      Concat3(c, CodeBits(m, ys'), tail);
      ScanPath(t, buf, 0, c);
      assert buf[|c|..] == rest;
      DrainMatch(t, buf, n, out, y, |c|);
      assert out' + ys' == out + ys;
      if n == 1 {
        assert ys' == [] && rest == tail;
        assert Drain(t, buf, n, out) == Drained(tail, 0, out + ys, None);
      } else {
        var n': uint16 := n - 1;
        assert Dec16(n) == n';
        DrainCodes(t, ys', tail, n', out');
        assert Drain(t, buf, n, out) == Drain(t, rest, n', out');
      }
    }
  }

  /** The longest run of leading codes of ys that fits in L bits. */
  lemma {:induction false} MaxPrefix(m: map<byte, seq<char>>, ys: seq<byte>, L: nat) returns (k: nat)
    requires Encodable(m, ys)
    ensures k <= |ys| && |CodeBits(m, ys[..k])| <= L
    ensures k < |ys| ==> |CodeBits(m, ys[..k + 1])| > L
  {
    if ys == [] || |m[ys[0]]| > L {
      k := 0;
      assert ys[..0] == [];
      if ys != [] {
        assert CodeBits(m, ys[..1]) == m[ys[0]] + CodeBits(m, ys[..1][1..]);
      }
    } else {
      var k' := MaxPrefix(m, ys[1..], L - |m[ys[0]]|);
      k := k' + 1;
      assert ys[..k][1..] == ys[1..][..k'];
      if k < |ys| {
        assert ys[..k + 1][1..] == ys[1..][..k' + 1];
      }
    }
  }

  lemma ExpandFront(s: seq<byte>, p: nat, e: nat)
    requires p < e <= |s|
    ensures Expand(s[p..e]) == ByteBits(s[p]) + Expand(s[p + 1..e])
  {
    assert s[p..e][1..] == s[p + 1..e];
  }

  lemma CodeBitsFront(m: map<byte, seq<char>>, x: seq<byte>, j: nat)
    requires Encodable(m, x) && j < |x|
    ensures CodeBits(m, x[j..]) == m[x[j]] + CodeBits(m, x[j + 1..])
  {
    assert x[j..][1..] == x[j + 1..];
  }

  /** The state of DecodeChunk in the middle of a chunk: j bytes emitted,
      the buffer holds a strict prefix of the next code, and the unread
      payload bytes up to e hold the rest of the codes and the padding. */
  ghost predicate MidChunk(s: seq<byte>, p: nat, e: nat, t: Tree, x: seq<byte>, j: nat,
                           buf: seq<char>, pad: seq<char>)
  {
    && t.Node? && !IsLeaf(t) && Encodable(Codes([], t), x)
    && |x| < 0x1_0000 && j < |x| && p <= e <= |s| && |pad| < 8
    && buf + Expand(s[p..e]) == CodeBits(Codes([], t), x[j..]) + pad
    && |buf| < |Codes([], t)[x[j]]|
  }

  /** Splitting a buffer that starts the code bits of zs: the codes it
      holds whole, then a tail that is a strict prefix of the next code (or,
      once all of zs is whole, the start of the padding). */
  lemma PrefixSplit(m: map<byte, seq<char>>, zs: seq<byte>, buf: seq<char>, after: seq<char>, pad: seq<char>)
    returns (k: nat, tail: seq<char>)
    requires Encodable(m, zs) && buf + after == CodeBits(m, zs) + pad
    ensures k <= |zs| && buf == CodeBits(m, zs[..k]) + tail
    ensures tail + after == CodeBits(m, zs[k..]) + pad
    ensures k < |zs| ==> |tail| < |m[zs[k]]| && tail == m[zs[k]][..|tail|]
  {
    k := MaxPrefix(m, zs, |buf|);
    var done, later := CodeBits(m, zs[..k]), CodeBits(m, zs[k..]);
    assert zs == zs[..k] + zs[k..];
    CodeBitsAppend(m, zs[..k], zs[k..]);
    Concat3(done, later, pad);
    tail := SplitAfter(buf, after, done, later + pad);
    if k < |zs| {
      NextCode(m, zs, k, tail, after, pad);
    }
  }

  /** A buffer whose extension starts with done begins with done. */
  lemma SplitAfter(buf: seq<char>, after: seq<char>, done: seq<char>, rest: seq<char>) returns (tail: seq<char>)
    requires |done| <= |buf| && buf + after == done + rest
    ensures buf == done + tail && tail + after == rest
  {
    assert buf[..|done|] == (buf + after)[..|done|];
    tail := buf[|done|..];
    assert buf == done + tail;
    assert tail + after == (buf + after)[|done|..];
  }

  /** A tail too short for the next code is a strict prefix of it. */
  lemma NextCode(m: map<byte, seq<char>>, zs: seq<byte>, k: nat, tail: seq<char>, after: seq<char>, pad: seq<char>)
    requires Encodable(m, zs) && k < |zs| && tail + after == CodeBits(m, zs[k..]) + pad
    requires |CodeBits(m, zs[..k + 1])| > |CodeBits(m, zs[..k])| + |tail|
    ensures |tail| < |m[zs[k]]| && tail == m[zs[k]][..|tail|]
  {
    var c := m[zs[k]];
    assert zs[..k + 1] == zs[..k] + [zs[k]];
    CodeBitsAppend(m, zs[..k], [zs[k]]);
    assert CodeBits(m, [zs[k]]) == c + CodeBits(m, []);
    assert zs[k..][1..] == zs[k + 1..];
    assert CodeBits(m, zs[k..]) == c + CodeBits(m, zs[k + 1..]);
    assert tail == (tail + after)[..|tail|];
  }

  /** In the middle of a chunk some payload byte is still unread. */
  lemma PayloadAhead(s: seq<byte>, p: nat, e: nat, t: Tree, x: seq<byte>, j: nat,
                     buf: seq<char>, pad: seq<char>)
    requires MidChunk(s, p, e, t, x, j, buf, pad)
    ensures p < e
  {
    var m := Codes([], t);
    CodeBitsFront(m, x, j);
    var total := |CodeBits(m, x[j..])|;
    assert total >= |m[x[j]]| > |buf|;
    assert |buf| + 8 * (e - p) == total + |pad|;
  }

  /** One byte of payload: decode the codes it completes; either the chunk
      is done exactly at the end of the payload or the decoder is again in
      the middle of the chunk. */
  lemma ChunkStep(s: seq<byte>, p: nat, e: nat, t: Tree, x: seq<byte>, j: nat,
                  buf: seq<char>, pad: seq<char>)
    returns (j': nat, tail: seq<char>)
    requires MidChunk(s, p, e, t, x, j, buf, pad)
    ensures p < e && j <= j' <= |x|
    ensures Drain(t, buf + ByteBits(s[p]), (|x| - j) as uint16, x[..j])
            == Drained(tail, (|x| - j') as uint16, x[..j'], None)
    ensures j' == |x| ==> p + 1 == e
    ensures j' < |x| ==> MidChunk(s, p + 1, e, t, x, j', tail, pad)
  {
    var m := Codes([], t);
    PayloadAhead(s, p, e, t, x, j, buf, pad);
    ExpandFront(s, p, e);
    var buf', after := buf + ByteBits(s[p]), Expand(s[p + 1..e]);
    assert buf' + after == buf + Expand(s[p..e]);
    var k;
    k, tail := PrefixSplit(m, x[j..], buf', after, pad);
    j' := j + k;
    TakeMore(x, j, k);
    if j' < |x| {
      assert x[j..][k] == x[j'];
      assert tail + after == CodeBits(m, x[j'..]) + pad;
      assert |tail| < |m[x[j']]|;
    } else {
      assert x[j'..] == [];
    }
    DrainSplit(t, x, j, k, buf', tail);
  }

  /** The tryAgain loop over a buffer holding the next k codes whole and then
      a strict prefix of the code after them emits those k symbols. */
  lemma DrainSplit(t: Tree, x: seq<byte>, j: nat, k: nat, buf: seq<char>, tail: seq<char>)
    requires t.Node? && !IsLeaf(t) && Encodable(Codes([], t), x)
    requires |x| < 0x1_0000 && j < |x| && j + k <= |x|
    requires buf == CodeBits(Codes([], t), x[j..][..k]) + tail
    requires j + k < |x| ==> |tail| < |Codes([], t)[x[j + k]]| && tail == Codes([], t)[x[j + k]][..|tail|]
    ensures Drain(t, buf, (|x| - j) as uint16, x[..j]) == Drained(tail, (|x| - j - k) as uint16, x[..j + k], None)
  {
    var ys := x[j..][..k];
    TakeMore(x, j, k);
    if j + k < |x| {
      var c := Codes([], t)[x[j + k]];
      CodeAt(t, x[j + k]);
      ScanPartial(t, tail, 0, c);
    }
    DrainCodes(t, ys, tail, (|x| - j) as uint16, x[..j]);
  }

  /** Taking k more of the elements after the first j. */
  lemma TakeMore(x: seq<byte>, j: nat, k: nat)
    requires j + k <= |x|
    ensures x[..j] + x[j..][..k] == x[..j + k] && x[j..][k..] == x[j + k..]
  {
  }

  /** From the middle of a chunk DecodeChunk emits the rest of the block and
      stops exactly at the end of the payload. */
  lemma {:induction false} ChunkCodes(s: seq<byte>, p: nat, e: nat, t: Tree, x: seq<byte>, j: nat,
                                      buf: seq<char>, pad: seq<char>)
    requires MidChunk(s, p, e, t, x, j, buf, pad)
    ensures ChunkFrom(s, p, t, buf, (|x| - j) as uint16, x[..j]) == Chunk(x, None, e)
    decreases e - p
  {
    var j', tail := ChunkStep(s, p, e, t, x, j, buf, pad);
    if j' < |x| {
      ChunkCodes(s, p + 1, e, t, x, j', tail, pad);
    } else {
      assert x[..j'] == x;
    }
  }

  /** The block holds at least two distinct byte values. */
  ghost predicate TwoSymbols(x: seq<byte>) {
    exists i, j :: 0 <= i < |x| && 0 <= j < |x| && x[i] != x[j]
  }

  /** Such a block gets a tree whose root is a branch. */
  lemma BranchRoot(t: Tree, x: seq<byte>)
    requires BuiltFor(t, x) && TwoSymbols(x)
    ensures t.Node? && !IsLeaf(t)
  {
    var i, j :| 0 <= i < |x| && 0 <= j < |x| && x[i] != x[j];
    assert Leaves(t)[x[i]] == 1 && Leaves(t)[x[j]] == 1;
  }

  /** DecodeChunk, placed at a payload EncodeChunk wrote for a block of
      2 to 65535 bytes with at least two distinct values, reproduces the block
      and consumes exactly the payload. */
  lemma ChunkRoundTrip(t: Tree, x: seq<byte>, s: seq<byte>, pos: nat) returns (e: nat)
    requires BuiltFor(t, x) && TwoSymbols(x) && |x| < 0x1_0000
    requires pos + |Payload(t, x)| <= |s| && s[pos..pos + |Payload(t, x)|] == Payload(t, x)
    ensures e == pos + |Payload(t, x)|
    ensures ChunkFrom(s, pos, t, [], |x|, []) == Chunk(x, None, e)
  {
    var pad;
    e, pad := PayloadStart(t, x, s, pos);
    ChunkCodes(s, pos, e, t, x, 0, [], pad);
    assert x[..0] == [];
  }

  /** DecodeChunk's state at the start of a payload: nothing emitted, an
      empty buffer, the code bits of the whole block and the padding ahead. */
  lemma PayloadStart(t: Tree, x: seq<byte>, s: seq<byte>, pos: nat) returns (e: nat, pad: seq<char>)
    requires BuiltFor(t, x) && TwoSymbols(x) && |x| < 0x1_0000
    requires pos + |Payload(t, x)| <= |s| && s[pos..pos + |Payload(t, x)|] == Payload(t, x)
    ensures e == pos + |Payload(t, x)|
    ensures MidChunk(s, pos, e, t, x, 0, [], pad)
  {
    BranchRoot(t, x);
    BuiltForEncodable(t, x);
    CodeAt(t, x[0]);
    var m := Codes([], t);
    var bits := CodeBits(m, x);
    e := pos + |Payload(t, x)|;
    assert bits == m[x[0]] + CodeBits(m, x[1..]);
    var padded := Padded(bits, '0');
    pad := padded[|bits|..];
    assert padded == bits + pad;
    assert x[0..] == x && [] + Expand(s[pos..e]) == Expand(s[pos..e]);
  }

  // ---------------------------------------------------------------------
  // Whole streams

  /** Blocks that decode back: their trees are the ones buildEncodingTree
      returns, they hold two distinct values and fit a uint16 data size. */
  ghost predicate Decodable(bs: seq<seq<byte>>, ts: seq<Tree>) {
    && |ts| == |bs|
    && forall k :: 0 <= k < |bs| ==> BuiltFor(ts[k], bs[k]) && TwoSymbols(bs[k]) && |bs[k]| < 0x1_0000
  }

  /** Decode, placed at a run of chunks, writes their blocks in order. */
  lemma {:induction false} ChunksDecode(bs: seq<seq<byte>>, ts: seq<Tree>, s: seq<byte>, pos: nat, out: seq<byte>)
    requires Decodable(bs, ts)
    requires pos <= |s| && s[pos..] == Chunks(bs, ts)
    ensures DecodeFrom(s, pos, out) == Decoded(out + Flatten(bs), None)
    decreases |bs|
  {
    if bs == [] {
      DecodeEnd(s, pos, out);
    } else {
      var t, b, ts', bs' := ts[0], bs[0], ts[1..], bs[1..];
      assert s[pos..] == ChunkBytes(t, b) + Chunks(bs', ts');
      var next := OneChunkDecodes(t, b, s, pos, out, Chunks(bs', ts'));
      assert Decodable(bs', ts');
      ChunksDecode(bs', ts', s, next, out + b);
      FlattenFirst(out, bs);
    }
  }

  lemma FlattenFirst(out: seq<byte>, bs: seq<seq<byte>>)
    requires bs != []
    ensures out + bs[0] + Flatten(bs[1..]) == out + Flatten(bs)
  {
    Concat3(out, bs[0], Flatten(bs[1..]));
  }

  /** Decode, placed at a chunk EncodeChunk wrote followed by the rest of
      the stream, writes the chunk's block and carries on after it. */
  lemma OneChunkDecodes(t: Tree, b: seq<byte>, s: seq<byte>, pos: nat, out: seq<byte>, rest: seq<byte>)
    returns (next: nat)
    requires BuiltFor(t, b) && TwoSymbols(b) && |b| < 0x1_0000
    requires pos <= |s| && s[pos..] == ChunkBytes(t, b) + rest
    ensures next <= |s| && s[next..] == rest
    ensures DecodeFrom(s, pos, out) == DecodeFrom(s, next, out + b)
  {
    var p;
    p, next := ChunkDecodes(t, b, s, pos, rest);
    DecodeStep(s, pos, out, t, b, p, next);
  }

  /** readChunkHeader and DecodeChunk, placed at a chunk EncodeChunk wrote,
      read its header and reproduce its block, and stop where the rest of
      the stream begins. */
  lemma ChunkDecodes(t: Tree, b: seq<byte>, s: seq<byte>, pos: nat, rest: seq<byte>) returns (p: nat, next: nat)
    requires BuiltFor(t, b) && TwoSymbols(b) && |b| < 0x1_0000
    requires pos <= |s| && s[pos..] == ChunkBytes(t, b) + rest
    ensures p <= |s| && next <= |s| && s[next..] == rest
    ensures ReadChunkHeader(s, pos) == ChunkOk(t, |b| as uint16, p)
    ensures ChunkFrom(s, p, t, [], |b| as uint16, []) == Chunk(b, None, next)
  {
    var d: uint16 := |b| as uint16;
    var e;
    p, e := ChunkParts(t, b, s, pos, rest);
    BuiltForDistinct(t, b);
    var p' := ChunkHeaderRoundTrip(t, d, s, pos);
    next := ChunkRoundTrip(t, b, s, p);
    assert next == e;
  }

  /** A tree built for a block has each leaf value once. */
  lemma BuiltForDistinct(t: Tree, b: seq<byte>)
    requires BuiltFor(t, b)
    ensures WellFormed(t) && forall x :: Leaves(t)[x] <= 1
  {
  }

  /** Where the header and the payload of a chunk lie in the stream. */
  lemma ChunkParts(t: Tree, b: seq<byte>, s: seq<byte>, pos: nat, rest: seq<byte>) returns (p: nat, e: nat)
    requires BuiltFor(t, b) && |b| < 0x1_0000
    requires pos <= |s| && s[pos..] == ChunkBytes(t, b) + rest
    ensures p == pos + |ChunkHeader(t, |b| as uint16)| && e == p + |Payload(t, b)| && e <= |s|
    ensures s[pos..pos + |ChunkHeader(t, |b| as uint16)|] == ChunkHeader(t, |b| as uint16)
    ensures s[p..p + |Payload(t, b)|] == Payload(t, b)
    ensures s[e..] == rest
  {
    SmallMod(|b|);
    var head, payload := ChunkHeader(t, |b| as uint16), Payload(t, b);
    assert ChunkBytes(t, b) == head + payload;
    Concat3(head, payload, rest);
    ThreeParts(s, pos, head, payload, rest);
    p, e := pos + |head|, pos + |head| + |payload|;
  }

  /** Decode at the end of the stream writes nothing more. */
  lemma DecodeEnd(s: seq<byte>, pos: nat, out: seq<byte>)
    requires pos <= |s| && s[pos..] == []
    ensures DecodeFrom(s, pos, out) == Decoded(out + [], None)
  {
    assert out + [] == out;
  }

  /** The chunk loop of Decode after a chunk that decodes without error. */
  lemma DecodeStep(s: seq<byte>, pos: nat, out: seq<byte>, t: Tree, b: seq<byte>, p: nat, e: nat)
    requires pos <= |s| && |b| < 0x1_0000
    requires ReadChunkHeader(s, pos) == ChunkOk(t, |b|, p)
    requires ChunkFrom(s, p, t, [], |b|, []) == Chunk(b, None, e)
    ensures DecodeFrom(s, pos, out) == DecodeFrom(s, e, out + b)
  {
  }

  /** Three consecutive pieces of the stream from pos on. */
  lemma ThreeParts(s: seq<byte>, pos: nat, a: seq<byte>, b: seq<byte>, c: seq<byte>)
    requires pos <= |s| && s[pos..] == a + (b + c)
    ensures pos + |a| + |b| <= |s|
    ensures s[pos..pos + |a|] == a
    ensures s[pos + |a|..pos + |a| + |b|] == b
    ensures s[pos + |a| + |b|..] == c
  {
    var w := a + (b + c);
    forall k | 0 <= k < |w| ensures s[pos + k] == w[k] {
      assert s[pos..][k] == s[pos + k];
    }
    forall k | 0 <= k < |a| ensures s[pos..pos + |a|][k] == a[k] {
      assert w[k] == a[k];
    }
    forall k | 0 <= k < |b| ensures s[pos + |a|..pos + |a| + |b|][k] == b[k] {
      assert w[|a| + k] == b[k];
    }
    forall k | 0 <= k < |c| ensures s[pos + |a| + |b|..][k] == c[k] {
      assert w[|a| + |b| + k] == c[k];
    }
  }

  /** Decoding what Encode wrote gives the input back, provided every block
      of the input holds at least two distinct byte values. */
  lemma EncodeDecode(x: seq<byte>, written: seq<byte>, trees: seq<Tree>)
    requires Encoded(Blocks(x), trees, written)
    requires forall k :: 0 <= k < |Blocks(x)| ==> TwoSymbols(Blocks(x)[k])
    ensures DecodeFrom(written, 0, []) == Decoded(x, None)
  {
    assert written[0..] == written;
    ChunksDecode(Blocks(x), trees, written, 0, []);
    BlocksFlatten(x);
  }

  /** A block of a single byte value gets a one-leaf tree and no payload.
      Alone, its chunk decodes to nothing without an error; followed by
      anything, the next byte is walked from the leaf root and fails. */
  lemma SingleSymbolBlock(v: byte, x: seq<byte>, t: Tree, rest: seq<byte>)
    requires BuiltFor(t, x) && |x| > 0 && forall i :: 0 <= i < |x| ==> x[i] == v
    ensures t == Node(v, Nil, Nil)
    ensures ChunkBytes(t, x) == ChunkHeader(t, |x| % 0x1_0000)
    ensures DecodeFrom(ChunkBytes(t, x), 0, []) == Decoded([], None)
    ensures rest != [] ==> DecodeFrom(ChunkBytes(t, x) + rest, 0, []) == Decoded([], Some(InvalidDecodingTree))
  {
    SingleLeaf(v, x, t);
    SingleSymbolNoBits(v, x);
    var d := |x| % 0x1_0000;
    var head := ChunkHeader(t, d);
    assert ChunkBytes(t, x) == head;
    assert head[0..|head|] == head;
    var p1 := ChunkHeaderRoundTrip(t, d, head, 0);
    HeaderOnlyDecodes(head, t, d, p1);
    if rest != [] {
      var s := head + rest;
      assert s[0..|head|] == head;
      var p2 := ChunkHeaderRoundTrip(t, d, s, 0);
      LeafRootFails(s, p2, t, d, v);
      LeafRootDecodes(s, t, d, p2);
    }
  }

  /** A chunk whose header has a non-zero size but whose first tag byte is
      neither 0 nor 1 stops decoding with InvalidNodeType, keeping only the
      output written before it. */
  lemma BadTagFails(s: seq<byte>, pos: nat, out: seq<byte>)
    requires pos + 3 <= |s| && FromBigEndian16(s[pos], s[pos + 1]) > 0 && s[pos + 2] > 1
    ensures DecodeFrom(s, pos, out) == Decoded(out, Some(InvalidNodeType(s[pos + 2])))
  {
    assert ReadChunkHeader(s, pos) == ChunkFail(InvalidNodeType(s[pos + 2]));
  }

  /** Overwriting the root tag of an encoded chunk with a byte other than 0
      or 1 makes decoding fail with InvalidNodeType instead of producing
      wrong output, whatever follows the chunk. */
  lemma CorruptTagFails(t: Tree, x: seq<byte>, rest: seq<byte>, b: byte)
    requires BuiltFor(t, x) && b > 1
    ensures var s := ChunkBytes(t, x) + rest;
            DecodeFrom(s[2 := b], 0, []) == Decoded([], Some(InvalidNodeType(b)))
  {
    HeaderSize(t);
    LeavesAndBranches(t);
    var s := (ChunkBytes(t, x) + rest)[2 := b];
    assert s[0] == ChunkHeader(t, |x| % 0x1_0000)[0] && s[1] == ChunkHeader(t, |x| % 0x1_0000)[1];
    BadTagFails(s, 0, []);
  }

  /** A block of one repeated symbol builds a single leaf holding it. */
  lemma SingleLeaf(v: byte, x: seq<byte>, t: Tree)
    requires BuiltFor(t, x) && |x| > 0 && forall i :: 0 <= i < |x| ==> x[i] == v
    ensures t == Node(v, Nil, Nil)
  {
    assert x[0] == v && v in x;
    assert Leaves(t)[v] == 1;
    assert forall w :: w != v ==> Leaves(t)[w] == 0;
    assert Leaves(t) == multiset{v};
    LeavesAndBranches(t);
  }

  /** A chunk header that ends the stream decodes to nothing, without error. */
  lemma HeaderOnlyDecodes(s: seq<byte>, t: Tree, d: uint16, p: nat)
    requires ReadChunkHeader(s, 0) == ChunkOk(t, d, p) && p == |s|
    ensures DecodeFrom(s, 0, []) == Decoded([], None)
  {
    assert ChunkFrom(s, p, t, [], d, []) == Chunk([], Some(EOF), p);
  }

  /** With a single leaf as root, the first bit of the next byte selects a
      nil child. */
  lemma LeafRootFails(s: seq<byte>, p: nat, t: Tree, d: uint16, v: byte)
    requires t == Node(v, Nil, Nil) && p < |s|
    ensures ChunkFrom(s, p, t, [], d, []) == Chunk([], Some(InvalidDecodingTree), p + 1)
  {
    var bits := [] + ByteBits(s[p]);
    assert bits[0] == ByteBits(s[p])[0];
    assert Scan(t, bits, 0) == Fail(InvalidDecodingTree);
  }

  /** A chunk whose data fails with InvalidDecodingTree fails the stream. */
  lemma LeafRootDecodes(s: seq<byte>, t: Tree, d: uint16, p: nat)
    requires ReadChunkHeader(s, 0) == ChunkOk(t, d, p) && p < |s|
    requires ChunkFrom(s, p, t, [], d, []) == Chunk([], Some(InvalidDecodingTree), p + 1)
    ensures DecodeFrom(s, 0, []) == Decoded([], Some(InvalidDecodingTree))
  {
    var none: seq<byte> := [];
    assert none + none == none;
  }
}
