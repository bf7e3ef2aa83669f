/** The encoder of encode.go: the code table, the pre-order header, chunk
    framing, bit padding and byte packing, one chunk and a whole stream. */
module Encoder {
  import opened Bits
  import opened HuffmanTree
  import opened PriorityQueue
  import opened TreeBuilder

  /** The largest block Encode hands to EncodeChunk. */
  const BlockSize: nat := 65535

  // ---------------------------------------------------------------------
  // buildEncodingMap

  /** The codes buildEncodingMap assigns below t when t is reached by prefix:
      a leaf gets the path that leads to it, '0' going left and '1' right.
      A later (right-hand) entry overrides an earlier one, as a second
      assignment to a Go map does. */
  function Codes(prefix: seq<char>, t: Tree): map<byte, seq<char>>
    decreases t
  {
    if t.Nil? then map[]
    else if IsLeaf(t) then map[t.value := prefix]
    else Codes(prefix + "0", t.left) + Codes(prefix + "1", t.right)
  }

  /** buildEncodingMap: fills the table m, which Go passes by reference,
      with the codes of the leaves below t. */
  method BuildEncodingMap(m: map<byte, seq<char>>, prefix: seq<char>, t: Tree)
    returns (r: map<byte, seq<char>>)
    ensures r == m + Codes(prefix, t)
    decreases t
  {
    r := m;
    if t.Node? {
      if IsLeaf(t) {
        r := r[t.value := prefix];
      } else {
        r := BuildEncodingMap(r, prefix + "0", t.left);
        r := BuildEncodingMap(r, prefix + "1", t.right);
        assert r == m + (Codes(prefix + "0", t.left) + Codes(prefix + "1", t.right));
      }
    }
  }

  /** Exactly the leaf values of the tree get a code. */
  lemma {:induction false} CodesKeys(prefix: seq<char>, t: Tree)
    ensures forall v :: v in Codes(prefix, t) <==> v in Leaves(t)
    decreases t
  {
    if t.Node? && !IsLeaf(t) {
      CodesKeys(prefix + "0", t.left);
      CodesKeys(prefix + "1", t.right);
    }
  }

  /** Every code extends prefix by a binary path that leads from t to the
      leaf holding its value, so the code's length is the leaf's depth; below
      a branch the path is not empty. */
  lemma {:induction false} CodesPaths(prefix: seq<char>, t: Tree)
    ensures forall v :: v in Codes(prefix, t) ==>
              var c := Codes(prefix, t)[v];
              && |prefix| <= |c| && c[..|prefix|] == prefix
              && IsBinary(c[|prefix|..])
              && Follow(t, c[|prefix|..]) == Node(v, Nil, Nil)
              && (!IsLeaf(t) ==> |prefix| < |c|)
    decreases t
  {
    if t.Node? && IsLeaf(t) {
      assert prefix[|prefix|..] == [];
    } else if t.Node? {
      var l, r := Codes(prefix + "0", t.left), Codes(prefix + "1", t.right);
      CodesPaths(prefix + "0", t.left);
      CodesPaths(prefix + "1", t.right);
      forall v | v in Codes(prefix, t)
        ensures var c := Codes(prefix, t)[v];
                && |prefix| < |c| && c[..|prefix|] == prefix
                && IsBinary(c[|prefix|..])
                && Follow(t, c[|prefix|..]) == Node(v, Nil, Nil)
      {
        var c := Codes(prefix, t)[v];
        var bit := if v in r then '1' else '0';
        var p := prefix + [bit];
        var sub := if v in r then t.right else t.left;
        assert c[..|p|] == p && Follow(sub, c[|p|..]) == Node(v, Nil, Nil);
        SplitFirst(c, prefix, bit);
      }
    }
  }

  lemma SplitFirst(c: seq<char>, p: seq<char>, bit: char)
    requires |p| + 1 <= |c| && c[..|p| + 1] == p + [bit]
    ensures c[..|p|] == p && c[|p|..] == [bit] + c[|p| + 1..]
  {
    assert c[|p|] == (p + [bit])[|p|];
    assert c[..|p|] == c[..|p| + 1][..|p|];
  }

  /** The code table of a tree is prefix-free: no code is a prefix of the
      code of another byte. */
  lemma CodesPrefixFree(t: Tree)
    ensures forall v, w :: v in Codes([], t) && w in Codes([], t) && v != w ==>
              !(Codes([], t)[v] <= Codes([], t)[w])
  {
    var c := Codes([], t);
    CodesPaths([], t);
    forall v, w | v in c && w in c && v != w
      ensures !(c[v] <= c[w])
    {
      assert c[v][0..] == c[v] && c[w][0..] == c[w];
      assert c[v] != c[w];
      if |c[v]| < |c[w]| && c[v] <= c[w] {
        assert c[w] == c[v] + c[w][|c[v]|..];
        FollowPastLeaf(t, c[v], c[w][|c[v]|..]);
      }
    }
  }

  // ---------------------------------------------------------------------
  // The code bits of an input

  /** Every byte of x has a code in m. */
  predicate Encodable(m: map<byte, seq<char>>, x: seq<byte>) {
    forall i :: 0 <= i < |x| ==> x[i] in m
  }

  /** The codes of the bytes of x, concatenated in order. */
  function CodeBits(m: map<byte, seq<char>>, x: seq<byte>): seq<char>
    requires Encodable(m, x)
  {
    if x == [] then [] else m[x[0]] + CodeBits(m, x[1..])
  }

  lemma {:induction false} CodeBitsAppend(m: map<byte, seq<char>>, a: seq<byte>, b: seq<byte>)
    requires Encodable(m, a) && Encodable(m, b)
    ensures Encodable(m, a + b) && CodeBits(m, a + b) == CodeBits(m, a) + CodeBits(m, b)
  {
    if a != [] {
      assert (a + b)[1..] == a[1..] + b;
      CodeBitsAppend(m, a[1..], b);
    } else {
      assert a + b == b;
    }
  }

  /** The code bits of a table whose codes are binary are binary. */
  lemma {:induction false} CodeBitsBinary(m: map<byte, seq<char>>, x: seq<byte>)
    requires Encodable(m, x) && forall v :: v in m ==> IsBinary(m[v])
    ensures IsBinary(CodeBits(m, x))
  {
    if x != [] {
      CodeBitsBinary(m, x[1..]);
    }
  }

  /** The codes of a tree, read from the root, are binary. */
  lemma CodesBinary(t: Tree)
    ensures forall v :: v in Codes([], t) ==> IsBinary(Codes([], t)[v])
  {
    CodesPaths([], t);
    forall v | v in Codes([], t) ensures IsBinary(Codes([], t)[v]) {
      assert Codes([], t)[v][0..] == Codes([], t)[v];
    }
  }

  /** A block made of one byte value gets a single-leaf tree, whose only code
      is empty: none of its occurrences produces a payload bit. */
  lemma {:induction false} SingleSymbolNoBits(v: byte, x: seq<byte>)
    requires forall i :: 0 <= i < |x| ==> x[i] == v
    ensures Encodable(Codes([], Node(v, Nil, Nil)), x)
    ensures CodeBits(Codes([], Node(v, Nil, Nil)), x) == []
  {
    if x != [] {
      SingleSymbolNoBits(v, x[1..]);
    }
  }

  // ---------------------------------------------------------------------
  // buildHeader and writeChunkHeader

  /** buildHeader: appends the tree in pre-order to header, a branch as the
      byte 0 followed by its children, a leaf as the byte 1 followed by its
      value; a nil subtree adds nothing. */
  function BuildHeader(header: seq<byte>, t: Tree): (r: seq<byte>)
    ensures |r| == |header| + 2 * LeafCount(t) + BranchCount(t)
    decreases t
  {
    if t.Nil? then header
    else if IsLeaf(t) then header + [1, t.value]
    else BuildHeader(BuildHeader(header + [0], t.left), t.right)
  }

  /** The header bytes of a tree, defined directly: pre-order, a branch as
      0 followed by its children, a leaf as 1 followed by its value. */
  function Serialized(t: Tree): seq<byte>
    decreases t
  {
    if t.Nil? then []
    else if IsLeaf(t) then [1, t.value]
    else [0] + Serialized(t.left) + Serialized(t.right)
  }

  /** buildHeader appends exactly the serialized tree to what it is given. */
  lemma {:induction false} BuildHeaderSerializes(header: seq<byte>, t: Tree)
    ensures BuildHeader(header, t) == header + Serialized(t)
    decreases t
  {
    if t.Nil? {
      assert header + [] == header;
    } else if !IsLeaf(t) {
      var l := BuildHeader(header + [0], t.left);
      BuildHeaderSerializes(header + [0], t.left);
      BuildHeaderSerializes(l, t.right);
      BranchSerializes(header, t, l);
    }
  }

  lemma BranchSerializes(header: seq<byte>, t: Tree, l: seq<byte>)
    requires t.Node? && !IsLeaf(t)
    requires l == BuildHeader(header + [0], t.left) == header + [0] + Serialized(t.left)
    requires BuildHeader(l, t.right) == l + Serialized(t.right)
    ensures BuildHeader(header, t) == header + Serialized(t)
  {
    var a, b := Serialized(t.left), Serialized(t.right);
    assert Serialized(t) == [0] + a + b;
    Associate(header, a, b);
  }

  lemma Associate(h: seq<byte>, a: seq<byte>, b: seq<byte>)
    ensures h + [0] + a + b == h + ([0] + a + b)
  {
    var x, y := h + [0] + a + b, h + ([0] + a + b);
    assert |x| == |y|;
    forall i | 0 <= i < |x| ensures x[i] == y[i] {
      if i < |h| { } else if i == |h| { } else if i < |h| + 1 + |a| { } else { }
    }
  }

  /** A multiset of bytes holding each value at most once has at most k
      elements when all of them are below k. */
  lemma {:induction false} DistinctBound(m: multiset<byte>, k: nat)
    requires k <= 256
    requires forall x :: m[x] <= 1
    requires forall x :: x in m ==> x < k
    ensures |m| <= k
  {
    if k == 0 {
      assert forall x :: m[x] == 0;
      assert m == multiset{};
    } else {
      var top: byte := k - 1;
      var rest := m[top := 0];
      assert m == rest + multiset{}[top := m[top]];
      DistinctBound(rest, k - 1);
    }
  }

  /** The header of a well-formed tree with distinct leaves is three bytes
      per leaf less one, so it always fits the uint16 header length. */
  lemma HeaderSize(t: Tree)
    requires WellFormed(t) && forall x :: Leaves(t)[x] <= 1
    ensures |BuildHeader([], t)| == 3 * LeafCount(t) - 1 <= 767
  {
    LeavesAndBranches(t);
    DistinctBound(Leaves(t), 256);
  }

  /** writeChunkHeader: the big-endian uint16 length of the header (truncated
      to 16 bits, as Go's conversion does), the header, then the big-endian
      uint16 data size. */
  function ChunkHeader(t: Tree, dataSize: uint16): (r: seq<byte>)
    ensures var h := BuildHeader([], t);
            && |r| == |h| + 4
            && FromBigEndian16(r[0], r[1]) == |h| % 0x1_0000
            && r[2..|h| + 2] == h
            && FromBigEndian16(r[|h| + 2], r[|h| + 3]) == dataSize
  {
    var h := BuildHeader([], t);
    BigEndian16(|h| % 0x1_0000) + h + BigEndian16(dataSize)
  }

  // ---------------------------------------------------------------------
  // padToByte and encodeBytes

  /** n copies of the character c. */
  function Fill(c: char, n: nat): (r: seq<char>)
    ensures |r| == n && forall i :: 0 <= i < n ==> r[i] == c
  {
    if n == 0 then [] else Fill(c, n - 1) + [c]
  }

  /** What padToByte returns: an empty buffer as it is, any other one with
      the fewest pad characters that make its length a multiple of 8. */
  function Padded(buf: seq<char>, pad: char): (r: seq<char>)
    ensures buf == [] ==> r == []
    ensures buf != [] ==> |r| % 8 == 0 && |buf| <= |r| < |buf| + 8 && r[..|buf|] == buf
    ensures forall i :: |buf| <= i < |r| ==> r[i] == pad
  {
    if buf == [] then [] else buf + Fill(pad, (8 - |buf| % 8) % 8)
  }

  /** padToByte (the loop's float remainder is computed on integers). */
  method PadToByte(buf: seq<char>, pad: char) returns (r: seq<char>)
    ensures r == Padded(buf, pad)
  {
    r := buf;
    if |buf| > 0 {
      ghost var need := (8 - |buf| % 8) % 8;
      while |r| % 8 > 0
        invariant |buf| <= |r| <= |buf| + need
        invariant r == buf + Fill(pad, |r| - |buf|)
        decreases |buf| + need - |r|
      {
        PadCount(|buf|, |r| - |buf|);
        r := r + [pad];
        assert Fill(pad, |r| - |buf|) == Fill(pad, |r| - 1 - |buf|) + [pad];
      }
      PadCount(|buf|, |r| - |buf|);
    }
  }

  /** Adding k characters to n makes a multiple of 8 exactly when k is the
      number padToByte adds. */
  lemma PadCount(n: nat, k: nat)
    requires k <= (8 - n % 8) % 8
    ensures (n + k) % 8 == 0 <==> k == (8 - n % 8) % 8
  {
    var q, r := n / 8, n % 8;
    assert n == 8 * q + r;
    assert (n + k) % 8 == (r + k) % 8;
  }

  /** encodeBytes: while at least 8 characters remain, drops the first 8 and
      writes the byte they spell; stops with a ParseUint error at the first
      group that is not binary.  The bytes written are returned as out. */
  method EncodeBytes(bits: seq<char>) returns (rest: seq<char>, out: seq<byte>, err: Option<Error>)
    ensures err.None? <==> IsBinary(bits[..8 * (|bits| / 8)])
    ensures err.None? ==> |rest| < 8 && Expand(out) + rest == bits
    ensures err.Some? ==>
              && err == Some(ParseError)
              && 8 * |out| + 8 <= |bits|
              && Expand(out) == bits[..8 * |out|]
              && !IsBinary(bits[8 * |out|..8 * |out| + 8])
              && rest == bits[8 * |out| + 8..]
  {
    rest, out, err := bits, [], None;
    while |rest| > 7
      invariant |bits| == 8 * |out| + |rest|
      invariant rest == bits[8 * |out|..]
      invariant Expand(out) == bits[..8 * |out|]
    {
      GroupAt(bits, |out|, rest);
      var s := rest[..8];
      rest := rest[8..];
      var b := ParseByte(s);
      if b.None? {
        OctetBad(bits, |out|, s);
        return rest, out, Some(ParseError);
      }
      OctetGood(bits, out, s, b.value);
      out := out + [b.value];
    }
    OctetCount(|bits|, |out|, |rest|);
  }

  lemma OctetCount(n: nat, k: nat, r: nat)
    requires n == 8 * k + r && r < 8
    ensures n / 8 == k
  {
  }

  /** A group of encodeBytes that does not parse is not binary, and neither
      are the whole octets of the input. */
  lemma OctetBad(bits: seq<char>, k: nat, s: seq<char>)
    requires 8 * k + 8 <= |bits| && s == bits[8 * k..8 * k + 8]
    requires ParseByte(s).None?
    ensures !IsBinary(s) && !IsBinary(bits[..8 * (|bits| / 8)])
  {
    ParseOctet(s);
    BadOctet(bits, k);
  }

  /** A group of encodeBytes that parses extends the packed prefix by its byte. */
  lemma OctetGood(bits: seq<char>, out: seq<byte>, s: seq<char>, b: byte)
    requires 8 * |out| + 8 <= |bits| && Expand(out) == bits[..8 * |out|]
    requires s == bits[8 * |out|..8 * |out| + 8] && ParseByte(s) == Some(b)
    ensures Expand(out + [b]) == bits[..8 * |out| + 8]
  {
    ParseByteBits(b, s);
    GoodOctet(bits, out, b);
  }

  /** A group that is not binary makes the whole octets not binary. */
  lemma BadOctet(bits: seq<char>, k: nat)
    requires 8 * k + 8 <= |bits| && !IsBinary(bits[8 * k..8 * k + 8])
    ensures !IsBinary(bits[..8 * (|bits| / 8)])
  {
    var s := bits[8 * k..8 * k + 8];
    var i :| 0 <= i < 8 && !IsBit(s[i]);
    WholeOctets(|bits|, k);
    assert bits[..8 * (|bits| / 8)][8 * k + i] == s[i];
  }

  lemma GoodOctet(bits: seq<char>, out: seq<byte>, b: byte)
    requires 8 * |out| + 8 <= |bits| && Expand(out) == bits[..8 * |out|]
    requires ByteBits(b) == bits[8 * |out|..8 * |out| + 8]
    ensures Expand(out + [b]) == bits[..8 * |out| + 8]
  {
    var at := 8 * |out|;
    ExpandAppend(out, [b]);
    ExpandOne(b);
    SplitAt(bits, at, at + 8);
  }

  lemma ExpandOne(b: byte)
    ensures Expand([b]) == ByteBits(b)
  {
    assert Expand([b]) == ByteBits(b) + Expand([]);
  }

  /** The group encodeBytes takes from what is left after k groups. */
  lemma GroupAt(bits: seq<char>, k: nat, rest: seq<char>)
    requires 8 * k + 8 <= |bits| && rest == bits[8 * k..]
    ensures rest[..8] == bits[8 * k..8 * k + 8] && rest[8..] == bits[8 * k + 8..]
  {
    forall i | 0 <= i < 8 ensures rest[..8][i] == bits[8 * k..8 * k + 8][i] {
      assert rest[..8][i] == bits[8 * k + i];
    }
  }

  lemma SplitAt(s: seq<char>, i: nat, j: nat)
    requires i <= j <= |s|
    ensures s[..j] == s[..i] + s[i..j]
  {
  }

  lemma WholeOctets(n: nat, k: nat)
    requires 8 * k + 8 <= n
    ensures 8 * k + 8 <= 8 * (n / 8)
  {
  }

  /** Without error encodeBytes packs the whole octets of its input. */
  lemma EncodeBytesPacks(bits: seq<char>, out: seq<byte>, rest: seq<char>)
    requires |rest| < 8 && Expand(out) + rest == bits
    ensures IsBinary(bits[..8 * (|bits| / 8)])
    ensures out == Pack(bits[..8 * (|bits| / 8)])
  {
    OctetCount(|bits|, |out|, |rest|);
    assert bits[..8 * |out|] == Expand(out);
    PackExpand(out);
  }

  // ---------------------------------------------------------------------
  // EncodeChunk and Encode

  /** The trees buildEncodingTree may return for a block: well formed, one
      leaf per distinct byte of the block. */
  ghost predicate BuiltFor(t: Tree, x: seq<byte>) {
    WellFormed(t) && forall v :: Leaves(t)[v] == if v in x then 1 else 0
  }

  lemma BuiltForEncodable(t: Tree, x: seq<byte>)
    requires BuiltFor(t, x)
    ensures Encodable(Codes([], t), x)
    ensures forall v :: v in Codes([], t) ==> IsBinary(Codes([], t)[v])
  {
    CodesKeys([], t);
    CodesBinary(t);
    assert forall i :: 0 <= i < |x| ==> Leaves(t)[x[i]] == 1;
  }

  /** The payload of a chunk: the code bits padded with '0' to whole bytes. */
  ghost function Payload(t: Tree, x: seq<byte>): (p: seq<byte>)
    requires BuiltFor(t, x)
    ensures Encodable(Codes([], t), x) && Expand(p) == Padded(CodeBits(Codes([], t), x), '0')
  {
    BuiltForEncodable(t, x);
    var bits := CodeBits(Codes([], t), x);
    CodeBitsBinary(Codes([], t), x);
    ExpandPack(Padded(bits, '0'));
    Pack(Padded(bits, '0'))
  }

  /** The bytes EncodeChunk writes for block x with tree t. */
  ghost function ChunkBytes(t: Tree, x: seq<byte>): seq<byte>
    requires BuiltFor(t, x)
  {
    ChunkHeader(t, |x| % 0x1_0000) + Payload(t, x)
  }

  /** EncodeChunk: builds the tree and code table of the block, writes the
      chunk header, then feeds each byte's code through encodeBytes and
      finally pads the leftover bits with '0'.  Codes are binary, so no
      ParseUint error can occur. */
  method EncodeChunk(input: seq<byte>) returns (written: seq<byte>, err: Option<Error>, ghost tree: Tree)
    requires |input| > 0
    ensures err == None && BuiltFor(tree, input)
    ensures written == ChunkBytes(tree, input)
  {
    var root := BuildEncodingTree(input);
    tree := root.tree;
    var m := BuildEncodingMap(map[], [], root.tree);
    assert m == Codes([], tree);
    BuiltForEncodable(tree, input);
    written := ChunkHeader(root.tree, |input| % 0x1_0000);
    var payload;
    payload, err := EncodePayload(m, input);
    PackExpand(payload);
    written := written + payload;
  }

  /** The payload loop of EncodeChunk: each byte's code is appended to the
      bit buffer and encodeBytes writes the whole octets; the bits left at
      the end are padded with '0' and written too. */
  method EncodePayload(m: map<byte, seq<char>>, input: seq<byte>) returns (payload: seq<byte>, err: Option<Error>)
    requires Encodable(m, input) && forall v :: v in m ==> IsBinary(m[v])
    ensures err == None && Expand(payload) == Padded(CodeBits(m, input), '0')
  {
    payload := [];
    var buf: seq<char> := [];
    var i := 0;
    err := None;
    while i < |input|
      invariant 0 <= i <= |input| && err == None
      invariant |buf| < 8 && IsBinary(buf)
      invariant Expand(payload) + buf == CodeBits(m, input[..i])
    {
      var v := input[i];
      ghost var before := buf;
      buf := buf + m[v];
      BinaryConcat(before, m[v]);
      BinaryPrefix(buf, 8 * (|buf| / 8));
      var out;
      buf, out, err := EncodeBytes(buf);
      PayloadLoopStep(m, input, i, payload, before, out, buf);
      payload := payload + out;
      i := i + 1;
    }
    assert input[..i] == input;
    if |buf| > 0 {
      var padded := PadToByte(buf, '0');
      PaddedOctets(buf);
      var rest, out, e := EncodeBytes(padded);
      FlushLast(payload, buf, out, rest);
      payload := payload + out;
    } else {
      PaddedShift(Expand(payload), buf, '0');
      assert Expand(payload) + [] == Expand(payload);
    }
  }

  /** The last bytes EncodePayload writes complete the padded code bits. */
  lemma FlushLast(payload: seq<byte>, buf: seq<char>, out: seq<byte>, rest: seq<char>)
    requires buf != [] && |rest| < 8 && Expand(out) + rest == Padded(buf, '0')
    ensures Expand(payload + out) == Padded(Expand(payload) + buf, '0')
  {
    var padded, done := Padded(buf, '0'), Expand(payload);
    EightFold(|payload|);
    WholeRest(out, rest, padded);
    ExpandAppend(payload, out);
    PaddedShift(done, buf, '0');
  }

  /** One pass of EncodePayload's loop keeps its invariant. */
  lemma PayloadLoopStep(m: map<byte, seq<char>>, x: seq<byte>, i: nat, payload: seq<byte>,
                        before: seq<char>, out: seq<byte>, rest: seq<char>)
    requires Encodable(m, x) && (forall v :: v in m ==> IsBinary(m[v])) && i < |x|
    requires IsBinary(before) && Expand(payload) + before == CodeBits(m, x[..i])
    requires Expand(out) + rest == before + m[x[i]]
    ensures IsBinary(rest) && Expand(payload + out) + rest == CodeBits(m, x[..i + 1])
  {
    BinaryConcat(before, m[x[i]]);
    BinarySuffix(Expand(out), rest);
    CodeStep(m, x, i, payload, before, out, rest);
  }

  /** The tail of a binary sequence is binary. */
  lemma BinarySuffix(a: seq<char>, b: seq<char>)
    requires IsBinary(a + b)
    ensures IsBinary(b)
  {
    assert forall i :: 0 <= i < |b| ==> b[i] == (a + b)[|a| + i];
  }

  /** A binary buffer padded with '0' is whole binary octets. */
  lemma PaddedOctets(buf: seq<char>)
    requires IsBinary(buf) && buf != []
    ensures |Padded(buf, '0')| % 8 == 0
    ensures IsBinary(Padded(buf, '0')[..8 * (|Padded(buf, '0')| / 8)])
  {
    var r := Padded(buf, '0');
    PaddedBinary(buf, '0');
    assert r[..8 * (|r| / 8)] == r;
  }

  /** A multiple of 8 leaves no remainder. */
  lemma EightFold(n: nat)
    ensures (8 * n) % 8 == 0
  {
  }

  /** Packing whole octets leaves nothing over. */
  lemma WholeRest(out: seq<byte>, rest: seq<char>, bits: seq<char>)
    requires |bits| % 8 == 0 && |rest| < 8 && Expand(out) + rest == bits
    ensures Expand(out) == bits
  {
    var q := |bits| / 8;
    assert |bits| == 8 * q;
    assert |rest| == 8 * (q - |out|);
    assert rest == [];
    assert Expand(out) + [] == Expand(out);
  }

  lemma BinaryConcat(a: seq<char>, b: seq<char>)
    requires IsBinary(a) && IsBinary(b)
    ensures IsBinary(a + b)
  {
    assert forall i :: 0 <= i < |a + b| ==> (a + b)[i] == if i < |a| then a[i] else b[i - |a|];
  }

  lemma BinaryPrefix(a: seq<char>, k: nat)
    requires IsBinary(a) && k <= |a|
    ensures IsBinary(a[..k])
  {
    assert forall i :: 0 <= i < k ==> a[..k][i] == a[i];
  }

  lemma PaddedBinary(buf: seq<char>, pad: char)
    requires IsBinary(buf) && IsBit(pad)
    ensures IsBinary(Padded(buf, pad))
  {
    var r := Padded(buf, pad);
    forall i | 0 <= i < |r| ensures IsBit(r[i]) {
      if i < |buf| { assert r[i] == r[..|buf|][i]; }
    }
  }

  /** Padding after whole octets pads only what follows them. */
  lemma PaddedShift(a: seq<char>, b: seq<char>, pad: char)
    requires |a| % 8 == 0
    ensures Padded(a + b, pad) == a + Padded(b, pad)
  {
    if a + b != [] && b == [] {
      assert a + b == a;
      assert Padded(a, pad) == a + Fill(pad, 0);
    } else if b != [] {
      assert (|a| + |b|) % 8 == |b| % 8;
    }
  }

  /** One round of the encoding loop: the written bytes and the buffer
      together hold the code bits of the bytes consumed so far. */
  lemma CodeStep(m: map<byte, seq<char>>, x: seq<byte>, i: nat, payload: seq<byte>,
                 buf: seq<char>, out: seq<byte>, rest: seq<char>)
    requires Encodable(m, x) && i < |x|
    requires Expand(payload) + buf == CodeBits(m, x[..i])
    requires Expand(out) + rest == buf + m[x[i]]
    ensures Expand(payload + out) + rest == CodeBits(m, x[..i + 1])
  {
    var a, y := x[..i], x[i];
    assert x[..i + 1] == a + [y];
    CodeBitsAppend(m, a, [y]);
    CodeBitsOne(m, y);
    ExpandAppend(payload, out);
    Concat3(Expand(payload), Expand(out), rest);
    Concat3(Expand(payload), buf, m[y]);
  }

  /** The code bits of a single byte are its code. */
  lemma CodeBitsOne(m: map<byte, seq<char>>, y: byte)
    requires y in m
    ensures Encodable(m, [y]) && CodeBits(m, [y]) == m[y]
  {
    assert [y][1..] == [];
    assert m[y] + [] == m[y];
  }

  /** The blocks Encode reads: BlockSize bytes at a time, the last one
      shorter; an empty input has none. */
  function Blocks(x: seq<byte>): (bs: seq<seq<byte>>)
    ensures forall k :: 0 <= k < |bs| ==> 0 < |bs[k]| <= BlockSize
    decreases |x|
  {
    if x == [] then []
    else if |x| <= BlockSize then [x]
    else [x[..BlockSize]] + Blocks(x[BlockSize..])
  }

  function Flatten(bs: seq<seq<byte>>): seq<byte> {
    if bs == [] then [] else bs[0] + Flatten(bs[1..])
  }

  /** Concatenating the blocks gives the input back. */
  lemma {:induction false} BlocksFlatten(x: seq<byte>)
    ensures Flatten(Blocks(x)) == x
    decreases |x|
  {
    if |x| > BlockSize {
      BlocksFlatten(x[BlockSize..]);
      assert x == x[..BlockSize] + x[BlockSize..];
    }
  }

  /** The chunks written for a sequence of blocks, block k with tree k. */
  ghost function Chunks(bs: seq<seq<byte>>, ts: seq<Tree>): seq<byte>
    requires |ts| == |bs| && forall k :: 0 <= k < |bs| ==> BuiltFor(ts[k], bs[k])
  {
    if bs == [] then [] else ChunkBytes(ts[0], bs[0]) + Chunks(bs[1..], ts[1..])
  }

  lemma {:induction false} ChunksAppend(bs: seq<seq<byte>>, ts: seq<Tree>, b: seq<byte>, t: Tree)
    requires |ts| == |bs| && forall k :: 0 <= k < |bs| ==> BuiltFor(ts[k], bs[k])
    requires BuiltFor(t, b)
    ensures Chunks(bs + [b], ts + [t]) == Chunks(bs, ts) + ChunkBytes(t, b)
  {
    if bs == [] {
      assert (bs + [b])[1..] == [] && (ts + [t])[1..] == [];
    } else {
      assert (bs + [b])[1..] == bs[1..] + [b] && (ts + [t])[1..] == ts[1..] + [t];
      ChunksAppend(bs[1..], ts[1..], b, t);
    }
  }

  lemma BlocksStep(x: seq<byte>, i: nat, j: nat)
    requires i < j <= |x| && j == if |x| - i <= BlockSize then |x| else i + BlockSize
    ensures Blocks(x[i..]) == [x[i..j]] + Blocks(x[j..])
  {
    var y := x[i..];
    assert y[..j - i] == x[i..j] && y[j - i..] == x[j..];
    if |y| <= BlockSize {
      assert x[j..] == [] && y == x[i..j];
    }
  }

  /** written holds the chunks of the blocks bs, block k encoded with tree k. */
  ghost predicate Encoded(bs: seq<seq<byte>>, ts: seq<Tree>, written: seq<byte>) {
    && |ts| == |bs|
    && (forall k :: 0 <= k < |bs| ==> BuiltFor(ts[k], bs[k]))
    && written == Chunks(bs, ts)
  }

  lemma EncodedStep(bs: seq<seq<byte>>, ts: seq<Tree>, written: seq<byte>, b: seq<byte>, t: Tree)
    requires Encoded(bs, ts, written) && BuiltFor(t, b)
    ensures Encoded(bs + [b], ts + [t], written + ChunkBytes(t, b))
  {
    ChunksAppend(bs, ts, b, t);
  }

  /** One pass of Encode's loop keeps both of its invariants. */
  lemma EncodeLoopStep(input: seq<byte>, i: nat, j: nat, done: seq<seq<byte>>,
                       trees: seq<Tree>, written: seq<byte>, t: Tree)
    requires i < j <= |input| && j == if |input| - i <= BlockSize then |input| else i + BlockSize
    requires done + Blocks(input[i..]) == Blocks(input)
    requires Encoded(done, trees, written) && BuiltFor(t, input[i..j])
    ensures (done + [input[i..j]]) + Blocks(input[j..]) == Blocks(input)
    ensures Encoded(done + [input[i..j]], trees + [t], written + ChunkBytes(t, input[i..j]))
  {
    var b := input[i..j];
    BlocksStep(input, i, j);
    Concat3(done, [b], Blocks(input[j..]));
    EncodedStep(done, trees, written, b, t);
  }

  /** Encode: reads the input BlockSize bytes at a time and encodes each
      non-empty block as one chunk; an empty input writes nothing.
      EncodeChunk never fails, so neither does Encode. */
  method Encode(input: seq<byte>) returns (written: seq<byte>, err: Option<Error>, ghost trees: seq<Tree>)
    ensures err == None && Encoded(Blocks(input), trees, written)
  {
    written, err, trees := [], None, [];
    var i := 0;
    ghost var done: seq<seq<byte>> := [];
    while i < |input|
      invariant 0 <= i <= |input|
      invariant done + Blocks(input[i..]) == Blocks(input)
      invariant Encoded(done, trees, written)
      decreases |input| - i
    {
      var j := if |input| - i <= BlockSize then |input| else i + BlockSize;
      var chunk, e, t := EncodeChunk(input[i..j]);
      EncodeLoopStep(input, i, j, done, trees, written, t);
      written := written + chunk;
      done := done + [input[i..j]];
      trees := trees + [t];
      i := j;
    }
    assert input[i..] == [];
    assert Blocks(input[i..]) == [];
    assert done + [] == done;
  }
}
