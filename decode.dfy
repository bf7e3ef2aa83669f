/** The decoder of decode.go.  The compressed stream is a byte sequence read
    through a cursor pos; what DecodeChunk and Decode write is returned. */
module Decoder {
  import opened Bits
  import opened HuffmanTree

  // ---------------------------------------------------------------------
  // readHeader and readChunkHeader

  /** What readHeader returns: a tree, the budget left and the cursor after
      the bytes it read, or an error. */
  datatype Header = HeaderOk(tree: Tree, budget: uint16, pos: nat) | HeaderFail(err: Error)

  /** readHeader: with a budget of 0 it reads nothing and yields a nil tree.
      Otherwise it reads a tag byte (costing 1): 0 is a branch whose two
      subtrees follow, each read with the budget left over; 1 is a leaf whose
      value is the next byte (costing 1 more, even when the budget is already
      spent, so the uint16 budget wraps); any other tag is an error.  Reading
      past the end of the stream is EOF. */
  function ReadHeader(s: seq<byte>, pos: nat, budget: uint16): (r: Header)
    requires pos <= |s|
    ensures r.HeaderOk? ==> pos <= r.pos <= |s|
    ensures r.HeaderFail? ==> r.err == EOF || r.err.InvalidNodeType?
    ensures budget == 0 ==> r == HeaderOk(Nil, 0, pos)
    ensures budget > 0 && pos < |s| && s[pos] > 1 ==> r == HeaderFail(InvalidNodeType(s[pos]))
    decreases |s| - pos
  {
    if budget == 0 then HeaderOk(Nil, 0, pos)
    else if pos == |s| then HeaderFail(EOF)
    else
      var tag := s[pos];
      var left := Dec16(budget);
      if tag == 0 then
        var l := ReadHeader(s, pos + 1, left);
        if l.HeaderFail? then l
        else
          var r := ReadHeader(s, l.pos, l.budget);
          if r.HeaderFail? then r
          else HeaderOk(Node(0, l.tree, r.tree), r.budget, r.pos)
      else if tag == 1 then
        if pos + 1 == |s| then HeaderFail(EOF)
        else HeaderOk(Node(s[pos + 1], Nil, Nil), Dec16(left), pos + 2)
      else HeaderFail(InvalidNodeType(tag))
  }

  /** A leaf tag that takes the last byte of the budget leaves 65535 behind. */
  lemma LeafBudgetWraps(s: seq<byte>, pos: nat)
    requires pos + 1 < |s| && s[pos] == 1
    ensures ReadHeader(s, pos, 1) == HeaderOk(Node(s[pos + 1], Nil, Nil), 0xFFFF, pos + 2)
  {
  }

  /** What readChunkHeader returns. */
  datatype ChunkStart = ChunkOk(tree: Tree, dataSize: uint16, pos: nat) | ChunkFail(err: Error)

  /** readChunkHeader: the big-endian header size, the header read with that
      budget, then the big-endian data size.  Fewer than two bytes for
      either size is EOF; an EOF inside the header is let through (the
      stream is then exhausted, so the data size read reports EOF); any other
      header error is returned. */
  function ReadChunkHeader(s: seq<byte>, pos: nat): (r: ChunkStart)
    requires pos <= |s|
    ensures r.ChunkOk? ==> pos + 4 <= r.pos <= |s|
    ensures |s| - pos < 2 ==> r == ChunkFail(EOF)
    ensures r.ChunkFail? ==> r.err == EOF || r.err.InvalidNodeType?
    ensures |s| - pos >= 2 ==>
              var h := ReadHeader(s, pos + 2, FromBigEndian16(s[pos], s[pos + 1]));
              && (h.HeaderFail? && h.err != EOF ==> r == ChunkFail(h.err))
              && (h.HeaderOk? && |s| - h.pos < 2 ==> r == ChunkFail(EOF))
  {
    if |s| - pos < 2 then ChunkFail(EOF)
    else
      var h := ReadHeader(s, pos + 2, FromBigEndian16(s[pos], s[pos + 1]));
      if h.HeaderFail? && h.err != EOF then ChunkFail(h.err)
      else
        var tree := if h.HeaderOk? then h.tree else Nil;
        var p := if h.HeaderOk? then h.pos else |s|;
        if |s| - p < 2 then ChunkFail(EOF)
        else ChunkOk(tree, FromBigEndian16(s[p], s[p + 1]), p + 2)
  }

  // ---------------------------------------------------------------------
  // DecodeChunk

  /** The outcome of one pass of the range loop over the bit buffer. */
  datatype Step = Match(value: byte, next: nat) | NoMatch | Fail(err: Error)

  /** The range loop of DecodeChunk from index i with the current node: an
      invalid character is an error, '0' goes left and '1' right (a nil node
      here is Go's nil dereference), a nil child is an error, and a leaf is a
      match whose bits end before next.  Running off the buffer is no match. */
  function Scan(node: Tree, buf: seq<char>, i: nat): (r: Step)
    requires i <= |buf|
    ensures r.Match? ==> i < r.next <= |buf|
    ensures r.Fail? && r.err.InvalidBit? ==> !IsBit(r.err.bit)
    ensures r.Fail? && r.err == NilTreePanic ==> node.Nil?
    decreases |buf| - i
  {
    if i == |buf| then NoMatch
    else if !IsBit(buf[i]) then Fail(InvalidBit(buf[i]))
    else if node.Nil? then Fail(NilTreePanic)
    else
      var next := Child(node, buf[i]);
      if next.Nil? then Fail(InvalidDecodingTree)
      else if IsLeaf(next) then Match(next.value, i + 1)
      else Scan(next, buf, i + 1)
  }

  /** The state after the tryAgain loop. */
  datatype Drained = Drained(buf: seq<char>, left: uint16, out: seq<byte>, err: Option<Error>)

  /** The tryAgain loop: scan from the root, emit each match, drop its bits
      and decrement the uint16 data size, until no match is left in the
      buffer or the data size reaches 0. */
  function Drain(t: Tree, buf: seq<char>, n: uint16, out: seq<byte>): (d: Drained)
    ensures |out| <= |d.out| && d.out[..|out|] == out
    ensures d.err.None? && d.left != 0 ==> Scan(t, d.buf, 0) == NoMatch
    decreases |buf|
  {
    match Scan(t, buf, 0)
    case Fail(e) => Drained(buf, n, out, Some(e))
    case NoMatch => Drained(buf, n, out, None)
    case Match(v, k) =>
      var left := Dec16(n);
      if left == 0 then Drained(buf[k..], 0, out + [v], None)
      else
        var d := Drain(t, buf[k..], left, out + [v]);
        assert d.out[..|out|] == d.out[..|out| + 1][..|out|];
        d
  }

  /** What DecodeChunk returns: the bytes written, the error and the cursor. */
  datatype Chunk = Chunk(out: seq<byte>, err: Option<Error>, pos: nat)

  /** DecodeChunk from the cursor pos with bit buffer buf, data size n and
      output out so far: read a byte (EOF at the end of the stream), append
      its eight bits, drain, and stop at an error or once the data size is 0. */
  function ChunkFrom(s: seq<byte>, pos: nat, t: Tree, buf: seq<char>, n: uint16, out: seq<byte>): (c: Chunk)
    requires pos <= |s|
    ensures pos <= c.pos <= |s|
    ensures |out| <= |c.out| && c.out[..|out|] == out
    decreases |s| - pos
  {
    if pos == |s| then Chunk(out, Some(EOF), pos)
    else
      var d := Drain(t, buf + ByteBits(s[pos]), n, out);
      if d.err.Some? then Chunk(d.out, d.err, pos + 1)
      else if d.left == 0 then Chunk(d.out, None, pos + 1)
      else
        var c := ChunkFrom(s, pos + 1, t, d.buf, d.left, d.out);
        assert c.out[..|out|] == c.out[..|d.out|][..|out|];
        c
  }

  /** One step of the range loop, unfolded. */
  lemma ScanNext(node: Tree, buf: seq<char>, i: nat)
    requires i < |buf|
    ensures Scan(node, buf, i) ==
              if !IsBit(buf[i]) then Fail(InvalidBit(buf[i]))
              else if node.Nil? then Fail(NilTreePanic)
              else if Child(node, buf[i]).Nil? then Fail(InvalidDecodingTree)
              else if IsLeaf(Child(node, buf[i])) then Match(Child(node, buf[i]).value, i + 1)
              else Scan(Child(node, buf[i]), buf, i + 1)
  {
  }

  /** One byte of DecodeChunk's outer loop, unfolded. */
  lemma ChunkFromNext(s: seq<byte>, pos: nat, t: Tree, buf: seq<char>, n: uint16, out: seq<byte>)
    requires pos < |s|
    ensures var d := Drain(t, buf + ByteBits(s[pos]), n, out);
            ChunkFrom(s, pos, t, buf, n, out) ==
              if d.err.Some? then Chunk(d.out, d.err, pos + 1)
              else if d.left == 0 then Chunk(d.out, None, pos + 1)
              else ChunkFrom(s, pos + 1, t, d.buf, d.left, d.out)
  {
  }

  /** The range loop of DecodeChunk over the bit buffer, walking down from
      the root: it ends at the first leaf reached, at the first invalid
      character or nil node, or at the end of the buffer. */
  method FindMatch(tree: Tree, buf: seq<char>) returns (r: Step)
    ensures r == Scan(tree, buf, 0)
  {
    var node := tree;
    var i := 0;
    while i < |buf|
      invariant 0 <= i <= |buf|
      invariant Scan(node, buf, i) == Scan(tree, buf, 0)
    {
      var bit := buf[i];
      ScanNext(node, buf, i);
      if bit == '0' || bit == '1' {
        if node.Nil? {
          return Fail(NilTreePanic);
        }
        node := if bit == '0' then node.left else node.right;
      } else {
        return Fail(InvalidBit(bit));
      }
      if node.Nil? {
        return Fail(InvalidDecodingTree);
      } else if IsLeaf(node) {
        return Match(node.value, i + 1);
      }
      i := i + 1;
    }
    return NoMatch;
  }

  /** DecodeChunk: nested loops over the bytes of the chunk, the tryAgain
      passes and the bits of the buffer. */
  method DecodeChunk(s: seq<byte>, start: nat, tree: Tree, dataSize: uint16)
    returns (out: seq<byte>, err: Option<Error>, pos: nat)
    requires start <= |s|
    ensures Chunk(out, err, pos) == ChunkFrom(s, start, tree, [], dataSize, [])
  {
    var buf: seq<char> := [];
    var n := dataSize;
    out, pos := [], start;
    while true
      invariant pos <= |s|
      invariant ChunkFrom(s, pos, tree, buf, n, out) == ChunkFrom(s, start, tree, [], dataSize, [])
      decreases |s| - pos
    {
      if pos == |s| {
        return out, Some(EOF), pos;
      }
      var b := s[pos];
      ChunkFromNext(s, pos, tree, buf, n, out);
      pos := pos + 1;
      buf := buf + ByteBits(b);
      ghost var d := Drain(tree, buf, n, out);
      var tryAgain := true;
      while tryAgain
        invariant tryAgain ==> Drain(tree, buf, n, out) == d
        invariant !tryAgain ==> d == Drained(buf, n, out, None)
        decreases |buf| + (if tryAgain then 1 else 0)
      {
        tryAgain := false;
        var step := FindMatch(tree, buf);
        match step {
          case Fail(e) =>
            return out, Some(e), pos;
          case NoMatch =>
          case Match(v, k) =>
            out := out + [v];
            buf := buf[k..];
            n := Dec16(n);
            tryAgain := true;
        }
        if n == 0 {
          tryAgain := false;
        }
      }
      if n == 0 {
        return out, None, pos;
      }
    }
  }

  // ---------------------------------------------------------------------
  // Decode

  /** What Decode writes and returns. */
  datatype Decoded = Decoded(out: seq<byte>, err: Option<Error>)

  /** Decode from the cursor pos with output out so far: chunk after chunk,
      an EOF from readChunkHeader or DecodeChunk ends the stream without
      error, any other error is returned. */
  function DecodeFrom(s: seq<byte>, pos: nat, out: seq<byte>): (r: Decoded)
    requires pos <= |s|
    ensures |out| <= |r.out| && r.out[..|out|] == out
    ensures r.err.Some? ==> r.err.value != EOF
    ensures var c := ReadChunkHeader(s, pos);
            c.ChunkFail? && c.err != EOF ==> r == Decoded(out, Some(c.err))
    ensures ReadChunkHeader(s, pos) == ChunkFail(EOF) ==> r == Decoded(out, None)
    ensures var c := ReadChunkHeader(s, pos);
            c.ChunkOk? && ChunkFrom(s, c.pos, c.tree, [], c.dataSize, []).err == Some(EOF) ==>
              r == Decoded(out + ChunkFrom(s, c.pos, c.tree, [], c.dataSize, []).out, None)
    decreases |s| - pos
  {
    match ReadChunkHeader(s, pos)
    case ChunkFail(e) => Decoded(out, if e == EOF then None else Some(e))
    case ChunkOk(t, n, p) =>
      var c := ChunkFrom(s, p, t, [], n, []);
      if c.err == Some(EOF) then Decoded(out + c.out, None)
      else if c.err.Some? then Decoded(out + c.out, c.err)
      else
        var r := DecodeFrom(s, c.pos, out + c.out);
        assert r.out[..|out|] == r.out[..|out + c.out|][..|out|];
        r
  }

  /** Decode: the chunk loop over the whole stream. */
  method Decode(s: seq<byte>) returns (out: seq<byte>, err: Option<Error>)
    ensures Decoded(out, err) == DecodeFrom(s, 0, [])
  {
    var pos := 0;
    out := [];
    while true
      invariant pos <= |s|
      invariant DecodeFrom(s, pos, out) == DecodeFrom(s, 0, [])
      decreases |s| - pos
    {
      var h := ReadChunkHeader(s, pos);
      if h.ChunkFail? {
        if h.err == EOF {
          return out, None;
        }
        return out, Some(h.err);
      }
      var chunk, e, p := DecodeChunk(s, h.pos, h.tree, h.dataSize);
      out := out + chunk;
      if e == Some(EOF) {
        return out, None;
      } else if e.Some? {
        return out, e;
      }
      pos := p;
    }
  }
}
