/** Sending a block in fragments (conn.go): whenever the buffer reaches the limit its unsent part is written out. */
module SendData {
  import opened Base

  /** Compression as an abstract pair: `unframe` takes one compressed frame off the front. */
  datatype Codec = Codec(compress: Bytes -> Bytes, unframe: Bytes -> Option<(Bytes, Bytes)>)

  /** The frames delimit themselves and decompression inverts compression. */
  ghost predicate Inverse(c: Codec) {
    forall d: Bytes, rest: Bytes {:trigger c.unframe(c.compress(d) + rest)} ::
      c.compress(d) != [] && c.unframe(c.compress(d) + rest) == Some((d, rest))
  }

  ghost predicate Sound(c: Option<Codec>) {
    c.Some? ==> Inverse(c.value)
  }

  lemma FrameNonempty(c: Option<Codec>, chunk: Bytes)
    ensures c.Some? && Inverse(c.value) ==> c.value.compress(chunk) != []
  {
    if c.Some? && Inverse(c.value) { assert c.value.unframe(c.value.compress(chunk) + []) == Some((chunk, [])); }
  }

  /** What the chunks look like on the wire, with or without compression. */
  ghost function Frames(c: Option<Codec>, chunks: seq<Bytes>): Bytes {
    if chunks == [] then []
    else
      var n := |chunks| - 1;
      Frames(c, chunks[..n]) + Pack(c, chunks[n])
  }

  function Pack(c: Option<Codec>, chunk: Bytes): Bytes {
    if c.Some? then c.value.compress(chunk) else chunk
  }

  /** A receiver's view: decompress frame after frame until `bytes` is used up. */
  ghost function Receive(c: Codec, bytes: Bytes): Option<Bytes>
    decreases |bytes|
  {
    if bytes == [] then Some([])
    else match c.unframe(bytes)
      case None => None
      case Some((data, rest)) =>
        if |rest| >= |bytes| then None
        else match Receive(c, rest)
          case None => None
          case Some(more) => Some(data + more)
  }

  lemma {:induction false} ReceiveFrames(c: Codec, chunks: seq<Bytes>, rest: Bytes)
    requires Inverse(c)
    ensures var tail := Receive(c, rest);
      Receive(c, Frames(Some(c), chunks) + rest) == if tail.Some? then Some(Concat(chunks) + tail.value) else None
  {
    var tail := Receive(c, rest);
    if chunks == [] {
      assert [] + rest == rest;
      if tail.Some? { assert [] + tail.value == tail.value; }
    } else {
      var n := |chunks| - 1;
      var init, last := chunks[..n], chunks[n];
      var frame := c.compress(last);
      assert chunks == init + [last];
      assert Frames(Some(c), chunks) + rest == Frames(Some(c), init) + (frame + rest);
      ReceiveFrames(c, init, frame + rest);
      assert c.unframe(c.compress(last) + rest) == Some((last, rest));
      ConcatSnoc(init, last);
      if tail.Some? {
        assert Concat(init) + (last + tail.value) == Concat(init + [last]) + tail.value;
      }
    }
  }

  lemma {:induction false} FramesPlain(chunks: seq<Bytes>)
    ensures Frames(None, chunks) == Concat(chunks)
  {
    if chunks != [] {
      var n := |chunks| - 1;
      FramesPlain(chunks[..n]);
      assert chunks == chunks[..n] + [chunks[n]];
      ConcatSnoc(chunks[..n], chunks[n]);
    }
  }

  ghost predicate AllEncoded(columns: seq<Option<Bytes>>) {
    forall k | 0 <= k < |columns| :: columns[k].Some?
  }

  /** The encoded block: its header and then every column. */
  ghost function Payload(header: Bytes, columns: seq<Option<Bytes>>): Bytes
    requires AllEncoded(columns)
  {
    if columns == [] then header
    else
      var n := |columns| - 1;
      Payload(header, columns[..n]) + columns[n].value
  }

  lemma PayloadStep(header: Bytes, columns: seq<Option<Bytes>>, n: nat)
    requires n < |columns| && AllEncoded(columns[..n]) && columns[n].Some?
    ensures AllEncoded(columns[..n + 1])
    ensures Payload(header, columns[..n + 1]) == Payload(header, columns[..n]) + columns[n].value
  {
    assert columns[..n + 1][..n] == columns[..n];
  }

  /** Fragmentation is invisible: from what `sendData` writes after the packet header a receiver
      reads back the block header and all columns, whatever the chunks were. */
  lemma Invisible(c: Option<Codec>, chunks: seq<Bytes>, payload: Bytes)
    requires Concat(chunks) == payload && (c.Some? ==> Inverse(c.value))
    ensures c.Some? ==> Receive(c.value, Frames(c, chunks)) == Some(payload)
    ensures c.None? ==> Frames(c, chunks) == payload
  {
    FramesPlain(chunks);
    if c.Some? {
      ReceiveFrames(c.value, chunks, []);
      assert Frames(c, chunks) + [] == Frames(c, chunks);
      assert payload + [] == payload;
    }
  }

  /** Up to `off` the buffer is final and continues the wire; from there on it is the unsent,
      still uncompressed end of what has been encoded so far. */
  ghost predicate Progress(c: Option<Codec>, wire: Bytes, buffer: Bytes, off: nat,
                           base: Bytes, chunks: seq<Bytes>, encoded: Bytes) {
    && off <= |buffer|
    && wire + buffer[..off] == base + Frames(c, chunks)
    && Concat(chunks) + buffer[off..] == encoded
  }

  /** The chunks once the unsent end of the buffer is packed as one more. */
  ghost function Cut(buffer: Bytes, off: nat, chunks: seq<Bytes>): seq<Bytes>
    requires off <= |buffer|
  {
    if buffer == [] then chunks else chunks + [buffer[off..]]
  }

  lemma Packed(c: Option<Codec>, wire: Bytes, buffer: Bytes, off: nat, base: Bytes, chunks: seq<Bytes>, encoded: Bytes)
    requires Progress(c, wire, buffer, off, base, chunks, encoded)
    ensures var packed := if buffer == [] then [] else buffer[..off] + Pack(c, buffer[off..]);
      wire + packed == base + Frames(c, Cut(buffer, off, chunks))
    ensures Concat(Cut(buffer, off, chunks)) == encoded
  {
    var tail := buffer[off..];
    if buffer == [] {
      assert buffer[..off] == [] && Concat(chunks) + [] == Concat(chunks);
    } else {
      ConcatSnoc(chunks, tail);
      var p := Pack(c, tail);
      assert wire + (buffer[..off] + p) == (wire + buffer[..off]) + p;
      assert (base + Frames(c, chunks)) + p == base + (Frames(c, chunks) + p);
    }
  }

  /** After a fragment the buffer is empty and everything encoded has been written. */
  lemma Sent(c: Option<Codec>, wire: Bytes, base: Bytes, chunks: seq<Bytes>, encoded: Bytes)
    requires wire == base + Frames(c, chunks) && Concat(chunks) == encoded
    ensures Progress(c, wire, [], 0, base, chunks, encoded)
  {
    assert wire + [] == wire && encoded + [] == encoded;
  }

  /** What was written and what is buffered reach at least to the end of the packet header. */
  lemma Reached(c: Option<Codec>, wire: Bytes, buffer: Bytes, off: nat, base: Bytes, chunks: seq<Bytes>, encoded: Bytes)
    requires Progress(c, wire, buffer, off, base, chunks, encoded)
    ensures |wire| + off >= |base|
  {
    assert |wire + buffer[..off]| == |wire| + off;
  }

  /** Appending encoded bytes to the buffer moves nothing that is final. */
  lemma Grown(c: Option<Codec>, wire: Bytes, buffer: Bytes, off: nat, base: Bytes, chunks: seq<Bytes>, encoded: Bytes,
              more: Bytes)
    requires Progress(c, wire, buffer, off, base, chunks, encoded)
    ensures Progress(c, wire, buffer + more, off, base, chunks, encoded + more)
  {
  }

  // ---------------------------------------------------------------- where a block is cut

  /** The columns from `a` to `b`, behind the header if they are the first. */
  ghost function Piece(header: Bytes, columns: seq<Option<Bytes>>, a: nat, b: nat): Bytes
    requires a <= b <= |columns|
    decreases b
  {
    if a == b then (if a == 0 then header else [])
    else Piece(header, columns, a, b - 1) + Encoded(columns[b - 1])
  }

  ghost function Encoded(column: Option<Bytes>): Bytes {
    if column.Some? then column.value else []
  }

  /** The bytes buffered after column `b` if the buffer was last empty after column `a`. At first it holds
      `pending` bytes before the block. */
  ghost function Span(pending: nat, header: Bytes, columns: seq<Option<Bytes>>, a: nat, b: nat): nat
    requires a <= b <= |columns|
  {
    |Piece(header, columns, a, b)| + if a == 0 then pending else 0
  }

  /** The buffer stays below the limit, or empty, after every column behind `a` and before `b`. */
  ghost predicate Below(limit: int, pending: nat, header: Bytes, columns: seq<Option<Bytes>>, a: nat, b: nat)
    requires a <= b <= |columns| + 1
  {
    forall j | a < j < b :: Span(pending, header, columns, a, j) < limit || Span(pending, header, columns, a, j) == 0
  }

  /** One chunk: the columns up to the first at which the buffer reaches the limit. */
  ghost predicate IsChunk(limit: int, pending: nat, header: Bytes, columns: seq<Option<Bytes>>, a: nat, b: nat,
                          chunk: Bytes)
    requires a <= b <= |columns|
  {
    && a < b && chunk == Piece(header, columns, a, b) && Below(limit, pending, header, columns, a, b)
    && Span(pending, header, columns, a, b) >= limit && Span(pending, header, columns, a, b) > 0
  }

  ghost predicate ChunkAt(limit: int, pending: nat, header: Bytes, columns: seq<Option<Bytes>>, i: nat, cuts: seq<nat>,
                          chunks: seq<Bytes>, k: nat)
    requires i <= |columns| && k < |chunks| < |cuts|
  {
    cuts[k] <= cuts[k + 1] <= i && IsChunk(limit, pending, header, columns, cuts[k], cuts[k + 1], chunks[k])
  }

  /** The first `i` columns are cut into chunks as soon as the buffer reaches the limit, and the rest of them
      is buffered. */
  ghost predicate Chunked(limit: int, pending: nat, header: Bytes, columns: seq<Option<Bytes>>, i: nat,
                          cuts: seq<nat>, chunks: seq<Bytes>) {
    && i <= |columns| && |cuts| == |chunks| + 1 && cuts[0] == 0 && cuts[|chunks|] <= i
    && (forall k | 0 <= k < |chunks| :: ChunkAt(limit, pending, header, columns, i, cuts, chunks, k))
    && Below(limit, pending, header, columns, cuts[|chunks|], i + 1)
  }

  /** The unsent part of the buffer and its size. */
  ghost predicate Buffered(pending: nat, header: Bytes, columns: seq<Option<Bytes>>, i: nat, a: nat, tail: Bytes,
                           size: nat)
    requires i <= |columns|
  {
    a <= i && tail == Piece(header, columns, a, i) && size == Span(pending, header, columns, a, i)
  }

  /** A column that leaves the buffer below the limit. */
  lemma ChunkedGrow(limit: int, pending: nat, header: Bytes, columns: seq<Option<Bytes>>, i: nat, cuts: seq<nat>,
                    chunks: seq<Bytes>, tail: Bytes, size: nat)
    requires Chunked(limit, pending, header, columns, i, cuts, chunks) && i < |columns|
    requires Buffered(pending, header, columns, i, cuts[|chunks|], tail, size)
    requires var grown := size + |Encoded(columns[i])|; grown < limit || grown == 0
    ensures Chunked(limit, pending, header, columns, i + 1, cuts, chunks)
    ensures Buffered(pending, header, columns, i + 1, cuts[|chunks|], tail + Encoded(columns[i]),
                     size + |Encoded(columns[i])|)
  {
    var i' := i + 1;
    forall k | 0 <= k < |chunks| ensures ChunkAt(limit, pending, header, columns, i', cuts, chunks, k) {
      assert ChunkAt(limit, pending, header, columns, i, cuts, chunks, k);
    }
  }

  /** One that makes it reach the limit. */
  lemma ChunkedCut(limit: int, pending: nat, header: Bytes, columns: seq<Option<Bytes>>, i: nat, cuts: seq<nat>,
                   chunks: seq<Bytes>, tail: Bytes, size: nat)
    requires Chunked(limit, pending, header, columns, i, cuts, chunks) && i < |columns|
    requires Buffered(pending, header, columns, i, cuts[|chunks|], tail, size)
    requires var grown := size + |Encoded(columns[i])|; grown >= limit && grown > 0
    ensures Chunked(limit, pending, header, columns, i + 1, cuts + [i + 1], chunks + [tail + Encoded(columns[i])])
    ensures Buffered(pending, header, columns, i + 1, i + 1, [], 0)
  {
    var a, chunk := cuts[|chunks|], tail + Encoded(columns[i]);
    assert Piece(header, columns, a, i + 1) == chunk;
    assert IsChunk(limit, pending, header, columns, a, i + 1, chunk);
    ChunksSnoc(limit, pending, header, columns, i, cuts, chunks, chunk);
  }

  lemma ChunksSnoc(limit: int, pending: nat, header: Bytes, columns: seq<Option<Bytes>>, i: nat, cuts: seq<nat>,
                   chunks: seq<Bytes>, chunk: Bytes)
    requires Chunked(limit, pending, header, columns, i, cuts, chunks) && i < |columns|
    requires IsChunk(limit, pending, header, columns, cuts[|chunks|], i + 1, chunk)
    ensures Chunked(limit, pending, header, columns, i + 1, cuts + [i + 1], chunks + [chunk])
  {
    var i', cuts', chunks' := i + 1, cuts + [i + 1], chunks + [chunk];
    forall k | 0 <= k < |chunks'| ensures ChunkAt(limit, pending, header, columns, i', cuts', chunks', k) {
      if k < |chunks| { assert ChunkAt(limit, pending, header, columns, i, cuts, chunks, k); }
    }
  }

  /** Every block can be cut so. */
  lemma {:induction false} ChunksExist(limit: int, pending: nat, header: Bytes, columns: seq<Option<Bytes>>, i: nat)
      returns (cuts: seq<nat>, chunks: seq<Bytes>)
    requires i <= |columns|
    ensures Chunked(limit, pending, header, columns, i, cuts, chunks)
  {
    if i == 0 {
      cuts, chunks := [0], [];
    } else {
      cuts, chunks := ChunksExist(limit, pending, header, columns, i - 1);
      var a := cuts[|chunks|];
      var tail, size := Piece(header, columns, a, i - 1), Span(pending, header, columns, a, i - 1);
      var more := Encoded(columns[i - 1]);
      if size + |more| < limit || size + |more| == 0 {
        ChunkedGrow(limit, pending, header, columns, i - 1, cuts, chunks, tail, size);
      } else {
        ChunkedCut(limit, pending, header, columns, i - 1, cuts, chunks, tail, size);
        cuts, chunks := cuts + [i], chunks + [tail + more];
      }
    }
  }

  /** Where the first `i` columns are cut, and what of them is buffered from `off` on. */
  ghost predicate Cutting(limit: int, pending: nat, header: Bytes, columns: seq<Option<Bytes>>, i: nat,
                          cuts: seq<nat>, chunks: seq<Bytes>, buffer: Bytes, off: nat) {
    && off <= |buffer| && Chunked(limit, pending, header, columns, i, cuts, chunks)
    && Buffered(pending, header, columns, i, cuts[|chunks|], buffer[off..], |buffer|)
  }

  /** One more column. */
  lemma CuttingNext(limit: int, pending: nat, header: Bytes, columns: seq<Option<Bytes>>, i: nat, cuts: seq<nat>,
                    chunks: seq<Bytes>, buffer: Bytes, off: nat, all: Bytes)
      returns (cuts': seq<nat>)
    requires i < |columns| && columns[i].Some? && all == buffer + columns[i].value
    requires Cutting(limit, pending, header, columns, i, cuts, chunks, buffer, off)
    ensures |all| < limit ==> Cutting(limit, pending, header, columns, i + 1, cuts', chunks, all, off)
    ensures |all| >= limit ==> Cutting(limit, pending, header, columns, i + 1, cuts', Cut(all, off, chunks), [], 0)
  {
    assert all[off..] == buffer[off..] + columns[i].value;
    if |all| < limit || |all| == 0 {
      cuts' := cuts;
      ChunkedGrow(limit, pending, header, columns, i, cuts, chunks, buffer[off..], |buffer|);
    } else {
      cuts' := cuts + [i + 1];
      ChunkedCut(limit, pending, header, columns, i, cuts, chunks, buffer[off..], |buffer|);
    }
  }

  /** A whole block: its chunks, and the rest as one more unless nothing is buffered at the end. */
  ghost predicate Fragments(limit: int, pending: nat, header: Bytes, columns: seq<Option<Bytes>>, cuts: seq<nat>,
                            chunks: seq<Bytes>) {
    0 < |cuts| <= |chunks| + 1 &&
    var n, m := |cuts| - 1, |columns|;
    Chunked(limit, pending, header, columns, m, cuts, chunks[..n]) &&
    if Span(pending, header, columns, cuts[n], m) == 0 then |chunks| == n
    else |chunks| == n + 1 && chunks[n] == Piece(header, columns, cuts[n], m)
  }

  lemma CuttingDone(limit: int, pending: nat, header: Bytes, columns: seq<Option<Bytes>>, cuts: seq<nat>,
                    chunks: seq<Bytes>, buffer: Bytes, off: nat)
    requires Cutting(limit, pending, header, columns, |columns|, cuts, chunks, buffer, off)
    ensures Fragments(limit, pending, header, columns, cuts, Cut(buffer, off, chunks))
  {
    assert Cut(buffer, off, chunks)[..|chunks|] == chunks;
  }

  lemma CuttingStart(limit: int, pending: Bytes, header: Bytes, columns: seq<Option<Bytes>>)
    ensures Cutting(limit, |pending|, header, columns, 0, [0], [], pending + header, |pending|)
  {
  }

  function Head(b: Bytes, n: nat): (h: Bytes)
    ensures h <= b
  {
    if n <= |b| then b[..n] else b
  }

  /** The compressor never fails and the socket always takes everything. */
  ghost predicate Reliable(works: nat -> bool, short: nat -> Option<nat>) {
    forall i: nat :: works(i) && short(i) == None
  }

  datatype SendError = Closed | EncodeFailed | CompressFailed | PartialWriteFailed | WriteFailed

  // ---------------------------------------------------------------- how sending comes out

  /** Compressing and writing out `size` buffered bytes; the socket fails if `short` says so. */
  function CutFate(compressing: bool, size: nat, works: bool, short: Option<nat>): Option<SendError> {
    if size == 0 then None
    else if compressing && !works then Some(CompressFailed)
    else if short.Some? then Some(PartialWriteFailed)
    else None
  }

  /** The columns from `i` on, with `size` bytes buffered: an error, or the bytes buffered at the end. */
  function ColumnsFate(compressing: bool, limit: int, size: nat, columns: seq<Option<Bytes>>, i: nat,
                       works: nat -> bool, short: nat -> Option<nat>): Result<nat, SendError>
    decreases |columns| - i
  {
    if i >= |columns| then Ok(size)
    else if columns[i].None? then Err(EncodeFailed)
    else
      var grown := size + |columns[i].value|;
      if grown < limit then ColumnsFate(compressing, limit, grown, columns, i + 1, works, short)
      else match CutFate(compressing, grown, works(i), short(i))
        case Some(e) => Err(e)
        case None => ColumnsFate(compressing, limit, 0, columns, i + 1, works, short)
  }

  function LastFate(compressing: bool, size: nat, works: bool, short: Option<nat>): Option<SendError> {
    match CutFate(compressing, size, works, short)
    case Some(PartialWriteFailed) => Some(WriteFailed)
    case other => other
  }

  /** How a block is sent on an open connection with `pending` bytes buffered. A write that fails at the
      very end marks the connection; every other failure leaves it open. */
  function Fate(compressing: bool, limit: int, pending: nat, header: Option<Bytes>, columns: seq<Option<Bytes>>,
                works: nat -> bool, short: nat -> Option<nat>): Option<SendError>
  {
    if header.None? then Some(EncodeFailed)
    else match ColumnsFate(compressing, limit, pending + |header.value|, columns, 0, works, short)
      case Err(e) => Some(e)
      case Ok(size) => LastFate(compressing, size, works(|columns|), short(|columns|))
  }

  /** A compressor and a socket that work send every block. */
  lemma {:induction false} ReliableColumns(compressing: bool, limit: int, size: nat, columns: seq<Option<Bytes>>,
                                           i: nat, works: nat -> bool, short: nat -> Option<nat>)
    requires Reliable(works, short) && AllEncoded(columns)
    ensures ColumnsFate(compressing, limit, size, columns, i, works, short).Ok?
    decreases |columns| - i
  {
    if i < |columns| {
      assert works(i) && short(i) == None;
      var grown := size + |columns[i].value|;
      ReliableColumns(compressing, limit, if grown < limit then grown else 0, columns, i + 1, works, short);
    }
  }

  lemma ReliableFate(compressing: bool, limit: int, pending: nat, header: Bytes, columns: seq<Option<Bytes>>,
                     works: nat -> bool, short: nat -> Option<nat>)
    requires Reliable(works, short) && AllEncoded(columns)
    ensures Fate(compressing, limit, pending, Some(header), columns, works, short) == None
  {
    ReliableColumns(compressing, limit, pending + |header|, columns, 0, works, short);
    assert works(|columns|) && short(|columns|) == None;
  }

  /** A block to send, and what the compressor and the socket do. */
  datatype Send = Send(compressing: bool, limit: int, pending: nat, header: Bytes, columns: seq<Option<Bytes>>,
                       works: nat -> bool, short: nat -> Option<nat>)

  /** Bytes go out behind column `p` or, at the number of columns, at the end. */
  ghost predicate GoesOut(s: Send, cuts: seq<nat>, p: nat)
    requires |cuts| > 0 && cuts[|cuts| - 1] <= |s.columns|
  {
    if p < |s.columns| then p + 1 in cuts
    else Span(s.pending, s.header, s.columns, cuts[|cuts| - 1], |s.columns|) > 0
  }

  /** Something goes wrong there: the column does not encode, or bytes go out that are not compressed or taken. */
  ghost predicate Trouble(s: Send, cuts: seq<nat>, p: nat)
    requires |cuts| > 0 && cuts[|cuts| - 1] <= |s.columns|
  {
    || (p < |s.columns| && s.columns[p].None?)
    || (GoesOut(s, cuts, p) && ((s.compressing && !s.works(p)) || s.short(p).Some?))
  }

  ghost function TroubleIs(s: Send, p: nat): SendError {
    if p < |s.columns| && s.columns[p].None? then EncodeFailed
    else if s.compressing && !s.works(p) then CompressFailed
    else if p < |s.columns| then PartialWriteFailed
    else WriteFailed
  }

  /** From column `i` on the first trouble is at `p`, or there is none and `p` is past the end; and the answer
      says so. */
  ghost predicate FirstTrouble(s: Send, cuts: seq<nat>, i: nat, p: nat, r: Option<SendError>)
    requires |cuts| > 0 && cuts[|cuts| - 1] <= |s.columns|
  {
    && i <= p <= |s.columns| + 1 && (forall q | i <= q < p :: !Trouble(s, cuts, q))
    && if p > |s.columns| then r == None else Trouble(s, cuts, p) && r == Some(TroubleIs(s, p))
  }

  /** What is left to come from column `i` on, with `size` bytes buffered. */
  ghost function FateFrom(s: Send, size: nat, i: nat): Option<SendError> {
    match ColumnsFate(s.compressing, s.limit, size, s.columns, i, s.works, s.short)
    case Err(e) => Some(e)
    case Ok(left) => LastFate(s.compressing, left, s.works(|s.columns|), s.short(|s.columns|))
  }

  /** Cut `k` is the last one at or before column `i`. */
  ghost predicate Since(s: Send, cuts: seq<nat>, chunks: seq<Bytes>, k: nat, i: nat) {
    && Chunked(s.limit, s.pending, s.header, s.columns, |s.columns|, cuts, chunks)
    && k < |cuts| && cuts[k] <= i <= |s.columns| && (k + 1 < |cuts| ==> i < cuts[k + 1])
  }

  /** The buffer is empty behind each cut, so after column `i` it holds what came since cut `k`. */
  lemma {:induction false} FateFollows(s: Send, cuts: seq<nat>, chunks: seq<Bytes>, k: nat, i: nat) returns (p: nat)
    requires Since(s, cuts, chunks, k, i)
    ensures FirstTrouble(s, cuts, i, p, FateFrom(s, Span(s.pending, s.header, s.columns, cuts[k], i), i))
    decreases |s.columns| - i
  {
    var size := Span(s.pending, s.header, s.columns, cuts[k], i);
    if i == |s.columns| {
      p := FateEnd(s, cuts, chunks, k, size);
    } else if Trouble(s, cuts, i) {
      FateHere(s, cuts, chunks, k, i, size);
      p := i;
    } else {
      var k' := FateLater(s, cuts, chunks, k, i, size);
      p := FateFollows(s, cuts, chunks, k', i + 1);
    }
  }

  lemma FateHere(s: Send, cuts: seq<nat>, chunks: seq<Bytes>, k: nat, i: nat, size: nat)
    requires Since(s, cuts, chunks, k, i) && i < |s.columns| && Trouble(s, cuts, i)
    requires size == Span(s.pending, s.header, s.columns, cuts[k], i)
    ensures FateFrom(s, size, i) == Some(TroubleIs(s, i))
  {
    if s.columns[i].Some? {
      CutIff(s, cuts, chunks, k, i);
      FateFails(s, cuts, i, size);
    }
  }

  lemma FateLater(s: Send, cuts: seq<nat>, chunks: seq<Bytes>, k: nat, i: nat, size: nat) returns (k': nat)
    requires Since(s, cuts, chunks, k, i) && i < |s.columns| && !Trouble(s, cuts, i)
    requires size == Span(s.pending, s.header, s.columns, cuts[k], i)
    ensures Since(s, cuts, chunks, k', i + 1)
    ensures FateFrom(s, size, i) == FateFrom(s, Span(s.pending, s.header, s.columns, cuts[k'], i + 1), i + 1)
  {
    CutIff(s, cuts, chunks, k, i);
    if i + 1 !in cuts {
      k' := k;
      FateGrows(s, cuts, chunks, k, i, size);
    } else {
      k' := k + 1;
      NextSince(s, cuts, chunks, k);
      FateCuts(s, cuts, i, size);
    }
  }

  lemma FateEnd(s: Send, cuts: seq<nat>, chunks: seq<Bytes>, k: nat, size: nat) returns (p: nat)
    requires Since(s, cuts, chunks, k, |s.columns|)
    requires size == Span(s.pending, s.header, s.columns, cuts[k], |s.columns|)
    ensures FirstTrouble(s, cuts, |s.columns|, p, FateFrom(s, size, |s.columns|))
  {
    assert k + 1 < |cuts| ==> ChunkAt(s.limit, s.pending, s.header, s.columns, |s.columns|, cuts, chunks, k);
    p := if Trouble(s, cuts, |s.columns|) then |s.columns| else |s.columns| + 1;
  }

  /** A column that is not followed by a cut. */
  lemma FateGrows(s: Send, cuts: seq<nat>, chunks: seq<Bytes>, k: nat, i: nat, size: nat)
    requires Since(s, cuts, chunks, k, i) && i < |s.columns| && s.columns[i].Some? && i + 1 !in cuts
    requires size == Span(s.pending, s.header, s.columns, cuts[k], i)
    ensures FateFrom(s, size, i) == FateFrom(s, Span(s.pending, s.header, s.columns, cuts[k], i + 1), i + 1)
  {
    CutIff(s, cuts, chunks, k, i);
  }

  /** One that is, and what goes out is taken. */
  lemma FateCuts(s: Send, cuts: seq<nat>, i: nat, size: nat)
    requires |cuts| > 0 && cuts[|cuts| - 1] <= |s.columns| && i < |s.columns| && s.columns[i].Some?
    requires size + |s.columns[i].value| >= s.limit && i + 1 in cuts && !Trouble(s, cuts, i)
    ensures FateFrom(s, size, i) == FateFrom(s, Span(s.pending, s.header, s.columns, i + 1, i + 1), i + 1)
  {
  }

  /** Or is not. */
  lemma FateFails(s: Send, cuts: seq<nat>, i: nat, size: nat)
    requires |cuts| > 0 && cuts[|cuts| - 1] <= |s.columns| && i < |s.columns| && s.columns[i].Some?
    requires size + |s.columns[i].value| >= s.limit && size + |s.columns[i].value| > 0
    requires i + 1 in cuts && Trouble(s, cuts, i)
    ensures FateFrom(s, size, i) == Some(TroubleIs(s, i))
  {
  }

  lemma NextSince(s: Send, cuts: seq<nat>, chunks: seq<Bytes>, k: nat)
    requires Chunked(s.limit, s.pending, s.header, s.columns, |s.columns|, cuts, chunks) && k + 1 < |cuts|
    ensures Since(s, cuts, chunks, k + 1, cuts[k + 1])
  {
    CutsAscend(s, cuts, chunks);
    assert ChunkAt(s.limit, s.pending, s.header, s.columns, |s.columns|, cuts, chunks, k);
  }

  /** The next cut is where the buffer reaches the limit. */
  lemma CutIff(s: Send, cuts: seq<nat>, chunks: seq<Bytes>, k: nat, i: nat)
    requires Since(s, cuts, chunks, k, i) && i < |s.columns|
    ensures var grown := Span(s.pending, s.header, s.columns, cuts[k], i + 1);
      && grown == Span(s.pending, s.header, s.columns, cuts[k], i) + |Encoded(s.columns[i])|
      && (i + 1 in cuts <==> grown >= s.limit && grown > 0)
    ensures i + 1 in cuts ==> k + 1 < |cuts| && cuts[k + 1] == i + 1
    ensures i + 1 !in cuts && k + 1 < |cuts| ==> i + 1 < cuts[k + 1]
  {
    CutsAscend(s, cuts, chunks);
    if k + 1 < |cuts| { assert ChunkAt(s.limit, s.pending, s.header, s.columns, |s.columns|, cuts, chunks, k); }
    var grown := Span(s.pending, s.header, s.columns, cuts[k], i + 1);
  }

  lemma CutsAscend(s: Send, cuts: seq<nat>, chunks: seq<Bytes>)
    requires Chunked(s.limit, s.pending, s.header, s.columns, |s.columns|, cuts, chunks)
    ensures forall k, l | 0 <= k < l < |cuts| :: cuts[k] < cuts[l]
  {
    forall l | 0 <= l < |cuts| ensures forall k | 0 <= k < l :: cuts[k] < cuts[l] {
      AscendTo(s, cuts, chunks, l);
    }
  }

  lemma {:induction false} AscendTo(s: Send, cuts: seq<nat>, chunks: seq<Bytes>, l: nat)
    requires Chunked(s.limit, s.pending, s.header, s.columns, |s.columns|, cuts, chunks) && l < |cuts|
    ensures forall k | 0 <= k < l :: cuts[k] < cuts[l]
  {
    if l > 0 {
      AscendTo(s, cuts, chunks, l - 1);
      assert ChunkAt(s.limit, s.pending, s.header, s.columns, |s.columns|, cuts, chunks, l - 1);
    }
  }

  /** How sending comes out: the first trouble, in the order in which columns are encoded and bytes go out. */
  lemma FateFirst(s: Send, cuts: seq<nat>, chunks: seq<Bytes>) returns (p: nat)
    requires Chunked(s.limit, s.pending, s.header, s.columns, |s.columns|, cuts, chunks)
    ensures FirstTrouble(s, cuts, 0, p,
                         Fate(s.compressing, s.limit, s.pending, Some(s.header), s.columns, s.works, s.short))
  {
    if |chunks| > 0 { assert ChunkAt(s.limit, s.pending, s.header, s.columns, |s.columns|, cuts, chunks, 0); }
    p := FateFollows(s, cuts, chunks, 0, 0);
  }

  /** Any way to cut the block will do: there is just one. */
  lemma Troubles(s: Send, cuts: seq<nat>, chunks: seq<Bytes>, sent: bool) returns (cuts': seq<nat>, p: nat)
    requires sent ==> Fragments(s.limit, s.pending, s.header, s.columns, cuts, chunks)
    ensures (sent ==> cuts' == cuts) && |cuts'| > 0 && cuts'[|cuts'| - 1] <= |s.columns|
    ensures FirstTrouble(s, cuts', 0, p,
                         Fate(s.compressing, s.limit, s.pending, Some(s.header), s.columns, s.works, s.short))
  {
    if sent {
      cuts' := cuts;
      p := FateFirst(s, cuts, chunks[..|cuts| - 1]);
    } else {
      var parts;
      cuts', parts := ChunksExist(s.limit, s.pending, s.header, s.columns, |s.columns|);
      p := FateFirst(s, cuts', parts);
    }
  }

  /** Failures after which the connection counts as usable: encoding, compressing, or writing a fragment
      before the last. */
  predicate LeavesOpen(r: Option<SendError>) {
    r.Some? && !r.value.Closed? && !r.value.WriteFailed?
  }

  class Connect {
    const codec: Option<Codec>
    const limit: int            // maxCompressionBuffer
    var buffer: Bytes
    var closed: bool
    var wire: Bytes             // every byte the socket has accepted

    constructor (codec: Option<Codec>, limit: int, buffer: Bytes)
      ensures this.codec == codec && this.limit == limit && this.buffer == buffer
      ensures !closed && wire == [] && fresh(this)
    {
      this.codec, this.limit, this.buffer, closed, wire := codec, limit, buffer, false, [];
    }

    method CompressBuffer(off: nat, works: bool) returns (ok: bool)
      requires off <= |buffer|
      modifies this`buffer
      ensures ok == (codec.None? || buffer == [] || works)
      ensures !ok ==> buffer == old(buffer)
      ensures ok && old(buffer) != [] ==> buffer == old(buffer[..off] + Pack(codec, buffer[off..]))
      ensures ok && old(buffer) == [] ==> buffer == []
      ensures |buffer| >= off
    {
      assert buffer == buffer[..off] + buffer[off..];
      if codec.Some? && |buffer| > 0 {
        if !works { return false; }
        buffer := buffer[..off] + codec.value.compress(buffer[off..]);
      }
      ok := true;
    }

    /** Writes the buffer out; the socket takes it all, or fails after some bytes of it. */
    method Flush(short: Option<nat>) returns (ok: bool)
      modifies this`buffer, this`wire
      ensures ok == (old(buffer) == [] || short == None)
      ensures ok ==> wire == old(wire + buffer) && buffer == []
      ensures |wire| + |buffer| >= old(|wire| + |buffer|)
      ensures !ok ==>
        buffer == old(buffer) && wire == old(wire) + Head(buffer, short.value) && wire <= old(wire + buffer)
    {
      if |buffer| == 0 {
        assert wire + buffer == wire;
        return true;
      }
      if short.Some? {
        wire := wire + Head(buffer, short.value);
        return false;
      }
      wire := wire + buffer;
      buffer := [];
      ok := true;
    }

    /** Packs the unsent end of the buffer as one more chunk and writes everything out. */
    method Fragment(off: nat, works: bool, short: Option<nat>, ghost base: Bytes, ghost chunks: seq<Bytes>,
                    ghost encoded: Bytes)
        returns (failed: Option<SendError>, ghost chunks': seq<Bytes>)
      requires Progress(codec, wire, buffer, off, base, chunks, encoded)
      modifies this`buffer, this`wire
      ensures failed == None ==> buffer == [] && wire == base + Frames(codec, chunks') && Concat(chunks') == encoded
      ensures failed == None ==> chunks' == Cut(old(buffer), off, chunks)
      ensures failed.Some? ==> wire <= base + Frames(codec, chunks') && Concat(chunks') <= encoded
      ensures failed.Some? ==> failed == Some(CompressFailed) || (failed == Some(PartialWriteFailed) && buffer != [])
      ensures Sound(codec) ==> failed == CutFate(codec.Some?, old(|buffer|), works, short)
      ensures |wire| + |buffer| >= |base|
    {
      Packed(codec, wire, buffer, off, base, chunks, encoded);
      Reached(codec, wire, buffer, off, base, chunks, encoded);
      FrameNonempty(codec, buffer[off..]);
      var ok := CompressBuffer(off, works);
      if !ok {
        return Some(CompressFailed), chunks;
      }
      chunks' := Cut(old(buffer), off, chunks);
      ok := Flush(short);
      failed := if ok then None else Some(PartialWriteFailed);
    }

    /** One column: it is encoded, and a fragment is sent if the buffer has reached the limit. */
    method SendColumn(column: Bytes, works: bool, short: Option<nat>, off: nat,
                      ghost base: Bytes, ghost chunks: seq<Bytes>, ghost encoded: Bytes, ghost next: Bytes)
        returns (r: Option<SendError>, off': nat, ghost chunks': seq<Bytes>)
      requires Progress(codec, wire, buffer, off, base, chunks, encoded) && next == encoded + column
      modifies this`buffer, this`wire
      ensures |wire| + |buffer| >= |base|
      ensures r == None ==> Progress(codec, wire, buffer, off', base, chunks', next)
      ensures r.Some? ==> wire <= base + Frames(codec, chunks') && Concat(chunks') <= next
      ensures r.Some? ==> r == Some(CompressFailed) || (r == Some(PartialWriteFailed) && buffer != [])
      ensures var grown := old(|buffer|) + |column|;
        if grown < limit then r == None && buffer == old(buffer) + column && off' == off && chunks' == chunks
        else
          && (r == None ==> buffer == [] && off' == 0 && chunks' == Cut(old(buffer) + column, off, chunks))
          && (Sound(codec) ==> r == CutFate(codec.Some?, grown, works, short))
    {
      Grown(codec, wire, buffer, off, base, chunks, encoded, column);
      Reached(codec, wire, buffer, off, base, chunks, encoded);
      buffer := buffer + column;
      r, off', chunks' := None, off, chunks;
      if |buffer| >= limit {
        r, chunks' := Fragment(off, works, short, base, chunks, next);
        off' := 0;
        if r == None { Sent(codec, wire, base, chunks', next); }
      }
    }

    /** Between two columns: the first `i` are encoded, and how it will all come out. */
    ghost predicate Sending(header: Bytes, columns: seq<Option<Bytes>>, works: nat -> bool, short: nat -> Option<nat>,
                            i: nat, off: nat, base: Bytes, chunks: seq<Bytes>, fate: Result<nat, SendError>)
      reads this
    {
      && i <= |columns| && AllEncoded(columns[..i]) && |wire| + |buffer| >= |base|
      && Progress(codec, wire, buffer, off, base, chunks, Payload(header, columns[..i]))
      && (Sound(codec) ==> fate == ColumnsFate(codec.Some?, limit, |buffer|, columns, i, works, short))
    }

    /** A column that could not be sent: what was written is a prefix of the block so far. */
    ghost predicate Stuck(header: Bytes, columns: seq<Option<Bytes>>, n: nat, base: Bytes, chunks: seq<Bytes>,
                          fate: Result<nat, SendError>, e: SendError)
      reads this
    {
      && n <= |columns| && AllEncoded(columns[..n]) && |wire| + |buffer| >= |base|
      && wire <= base + Frames(codec, chunks) && Concat(chunks) <= Payload(header, columns[..n])
      && !e.Closed? && !e.WriteFailed? && (e.PartialWriteFailed? ==> buffer != [])
      && (e.EncodeFailed? ==> n < |columns| && columns[n].None?)
      && (Sound(codec) ==> fate == Err(e))
    }

    method SendNext(header: Bytes, columns: seq<Option<Bytes>>, works: nat -> bool, short: nat -> Option<nat>,
                    i: nat, off: nat, ghost base: Bytes, ghost chunks: seq<Bytes>, ghost fate: Result<nat, SendError>,
                    ghost pending: nat, ghost cuts: seq<nat>)
        returns (r: Option<SendError>, off': nat, ghost chunks': seq<Bytes>, ghost n: nat, ghost cuts': seq<nat>)
      requires i < |columns| && Sending(header, columns, works, short, i, off, base, chunks, fate)
      requires Cutting(limit, pending, header, columns, i, cuts, chunks, buffer, off)
      modifies this`buffer, this`wire
      ensures r == None ==> n == i + 1 && Sending(header, columns, works, short, i + 1, off', base, chunks', fate)
      ensures r == None ==> Cutting(limit, pending, header, columns, i + 1, cuts', chunks', buffer, off')
      ensures r.Some? ==> Stuck(header, columns, n, base, chunks', fate, r.value)
    {
      if columns[i].None? {
        return Some(EncodeFailed), off, chunks, i, cuts;
      }
      PayloadStep(header, columns, i);
      n := i + 1;
      cuts' := CuttingNext(limit, pending, header, columns, i, cuts, chunks, buffer, off, buffer + columns[i].value);
      r, off', chunks' := SendColumn(columns[i].value, works(i), short(i), off, base, chunks,
                                     Payload(header, columns[..i]), Payload(header, columns[..n]));
    }

    /** The column loop. */
    method SendColumns(header: Bytes, columns: seq<Option<Bytes>>, works: nat -> bool, short: nat -> Option<nat>,
                       from: nat, ghost base: Bytes, ghost fate: Result<nat, SendError>, ghost pending: nat)
        returns (r: Option<SendError>, off: nat, ghost chunks: seq<Bytes>, ghost n: nat, ghost cuts: seq<nat>)
      requires Sending(header, columns, works, short, 0, from, base, [], fate)
      requires Cutting(limit, pending, header, columns, 0, [0], [], buffer, from)
      modifies this`buffer, this`wire
      ensures r == None ==> n == |columns| && Sending(header, columns, works, short, n, off, base, chunks, fate)
      ensures r == None ==> Cutting(limit, pending, header, columns, n, cuts, chunks, buffer, off)
      ensures r.Some? ==> Stuck(header, columns, n, base, chunks, fate, r.value)
    {
      chunks, off, n, r, cuts := [], from, 0, None, [0];
      var i := 0;
      while i < |columns|
        invariant 0 <= n == i <= |columns| && r == None
        invariant Sending(header, columns, works, short, i, off, base, chunks, fate)
        invariant Cutting(limit, pending, header, columns, i, cuts, chunks, buffer, off)
      {
        r, off, chunks, n, cuts := SendNext(header, columns, works, short, i, off, base, chunks, fate, pending, cuts);
        if r.Some? { return; }
        i := i + 1;
      }
    }

    /** Everything behind the packet header. */
    method SendBlock(header: Bytes, columns: seq<Option<Bytes>>, works: nat -> bool, short: nat -> Option<nat>,
                     ghost base: Bytes)
        returns (r: Option<SendError>, ghost chunks: seq<Bytes>, ghost n: nat, ghost cuts: seq<nat>)
      requires base == wire + buffer
      modifies this`buffer, this`wire, this`closed
      ensures n <= |columns| && AllEncoded(columns[..n]) && |wire| + |buffer| >= |base|
      ensures r == None ==> n == |columns| && buffer == [] && wire == base + Frames(codec, chunks)
      ensures r == None ==> Concat(chunks) == Payload(header, columns[..n])
      ensures r == None ==> Fragments(limit, old(|buffer|), header, columns, cuts, chunks)
      ensures r.Some? ==> wire <= base + Frames(codec, chunks) && Concat(chunks) <= Payload(header, columns[..n])
      ensures r == Some(PartialWriteFailed) ==> buffer != []
      ensures closed == (old(closed) || r == Some(WriteFailed)) && r != Some(Closed)
      ensures Sound(codec) ==> r == Fate(codec.Some?, limit, old(|buffer|), Some(header), columns, works, short)
    {
      var off := |buffer|;
      CuttingStart(limit, buffer, header, columns);
      buffer := buffer + header;
      assert buffer[..off] == old(buffer) && buffer[off..] == header && base == base + [];
      ghost var fate := ColumnsFate(codec.Some?, limit, |buffer|, columns, 0, works, short);
      r, off, chunks, n, cuts := SendColumns(header, columns, works, short, off, base, fate, old(|buffer|));
      if r.Some? { return; }
      CuttingDone(limit, old(|buffer|), header, columns, cuts, chunks, buffer, off);
      r, chunks := Finish(off, works(|columns|), short(|columns|), base, chunks, Payload(header, columns[..n]));
    }

    /** `packet` is the data tag and the table name. A column or header that cannot be encoded is
        None. `works` and `short` say what the compressor and the socket do after each column and,
        at index `|columns|`, at the end. After a success the receiver's side of the story is
        the lemma Invisible; after a failure what was written is still a prefix of it. */
    method SendData(packet: Bytes, header: Option<Bytes>, columns: seq<Option<Bytes>>,
                    works: nat -> bool, short: nat -> Option<nat>)
        returns (r: Option<SendError>, ghost chunks: seq<Bytes>, ghost n: nat, ghost cuts: seq<nat>)
      modifies this`buffer, this`wire, this`closed
      ensures n <= |columns| && AllEncoded(columns[..n])
      ensures old(closed) ==> r == Some(Closed) && unchanged(this)
      ensures r == None ==> header.Some? && n == |columns| && !closed && buffer == []
      ensures r == None ==> wire == old(wire + buffer) + packet + Frames(codec, chunks)
      ensures r == None ==> Concat(chunks) == Payload(header.value, columns[..n])
      ensures r == None ==> Fragments(limit, old(|buffer|) + |packet|, header.value, columns, cuts, chunks)
      ensures r.Some? ==> wire <= old(wire + buffer) + packet + Frames(codec, chunks)
      ensures r.Some? && header.Some? ==> Concat(chunks) <= Payload(header.value, columns[..n])
      ensures r == Some(PartialWriteFailed) ==> !closed && buffer != []
      ensures closed == (old(closed) || r == Some(WriteFailed))
      ensures r == Some(Closed) <==> old(closed)
      ensures !old(closed) && Sound(codec) ==>
        r == Fate(codec.Some?, limit, old(|buffer|) + |packet|, header, columns, works, short)
      ensures !old(closed) ==> |wire| + |buffer| >= old(|wire| + |buffer|) + |packet|
    {
      chunks, n, cuts := [], 0, [];
      if closed {
        return Some(Closed), [], 0, [];
      }
      ghost var base := wire + buffer + packet;
      buffer := buffer + packet;
      assert wire + buffer == base;
      if header.None? {
        return Some(EncodeFailed), [], 0, [];
      }
      r, chunks, n, cuts := SendBlock(header.value, columns, works, short, base);
    }

    /** The last fragment; if writing it fails the connection is marked. */
    method Finish(off: nat, works: bool, short: Option<nat>, ghost base: Bytes, ghost chunks: seq<Bytes>,
                  ghost encoded: Bytes)
        returns (r: Option<SendError>, ghost chunks': seq<Bytes>)
      requires Progress(codec, wire, buffer, off, base, chunks, encoded)
      modifies this`buffer, this`wire, this`closed
      ensures r == None ==> buffer == [] && wire == base + Frames(codec, chunks') && Concat(chunks') == encoded
      ensures r == None ==> chunks' == Cut(old(buffer), off, chunks)
      ensures r.Some? ==> wire <= base + Frames(codec, chunks') && Concat(chunks') <= encoded
      ensures r.Some? ==> r == Some(CompressFailed) || r == Some(WriteFailed)
      ensures closed == (old(closed) || r == Some(WriteFailed)) && |wire| + |buffer| >= |base|
      ensures Sound(codec) ==> r == LastFate(codec.Some?, old(|buffer|), works, short)
    {
      r, chunks' := Fragment(off, works, short, base, chunks, encoded);
      if r == Some(PartialWriteFailed) {
        closed := true;
        r := Some(WriteFailed);
      }
    }
  }

  /** One block on a connection that still has `pending` bytes buffered: where it is cut, and that the answer
      is the first trouble in the order in which columns are encoded and bytes go out. */
  method SendOne(codec: Option<Codec>, limit: int, pending: Bytes, packet: Bytes, header: Option<Bytes>,
                 columns: seq<Option<Bytes>>, works: nat -> bool, short: nat -> Option<nat>)
      returns (r: Option<SendError>, wire: Bytes, ghost chunks: seq<Bytes>, ghost cuts: seq<nat>, ghost p: nat)
    requires Sound(codec)
    ensures header.None? ==> r == Some(EncodeFailed)
    ensures header.Some? ==>
      var s := Send(codec.Some?, limit, |pending| + |packet|, header.value, columns, works, short);
      |cuts| > 0 && cuts[|cuts| - 1] <= |columns| && FirstTrouble(s, cuts, 0, p, r)
    ensures r == None ==> wire == pending + packet + Frames(codec, chunks)
    ensures r == None ==> Fragments(limit, |pending| + |packet|, header.value, columns, cuts, chunks)
    ensures r == None ==> AllEncoded(columns) && Concat(chunks) == Payload(header.value, columns)
    ensures r == Fate(codec.Some?, limit, |pending| + |packet|, header, columns, works, short)
  {
    var conn := new Connect(codec, limit, pending);
    ghost var n;
    r, chunks, n, cuts := conn.SendData(packet, header, columns, works, short);
    wire, p := conn.wire, 0;
    assert [] + pending == pending;
    if r == None { assert columns[..n] == columns; }
    if header.Some? {
      ghost var s := Send(codec.Some?, limit, |pending| + |packet|, header.value, columns, works, short);
      cuts, p := Troubles(s, cuts, chunks, r == None);
    }
  }

  /** What the socket gets is those bytes, the packet header, and then something a receiver decodes to the
      whole block. */
  method Transmit(codec: Option<Codec>, limit: int, pending: Bytes, packet: Bytes, header: Option<Bytes>,
                  columns: seq<Option<Bytes>>, works: nat -> bool, short: nat -> Option<nat>)
      returns (r: Option<SendError>, wire: Bytes)
    requires Sound(codec)
    ensures r == None ==> header.Some? && AllEncoded(columns) && pending + packet <= wire
    ensures r == None && codec.Some? ==>
      Receive(codec.value, wire[|pending + packet|..]) == Some(Payload(header.value, columns))
    ensures r == None && codec.None? ==> wire[|pending + packet|..] == Payload(header.value, columns)
    ensures header.Some? && AllEncoded(columns) && Reliable(works, short) ==> r == None
  {
    if header.Some? && AllEncoded(columns) && Reliable(works, short) {
      ReliableFate(codec.Some?, limit, |pending| + |packet|, header.value, columns, works, short);
    }
    ghost var chunks, cuts, p;
    r, wire, chunks, cuts, p := SendOne(codec, limit, pending, packet, header, columns, works, short);
    if r == None { Invisible(codec, chunks, Payload(header.value, columns)); }
  }

  /** Sends a block when nothing fails, on a connection in any state. */
  method SendWell(conn: Connect, packet: Bytes, header: Bytes, columns: seq<Option<Bytes>>)
      returns (r: Option<SendError>)
    requires Sound(conn.codec) && AllEncoded(columns)
    modifies conn
    ensures r == if old(conn.closed) then Some(Closed) else None
    ensures r == None ==> old(conn.wire + conn.buffer) + packet <= conn.wire
    ensures r == None && conn.codec.Some? ==>
      Receive(conn.codec.value, conn.wire[|old(conn.wire + conn.buffer) + packet|..]) == Some(Payload(header, columns))
    ensures r == None && conn.codec.None? ==>
      conn.wire[|old(conn.wire + conn.buffer) + packet|..] == Payload(header, columns)
  {
    ghost var before := conn.wire + conn.buffer + packet;
    ghost var chunks, n, cuts;
    var works, short := (_: nat) => true, (_: nat) => None;
    ReliableFate(conn.codec.Some?, conn.limit, |conn.buffer| + |packet|, header, columns, works, short);
    r, chunks, n, cuts := conn.SendData(packet, Some(header), columns, works, short);
    if r == None {
      assert columns[..n] == columns;
      assert conn.wire == before + Frames(conn.codec, chunks);
      Invisible(conn.codec, chunks, Payload(header, columns));
    }
  }

  /** A block after one that was sent or whose sending failed without marking the connection. `sent` and
      `left` are what the first attempt wrote and left buffered: at least its packet, and at most that and
      chunks of its own payload. All of it stands before the second block's packet, and the second send
      answers without an error all the same. */
  method SendAgain(codec: Option<Codec>, limit: int, packet: Bytes, header: Option<Bytes>, columns: seq<Option<Bytes>>,
                   works: nat -> bool, short: nat -> Option<nat>, header2: Bytes, columns2: seq<Option<Bytes>>)
      returns (first: Option<SendError>, second: Option<SendError>, sent: Bytes, left: Bytes, wire: Bytes,
               ghost chunks: seq<Bytes>, ghost n: nat, ghost cuts: seq<nat>)
    requires Sound(codec) && AllEncoded(columns2)
    ensures first == Fate(codec.Some?, limit, |packet|, header, columns, works, short)
    ensures n <= |columns| && AllEncoded(columns[..n])
    ensures sent <= packet + Frames(codec, chunks) && |sent| + |left| >= |packet|
    ensures header.Some? ==> Concat(chunks) <= Payload(header.value, columns[..n])
    ensures first == None ==> n == |columns| && sent == packet + Frames(codec, chunks) && left == []
    ensures first == None ==> Concat(chunks) == Payload(header.value, columns[..n])
    ensures second == None <==> first == None || LeavesOpen(first)
    ensures second == None ==> sent + left + packet <= wire
    ensures second == None && codec.Some? ==>
      Receive(codec.value, wire[|sent + left + packet|..]) == Some(Payload(header2, columns2))
    ensures second == None && codec.None? ==> wire[|sent + left + packet|..] == Payload(header2, columns2)
  {
    var conn := new Connect(codec, limit, []);
    first, chunks, n, cuts := conn.SendData(packet, header, columns, works, short);
    sent, left := conn.wire, conn.buffer;
    assert [] + packet == packet;
    second := SendWell(conn, packet, header2, columns2);
    wire := conn.wire;
  }
}
