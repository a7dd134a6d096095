/** The reader that separates result bytes from an in-band server exception (conn_http_format.go). */
module ExceptionScanner {
  import opened Base

  // The specification looks at the whole stream at once: the data is everything before the first
  // genuine exception frame. The reader sees the stream in arbitrary chunks and serves it into
  // arbitrary caller buffers.

  /** `__exception__` followed by CR LF. */
  const FRAME: Bytes := [95, 95, 101, 120, 99, 101, 112, 116, 105, 111, 110, 95, 95, 13, 10]
  const CRLF: Bytes := [13, 10]
  const SCAN_LIMIT: nat := 32768

  // ---------------------------------------------------------------- specification

  predicate OccursAt(s: Bytes, pat: Bytes, i: int) {
    0 <= i && i + |pat| <= |s| && s[i..i + |pat|] == pat
  }

  /** A frame is genuine when the announced tag follows it; with no tag the marker alone is trusted. */
  predicate Genuine(s: Bytes, tag: Bytes, i: int) {
    OccursAt(s, FRAME, i) && (tag == [] || OccursAt(s, tag + CRLF, i + |FRAME|))
  }

  ghost predicate NoneBefore(s: Bytes, tag: Bytes, n: int) {
    forall i | 0 <= i < n :: !Genuine(s, tag, i)
  }

  /** The first genuine frame from a position on, or the end of the stream. */
  function FirstGenuine(s: Bytes, tag: Bytes, from: nat): (n: nat)
    requires from <= |s|
    ensures from <= n <= |s|
    ensures forall i | from <= i < n :: !Genuine(s, tag, i)
    ensures n < |s| ==> Genuine(s, tag, n)
    decreases |s| - from
  {
    if from == |s| || Genuine(s, tag, from) then from else FirstGenuine(s, tag, from + 1)
  }

  /** Length of the data part: the position of the first genuine frame, or the whole stream. */
  function DataLen(s: Bytes, tag: Bytes): (n: nat)
    ensures n <= |s| && NoneBefore(s, tag, n) && (n < |s| ==> Genuine(s, tag, n))
  {
    FirstGenuine(s, tag, 0)
  }

  datatype End = Eof | Failed(code: int)

  /** What the caller finally gets instead of bytes. The exception text is kept unparsed. */
  datatype Terminal =
    | EndOfStream
    | SourceError(code: int)
    | ServerException(text: Bytes, truncated: Option<int>)

  /** The most that is withheld while input is still coming. */
  function Withheld(tag: Bytes): nat {
    |FRAME| + |tag| + 1
  }

  /** The terminal result the whole stream calls for: the exception, else the source error, else EOF. */
  ghost predicate RightTerminal(s: Bytes, tag: Bytes, end: End, t: Terminal) {
    var d := DataLen(s, tag);
    if d == |s| then
      t == if end.Failed? then SourceError(end.code) else EndOfStream
    else
      && t.ServerException?
      && t.text <= s[d..]
      && (t.text == s[d..] || |t.text| >= SCAN_LIMIT)
      && |t.text| <= Withheld(tag) + 2 * SCAN_LIMIT
      && (t.truncated.Some? ==> end == Failed(t.truncated.value))
      && (end.Failed? && |s| - d < SCAN_LIMIT ==> t.truncated == Some(end.code))
  }

  /** A frame may still begin at j: what is there agrees with the frame as far as it goes. */
  predicate MayStart(p: Bytes, j: int) {
    0 <= j < |p| && (p[j..] <= FRAME || FRAME <= p[j..])
  }

  /** The split of `p` at `n` serves nothing in which a frame could still begin, and no less than possible. */
  ghost predicate SafeSplit(p: Bytes, from: nat, n: int) {
    from <= n <= |p| && (forall j | from <= j < n :: !MayStart(p, j)) && (n < |p| ==> MayStart(p, n))
  }

  /** What `scan` leaves behind while input is still coming: no complete candidate from
      `from` on, or an undecided one parked exactly at `from`. */
  ghost predicate Parked(p: Bytes, tag: Bytes, from: nat) {
    || (forall j | from <= j :: !OccursAt(p, FRAME, j))
    || (tag != [] && OccursAt(p, FRAME, from) && |p| - from < |FRAME| + |tag| + 2)
  }

  // ---------------------------------------------------------------- lemmas

  /** `p` is what the stream holds from `base` on. */
  predicate Window(s: Bytes, base: nat, p: Bytes) {
    base + |p| <= |s| && s[base..base + |p|] == p
  }

  /** Inside a window of the stream, occurrences in the window and in the stream agree. */
  lemma WindowOccurs(s: Bytes, base: nat, p: Bytes, pat: Bytes, j: int)
    requires Window(s, base, p) && 0 <= j && j + |pat| <= |p|
    ensures OccursAt(p, pat, j) <==> OccursAt(s, pat, base + j)
  {
    forall k | 0 <= k < |p| ensures s[base + k] == p[k] {
      assert s[base..base + |p|][k] == p[k];
    }
    assert s[base + j..base + j + |pat|] == p[j..j + |pat|];
  }

  /** A frame of the stream that begins inside the window may start there as far as the window shows. */
  lemma WindowStarts(s: Bytes, base: nat, p: Bytes, j: int)
    requires Window(s, base, p) && 0 <= j < |p| && OccursAt(s, FRAME, base + j)
    ensures MayStart(p, j)
  {
    var w := s[base + j..base + j + |FRAME|];
    if |p| - j <= |FRAME| {
      assert p[j..] == w[..|p| - j];
    } else {
      assert p[j..][..|FRAME|] == w;
    }
  }

  /** With a whole frame's length behind it, only a complete frame may start. */
  lemma StartsWhole(p: Bytes, j: int)
    requires 0 <= j && j + |FRAME| <= |p|
    ensures MayStart(p, j) <==> OccursAt(p, FRAME, j)
  {
    var w := p[j..];
    assert p[j..j + |FRAME|] == w[..|FRAME|];
  }

  /** In a tail shorter than a frame, exactly a proper prefix of the frame may start. */
  lemma SplitStarts(p: Bytes, k: nat)
    requires 0 < k <= |p| && k < |FRAME|
    ensures MayStart(p, |p| - k) <==> p[|p| - k..] == FRAME[..k]
  {
  }

  /** No complete frame in the window from `from` up to `to`, so nothing genuine in the stream there. */
  lemma Clear(s: Bytes, base: nat, p: Bytes, tag: Bytes, from: nat, to: nat)
    requires Window(s, base, p) && NoneBefore(s, tag, base + from)
    requires to <= from || to - 1 + |FRAME| <= |p|
    requires forall j | from <= j < to :: !OccursAt(p, FRAME, j)
    ensures NoneBefore(s, tag, base + to)
  {
    forall k | base + from <= k < base + to ensures !Genuine(s, tag, k) {
      WindowOccurs(s, base, p, FRAME, k - base);
    }
  }

  /** The tag check: the announced tag and then CR LF, all of it present. */
  predicate TagFollows(p: Bytes, tag: Bytes, start: nat) {
    var end := start + |tag| + 2;
    end <= |p| && p[start..start + |tag|] == tag && p[start + |tag|..end] == CRLF
  }

  datatype Verdict = Exception | Undecided | Data

  /** The decision on a complete candidate at `i`. Its tag may still be in flight unless the stream is over. */
  function Settle(p: Bytes, tag: Bytes, i: nat, srcDone: bool): Verdict {
    if tag == [] then Exception
    else if |p| < i + |FRAME| + |tag| + 2 && !srcDone then Undecided
    else if TagFollows(p, tag, i + |FRAME|) then Exception
    else Data
  }

  /** Whatever is decided from the window is right of the whole stream. */
  lemma VerdictRight(s: Bytes, base: nat, p: Bytes, tag: Bytes, i: nat, srcDone: bool)
    requires Window(s, base, p) && OccursAt(p, FRAME, i)
    requires srcDone ==> base + |p| == |s|
    ensures Settle(p, tag, i, srcDone).Exception? ==> Genuine(s, tag, base + i)
    ensures Settle(p, tag, i, srcDone).Data? ==> !Genuine(s, tag, base + i)
  {
    WindowOccurs(s, base, p, FRAME, i);
    var t := i + |FRAME|;
    if t + |tag| + 2 <= |p| {
      WindowOccurs(s, base, p, tag + CRLF, t);
      var w := p[t..t + |tag| + 2];
      assert p[t..t + |tag|] == w[..|tag|] && p[t + |tag|..t + |tag| + 2] == w[|tag|..];
      assert w == w[..|tag|] + w[|tag|..];
    }
  }

  /** Serving bytes in which no frame may start moves the clear part of the stream along. */
  lemma ServedClear(s: Bytes, base: nat, p: Bytes, tag: Bytes, from: nat, n: nat)
    requires Window(s, base, p) && NoneBefore(s, tag, base + from) && n <= |p|
    requires forall j | from <= j < n :: !MayStart(p, j)
    ensures NoneBefore(s, tag, base + n)
    ensures forall j | from <= j < n :: !OccursAt(p, FRAME, j)
  {
    forall k | base + from <= k < base + n ensures !Genuine(s, tag, k) {
      if OccursAt(s, FRAME, k) { WindowStarts(s, base, p, k - base); }
    }
    forall j | from <= j < n && OccursAt(p, FRAME, j) ensures MayStart(p, j) {
      StartsWhole(p, j);
    }
  }

  /** The bound on withheld bytes: when nothing can be served, at most one undecided
      candidate with its tag bytes in flight is being held. */
  lemma WithholdBound(p: Bytes, tag: Bytes, from: nat)
    requires from <= |p| && Parked(p, tag, from) && SafeSplit(p, from, 0)
    ensures |p| <= |FRAME| + |tag| + 1
  {
    if |p| > 0 && !OccursAt(p, FRAME, 0) {
      assert p[0..] == p;
      assert p <= FRAME || FRAME <= p;
      if FRAME <= p { assert p[0..0 + |FRAME|] == FRAME; }
    }
  }

  /** Serving a safe prefix keeps a parked scan position parked. */
  lemma ParkedDrop(p: Bytes, tag: Bytes, from: nat, n: nat)
    requires from <= |p| && n <= |p| && Parked(p, tag, from)
    requires forall j | from <= j < n :: !OccursAt(p, FRAME, j)
    ensures Parked(p[n..], tag, if n <= from then from - n else 0)
  {
    var q, f := p[n..], if n <= from then from - n else 0;
    forall j | 0 <= j ensures OccursAt(q, FRAME, j) <==> OccursAt(p, FRAME, n + j) {
      if n + j + |FRAME| <= |p| { WindowOccurs(p, n, q, FRAME, j); }
    }
  }

  // ---------------------------------------------------------------- library calls

  /** `bytes.Index` from an offset, giving a position in `s` or -1. */
  function Index(s: Bytes, pat: Bytes, from: nat): (r: int)
    requires from <= |s|
    ensures r == -1 || (from <= r && OccursAt(s, pat, r))
    ensures forall j | from <= j && (r == -1 || j < r) :: !OccursAt(s, pat, j)
    decreases |s| - from
  {
    if OccursAt(s, pat, from) then from
    else if from == |s| then -1
    else Index(s, pat, from + 1)
  }

  /** The split of `safeLen`: before a complete candidate, or else before the longest tail
      that is a proper prefix of a frame. */
  method SafePrefix(p: Bytes, from: nat) returns (n: nat)
    requires from <= |p|
    ensures SafeSplit(p, from, n)
  {
    var i := Index(p, FRAME, from);
    if i >= 0 {
      forall j | from <= j <= i ensures MayStart(p, j) <==> j == i {
        StartsWhole(p, j);
      }
      return i;
    }
    n := HoldTail(p, from);
  }

  /** The holdback loop: tries the longest proper frame prefix first. */
  method HoldTail(p: Bytes, from: nat) returns (n: nat)
    requires from <= |p| && forall j | from <= j :: !OccursAt(p, FRAME, j)
    ensures SafeSplit(p, from, n)
  {
    var k := if |FRAME| - 1 > |p| - from then |p| - from else |FRAME| - 1;
    forall j | from <= j < |p| - k ensures !MayStart(p, j) {
      StartsWhole(p, j);
    }
    while k > 0
      invariant 0 <= k <= |p| - from && k < |FRAME|
      invariant forall j | from <= j < |p| - k :: !MayStart(p, j)
    {
      SplitStarts(p, k);
      if p[|p| - k..] == FRAME[..k] { return |p| - k; }
      k := k - 1;
    }
    n := |p|;
  }

  /** An `io.Reader` over a finite list of chunks that ends in EOF or an error, either
      together with the last bytes or in a call of its own. */
  class Source {
    var chunks: seq<Bytes>
    const end: End
    const withLast: bool

    constructor (chunks: seq<Bytes>, end: End, withLast: bool)
      ensures this.chunks == chunks && this.end == end && this.withLast == withLast
    {
      this.chunks, this.end, this.withLast := chunks, end, withLast;
    }

    ghost function Rest(): Bytes
      reads this
    {
      Concat(chunks)
    }

    method Read(max: nat) returns (data: Bytes, done: bool)
      requires max > 0
      modifies this
      ensures old(Rest()) == data + Rest()
      ensures |data| <= max
      ensures done ==> chunks == []
      ensures old(chunks) == [] ==> done
      ensures !done ==> |Rest()| + |chunks| < old(|Rest()| + |chunks|)
    {
      if chunks == [] { return [], true; }
      ghost var before := chunks;
      var head := chunks[0];
      if |head| > max {
        data, done := head[..max], false;
        chunks := [head[max..]] + chunks[1..];
        assert chunks[1..] == before[1..];
        assert head == data + head[max..];
      } else {
        data := head;
        chunks := chunks[1..];
        done := chunks == [] && withLast;
      }
    }
  }

  // ---------------------------------------------------------------- the reader

  class Reader {
    const src: Source
    const tag: Bytes
    var pending: Bytes
    var scanOffset: nat
    var err: Option<Terminal>
    var srcDone: bool

    ghost const stream: Bytes
    ghost var served: Bytes

    /** Neither an exception nor the end of the source has been seen. */
    ghost predicate Streaming()
      reads this, src
    {
      && served + pending + src.Rest() == stream
      && |pending| <= Withheld(tag) + SCAN_LIMIT
      && NoneBefore(stream, tag, |served| + scanOffset)
      && (srcDone ==> src.Rest() == [])
      && err == if srcDone && src.end.Failed? then Some(SourceError(src.end.code)) else None
    }

    /** The whole of `pending` is data and nothing follows it. */
    ghost predicate Finished()
      reads this, src
    {
      var d := DataLen(stream, tag);
      && srcDone
      && served + pending == stream[..d]
      && RightTerminal(stream, tag, src.end, if err.Some? then err.value else EndOfStream)
    }

    ghost predicate Valid()
      reads this, src
    {
      && scanOffset <= |pending|
      && if srcDone then Finished() else Streaming() && Parked(pending, tag, scanOffset)
    }

    constructor (src: Source, tag: Bytes)
      ensures Valid() && fresh(this)
      ensures this.src == src && this.tag == tag && stream == src.Rest() && served == []
      ensures !srcDone
    {
      this.src, this.tag := src, tag;
      pending, scanOffset, err, srcDone := [], 0, None, false;
      stream, served := src.Rest(), [];
    }

    /** The length of the longest part of `pending` in which no frame may begin. */
    method SafeLen() returns (n: nat)
      requires Valid()
      ensures srcDone || err.Some? ==> n == |pending|
      ensures !(srcDone || err.Some?) ==> SafeSplit(pending, scanOffset, n)
    {
      if srcDone || err.Some? { return |pending|; }
      n := SafePrefix(pending, scanOffset);
    }

    /** Decides or parks each candidate that is there in full. */
    method Scan()
      requires scanOffset <= |pending| && Streaming()
      modifies this`pending, this`scanOffset, this`err, this`srcDone, src
      ensures Valid() && served == old(served)
      ensures old(srcDone) ==> srcDone
      ensures !srcDone ==> src.chunks == old(src.chunks)
    {
      var more := true;
      while more
        invariant if more then scanOffset <= |pending| && Streaming() else Valid()
        invariant served == old(served)
        invariant old(srcDone) ==> srcDone
        invariant more ==> srcDone == old(srcDone)
        invariant !srcDone || more ==> src.chunks == old(src.chunks)
        decreases more, |pending| - scanOffset
      {
        more := ScanNext();
      }
    }

    /** Settles the next candidate at or after `scanOffset`; `more` says to look further. */
    method ScanNext() returns (more: bool)
      requires scanOffset <= |pending| && Streaming()
      modifies this`pending, this`scanOffset, this`err, this`srcDone, src
      ensures served == old(served)
      ensures more ==> scanOffset <= |pending| && Streaming() && pending == old(pending)
      ensures more ==> srcDone == old(srcDone) && scanOffset > old(scanOffset)
      ensures !more ==> Valid() && (old(srcDone) ==> srcDone)
      ensures !srcDone || more ==> src.chunks == old(src.chunks)
    {
      ghost var base := |served|;
      assert Window(stream, base, pending);
      var i := Index(pending, FRAME, scanOffset);
      if i < 0 {
        ScanClear();
        return false;
      }
      Clear(stream, base, pending, tag, scanOffset, i);
      more := SettleAt(i);
    }

    /** What the candidate at `i` is, as far as can be said. */
    method SettleAt(i: nat) returns (more: bool)
      requires scanOffset <= i < |pending| && Streaming() && OccursAt(pending, FRAME, i)
      requires NoneBefore(stream, tag, |served| + i)
      modifies this`pending, this`scanOffset, this`err, this`srcDone, src
      ensures served == old(served)
      ensures more ==> scanOffset == i + 1 && Streaming() && pending == old(pending) && srcDone == old(srcDone)
      ensures !more ==> Valid() && (old(srcDone) ==> srcDone)
      ensures !srcDone || more ==> src.chunks == old(src.chunks)
    {
      VerdictRight(stream, |served|, pending, tag, i, srcDone);
      match Settle(pending, tag, i, srcDone)
      case Exception =>
        CaptureException(i);
        more := false;
      case Undecided =>
        Park(i);
        more := false;
      case Data =>
        Dismiss(i);
        more := true;
    }

    /** Waits for the tag bytes of the candidate at `i`. */
    method Park(i: nat)
      requires scanOffset <= i <= |pending| && Streaming() && !srcDone
      requires NoneBefore(stream, tag, |served| + i) && Parked(pending, tag, i)
      modifies this`scanOffset
      ensures Valid()
    {
      scanOffset := i;
    }

    /** The candidate at `i` is data: the search goes on behind its first byte. */
    method Dismiss(i: nat)
      requires scanOffset <= i < |pending| && Streaming()
      requires NoneBefore(stream, tag, |served| + i) && !Genuine(stream, tag, |served| + i)
      modifies this`scanOffset
      ensures scanOffset == i + 1 && Streaming()
    {
      scanOffset := i + 1;
    }

    /** No complete frame is left: all but the split-frame tail is decided data. */
    method ScanClear()
      requires scanOffset <= |pending| && Streaming()
      requires forall j | scanOffset <= j :: !OccursAt(pending, FRAME, j)
      modifies this`scanOffset
      ensures Valid() && scanOffset >= old(scanOffset)
    {
      ghost var base := |served|;
      assert Window(stream, base, pending);
      var cleared := |pending| - (|FRAME| - 1);
      if srcDone { NothingLeft(stream, tag, base, pending, scanOffset); }
      if cleared > scanOffset {
        Clear(stream, base, pending, tag, scanOffset, cleared);
        scanOffset := cleared;
      }
    }

    /** Cuts `pending` off at the marker; the marker and what follows, up to
        the scan limit, become the terminal error. */
    method CaptureException(i: nat)
      requires scanOffset <= i < |pending| && Streaming()
      requires NoneBefore(stream, tag, |served| + i) && Genuine(stream, tag, |served| + i)
      modifies this`pending, this`err, this`srcDone, src
      ensures Valid() && srcDone && served == old(served)
    {
      var exc := pending[i..];
      ghost var d := |served| + i;
      var rest, readErr := ReadRest();
      assert stream[d..] == exc + old(src.Rest());
      pending := pending[..i];
      err := Some(ServerException(exc + rest, readErr));
      srcDone := true;
      assert DataLen(stream, tag) == d;
      assert served + pending == stream[..d];
    }

    /** The rest of the source, up to the limit. */
    method ReadRest() returns (rest: Bytes, readErr: Option<int>)
      modifies src
      ensures rest <= old(src.Rest())
      ensures rest == old(src.Rest()) || |rest| == SCAN_LIMIT
      ensures |rest| <= SCAN_LIMIT
      ensures readErr.Some? ==> src.end == Failed(readErr.value)
      ensures src.end.Failed? && |old(src.Rest())| < SCAN_LIMIT ==> readErr == Some(src.end.code)
    {
      ghost var all := src.Rest();
      rest, readErr := [], None;
      var done := false;
      while !done && |rest| < SCAN_LIMIT
        invariant all == rest + src.Rest() && |rest| <= SCAN_LIMIT
        invariant done ==> src.Rest() == []
        invariant readErr == if done && src.end.Failed? then Some(src.end.code) else None
        decreases !done, |src.Rest()| + |src.chunks|
      {
        var data;
        data, done := src.Read(SCAN_LIMIT - |rest|);
        assert all == (rest + data) + src.Rest();
        rest := rest + data;
        if done && src.end.Failed? { readErr := Some(src.end.code); }
      }
    }

    /** Asks the source for more input. The precondition is the bound on withheld bytes. */
    method Pull()
      requires Valid() && !srcDone
      requires |pending| <= Withheld(tag)
      modifies this`pending, this`scanOffset, this`err, this`srcDone, src
      ensures Valid() && served == old(served)
      ensures !srcDone ==> |src.Rest()| + |src.chunks| < old(|src.Rest()| + |src.chunks|)
    {
      var data, done := src.Read(SCAN_LIMIT);
      pending := pending + data;
      assert served + pending + src.Rest() == stream;
      if done {
        srcDone := true;
        if src.end.Failed? && err.None? { err := Some(SourceError(src.end.code)); }
      }
      if |data| > 0 || srcDone { Scan(); } else { assert pending == old(pending); }
    }

    /** One caller `Read` into a buffer of `size` bytes. */
    method Read(size: nat) returns (out: Bytes, res: Option<Terminal>)
      requires Valid()
      modifies this`pending, this`scanOffset, this`err, this`srcDone, this`served, src
      ensures Valid()
      ensures served == old(served) + out && served <= stream[..DataLen(stream, tag)]
      ensures |out| <= size
      ensures res.None? && size > 0 ==> |out| > 0
      ensures res.Some? ==> out == [] && served == stream[..DataLen(stream, tag)]
      ensures res.Some? ==> RightTerminal(stream, tag, src.end, res.value)
    {
      while true
        invariant Valid() && served == old(served)
        decreases !srcDone, |src.Rest()| + |src.chunks|
      {
        var safe := SafeLen();
        if safe > 0 {
          var n := if size < safe then size else safe;
          out, res := pending[..n], None;
          Serve(n);
          return;
        }
        if err.Some? { return [], err; }
        if srcDone { return [], Some(EndOfStream); }
        WithholdBound(pending, tag, scanOffset);
        Pull();
      }
    }

    /** Hands the first `n` safe bytes to the caller. */
    method Serve(n: nat)
      requires Valid() && n <= |pending|
      requires !srcDone ==> forall j | scanOffset <= j < n :: !MayStart(pending, j)
      modifies this`pending, this`scanOffset, this`served
      ensures Valid() && served == old(served + pending[..n])
      ensures served <= stream[..DataLen(stream, tag)]
    {
      ghost var base, from := |served|, scanOffset;
      if !srcDone {
        assert Window(stream, base, pending);
        ServedClear(stream, base, pending, tag, from, n);
        ParkedDrop(pending, tag, scanOffset, n);
        assert DataLen(stream, tag) >= base + n;
      }
      assert served + pending == (served + pending[..n]) + pending[n..];
      served := served + pending[..n];
      pending := pending[n..];
      scanOffset := if scanOffset < n then 0 else scanOffset - n;
    }
  }

  /** At the end of the stream, with no complete frame from `from` on, everything is data. */
  lemma NothingLeft(s: Bytes, tag: Bytes, base: nat, p: Bytes, from: nat)
    requires Window(s, base, p) && base + |p| == |s| && from <= |p|
    requires NoneBefore(s, tag, base + from)
    requires forall j | from <= j :: !OccursAt(p, FRAME, j)
    ensures DataLen(s, tag) == |s|
  {
    forall k | base + from <= k < |s| ensures !Genuine(s, tag, k) {
      if k + |FRAME| <= |s| { WindowOccurs(s, base, p, FRAME, k - base); }
    }
  }

  // ---------------------------------------------------------------- whole runs

  /** Reads a whole response with any chunking, any tag and any sequence of buffer sizes.
      What is served is always a prefix of the data before the first genuine frame; a terminal
      result comes exactly when that data is complete, and non-empty buffers always get there. */
  method ReadResponse(chunks: seq<Bytes>, end: End, withLast: bool, tag: Bytes, sizes: seq<nat>)
      returns (out: Bytes, res: Option<Terminal>)
    ensures var s := Concat(chunks);
      && out <= s[..DataLen(s, tag)]
      && (res.Some? ==> out == s[..DataLen(s, tag)] && RightTerminal(s, tag, end, res.value))
      && ((forall k | 0 <= k < |sizes| :: sizes[k] > 0) && |sizes| > DataLen(s, tag) ==> res.Some?)
  {
    var src := new Source(chunks, end, withLast);
    var r := new Reader(src, tag);
    out, res := [], None;
    var i := 0;
    while i < |sizes| && res.None?
      invariant 0 <= i <= |sizes| && r.Valid() && r.served == out && fresh(r) && fresh(src)
      invariant out <= r.stream[..DataLen(r.stream, tag)]
      invariant res.Some? ==> out == r.stream[..DataLen(r.stream, tag)] && RightTerminal(r.stream, tag, end, res.value)
      invariant res.None? && (forall k | 0 <= k < i :: sizes[k] > 0) ==> |out| >= i
    {
      var piece;
      piece, res := r.Read(sizes[i]);
      out := out + piece;
      i := i + 1;
    }
  }
}
