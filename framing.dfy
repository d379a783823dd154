/**
 * Null-byte framing of the userdb protocol.
 *
 * The client reads the service's reply with a scanner whose split function
 * behaves like bufio.ScanLines but cuts on a 0x00 byte instead of '\n'.
 * This module models that split function, the scanner it drives (over a
 * reply that has been received in full), and the two ways of putting
 * frames on the wire that the scanner undoes.
 */
module Framing {
  import opened Wrappers

  type byte = bv8

  /** One unit of the reply stream: the bytes between two delimiters. */
  type Frame = seq<byte>

  /** The frame delimiter. */
  const Nul: byte := 0

  predicate ZeroFree(f: Frame) {
    Nul !in f
  }

  predicate AllZeroFree(fs: seq<Frame>) {
    forall k :: 0 <= k < |fs| ==> ZeroFree(fs[k])
  }

  /** bytes.IndexByte: the index of the first b in s, or -1 when there is none. */
  function IndexByte(s: seq<byte>, b: byte): (i: int)
    ensures -1 <= i < |s|
    ensures i == -1 <==> b !in s
    ensures i >= 0 ==> s[i] == b && b !in s[..i]
  {
    if s == [] then -1
    else if s[0] == b then 0
    else
      var j := IndexByte(s[1..], b);
      assert j >= 0 ==> s[..j + 1] == [s[0]] + s[1..][..j];
      if j < 0 then -1 else j + 1
  }

  /** What the split function returns: how many bytes to consume, and the token, if any. */
  datatype SplitResult = SplitResult(advance: nat, token: Option<Frame>)

  /**
   * The split function installed on the scanner. With a 0x00 in data it
   * yields the bytes before the first one and consumes the delimiter too;
   * at end of stream it yields a non-empty undelimited remainder whole;
   * otherwise it yields nothing and consumes nothing (asks for more data,
   * or, at end of stream with nothing left, ends the scan).
   */
  function Split(data: seq<byte>, atEOF: bool): (r: SplitResult)
    ensures r.advance <= |data|
    ensures Nul in data ==>
      && 1 <= r.advance
      && data[r.advance - 1] == Nul
      && r.token == Some(data[..r.advance - 1])
      && ZeroFree(data[..r.advance - 1])
    ensures Nul !in data && atEOF && data != [] ==> r == SplitResult(|data|, Some(data))
    ensures Nul !in data && (!atEOF || data == []) ==> r == SplitResult(0, None)
  {
    if atEOF && |data| == 0 then
      SplitResult(0, None)
    else
      var i := IndexByte(data, Nul);
      if i >= 0 then
        SplitResult(i + 1, Some(data[0..i]))
      else if atEOF then
        SplitResult(|data|, Some(data))
      else
        SplitResult(0, None)
  }

  /**
   * One successful Scan: the token, how many bytes it consumed, and
   * whether the scanner had to consult the end of the stream to get it.
   */
  datatype Scanned = Scanned(token: Frame, advance: nat, atEOF: bool)

  /**
   * One call of the scanner's Scan over the unread part of a reply that
   * is already buffered in full. The split function is asked first
   * without end of stream (the scanner does not call it on an empty
   * buffer); when it asks for more data, the next read reports the end of
   * the stream and the split function is asked again at EOF.
   */
  function Scan(data: seq<byte>): (r: Option<Scanned>)
    ensures r.None? <==> data == []
    ensures r.Some? ==> ZeroFree(r.value.token) && 1 <= r.value.advance <= |data|
    ensures r.Some? && !r.value.atEOF ==>
      r.value.advance == |r.value.token| + 1 && data[..|r.value.token|] == r.value.token && data[|r.value.token|] == Nul
    ensures r.Some? && r.value.atEOF ==> Nul !in data && r.value.token == data && r.value.advance == |data|
  {
    var first := if data == [] then SplitResult(0, None) else Split(data, false);
    if first.token.Some? then
      Some(Scanned(first.token.value, first.advance, false))
    else
      var last := Split(data, true);
      if last.token.Some? then Some(Scanned(last.token.value, last.advance, true))
      else None
  }

  /** The frames the scanner yields from a whole reply, in stream order. */
  function Frames(stream: seq<byte>): (fs: seq<Frame>)
    ensures fs == [] <==> stream == []
    decreases |stream|
  {
    match Scan(stream)
    case None => []
    case Some(s) => [s.token] + Frames(stream[s.advance..])
  }

  /** No frame the scanner yields contains the delimiter. */
  lemma {:induction false} FramesAreZeroFree(stream: seq<byte>)
    ensures AllZeroFree(Frames(stream))
    decreases |stream|
  {
    match Scan(stream)
    case None =>
    case Some(s) =>
      var rest := stream[s.advance..];
      FramesAreZeroFree(rest);
      FramesUnfold(stream, s);
  }

  /** A successful Scan yields the first frame; the rest come from the bytes after it. */
  lemma FramesUnfold(data: seq<byte>, s: Scanned)
    requires Scan(data) == Some(s)
    ensures Frames(data) == [s.token] + Frames(data[s.advance..])
  {
  }

  /**
   * The scanner at offset start of the stream: the next token is the
   * first frame of what is left, and scanning goes on after it.
   */
  lemma FramesStep(stream: seq<byte>, start: nat, s: Scanned, after: nat)
    requires start <= |stream| && Scan(stream[start..]) == Some(s) && after == start + s.advance
    ensures after <= |stream|
    ensures Frames(stream[start..]) == [s.token] + Frames(stream[after..])
  {
    SliceOfSlice(stream, start, s.advance, after);
    FramesUnfold(stream[start..], s);
  }

  lemma SliceOfSlice<T>(s: seq<T>, a: nat, b: nat, c: nat)
    requires c == a + b <= |s|
    ensures s[a..][b..] == s[c..]
  {
  }

  lemma Recompose<T>(s: seq<T>, n: nat)
    requires n < |s|
    ensures s == s[..n] + [s[n]] + s[n + 1..]
  {
  }

  lemma AppendAssoc<T>(a: seq<T>, b: seq<T>, c: seq<T>)
    ensures (a + b) + c == a + (b + c)
  {
  }

  lemma ConsTail<T>(s: seq<T>, more: seq<T>)
    requires s != []
    ensures [s[0]] + (s[1..] + more) == s + more
  {
    assert s == [s[0]] + s[1..];
  }

  lemma Regroup<T>(done: seq<T>, t: T, more: seq<T>)
    ensures done + ([t] + more) == (done + [t]) + more
  {
  }

  /** Every frame followed by its own delimiter (the last one included). */
  function Terminate(fs: seq<Frame>): seq<byte> {
    if fs == [] then [] else fs[0] + [Nul] + Terminate(fs[1..])
  }

  /** The frames with a delimiter between neighbours and none after the last one. */
  function Join(fs: seq<Frame>): seq<byte> {
    if fs == [] then []
    else if |fs| == 1 then fs[0]
    else fs[0] + [Nul] + Join(fs[1..])
  }

  /** Bytes on the wire for a payload sent as one frame: the payload and one 0x00. */
  function Delimited(payload: seq<byte>): (wire: seq<byte>)
    ensures |wire| == |payload| + 1 && wire[..|payload|] == payload && wire[|payload|] == Nul
  {
    payload + [Nul]
  }

  /** A delimited frame at the head of the stream is the next token, and the scan goes on after its delimiter. */
  lemma ScanDelimited(f: Frame, rest: seq<byte>)
    requires ZeroFree(f)
    ensures Scan(f + [Nul] + rest) == Some(Scanned(f, |f| + 1, false))
    ensures (f + [Nul] + rest)[|f| + 1..] == rest
  {
    var s := f + [Nul] + rest;
    assert s[|f|] == Nul;
    assert s[..|f|] == f;
  }

  /** An undelimited, non-empty tail is yielded whole at end of stream. */
  lemma ScanTail(f: Frame)
    requires ZeroFree(f) && f != []
    ensures Scan(f) == Some(Scanned(f, |f|, true))
    ensures f[|f|..] == []
  {
  }

  /** Frames written with a delimiter after each are read back first, whatever follows them. */
  lemma {:induction false} FramesOfTerminateThen(fs: seq<Frame>, rest: seq<byte>)
    requires AllZeroFree(fs)
    ensures Frames(Terminate(fs) + rest) == fs + Frames(rest)
  {
    if fs == [] {
      assert Terminate(fs) + rest == rest;
    } else {
      var t := Terminate(fs[1..]) + rest;
      AppendAssoc(fs[0] + [Nul], Terminate(fs[1..]), rest);
      ScanDelimited(fs[0], t);
      FramesUnfold(fs[0] + [Nul] + t, Scanned(fs[0], |fs[0]| + 1, false));
      FramesOfTerminateThen(fs[1..], rest);
      ConsTail(fs, Frames(rest));
    }
  }

  /** Framing round trip with a delimiter after every frame. */
  lemma FramesOfTerminate(fs: seq<Frame>)
    requires AllZeroFree(fs)
    ensures Frames(Terminate(fs)) == fs
  {
    FramesOfTerminateThen(fs, []);
    assert Terminate(fs) + [] == Terminate(fs);
    assert fs + [] == fs;
  }

  /** A non-empty run of delimited frames ends in the delimiter. */
  lemma {:induction false} TerminateEndsInNul(fs: seq<Frame>)
    requires fs != []
    ensures |Terminate(fs)| > 0 && Terminate(fs)[|Terminate(fs)| - 1] == Nul
  {
    if |fs| > 1 {
      TerminateEndsInNul(fs[1..]);
    }
  }

  /** Framing round trip without a trailing delimiter: the final frame is taken at EOF. */
  lemma {:induction false} FramesOfJoin(fs: seq<Frame>)
    requires AllZeroFree(fs)
    requires fs == [] || fs[|fs| - 1] != []
    ensures Frames(Join(fs)) == fs
  {
    if |fs| == 1 {
      ScanTail(fs[0]);
    } else if |fs| > 1 {
      ScanDelimited(fs[0], Join(fs[1..]));
      FramesOfJoin(fs[1..]);
    }
  }

  lemma {:induction false} JoinEmptyLast(fs: seq<Frame>)
    requires fs != [] && fs[|fs| - 1] == []
    ensures Join(fs) == Terminate(fs[..|fs| - 1])
  {
    if |fs| > 1 {
      JoinEmptyLast(fs[1..]);
      assert fs[1..][..|fs| - 2] == fs[..|fs| - 1][1..];
    }
  }

  /**
   * Why FramesOfJoin needs a non-empty last frame: an empty final frame
   * leaves no bytes after the last delimiter, and at end of stream the
   * split function yields nothing for nothing, so that frame is lost.
   */
  lemma EmptyLastFrameIsLost(fs: seq<Frame>)
    requires AllZeroFree(fs)
    requires fs != [] && fs[|fs| - 1] == []
    ensures Frames(Join(fs)) == fs[..|fs| - 1]
  {
    JoinEmptyLast(fs);
    FramesOfTerminate(fs[..|fs| - 1]);
  }

  /**
   * The converse round trip: the frames of any stream put back together
   * give the stream again, delimited after each frame when the stream is
   * empty or ends in 0x00, and joined otherwise.
   */
  lemma {:induction false} FramesReassemble(stream: seq<byte>)
    ensures stream == [] || stream[|stream| - 1] == Nul ==> Terminate(Frames(stream)) == stream
    ensures stream != [] && stream[|stream| - 1] != Nul ==> Join(Frames(stream)) == stream
    decreases |stream|
  {
    match Scan(stream)
    case None =>
    case Some(s) =>
      var rest := stream[s.advance..];
      FramesReassemble(rest);
      FramesUnfold(stream, s);
      assert Frames(stream)[1..] == Frames(rest);
      if !s.atEOF {
        Recompose(stream, |s.token|);
        if rest != [] {
          assert stream[|stream| - 1] == rest[|rest| - 1];
        }
      }
  }

  /** A request sent as one delimited frame is read back as exactly that one frame. */
  lemma RequestIsOneFrame(payload: seq<byte>)
    requires ZeroFree(payload)
    ensures Frames(Delimited(payload)) == [payload]
  {
    ScanDelimited(payload, []);
    assert payload + [Nul] + [] == Delimited(payload);
  }
}
