/**
 * The userdb query: one request to the name-service-switch service of
 * systemd-userdbd over its Unix socket, and a scan of the reply frames,
 * each handed to an unmarshal callback in stream order until the callback
 * reports that no frame follows, fails to decode a frame, or the stream
 * ends.
 *
 * The socket is a value (Socket) saying how dialling and writing went and
 * what the service sent back; JSON encoding and decoding are parameters.
 */
module Userdb {
  import opened Wrappers
  import opened Framing

  /** The message of an error returned by the socket. */
  type Error = string

  /** The service every query names. */
  const Service := "io.systemd.NameServiceSwitch"

  datatype Parameters = Parameters(service: string)

  /** The request, before JSON encoding. */
  datatype Request = Request(methodName: string, parameters: Parameters, more: bool)

  /** One decoded reply frame: a record and whether more frames may follow. */
  datatype Envelope<R> = Envelope(record: R, continues: bool)

  /**
   * One connection to the service, as the client sees it: the error of
   * net.Dial, if any; the error of conn.Write, if any; the bytes the
   * service sends; and the error that ended the stream, or None when it
   * ended normally (EOF).
   */
  datatype Socket = Socket(dialErr: Option<Error>, writeErr: Option<Error>, reply: seq<byte>, readErr: Option<Error>)

  /** The frame decodes and says more frames may follow. */
  predicate Continues<R>(decode: Frame -> Option<Envelope<R>>, f: Frame) {
    decode(f).Some? && decode(f).value.continues
  }

  predicate AllContinue<R>(frames: seq<Frame>, decode: Frame -> Option<Envelope<R>>) {
    forall k :: 0 <= k < |frames| ==> Continues(decode, frames[k])
  }

  /**
   * How many frames the scan loop hands to the unmarshal callback: all of
   * them, up to and including the first that does not decode or says no
   * frame follows.
   */
  function Processed<R>(frames: seq<Frame>, decode: Frame -> Option<Envelope<R>>): (n: nat)
    ensures n <= |frames|
    ensures frames != [] ==> n >= 1
  {
    if frames == [] then 0
    else if !Continues(decode, frames[0]) then 1
    else 1 + Processed(frames[1..], decode)
  }

  /** The records of the processed frames that decoded, in stream order. */
  function Accepted<R>(frames: seq<Frame>, decode: Frame -> Option<Envelope<R>>): (rs: seq<R>)
    ensures |rs| <= |frames|
  {
    if frames == [] then []
    else
      match decode(frames[0])
      case None => []
      case Some(e) => [e.record] + (if e.continues then Accepted(frames[1..], decode) else [])
  }

  /** The index of the last record satisfying pred, or -1 when none does. */
  function LastMatchIndex<R>(rs: seq<R>, pred: R -> bool): (i: int)
    ensures -1 <= i < |rs|
    ensures i >= 0 ==> pred(rs[i])
    ensures forall j :: i < j < |rs| ==> !pred(rs[j])
  {
    if rs == [] then -1
    else if pred(rs[|rs| - 1]) then |rs| - 1
    else LastMatchIndex(rs[..|rs| - 1], pred)
  }

  /** The record a query selects: the last one that satisfies the predicate. */
  function LastMatch<R>(rs: seq<R>, pred: R -> bool): (m: Option<R>)
    ensures m.None? <==> forall j :: 0 <= j < |rs| ==> !pred(rs[j])
    ensures m.Some? ==> pred(m.value)
  {
    var i := LastMatchIndex(rs, pred);
    if i < 0 then None else Some(rs[i])
  }

  /** The captured result: the mapped last match, or what was captured before when nothing matches. */
  function Captured<R, T>(rs: seq<R>, pred: R -> bool, build: R -> T, init: Option<T>): Option<T> {
    match LastMatch(rs, pred)
    case Some(r) => Some(build(r))
    case None => init
  }

  /** One step of the capture: a matching record replaces what was captured before. */
  function Replace<R, T>(captured: Option<T>, r: R, pred: R -> bool, build: R -> T): Option<T> {
    if pred(r) then Some(build(r)) else captured
  }

  /**
   * Whether the scanner looked at the end of the reply before the loop
   * left it on its own: the frames ran out, or the frame that stopped the
   * loop was the undelimited tail, which the split function only yields at
   * end of stream. Only then has the scanner seen a read error.
   */
  predicate EndReached<R>(reply: seq<byte>, decode: Frame -> Option<Envelope<R>>) {
    var frames := Frames(reply);
    AllContinue(frames, decode)
    || (&& Processed(frames, decode) == |frames|
        && decode(frames[|frames| - 1]).Some?
        && reply[|reply| - 1] != Nul)
  }

  /**
   * What a query ends with: the dial or write error, the read error the
   * scanner reports, or else the last processed record that satisfies
   * the predicate (None when none does). A frame that does not decode
   * ends the scan without an error.
   */
  function QueryOutcome<R>(sock: Socket, decode: Frame -> Option<Envelope<R>>, pred: R -> bool): Result<Option<R>, Error> {
    if sock.dialErr.Some? then Failure(sock.dialErr.value)
    else if sock.writeErr.Some? then Failure(sock.writeErr.value)
    else if EndReached(sock.reply, decode) && sock.readErr.Some? then Failure(sock.readErr.value)
    else Success(LastMatch(Accepted(Frames(sock.reply), decode), pred))
  }

  /** A later record that matches supersedes every earlier one; one that does not leaves the selection as it was. */
  lemma LastMatchSnoc<R>(rs: seq<R>, r: R, pred: R -> bool)
    ensures LastMatch(rs + [r], pred) == if pred(r) then Some(r) else LastMatch(rs, pred)
  {
    assert (rs + [r])[..|rs|] == rs;
  }

  /** A record that does not satisfy the predicate never changes the selection, wherever it stands. */
  lemma {:induction false} NonMatchIgnored<R>(a: seq<R>, r: R, b: seq<R>, pred: R -> bool)
    requires !pred(r)
    ensures LastMatch(a + [r] + b, pred) == LastMatch(a + b, pred)
    decreases |b|
  {
    if b == [] {
      assert a + [r] + b == a + [r];
      assert a + b == a;
      LastMatchSnoc(a, r, pred);
    } else {
      var b' := b[..|b| - 1];
      var y := b[|b| - 1];
      assert a + [r] + b == (a + [r] + b') + [y];
      assert a + b == (a + b') + [y];
      LastMatchSnoc(a + [r] + b', y, pred);
      LastMatchSnoc(a + b', y, pred);
      NonMatchIgnored(a, r, b', pred);
    }
  }

  /**
   * The loop hands over exactly the frames up to the first one that does
   * not continue: every frame before the last processed one continues, and
   * the last processed one does not, unless the frames ran out.
   */
  lemma {:induction false} ProcessedStopsAtFirst<R>(frames: seq<Frame>, decode: Frame -> Option<Envelope<R>>)
    ensures forall k :: 0 <= k < Processed(frames, decode) - 1 ==> Continues(decode, frames[k])
    ensures Processed(frames, decode) < |frames| ==> !Continues(decode, frames[Processed(frames, decode) - 1])
  {
    if frames != [] && Continues(decode, frames[0]) {
      var tail := frames[1..];
      ProcessedStopsAtFirst(tail, decode);
      var n := Processed(tail, decode);
      forall k | 0 <= k < n ensures Continues(decode, frames[k]) {
        if k > 0 {
          assert frames[k] == tail[k - 1];
        }
      }
      if n < |tail| {
        assert frames[n] == tail[n - 1];
      }
    }
  }

  /**
   * A frame that decodes and says no frame follows ends the query: nothing
   * after it is handed to the callback, and unless it is the undelimited
   * tail of a stream that ended with a read error, the query succeeds with
   * the last match among the records up to and including it.
   */
  lemma StopFrameEndsQuery<R>(sock: Socket, decode: Frame -> Option<Envelope<R>>, pred: R -> bool,
                              fs: seq<Frame>, tok: Frame, later: seq<Frame>)
    requires sock.dialErr.None? && sock.writeErr.None?
    requires Frames(sock.reply) == fs + [tok] + later && AllContinue(fs, decode)
    requires decode(tok).Some? && !decode(tok).value.continues
    requires later != [] || sock.reply[|sock.reply| - 1] == Nul || sock.readErr.None?
    ensures QueryOutcome(sock, decode, pred) == Success(LastMatch(Accepted(fs, decode) + [decode(tok).value.record], pred))
  {
    var frames := Frames(sock.reply);
    StopAt(frames, fs, tok, later, decode);
  }

  /**
   * A reply of one delimited frame that decodes and says no frame follows:
   * the query selects its record if it satisfies the predicate and nothing
   * otherwise, without an error, however the stream goes on to end.
   */
  lemma SingleFrameReply<R>(sock: Socket, decode: Frame -> Option<Envelope<R>>, pred: R -> bool, payload: Frame)
    requires sock.dialErr.None? && sock.writeErr.None?
    requires sock.reply == Delimited(payload) && ZeroFree(payload)
    requires decode(payload).Some? && !decode(payload).value.continues
    ensures QueryOutcome(sock, decode, pred)
      == Success(if pred(decode(payload).value.record) then Some(decode(payload).value.record) else None)
  {
    var r := decode(payload).value.record;
    RequestIsOneFrame(payload);
    assert Frames(sock.reply) == [] + [payload] + [];
    StopFrameEndsQuery(sock, decode, pred, [], payload, []);
    assert Accepted([], decode) + [r] == [r];
    LastMatchSnoc([], r, pred);
  }

  /**
   * A frame that does not decode ends the query without an error, whatever
   * follows it and however the stream ended: the result is the last match
   * among the records before it, or None.
   */
  lemma DecodeErrorIsAbsence<R>(sock: Socket, decode: Frame -> Option<Envelope<R>>, pred: R -> bool,
                                fs: seq<Frame>, bad: Frame, later: seq<Frame>)
    requires sock.dialErr.None? && sock.writeErr.None?
    requires Frames(sock.reply) == fs + [bad] + later && AllContinue(fs, decode)
    requires decode(bad).None?
    ensures QueryOutcome(sock, decode, pred) == Success(LastMatch(Accepted(fs, decode), pred))
  {
    var frames := Frames(sock.reply);
    StopAt(frames, fs, bad, later, decode);
    assert Accepted(fs, decode) + [] == Accepted(fs, decode);
  }

  /**
   * The state the unmarshal callback of a group or user query closes
   * over: the JSON decoder, the caller's predicate, the mapping from a
   * wire record to the public shape, and the captured result.
   */
  class Selector<R, T> {
    const decode: Frame -> Option<Envelope<R>>
    const pred: R -> bool
    const build: R -> T
    var captured: Option<T>

    constructor (decode: Frame -> Option<Envelope<R>>, pred: R -> bool, build: R -> T)
      ensures this.decode == decode && this.pred == pred && this.build == build
      ensures captured == None
    {
      this.decode := decode;
      this.pred := pred;
      this.build := build;
      captured := None;
    }

    /**
     * The unmarshal callback: decodes the frame, captures the mapped
     * record when it satisfies the predicate (replacing any earlier
     * capture), and returns the frame's continuation flag, or reports that
     * the frame did not decode.
     */
    method Unmarshal(frame: Frame) returns (continues: bool, failed: bool)
      modifies this
      ensures failed <==> decode(frame).None?
      ensures failed ==> !continues && captured == old(captured)
      ensures !failed ==> continues == decode(frame).value.continues
      ensures !failed ==> captured == Replace(old(captured), decode(frame).value.record, pred, build)
    {
      var reply := decode(frame);
      if reply.None? {
        return false, true;
      }
      var r := reply.value.record;
      if !pred(r) {
        return reply.value.continues, false;
      }
      captured := Some(build(r));
      return reply.value.continues, false;
    }
  }

  lemma {:induction false} CapturedSnoc<R, T>(rs: seq<R>, r: R, pred: R -> bool, build: R -> T, init: Option<T>)
    ensures Captured(rs + [r], pred, build, init) == Replace(Captured(rs, pred, build, init), r, pred, build)
  {
    assert (rs + [r])[..|rs|] == rs;
  }

  lemma ContinueTail<R>(a: seq<Frame>, decode: Frame -> Option<Envelope<R>>)
    requires a != [] && AllContinue(a, decode)
    ensures Continues(decode, a[0]) && AllContinue(a[1..], decode)
  {
    forall k | 0 <= k < |a| - 1 ensures Continues(decode, a[1..][k]) {
      assert a[1..][k] == a[k + 1];
    }
  }

  /** Frames that all continue pass through the loop one by one. */
  lemma {:induction false} ProcessedAfterContinuing<R>(a: seq<Frame>, b: seq<Frame>, decode: Frame -> Option<Envelope<R>>)
    requires AllContinue(a, decode)
    ensures Processed(a + b, decode) == |a| + Processed(b, decode)
  {
    if a == [] {
      assert a + b == b;
    } else {
      assert (a + b)[0] == a[0];
      assert (a + b)[1..] == a[1..] + b;
      ContinueTail(a, decode);
      ProcessedAfterContinuing(a[1..], b, decode);
    }
  }

  /** The records of frames that all continue come first, one per frame. */
  lemma {:induction false} AcceptedAfterContinuing<R>(a: seq<Frame>, b: seq<Frame>, decode: Frame -> Option<Envelope<R>>)
    requires AllContinue(a, decode)
    ensures Accepted(a + b, decode) == Accepted(a, decode) + Accepted(b, decode)
  {
    if a == [] {
      assert a + b == b;
    } else {
      assert (a + b)[0] == a[0];
      assert (a + b)[1..] == a[1..] + b;
      ContinueTail(a, decode);
      var r := decode(a[0]).value.record;
      assert Accepted(a + b, decode) == [r] + Accepted(a[1..] + b, decode);
      assert Accepted(a, decode) == [r] + Accepted(a[1..], decode);
      AcceptedAfterContinuing(a[1..], b, decode);
    }
  }

  lemma {:induction false} AcceptedOfContinuing<R>(a: seq<Frame>, decode: Frame -> Option<Envelope<R>>)
    requires AllContinue(a, decode)
    ensures |Accepted(a, decode)| == |a|
  {
    if a != [] {
      ContinueTail(a, decode);
      AcceptedOfContinuing(a[1..], decode);
    }
  }

  lemma AcceptedSingle<R>(f: Frame, decode: Frame -> Option<Envelope<R>>)
    ensures Accepted([f], decode) == if decode(f).Some? then [decode(f).value.record] else []
  {
    assert [f][0] == f;
    assert [f][1..] == [];
  }

  lemma ContinuingSnoc<R>(fed: seq<Frame>, f: Frame, decode: Frame -> Option<Envelope<R>>)
    requires AllContinue(fed, decode) && Continues(decode, f)
    ensures AllContinue(fed + [f], decode)
  {
  }

  /**
   * The scanner stands at offset start of the reply after yielding the
   * frames fed: those frames and the frames of what is left make up all
   * the frames of the reply.
   */
  predicate ScannedUpTo(reply: seq<byte>, start: nat, fed: seq<Frame>) {
    start <= |reply| && Frames(reply) == fed + Frames(reply[start..])
  }

  /** The loop ran out of frames: every frame was processed and the end of the stream was seen. */
  lemma ExitExhausted<R>(reply: seq<byte>, start: nat, fed: seq<Frame>, decode: Frame -> Option<Envelope<R>>)
    requires ScannedUpTo(reply, start, fed) && Scan(reply[start..]).None?
    requires AllContinue(fed, decode)
    ensures fed == Frames(reply)[..Processed(Frames(reply), decode)]
    ensures Accepted(Frames(reply), decode) == Accepted(fed, decode)
    ensures EndReached(reply, decode)
  {
    assert Frames(reply[start..]) == [];
    assert fed + [] == fed;
    ProcessedAfterContinuing(fed, [], decode);
  }

  /**
   * The loop stops at frame tok after a run of continuing frames: tok is
   * the last frame processed, and the records are those of the run and
   * tok's own if it decodes.
   */
  lemma StopAt<R>(frames: seq<Frame>, fed: seq<Frame>, tok: Frame, later: seq<Frame>, decode: Frame -> Option<Envelope<R>>)
    requires frames == fed + [tok] + later && AllContinue(fed, decode) && !Continues(decode, tok)
    ensures Processed(frames, decode) == |fed| + 1
    ensures frames[..|fed| + 1] == fed + [tok]
    ensures Accepted(frames, decode) == Accepted(fed, decode) + (if decode(tok).Some? then [decode(tok).value.record] else [])
    ensures !AllContinue(frames, decode)
  {
    assert frames == fed + ([tok] + later);
    assert ([tok] + later)[0] == tok;
    assert Processed(frames, decode) == |fed| + 1 by {
      ProcessedAfterContinuing(fed, [tok] + later, decode);
    }
    assert Accepted(frames, decode) == Accepted(fed, decode) + (if decode(tok).Some? then [decode(tok).value.record] else []) by {
      AcceptedAfterContinuing(fed, [tok] + later, decode);
    }
    assert frames[..|fed| + 1] == fed + [tok];
    assert frames[|fed|] == tok;
  }

  /** A scanned frame is the last one with no delimiter after it exactly when it was taken at end of stream. */
  lemma LastFrameAtEOF(reply: seq<byte>, start: nat, s: Scanned, after: nat)
    requires start <= |reply| && Scan(reply[start..]) == Some(s) && after == start + s.advance
    ensures after <= |reply|
    ensures Frames(reply[after..]) == [] && reply[|reply| - 1] != Nul <==> s.atEOF
  {
    var data := reply[start..];
    assert reply[|reply| - 1] == data[|data| - 1];
  }

  /**
   * One turn of the scan loop at offset start, after the frames fed so
   * far, all of which continued, when the next token s.token continues
   * too: it is the next frame, and the loop goes on at offset after with
   * it added to the run.
   */
  lemma ContinueStep<R>(reply: seq<byte>, start: nat, fed: seq<Frame>, s: Scanned, after: nat, decode: Frame -> Option<Envelope<R>>)
    requires ScannedUpTo(reply, start, fed) && Scan(reply[start..]) == Some(s) && after == start + s.advance
    requires AllContinue(fed, decode) && Continues(decode, s.token)
    ensures ScannedUpTo(reply, after, fed + [s.token])
    ensures AllContinue(fed + [s.token], decode)
    ensures Accepted(fed + [s.token], decode) == Accepted(fed, decode) + [decode(s.token).value.record]
  {
    FramesStep(reply, start, s, after);
    Regroup(fed, s.token, Frames(reply[after..]));
    AcceptedAfterContinuing(fed, [s.token], decode);
    AcceptedSingle(s.token, decode);
    ContinuingSnoc(fed, s.token, decode);
  }

  /** Where the loop stops: the frames it processed, and whether the scanner has seen the end of the stream. */
  lemma StopFrames<R>(reply: seq<byte>, start: nat, fed: seq<Frame>, s: Scanned, decode: Frame -> Option<Envelope<R>>)
    requires ScannedUpTo(reply, start, fed) && Scan(reply[start..]) == Some(s)
    requires AllContinue(fed, decode) && !Continues(decode, s.token)
    ensures Frames(reply)[..Processed(Frames(reply), decode)] == fed + [s.token]
    ensures Accepted(Frames(reply), decode) == Accepted(fed, decode) + (if decode(s.token).Some? then [decode(s.token).value.record] else [])
    ensures EndReached(reply, decode) <==> decode(s.token).Some? && s.atEOF
  {
    var after := start + s.advance;
    FramesStep(reply, start, s, after);
    var later := Frames(reply[after..]);
    Regroup(fed, s.token, later);
    var frames := Frames(reply);
    StopAt(frames, fed, s.token, later, decode);
    assert later == [] ==> frames[|frames| - 1] == s.token;
    LastFrameAtEOF(reply, start, s, after);
  }

  /**
   * When the loop stops at frame tok, what the callback captured is the
   * capture of all accepted records: tok's record replaces the earlier
   * capture when it decodes and matches.
   */
  lemma StopCaptured<R, T>(frames: seq<Frame>, fed: seq<Frame>, tok: Frame, decode: Frame -> Option<Envelope<R>>,
                           pred: R -> bool, build: R -> T, init: Option<T>)
    requires Accepted(frames, decode) == Accepted(fed, decode) + (if decode(tok).Some? then [decode(tok).value.record] else [])
    ensures decode(tok).None? ==>
      Captured(Accepted(frames, decode), pred, build, init) == Captured(Accepted(fed, decode), pred, build, init)
    ensures decode(tok).Some? ==>
      Captured(Accepted(frames, decode), pred, build, init)
      == Replace(Captured(Accepted(fed, decode), pred, build, init), decode(tok).value.record, pred, build)
  {
    if decode(tok).None? {
      assert Accepted(fed, decode) + [] == Accepted(fed, decode);
    } else {
      CapturedSnoc(Accepted(fed, decode), decode(tok).value.record, pred, build, init);
    }
  }

  /**
   * queryUserdbd: dial, send the request as one delimited frame, then
   * scan the reply. fed is the sequence of frames the callback was given.
   */
  method QueryUserdbd<R, T>(methodName: string, sock: Socket, encode: Request -> seq<byte>, sel: Selector<R, T>)
    returns (sent: seq<byte>, err: Option<Error>, ghost fed: seq<Frame>)
    modifies sel
    ensures sock.dialErr.Some? ==> sent == [] && err == sock.dialErr
    ensures sock.dialErr.None? ==> sent == Delimited(encode(Request(methodName, Parameters(Service), true)))
    ensures sock.dialErr.None? && sock.writeErr.Some? ==> err == sock.writeErr
    ensures sock.dialErr.Some? || sock.writeErr.Some? ==> fed == [] && sel.captured == old(sel.captured)
    ensures sock.dialErr.None? && sock.writeErr.None? ==>
      && fed == Frames(sock.reply)[..Processed(Frames(sock.reply), sel.decode)]
      && err == (if EndReached(sock.reply, sel.decode) then sock.readErr else None)
      && sel.captured == Captured(Accepted(Frames(sock.reply), sel.decode), sel.pred, sel.build, old(sel.captured))
  {
    if sock.dialErr.Some? {
      return [], sock.dialErr, [];
    }
    var req := Request(methodName, Parameters(Service), true);
    sent := Delimited(encode(req));
    if sock.writeErr.Some? {
      return sent, sock.writeErr, [];
    }
    err, fed := ScanReply(sock.reply, sock.readErr, sel);
  }

  /**
   * The scan loop of queryUserdbd: each frame of the reply goes to the
   * callback in stream order; the loop stops after a frame that says no
   * frame follows, returns without an error after a frame that does not
   * decode, and otherwise runs to the end of the stream. The read error,
   * if the stream ended with one, is reported when the scanner has seen
   * it.
   */
  method ScanReply<R, T>(reply: seq<byte>, readErr: Option<Error>, sel: Selector<R, T>)
    returns (err: Option<Error>, ghost fed: seq<Frame>)
    modifies sel
    ensures fed == Frames(reply)[..Processed(Frames(reply), sel.decode)]
    ensures err == (if EndReached(reply, sel.decode) then readErr else None)
    ensures sel.captured == Captured(Accepted(Frames(reply), sel.decode), sel.pred, sel.build, old(sel.captured))
  {
    fed := [];
    var start: nat := 0;
    ghost var init := sel.captured;
    assert reply[0..] == reply;
    while true
      invariant ScannedUpTo(reply, start, fed)
      invariant AllContinue(fed, sel.decode)
      invariant sel.captured == Captured(Accepted(fed, sel.decode), sel.pred, sel.build, init)
      decreases |reply| - start
    {
      var next := Scan(reply[start..]);
      if next.None? {
        // The scanner has reached the end of the stream and reports how it ended.
        ExitExhausted(reply, start, fed, sel.decode);
        return readErr, fed;
      }
      var s := next.value;
      var tok := s.token;
      var continues, failed := sel.Unmarshal(tok);
      if failed || !continues {
        StopFrames(reply, start, fed, s, sel.decode);
        StopCaptured(Frames(reply), fed, tok, sel.decode, sel.pred, sel.build, init);
        if failed {
          return None, fed + [tok];
        }
        // The scanner has seen the end of the stream only if it needed it for this frame.
        return if s.atEOF then readErr else None, fed + [tok];
      }
      var after := start + s.advance;
      ContinueStep(reply, start, fed, s, after, sel.decode);
      CapturedSnoc(Accepted(fed, sel.decode), sel.decode(tok).value.record, sel.pred, sel.build, init);
      fed := fed + [tok];
      start := after;
    }
  }
}
