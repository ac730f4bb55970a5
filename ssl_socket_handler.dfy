/** The secure session of one accepted connection (SSLSocketHandler): the
    engine, the four byte buffers, and what the session does with every
    answer the engine and the channel give. */
module SecureSession {
  import opened ByteBuffers
  import opened Engines
  import opened Outcomes

  function Max(a: nat, b: nat): nat
  {
    if a < b then b else a
  }

  /** The bytes a ByteArrayOutputStream holds after writing each chunk in turn. */
  function Concat(chunks: seq<seq<byte>>): seq<byte>
  {
    if chunks == [] then [] else Concat(chunks[..|chunks| - 1]) + chunks[|chunks| - 1]
  }

  /** One size per chunk, none beyond its chunk. */
  ghost predicate SizesFit(chunks: seq<seq<byte>>, sizes: seq<nat>)
  {
    |chunks| == |sizes| && forall i :: 0 <= i < |chunks| ==> sizes[i] <= |chunks[i]|
  }

  /** The first sizes[i] bytes of each chunk, one after the other. */
  function ConcatPrefixes(chunks: seq<seq<byte>>, sizes: seq<nat>): seq<byte>
    requires SizesFit(chunks, sizes)
  {
    if chunks == [] then []
    else
      var n := |chunks| - 1;
      ConcatPrefixes(chunks[..n], sizes[..n]) + chunks[n][..sizes[n]]
  }

  lemma ConcatSnoc(chunks: seq<seq<byte>>, c: seq<byte>)
    ensures Concat(chunks + [c]) == Concat(chunks) + c
  {
    assert (chunks + [c])[..|chunks|] == chunks;
  }

  lemma ConcatPrefixesSnoc(chunks: seq<seq<byte>>, sizes: seq<nat>, c: seq<byte>, n: nat)
    requires SizesFit(chunks, sizes) && n <= |c|
    ensures SizesFit(chunks + [c], sizes + [n])
    ensures ConcatPrefixes(chunks + [c], sizes + [n]) == ConcatPrefixes(chunks, sizes) + c[..n]
  {
    assert (chunks + [c])[..|chunks|] == chunks;
    assert (sizes + [n])[..|sizes|] == sizes;
  }

  /** Appending to a log that extends t keeps the part after t in order. */
  lemma ExtendsTrans<T>(s: seq<T>, m: seq<T>, t: seq<T>)
    requires Extends(m, t) && Extends(s, m)
    ensures Extends(s, t) && s[|t|..] == m[|t|..] + s[|m|..]
  {
    assert s[..|m|][..|t|] == s[..|t|];
  }

  /** s starts with t. */
  ghost predicate Extends<T>(s: seq<T>, t: seq<T>)
  {
    |t| <= |s| && s[..|t|] == t
  }

  function Last<T>(s: seq<T>): T
    requires |s| > 0
  {
    s[|s| - 1]
  }

  /** FINISHED and NOT_HANDSHAKING are the statuses that end doHandshake's loop. */
  predicate EndsHandshake(hs: HandshakeStatus)
  {
    hs == Finished || hs == NotHandshaking
  }

  /** The statuses the engine reported from index k0 of its log on, as
      doHandshake's loop sees them: at least one, and none but the last
      ends the loop. */
  ghost predicate HandshakeTrace(reported: seq<HandshakeStatus>, k0: nat)
  {
    k0 < |reported| && forall i :: k0 <= i < |reported| - 1 ==> !EndsHandshake(reported[i])
  }

  /** A step that reports at most one more status keeps the trace when the
      status it started from does not end the loop. */
  lemma HandshakeTraceStep(reported: seq<HandshakeStatus>, k0: nat, reported': seq<HandshakeStatus>)
    requires HandshakeTrace(reported, k0) && !EndsHandshake(Last(reported))
    requires Extends(reported', reported) && |reported'| <= |reported| + 1
    ensures HandshakeTrace(reported', k0)
  {
    forall i | k0 <= i < |reported'| - 1
      ensures !EndsHandshake(reported'[i])
    {
      assert reported'[i] == reported[i];
    }
  }

  /** What one pass of doHandshake's loop can see of the session and
      change: every answer wrap and unwrap gave so far, the delegated tasks
      submitted and still pending, whether a read now would report end of
      stream, whether the engine is inbound-done and outbound-done, and
      whether its outbound side has been closed. */
  datatype PassState = PassState(
    wraps: seq<EngineResult>,
    unwraps: seq<EngineResult>,
    submitted: nat,
    pending: nat,
    atEnd: bool,
    bothDone: bool,
    outboundClosed: bool)

  /** One pass of doHandshake's loop: the status switched on, the state
      before and after, and how the pass ended (Returned carries the next
      status). */
  datatype Pass = Pass(status: HandshakeStatus, before: PassState, after: PassState, outcome: Outcome<HandshakeStatus>)

  /** The action doHandshake's switch takes for the pass's status.
      NEED_UNWRAP: at end of stream no unwrap, and SSLException exactly when
      both directions are done, the outbound side closed when it does not
      throw; otherwise one unwrap, and IOException exactly
      when it answered CLOSED. NEED_WRAP: one wrap, and IOException exactly
      when it answered CLOSED. NEED_TASK: every pending task submitted.
      NEED_UNWRAP_AGAIN: IllegalStateException and nothing else. FINISHED
      and NOT_HANDSHAKING take no pass. */
  ghost predicate PassDid(p: Pass)
  {
    && Extends(p.after.wraps, p.before.wraps) && Extends(p.after.unwraps, p.before.unwraps)
    && match p.status
       case NeedUnwrap =>
         && p.after.wraps == p.before.wraps && p.after.submitted == p.before.submitted && !p.outcome.Stalled?
         && (p.before.atEnd ==>
               && p.after.unwraps == p.before.unwraps
               && (p.outcome.Threw? <==> p.before.bothDone) && (p.outcome.Threw? ==> p.outcome.exception == SSLException)
               && (!p.outcome.Threw? ==> p.after.outboundClosed))
         && (!p.before.atEnd ==>
               && |p.after.unwraps| == |p.before.unwraps| + 1
               && (p.outcome.Threw? <==> Last(p.after.unwraps).status == Closed)
               && (p.outcome.Threw? ==> p.outcome.exception == IOException))
       case NeedWrap =>
         && p.after.unwraps == p.before.unwraps && p.after.submitted == p.before.submitted
         && |p.after.wraps| == |p.before.wraps| + 1
         && (p.outcome.Threw? <==> Last(p.after.wraps).status == Closed)
         && (p.outcome.Threw? ==> p.outcome.exception == IOException)
       case NeedTask =>
         && p.outcome.Returned? && p.after.pending == 0 && p.after.submitted == p.before.submitted + p.before.pending
         && p.after.wraps == p.before.wraps && p.after.unwraps == p.before.unwraps
       case NeedUnwrapAgain =>
         && p.outcome == Threw(IllegalStateException)
         && p.after.wraps == p.before.wraps && p.after.unwraps == p.before.unwraps && p.after.submitted == p.before.submitted
       case _ => false
  }

  /** Why a pass threw e: IOException for a CLOSED answer from its wrap or
      unwrap, SSLException for end of stream with both directions done,
      IllegalStateException for NEED_UNWRAP_AGAIN. */
  ghost predicate ThrewBecause(p: Pass, e: JavaException)
  {
    match e
    case IOException =>
      || (p.status == NeedWrap && |p.after.wraps| > 0 && Last(p.after.wraps).status == Closed)
      || (p.status == NeedUnwrap && !p.before.atEnd && |p.after.unwraps| > 0 && Last(p.after.unwraps).status == Closed)
    case SSLException => p.status == NeedUnwrap && p.before.atEnd && p.before.bothDone
    case IllegalStateException => p.status == NeedUnwrapAgain
    case _ => false
  }

  /** Flipping a buffer filled to filledTo, consuming its first consumed
      bytes and compacting leaves the unconsumed ones in front. */
  lemma CompactedRest(whole: seq<byte>, filledTo: nat, consumed: nat, compacted: seq<byte>,
                      cipher0: seq<byte>, cipher: seq<byte>)
    requires consumed <= filledTo <= |whole| == |compacted|
    requires compacted == whole[consumed..filledTo] + whole[filledTo - consumed..]
    requires cipher == cipher0 + whole[..filledTo][..consumed]
    ensures Extends(cipher, cipher0)
    ensures whole[..filledTo] == cipher[|cipher0|..] + compacted[..filledTo - consumed]
  {
    assert compacted[..filledTo - consumed] == whole[consumed..filledTo];
    assert cipher[|cipher0|..] == whole[..consumed];
  }

  /** No wrap or unwrap answered CLOSED between s0 and s. */
  ghost predicate NoClosedSince(s0: PassState, s: PassState)
  {
    && Extends(s.wraps, s0.wraps) && Extends(s.unwraps, s0.unwraps)
    && NoneClosed(s.wraps[|s0.wraps|..]) && NoneClosed(s.unwraps[|s0.unwraps|..])
  }

  /** The passes doHandshake's loop made from state s0 to state s: each
      did what its status calls for, each switched on the next status the
      engine reported from index k0 of its log, and each but the last
      returned the status the next one switched on. */
  ghost predicate HandshakeRun(passes: seq<Pass>, s0: PassState, s: PassState, reported: seq<HandshakeStatus>, k0: nat)
  {
    && (passes == [] ==> s == s0)
    && (passes != [] ==> passes[0].before == s0 && Last(passes).after == s)
    && k0 + |passes| <= |reported|
    && (forall i :: 0 <= i < |passes| ==> PassDid(passes[i]) && passes[i].status == reported[k0 + i])
    && (forall i :: 0 <= i < |passes| - 1 ==>
          passes[i].after == passes[i + 1].before && passes[i].outcome == Returned(passes[i + 1].status))
  }

  /** A pass that starts where a run which returned its last status stands
      extends the run; when it does not throw, still no answer was CLOSED;
      when it throws, the reason is its own. */
  lemma HandshakeRunStep(passes: seq<Pass>, s0: PassState, reported: seq<HandshakeStatus>, k0: nat,
                         p: Pass, reported': seq<HandshakeStatus>)
    requires HandshakeRun(passes, s0, p.before, reported, k0) && NoClosedSince(s0, p.before)
    requires |reported| == k0 + |passes| + 1 && p.status == Last(reported)
    requires passes != [] ==> Last(passes).outcome == Returned(p.status)
    requires PassDid(p) && Extends(reported', reported)
    requires p.outcome.Returned? ==> reported' == reported + [p.outcome.value]
    ensures HandshakeRun(passes + [p], s0, p.after, reported', k0)
    ensures p.outcome.Returned? ==>
      |reported'| == k0 + |passes + [p]| + 1 && Last(passes + [p]).outcome == Returned(Last(reported'))
    ensures !p.outcome.Threw? ==> NoClosedSince(s0, p.after)
    ensures p.outcome.Threw? ==> ThrewBecause(p, p.outcome.exception)
  {
    var passes' := passes + [p];
    forall i | 0 <= i < |passes'|
      ensures PassDid(passes'[i]) && passes'[i].status == reported'[k0 + i]
    {
      if i < |passes| {
        assert passes'[i] == passes[i] && reported'[k0 + i] == reported[k0 + i];
      }
    }
    forall i | 0 <= i < |passes'| - 1
      ensures passes'[i].after == passes'[i + 1].before && passes'[i].outcome == Returned(passes'[i + 1].status)
    {
      assert passes'[i] == passes[i];
      if i + 1 < |passes| {
        assert passes'[i + 1] == passes[i + 1];
      }
    }
    if !p.outcome.Threw? {
      ExtendsTrans(p.after.wraps, p.before.wraps, s0.wraps);
      ExtendsTrans(p.after.unwraps, p.before.unwraps, s0.unwraps);
      NoneClosedAppend(p.before.wraps[|s0.wraps|..], p.after.wraps[|p.before.wraps|..]);
      NoneClosedAppend(p.before.unwraps[|s0.unwraps|..], p.after.unwraps[|p.before.unwraps|..]);
    }
  }

  /** Every chunk is at least lo and at most hi bytes long. */
  ghost predicate LengthsWithin(chunks: seq<seq<byte>>, lo: nat, hi: nat)
  {
    forall i :: 0 <= i < |chunks| ==> lo <= |chunks[i]| <= hi
  }

  lemma LengthsWithinStep(chunks: seq<seq<byte>>, lo: nat, hi: nat, hi': nat, chunks': seq<seq<byte>>, c: seq<byte>)
    requires LengthsWithin(chunks, lo, hi) && hi <= hi'
    requires chunks' == chunks || (chunks' == chunks + [c] && lo <= |c| <= hi')
    ensures LengthsWithin(chunks', lo, hi')
  {
    assert forall i :: 0 <= i < |chunks| ==> chunks'[i] == chunks[i];
  }

  /** Every answer in rs is OK. */
  predicate AllOk(rs: seq<EngineResult>)
  {
    forall i :: 0 <= i < |rs| ==> rs[i].status == StatusOk
  }

  /** No answer in rs is CLOSED. */
  predicate NoneClosed(rs: seq<EngineResult>)
  {
    forall i :: 0 <= i < |rs| ==> rs[i].status != Closed
  }

  /** No answer in rs is BUFFER_UNDERFLOW, the one answer after which
      readAndDecode moves peerNetData's bytes or its position. */
  predicate NoUnderflow(rs: seq<EngineResult>)
  {
    forall i :: 0 <= i < |rs| ==> rs[i].status != BufferUnderflow
  }

  /** Two adjacent slices of s make up the slice that spans both. */
  lemma SliceJoin(s: seq<byte>, a: nat, b: nat, c: nat)
    requires a <= b <= c <= |s|
    ensures s[a..b] + s[b..c] == s[a..c]
  {
  }

  lemma NoneClosedSnoc(rs: seq<EngineResult>, x: EngineResult)
    requires NoneClosed(rs) && x.status != Closed
    ensures NoneClosed(rs + [x])
  {
    assert forall i :: 0 <= i < |rs| ==> (rs + [x])[i] == rs[i];
  }

  lemma NoneClosedAppend(rs: seq<EngineResult>, xs: seq<EngineResult>)
    requires NoneClosed(rs) && NoneClosed(xs)
    ensures NoneClosed(rs + xs)
  {
    assert forall i :: 0 <= i < |rs| + |xs| ==> (rs + xs)[i] == if i < |rs| then rs[i] else xs[i - |rs|];
  }

  /** The plaintext counts of the OK answers in rs, in order. */
  function OkSizes(rs: seq<EngineResult>): seq<nat>
  {
    if rs == [] then []
    else OkSizes(rs[..|rs| - 1]) + (if Last(rs).status == StatusOk then [Last(rs).bytesProduced] else [])
  }

  lemma OkSizesSnoc(rs: seq<EngineResult>, x: EngineResult)
    ensures OkSizes(rs + [x]) == OkSizes(rs) + (if x.status == StatusOk then [x.bytesProduced] else [])
  {
    assert (rs + [x])[..|rs|] == rs;
  }

  /** `while (buf.hasRemaining()) channel.write(buf);` -- every remaining
      byte goes out, in order, before the caller goes on. Each write costs
      one unit of fuel; when the fuel runs out first, flushed is false. */
  method WriteFully(channel: Channel, buf: ByteBuffer, fuel: nat) returns (flushed: bool, rest: nat)
    requires buf.Valid()
    modifies channel`sent, buf`position
    ensures buf.Valid() && old(buf.position) <= buf.position && rest <= fuel
    ensures flushed <==> !buf.HasRemaining()
    ensures !flushed ==> rest == 0
    ensures channel.sent == old(channel.sent) + buf.hb[old(buf.position)..buf.position]
  {
    rest := fuel;
    while buf.HasRemaining() && rest > 0
      invariant buf.Valid() && old(buf.position) <= buf.position && rest <= fuel
      invariant channel.sent == old(channel.sent) + buf.hb[old(buf.position)..buf.position]
      decreases rest
    {
      var n := channel.Write(buf);
      rest := rest - 1;
    }
    flushed := !buf.HasRemaining();
  }

  /** Where readAndDecode's loop stands: bos holds the chunks so far and
      plainOut, the engine's plaintext log, holds their first sizes[i]
      bytes after plain0; the unwraps of this loop answered answers, after
      answers0 in the engine's unwrap log, their OK plaintext counts are
      sizes and none was CLOSED; every chunk is a whole backing array of
      peerAppData, whose capacity grew from capacity0 to capacity. */
  ghost predicate DecodeState(bos: seq<byte>, chunks: seq<seq<byte>>, sizes: seq<nat>, plain0: seq<byte>, plainOut: seq<byte>,
                              answers0: seq<EngineResult>, answers: seq<EngineResult>, log: seq<EngineResult>,
                              capacity0: nat, capacity: nat)
  {
    && SizesFit(chunks, sizes) && bos == Concat(chunks) && plainOut == plain0 + ConcatPrefixes(chunks, sizes)
    && log == answers0 + answers
    && sizes == OkSizes(answers) && NoneClosed(answers)
    && capacity0 <= capacity && LengthsWithin(chunks, capacity0, capacity)
  }

  /** What one unwrap of readAndDecode's loop does to the loop's state:
      an OK answer appends a chunk as long as peerAppData, CLOSED ends the
      loop, and the other two append nothing. */
  lemma DecodeStateStep(bos: seq<byte>, chunks: seq<seq<byte>>, sizes: seq<nat>, plain0: seq<byte>,
                        plainOut: seq<byte>, answers0: seq<EngineResult>, answers: seq<EngineResult>, capacity0: nat, capacity: nat,
                        r: Outcome<seq<byte>>, chunks': seq<seq<byte>>, sizes': seq<nat>, res: EngineResult,
                        plainOut': seq<byte>, log': seq<EngineResult>, capacity': nat, whole: seq<byte>)
    requires DecodeState(bos, chunks, sizes, plain0, plainOut, answers0, answers, answers0 + answers, capacity0, capacity)
    requires log' == answers0 + answers + [res] && capacity <= capacity'
    requires !r.Stalled? && (r.Threw? <==> res.status == Closed)
    requires r.Returned? ==>
      SizesFit(chunks', sizes') && r.value == Concat(chunks') && plainOut' == plain0 + ConcatPrefixes(chunks', sizes')
    requires res.status == StatusOk ==> chunks' == chunks + [whole] && sizes' == sizes + [res.bytesProduced] && |whole| == capacity'
    requires res.status != StatusOk ==> chunks' == chunks && sizes' == sizes
    ensures r.Returned? ==> DecodeState(r.value, chunks', sizes', plain0, plainOut', answers0, answers + [res], log', capacity0, capacity')
    ensures r.Threw? ==> SizesFit(chunks, sizes) && sizes == OkSizes(answers + [res]) && LengthsWithin(chunks, capacity0, capacity')
    ensures |answers + [res]| == |answers| + 1 && (answers + [res])[..|answers|] == answers
  {
    var answers' := answers + [res];
    assert answers'[..|answers|] == answers;
    OkSizesSnoc(answers, res);
    if r.Returned? {
      LengthsWithinStep(chunks, capacity0, capacity, capacity', chunks', whole);
      NoneClosedSnoc(answers, res);
      assert sizes' == OkSizes(answers');
      assert log' == answers0 + answers';
    } else {
      LengthsWithinStep(chunks, capacity0, capacity, capacity', chunks, whole);
    }
  }

  class SSLSocketHandler {
    var sslEngine: Engine?
    var appData: ByteBuffer?       // outgoing plaintext
    var netData: ByteBuffer?       // outgoing ciphertext
    var peerAppData: ByteBuffer?   // incoming plaintext
    var peerNetData: ByteBuffer?   // incoming ciphertext
    var submittedTasks: nat        // delegated tasks handed to the shared executor

    ghost predicate Ready()
      reads this
    {
      sslEngine != null && appData != null && netData != null && peerAppData != null && peerNetData != null
    }

    ghost function Footprint(): set<object>
      reads this
      requires Ready()
    {
      {this, sslEngine, appData, appData.hb, netData, netData.hb,
       peerAppData, peerAppData.hb, peerNetData, peerNetData.hb}
    }

    /** A session that has been through accept: an engine and four buffers
        of its own, none sharing a backing array with another. */
    ghost predicate Valid()
      reads this, appData, netData, peerAppData, peerNetData
    {
      && Ready()
      && appData.Valid() && netData.Valid() && peerAppData.Valid() && peerNetData.Valid()
      && appData.hb != netData.hb && appData.hb != peerAppData.hb && appData.hb != peerNetData.hb
      && netData.hb != peerAppData.hb && netData.hb != peerNetData.hb
      && peerAppData.hb != peerNetData.hb
    }

    constructor ()
      ensures !Ready() && submittedTasks == 0
    {
      sslEngine, appData, netData, peerAppData, peerNetData := null, null, null, null, null;
      submittedTasks := 0;
    }

    /** createBuffers: plaintext buffers of the session's application buffer
        size, ciphertext buffers of its packet buffer size. */
    method CreateBuffers()
      requires sslEngine != null
      modifies this`appData, this`netData, this`peerAppData, this`peerNetData
      ensures Valid() && fresh(Footprint() - {this, sslEngine})
      ensures appData.Capacity() == peerAppData.Capacity() == sslEngine.applicationBufferSize
      ensures netData.Capacity() == peerNetData.Capacity() == sslEngine.packetBufferSize
    {
      appData := new ByteBuffer.Allocate(sslEngine.applicationBufferSize);
      netData := new ByteBuffer.Allocate(sslEngine.packetBufferSize);
      peerAppData := new ByteBuffer.Allocate(sslEngine.applicationBufferSize);
      peerNetData := new ByteBuffer.Allocate(sslEngine.packetBufferSize);
    }

    /** The four clear() calls that open doHandshake. */
    method ClearBuffers()
      requires Valid()
      modifies appData, netData, peerAppData, peerNetData
      ensures Valid()
      ensures appData.position == 0 && appData.limit == appData.Capacity()
      ensures netData.position == 0 && netData.limit == netData.Capacity()
      ensures peerAppData.position == 0 && peerAppData.limit == peerAppData.Capacity()
      ensures peerNetData.position == 0 && peerNetData.limit == peerNetData.Capacity()
    {
      appData.Clear();
      peerAppData.Clear();
      netData.Clear();
      peerNetData.Clear();
    }

    /** handleBufferOverlow: a new, larger buffer when the session's
        application buffer size exceeds the capacity, else the same buffer
        cleared. Either way the capacity becomes the larger of the two. */
    method HandleBufferOverflow(appBuffer: ByteBuffer) returns (b: ByteBuffer)
      requires sslEngine != null && appBuffer.Valid()
      modifies appBuffer
      ensures b.Valid() && b.position == 0 && b.limit == b.Capacity()
      ensures b.Capacity() == Max(appBuffer.Capacity(), sslEngine.applicationBufferSize)
      ensures sslEngine.applicationBufferSize > appBuffer.Capacity() ==> fresh(b) && fresh(b.hb)
      ensures sslEngine.applicationBufferSize <= appBuffer.Capacity() ==> b == appBuffer
    {
      var size := sslEngine.applicationBufferSize;
      if size > appBuffer.Capacity() {
        b := new ByteBuffer.Allocate(size);
      } else {
        appBuffer.Clear();
        b := appBuffer;
      }
    }

    /** handleBufferUnderflow: when the session's packet buffer size exceeds
        the capacity, a new buffer of that size holding the old buffer's
        bytes [0, position) with the same position; else the same buffer
        cleared. */
    method HandleBufferUnderflow(netBuffer: ByteBuffer) returns (b: ByteBuffer)
      requires sslEngine != null && netBuffer.Valid()
      modifies netBuffer
      ensures b.Valid() && netBuffer.Valid() && b.limit == b.Capacity()
      ensures sslEngine.packetBufferSize > netBuffer.Capacity() ==>
        && fresh(b) && fresh(b.hb)
        && b.Capacity() == sslEngine.packetBufferSize
        && b.position == old(netBuffer.position)
        && b.hb[..b.position] == old(netBuffer.hb[..netBuffer.position])
        && netBuffer.position == netBuffer.limit == old(netBuffer.position)
      ensures sslEngine.packetBufferSize <= netBuffer.Capacity() ==>
        b == netBuffer && b.position == 0
    {
      var size := sslEngine.packetBufferSize;
      if size > netBuffer.Capacity() {
        var cloneBuffer := new ByteBuffer.Allocate(size);
        netBuffer.Flip();
        var overflow := cloneBuffer.Put(netBuffer);
        assert !overflow;
        b := cloneBuffer;
      } else {
        netBuffer.Clear();
        b := netBuffer;
      }
    }

    /** peerAppData := handleBufferOverlow(peerAppData). */
    method GrowPeerAppData()
      requires Valid()
      modifies this`peerAppData, peerAppData
      ensures Valid() && (peerAppData == old(peerAppData) || fresh(peerAppData.hb))
      ensures peerAppData.position == 0 && peerAppData.limit == peerAppData.Capacity()
      ensures peerAppData.Capacity() == Max(old(peerAppData.Capacity()), sslEngine.applicationBufferSize)
      ensures sslEngine.applicationBufferSize > old(peerAppData.Capacity()) ==> fresh(peerAppData)
      ensures sslEngine.applicationBufferSize <= old(peerAppData.Capacity()) ==> peerAppData == old(peerAppData)
    {
      peerAppData := HandleBufferOverflow(peerAppData);
    }

    /** peerNetData := handleBufferUnderflow(peerNetData). */
    method GrowPeerNetData()
      requires Valid()
      modifies this`peerNetData, peerNetData
      ensures Valid() && (peerNetData == old(peerNetData) || fresh(peerNetData.hb))
      ensures peerNetData.limit == peerNetData.Capacity()
      ensures sslEngine.packetBufferSize > old(peerNetData.Capacity()) ==>
        && fresh(peerNetData) && peerNetData.Capacity() == sslEngine.packetBufferSize
        && peerNetData.position == old(peerNetData.position)
        && peerNetData.hb[..peerNetData.position] == old(peerNetData.hb[..peerNetData.position])
      ensures sslEngine.packetBufferSize <= old(peerNetData.Capacity()) ==>
        peerNetData == old(peerNetData) && peerNetData.position == 0
    {
      peerNetData := HandleBufferUnderflow(peerNetData);
    }

    /** peerNetData.flip(); unwrap(peerNetData, peerAppData);
        peerNetData.compact(): the bytes peerNetData held before its position
        are the ciphertext the engine took followed by what is left before
        the new position. */
    method UnwrapPeerNetData() returns (result: EngineResult)
      requires Valid()
      modifies peerAppData`position, peerAppData.hb, peerNetData, peerNetData.hb, sslEngine
      ensures Valid() && peerAppData.Capacity() == old(peerAppData.Capacity())
      ensures peerNetData.limit == peerNetData.Capacity()
      ensures sslEngine.unwrapResults == old(sslEngine.unwrapResults) + [result]
      ensures sslEngine.wrapResults == old(sslEngine.wrapResults)
      ensures sslEngine.reported == old(sslEngine.reported) + [result.handshakeStatus]
      ensures sslEngine.cipherOut == old(sslEngine.cipherOut) && sslEngine.plainIn == old(sslEngine.plainIn)
      ensures sslEngine.handshakeBegun == old(sslEngine.handshakeBegun)
      ensures sslEngine.outboundClosed == old(sslEngine.outboundClosed)
      ensures sslEngine.outboundDone == old(sslEngine.outboundDone) && (old(sslEngine.inboundDone) ==> sslEngine.inboundDone)
      ensures Extends(sslEngine.cipherIn, old(sslEngine.cipherIn))
      ensures old(peerNetData.hb[..peerNetData.position])
        == sslEngine.cipherIn[|old(sslEngine.cipherIn)|..] + peerNetData.hb[..peerNetData.position]
      ensures result.status in {BufferOverflow, BufferUnderflow} ==> sslEngine.cipherIn == old(sslEngine.cipherIn)
    {
      ghost var whole, filledTo, cipher0 := peerNetData.hb[..], peerNetData.position, sslEngine.cipherIn;
      peerNetData.Flip();
      result := sslEngine.Unwrap(peerNetData, peerAppData);
      ghost var consumed := peerNetData.position;
      peerNetData.Compact();
      CompactedRest(whole, filledTo, consumed, peerNetData.hb[..], cipher0, sslEngine.cipherIn);
    }

    /** The NEED_UNWRAP branch of doHandshake. res is the engine's answer,
        None when the read reported end of stream. */
    method HandshakeUnwrap(channel: Channel) returns (r: Outcome<HandshakeStatus>, ghost res: Option<EngineResult>)
      requires Valid()
      modifies this`peerAppData, peerAppData, peerAppData.hb, peerNetData, peerNetData.hb, sslEngine, channel`inbound, channel`received
      ensures Valid() && (peerAppData == old(peerAppData) || fresh(peerAppData.hb)) && peerAppData.Capacity() >= old(peerAppData.Capacity())
      ensures sslEngine == old(sslEngine) && peerNetData == old(peerNetData)
      ensures sslEngine.cipherOut == old(sslEngine.cipherOut) && sslEngine.plainIn == old(sslEngine.plainIn)
      ensures sslEngine.handshakeBegun == old(sslEngine.handshakeBegun)
      ensures sslEngine.wrapResults == old(sslEngine.wrapResults)
      ensures res.None? <==> old(channel.inbound) == [] && channel.peerClosed && old(peerNetData.position < peerNetData.limit)
      ensures res.None? ==> sslEngine.unwrapResults == old(sslEngine.unwrapResults)
      ensures res.Some? ==> sslEngine.unwrapResults == old(sslEngine.unwrapResults) + [res.value]
      ensures Extends(sslEngine.reported, old(sslEngine.reported)) && |sslEngine.reported| <= |old(sslEngine.reported)| + 1
      ensures r.Returned? ==> sslEngine.reported == old(sslEngine.reported) + [r.value]
      ensures res.None? ==> (r.Threw? <==> old(sslEngine.inboundDone && sslEngine.outboundDone))
      ensures res.None? && r.Threw? ==> r.exception == SSLException
      ensures res.None? && !r.Threw? ==> r.Returned? && sslEngine.outboundClosed
      ensures res.Some? && res.value.status == Closed ==> r == Threw(IOException)
      ensures res.Some? && res.value.status != Closed ==> r == Returned(res.value.handshakeStatus)
      ensures res.Some? && res.value.status == StatusOk ==> peerNetData.mark == peerNetData.position
      ensures res.Some? && res.value.status == BufferUnderflow ==>
        peerNetData.position == 0 && peerNetData.limit == peerNetData.Capacity()
      ensures res.Some? && res.value.status == BufferOverflow ==>
        peerAppData.Capacity() == Max(old(peerAppData.Capacity()), sslEngine.applicationBufferSize)
      ensures Extends(sslEngine.cipherIn, old(sslEngine.cipherIn)) && Extends(channel.received, old(channel.received))
      ensures res.Some? && res.value.status == BufferUnderflow ==> sslEngine.cipherIn == old(sslEngine.cipherIn)
      ensures res.Some? && res.value.status != BufferUnderflow ==>
        old(peerNetData.hb[..peerNetData.position]) + channel.received[|old(channel.received)|..]
        == sslEngine.cipherIn[|old(sslEngine.cipherIn)|..] + peerNetData.hb[..peerNetData.position]
    {
      ghost var pending, received0 := peerNetData.hb[..peerNetData.position], channel.received;
      var n := channel.Read(peerNetData);
      if n < 0 {
        res := None;
        if sslEngine.IsInboundDone() && sslEngine.IsOutboundDone() {
          r := Threw(SSLException);
          return;
        }
        sslEngine.CloseOutbound();
        var hs := sslEngine.GetHandshakeStatus();
        r := Returned(hs);
        return;
      }
      assert peerNetData.hb[..peerNetData.position] == pending + channel.received[|received0|..];
      var result := UnwrapPeerNetData();
      res := Some(result);
      r := Returned(result.handshakeStatus);
      match result.status {
        case StatusOk =>
          peerNetData.Mark();
        case BufferUnderflow =>
          peerNetData.Clear();
        case BufferOverflow =>
          GrowPeerAppData();
        case Closed =>
          r := Threw(IOException);
      }
    }

    /** The NEED_WRAP branch of doHandshake: on OK the produced ciphertext is
        written out completely before the status is looked at again;
        overflow and underflow write nothing; CLOSED throws. res is the
        engine's answer. */
    method HandshakeWrap(channel: Channel, fuel: nat) returns (r: Outcome<HandshakeStatus>, rest: nat, ghost res: EngineResult)
      requires Valid()
      modifies sslEngine, appData`position, netData, netData.hb, channel`sent
      ensures Valid() && rest <= fuel
      ensures sslEngine.plainOut == old(sslEngine.plainOut) && sslEngine.cipherIn == old(sslEngine.cipherIn)
      ensures sslEngine.handshakeBegun == old(sslEngine.handshakeBegun)
      ensures old(appData.position) <= appData.position
      ensures sslEngine.plainIn == old(sslEngine.plainIn) + appData.hb[old(appData.position)..appData.position]
      ensures sslEngine.wrapResults == old(sslEngine.wrapResults) + [res]
      ensures sslEngine.unwrapResults == old(sslEngine.unwrapResults)
      ensures sslEngine.reported == old(sslEngine.reported) + [res.handshakeStatus]
      ensures Extends(sslEngine.cipherOut, old(sslEngine.cipherOut))
      ensures res.status == Closed ==> r == Threw(IOException)
      ensures res.status != Closed && r.Returned? ==> r.value == res.handshakeStatus
      ensures res.status != StatusOk ==> channel.sent == old(channel.sent) && (res.status != Closed ==> r.Returned?)
      ensures res.status == StatusOk ==> (r.Returned? <==> !netData.HasRemaining()) && !r.Threw?
      ensures r.Returned? ==> channel.sent == old(channel.sent) + sslEngine.cipherOut[|old(sslEngine.cipherOut)|..]
    {
      netData.Clear();
      var result := sslEngine.Wrap(appData, netData);
      res := result;
      rest := fuel;
      match result.status {
        case StatusOk =>
          netData.Flip();
          var flushed;
          flushed, rest := WriteFully(channel, netData, fuel);
          r := if flushed then Returned(result.handshakeStatus) else Stalled;
        case BufferUnderflow =>
          r := Returned(result.handshakeStatus);
        case BufferOverflow =>
          r := Returned(result.handshakeStatus);
        case Closed =>
          r := Threw(IOException);
      }
    }

    /** The NEED_TASK branch of doHandshake: every pending delegated task is
        handed to the executor, then the status is polled at once. */
    method RunDelegatedTasks() returns (hs: HandshakeStatus)
      requires Valid()
      modifies sslEngine`pendingTasks, sslEngine`reported, this`submittedTasks
      ensures Valid() && sslEngine.pendingTasks == 0
      ensures submittedTasks == old(submittedTasks) + old(sslEngine.pendingTasks)
      ensures sslEngine.reported == old(sslEngine.reported) + [hs]
    {
      var task := sslEngine.GetDelegatedTask();
      while task
        invariant Valid() && sslEngine.reported == old(sslEngine.reported)
        invariant task ==> submittedTasks + 1 + sslEngine.pendingTasks == old(submittedTasks) + old(sslEngine.pendingTasks)
        invariant !task ==> sslEngine.pendingTasks == 0 && submittedTasks == old(submittedTasks) + old(sslEngine.pendingTasks)
        decreases sslEngine.pendingTasks + (if task then 1 else 0)
      {
        submittedTasks := submittedTasks + 1;
        task := sslEngine.GetDelegatedTask();
      }
      hs := sslEngine.GetHandshakeStatus();
    }

    /** What a pass of doHandshake's loop can see of the session now. */
    ghost function Snap(channel: Channel): PassState
      reads this, sslEngine, peerNetData, channel
      requires sslEngine != null && peerNetData != null
    {
      PassState(sslEngine.wrapResults, sslEngine.unwrapResults, submittedTasks, sslEngine.pendingTasks,
                channel.inbound == [] && channel.peerClosed && peerNetData.position < peerNetData.limit,
                sslEngine.inboundDone && sslEngine.outboundDone, sslEngine.outboundClosed)
    }

    /** One pass of doHandshake's switch for a status that keeps the loop
        going: NEED_UNWRAP reads and unwraps, NEED_WRAP wraps and flushes,
        NEED_TASK hands the delegated tasks over and polls, and
        NEED_UNWRAP_AGAIN, the one status without a case, is
        IllegalStateException. Whatever it returns is the one status the
        engine reported during the pass. */
    method HandshakeStep(handStatus: HandshakeStatus, channel: Channel, fuel: nat) returns (r: Outcome<HandshakeStatus>, rest: nat)
      requires Valid() && !EndsHandshake(handStatus)
      modifies this`peerAppData, this`submittedTasks, peerAppData, peerAppData.hb, peerNetData, peerNetData.hb,
        sslEngine, appData`position, netData, netData.hb, channel`inbound, channel`received, channel`sent
      ensures Valid() && (peerAppData == old(peerAppData) || fresh(peerAppData.hb)) && peerAppData.Capacity() >= old(peerAppData.Capacity()) && rest <= fuel
      ensures sslEngine == old(sslEngine) && peerNetData == old(peerNetData)
      ensures sslEngine.handshakeBegun == old(sslEngine.handshakeBegun)
      ensures old(appData.position) <= appData.position
      ensures sslEngine.plainIn == old(sslEngine.plainIn) + appData.hb[old(appData.position)..appData.position]
      ensures Extends(sslEngine.cipherOut, old(sslEngine.cipherOut))
      ensures r.Returned? ==> channel.sent == old(channel.sent) + sslEngine.cipherOut[|old(sslEngine.cipherOut)|..]
      ensures Extends(sslEngine.reported, old(sslEngine.reported)) && |sslEngine.reported| <= |old(sslEngine.reported)| + 1
      ensures r.Returned? ==> sslEngine.reported == old(sslEngine.reported) + [r.value]
      ensures PassDid(Pass(handStatus, old(Snap(channel)), Snap(channel), r))
      ensures handStatus == NeedUnwrapAgain ==> sslEngine.reported == old(sslEngine.reported)
    {
      rest := fuel;
      match handStatus {
        case NeedUnwrap =>
          ghost var res;
          r, res := HandshakeUnwrap(channel);
        case NeedWrap =>
          ghost var res;
          r, rest, res := HandshakeWrap(channel, fuel);
        case NeedTask =>
          var hs := RunDelegatedTasks();
          r := Returned(hs);
        case NeedUnwrapAgain =>
          r := Threw(IllegalStateException);
      }
    }

    /** Where doHandshake's loop stands at status: status is the last
        status the engine reported and none reported since index k0 ended
        the loop; passes led there from s0, each returning the next status,
        and no answer since s0 was CLOSED; the handshake's plaintext is
        appData's, from index 0, after plain0; all ciphertext since cipher0
        was written after sent0. */
    ghost predicate Handshaking(status: HandshakeStatus, channel: Channel, k0: nat, plain0: seq<byte>,
                                cipher0: seq<byte>, sent0: seq<byte>, s0: PassState, passes: seq<Pass>)
      reads this, sslEngine, appData, peerNetData, channel, if appData == null then {} else {appData.hb}
    {
      && sslEngine != null && appData != null && peerNetData != null && appData.position <= appData.hb.Length
      && HandshakeTrace(sslEngine.reported, k0) && status == Last(sslEngine.reported)
      && HandshakeRun(passes, s0, Snap(channel), sslEngine.reported, k0)
      && |sslEngine.reported| == k0 + |passes| + 1 && (passes != [] ==> Last(passes).outcome == Returned(status))
      && NoClosedSince(s0, Snap(channel))
      && sslEngine.plainIn == plain0 + appData.hb[..appData.position]
      && Extends(sslEngine.cipherOut, cipher0)
      && channel.sent == sent0 + sslEngine.cipherOut[|cipher0|..]
    }

    /** One pass of doHandshake's loop, recorded as the last of passes'. */
    method HandshakePass(status: HandshakeStatus, channel: Channel, fuel: nat, ghost k0: nat, ghost plain0: seq<byte>,
                         ghost cipher0: seq<byte>, ghost sent0: seq<byte>, ghost s0: PassState, ghost passes: seq<Pass>)
      returns (r: Outcome<HandshakeStatus>, rest: nat, ghost passes': seq<Pass>)
      requires Valid() && !EndsHandshake(status) && Handshaking(status, channel, k0, plain0, cipher0, sent0, s0, passes)
      modifies this`peerAppData, this`submittedTasks, peerAppData, peerAppData.hb, peerNetData, peerNetData.hb,
        sslEngine, appData`position, netData, netData.hb, channel`inbound, channel`received, channel`sent
      ensures Valid() && (peerAppData == old(peerAppData) || fresh(peerAppData.hb)) && peerAppData.Capacity() >= old(peerAppData.Capacity()) && rest <= fuel
      ensures sslEngine == old(sslEngine) && peerNetData == old(peerNetData)
      ensures sslEngine.handshakeBegun == old(sslEngine.handshakeBegun)
      ensures HandshakeTrace(sslEngine.reported, k0) && HandshakeRun(passes', s0, Snap(channel), sslEngine.reported, k0)
      ensures |passes'| == |passes| + 1 && Last(passes').outcome == r
      ensures sslEngine.plainIn == plain0 + appData.hb[..appData.position]
      ensures Extends(sslEngine.cipherOut, cipher0)
      ensures r.Returned? ==> Handshaking(r.value, channel, k0, plain0, cipher0, sent0, s0, passes')
      ensures !r.Threw? ==> NoClosedSince(s0, Snap(channel))
      ensures r.Threw? ==> ThrewBecause(Last(passes'), r.exception)
      ensures r == Threw(IllegalStateException) ==> Last(sslEngine.reported) == NeedUnwrapAgain
    {
      ghost var before := Snap(channel);
      ghost var cipher1, reported1, position1 := sslEngine.cipherOut, sslEngine.reported, appData.position;
      r, rest := HandshakeStep(status, channel, fuel);
      ghost var p := Pass(status, before, Snap(channel), r);
      passes' := passes + [p];
      HandshakeTraceStep(reported1, k0, sslEngine.reported);
      HandshakeRunStep(passes, s0, reported1, k0, p, sslEngine.reported);
      assert appData.hb[..appData.position] == appData.hb[..position1] + appData.hb[position1..appData.position];
      assert sslEngine.cipherOut[..|cipher0|] == cipher1[..|cipher0|];
      if r.Returned? {
        assert sslEngine.cipherOut[|cipher0|..] == cipher1[|cipher0|..] + sslEngine.cipherOut[|cipher1|..];
      }
    }

    /** doHandshake's loop from the status handStatus, the last one the
        engine reported: passes while the status is neither FINISHED nor
        NOT_HANDSHAKING, each switching on the status the one before it
        returned and doing what that status calls for (PassDid). It throws
        exactly when its last pass throws, and then for that pass's reason;
        when it does not throw, no wrap or unwrap answered CLOSED. */
    method HandshakeLoop(handStatus: HandshakeStatus, channel: Channel, fuel: nat, ghost k0: nat, ghost plain0: seq<byte>)
      returns (r: Outcome<bool>, ghost passes: seq<Pass>)
      requires Valid() && HandshakeTrace(sslEngine.reported, k0) && handStatus == Last(sslEngine.reported)
      requires |sslEngine.reported| == k0 + 1
      requires appData.limit == appData.Capacity() && sslEngine.plainIn == plain0 + appData.hb[..appData.position]
      modifies this`peerAppData, this`submittedTasks, peerAppData, peerAppData.hb, peerNetData, peerNetData.hb,
        sslEngine, appData`position, netData, netData.hb, channel`inbound, channel`received, channel`sent
      ensures Valid() && (peerAppData == old(peerAppData) || fresh(peerAppData.hb)) && peerAppData.Capacity() >= old(peerAppData.Capacity()) && peerNetData == old(peerNetData)
      ensures sslEngine == old(sslEngine) && sslEngine.handshakeBegun == old(sslEngine.handshakeBegun)
      ensures HandshakeTrace(sslEngine.reported, k0)
      ensures HandshakeRun(passes, old(Snap(channel)), Snap(channel), sslEngine.reported, k0)
      ensures r.Returned? ==> EndsHandshake(Last(sslEngine.reported)) && (r.value <==> Last(sslEngine.reported) == Finished)
      ensures r.Returned? ==> |sslEngine.reported| == k0 + |passes| + 1
      ensures r.Threw? <==> passes != [] && Last(passes).outcome.Threw?
      ensures r.Threw? ==> Last(passes).outcome == Threw(r.exception) && ThrewBecause(Last(passes), r.exception)
      ensures !r.Threw? ==> NoClosedSince(old(Snap(channel)), Snap(channel))
      ensures r == Threw(IllegalStateException) ==> Last(sslEngine.reported) == NeedUnwrapAgain
      ensures r.Threw? ==> r.exception in {SSLException, IOException, IllegalStateException}
      ensures sslEngine.plainIn == plain0 + appData.hb[..appData.position]
      ensures Extends(sslEngine.cipherOut, old(sslEngine.cipherOut))
      ensures r.Returned? ==> channel.sent == old(channel.sent) + sslEngine.cipherOut[|old(sslEngine.cipherOut)|..]
    {
      var status := handStatus;
      ghost var cipher0 := sslEngine.cipherOut;
      ghost var sent0 := channel.sent;
      ghost var s0 := Snap(channel);
      passes := [];
      var rest := fuel;
      assert sslEngine.cipherOut[|cipher0|..] == [];
      assert s0.wraps[|s0.wraps|..] == [] && s0.unwraps[|s0.unwraps|..] == [];
      while !EndsHandshake(status)
        invariant Valid() && (peerAppData == old(peerAppData) || fresh(peerAppData.hb)) && peerAppData.Capacity() >= old(peerAppData.Capacity()) && peerNetData == old(peerNetData)
        invariant sslEngine == old(sslEngine) && sslEngine.handshakeBegun == old(sslEngine.handshakeBegun)
        invariant Handshaking(status, channel, k0, plain0, cipher0, sent0, s0, passes)
        decreases rest
      {
        if rest == 0 {
          return Stalled, passes;
        }
        var step;
        step, rest, passes := HandshakePass(status, channel, rest - 1, k0, plain0, cipher0, sent0, s0, passes);
        if step.Threw? {
          return Threw(step.exception), passes;
        } else if step.Stalled? {
          return Stalled, passes;
        }
        status := step.value;
      }
      r := Returned(status == Finished);
    }

    /** doHandshake: clears the four buffers, polls the handshake status and
        runs the loop from it; succeeds exactly when the status it stops on
        is FINISHED. All ciphertext the engine produced on the way has been
        written to the channel, in order, and the handshake took its
        plaintext from the cleared appData, from index 0 on. */
    method DoHandshake(channel: Channel, fuel: nat) returns (r: Outcome<bool>, ghost passes: seq<Pass>)
      requires Valid()
      modifies Footprint(), channel
      ensures Valid() && (peerAppData == old(peerAppData) || fresh(peerAppData.hb)) && peerAppData.Capacity() >= old(peerAppData.Capacity()) && peerNetData == old(peerNetData)
      ensures sslEngine == old(sslEngine) && appData == old(appData) && netData == old(netData)
      ensures channel.open == old(channel.open) && sslEngine.handshakeBegun == old(sslEngine.handshakeBegun)
      ensures HandshakeTrace(sslEngine.reported, |old(sslEngine.reported)|)
      ensures HandshakeRun(passes, PassState(old(sslEngine.wrapResults), old(sslEngine.unwrapResults), old(submittedTasks),
                                             old(sslEngine.pendingTasks),
                                             old(channel.inbound) == [] && old(channel.peerClosed) && peerNetData.Capacity() > 0,
                                             old(sslEngine.inboundDone && sslEngine.outboundDone), old(sslEngine.outboundClosed)),
                           Snap(channel), sslEngine.reported, |old(sslEngine.reported)|)
      ensures r.Threw? <==> passes != [] && Last(passes).outcome.Threw?
      ensures r.Threw? ==> ThrewBecause(Last(passes), r.exception)
      ensures !r.Threw? ==> NoClosedSince(old(Snap(channel)), Snap(channel))
      ensures r.Returned? ==> EndsHandshake(Last(sslEngine.reported)) && (r.value <==> Last(sslEngine.reported) == Finished)
      ensures r == Threw(IllegalStateException) ==> Last(sslEngine.reported) == NeedUnwrapAgain
      ensures r.Threw? ==> r.exception in {SSLException, IOException, IllegalStateException}
      ensures appData.limit == appData.Capacity()
      ensures sslEngine.plainIn == old(sslEngine.plainIn) + appData.hb[..appData.position]
      ensures Extends(sslEngine.cipherOut, old(sslEngine.cipherOut))
      ensures r.Returned? ==> channel.sent == old(channel.sent) + sslEngine.cipherOut[|old(sslEngine.cipherOut)|..]
    {
      ClearBuffers();
      var handStatus := sslEngine.GetHandshakeStatus();
      r, passes := HandshakeLoop(handStatus, channel, fuel, |old(sslEngine.reported)|, old(sslEngine.plainIn));
    }

    /** What readAndDecode's ByteArrayOutputStream holds: the chunks
        appended so far, whose first sizes[i] bytes are, in order, the
        plaintext the engine produced since plain0. */
    ghost predicate Accumulated(bos: seq<byte>, chunks: seq<seq<byte>>, sizes: seq<nat>, plain0: seq<byte>)
      reads this, sslEngine
    {
      && sslEngine != null
      && SizesFit(chunks, sizes)
      && bos == Concat(chunks)
      && sslEngine.plainOut == plain0 + ConcatPrefixes(chunks, sizes)
    }

    /** The OK case of readAndDecode's switch: flip peerAppData and append
        its whole backing array, of which the first bytes, up to the
        position the unwrap left, are the plaintext it produced. */
    method AppendDecoded(bos: seq<byte>, ghost chunks: seq<seq<byte>>, ghost sizes: seq<nat>, ghost plain0: seq<byte>)
      returns (decoded: seq<byte>, ghost chunks': seq<seq<byte>>, ghost sizes': seq<nat>)
      requires Valid() && bos == Concat(chunks) && SizesFit(chunks, sizes)
      requires sslEngine.plainOut == plain0 + ConcatPrefixes(chunks, sizes) + peerAppData.hb[..peerAppData.position]
      modifies peerAppData
      ensures Valid() && peerAppData.position == 0 && peerAppData.limit == old(peerAppData.position)
      ensures chunks' == chunks + [peerAppData.hb[..]] && sizes' == sizes + [old(peerAppData.position)]
      ensures Accumulated(decoded, chunks', sizes', plain0)
    {
      var n := peerAppData.position;
      peerAppData.Flip();
      var chunk := peerAppData.hb[..];
      ConcatSnoc(chunks, chunk);
      ConcatPrefixesSnoc(chunks, sizes, chunk, n);
      chunks', sizes' := chunks + [chunk], sizes + [n];
      decoded := bos + chunk;
    }

    /** One pass of readAndDecode's loop: clear peerAppData, unwrap, and
        switch on the engine's answer res. On OK the whole backing array of
        peerAppData, whatever its length, is appended; overflow and
        underflow apply the grow-or-reset policy and append nothing; CLOSED
        is ClosedChannelException. */
    method DecodeOnce(bos: seq<byte>, ghost chunks: seq<seq<byte>>, ghost sizes: seq<nat>, ghost plain0: seq<byte>)
      returns (r: Outcome<seq<byte>>, ghost chunks': seq<seq<byte>>, ghost sizes': seq<nat>, ghost res: EngineResult)
      requires Valid() && Accumulated(bos, chunks, sizes, plain0)
      modifies this`peerAppData, this`peerNetData, peerAppData, peerAppData.hb, peerNetData, peerNetData.hb, sslEngine
      ensures Valid() && (peerAppData == old(peerAppData) || fresh(peerAppData.hb)) && (peerNetData == old(peerNetData) || fresh(peerNetData.hb))
      ensures sslEngine.cipherOut == old(sslEngine.cipherOut)
      ensures sslEngine.unwrapResults == old(sslEngine.unwrapResults) + [res]
      ensures old(peerAppData.Capacity()) <= peerAppData.Capacity()
      ensures !r.Stalled? && (r.Threw? <==> res.status == Closed) && (r.Threw? ==> r.exception == ClosedChannelException)
      ensures r.Returned? ==> Accumulated(r.value, chunks', sizes', plain0)
      ensures res.status == StatusOk ==> chunks' == chunks + [peerAppData.hb[..]] && sizes' == sizes + [res.bytesProduced]
      ensures res.status != StatusOk ==> chunks' == chunks && sizes' == sizes && (r.Returned? ==> r.value == bos)
      ensures res.status != BufferUnderflow ==>
        && peerNetData.position == old(peerNetData.position) + res.bytesConsumed
        && peerNetData.limit == old(peerNetData.limit) && peerNetData.hb[..] == old(peerNetData.hb[..])
        && sslEngine.cipherIn == old(sslEngine.cipherIn) + peerNetData.hb[old(peerNetData.position)..peerNetData.position]
      ensures res.status == BufferUnderflow ==> sslEngine.cipherIn == old(sslEngine.cipherIn)
      ensures res.status != BufferOverflow ==> peerAppData == old(peerAppData)
      ensures res.status == BufferOverflow ==>
        && peerAppData.position == 0 && peerAppData.limit == peerAppData.Capacity()
        && peerAppData.Capacity() == Max(old(peerAppData.Capacity()), sslEngine.applicationBufferSize)
        && (sslEngine.applicationBufferSize > old(peerAppData.Capacity()) ==> fresh(peerAppData))
        && (sslEngine.applicationBufferSize <= old(peerAppData.Capacity()) ==> peerAppData == old(peerAppData))
      ensures res.status != BufferUnderflow ==> peerNetData == old(peerNetData)
      ensures res.status == BufferUnderflow ==>
        && peerNetData.limit == peerNetData.Capacity()
        && (sslEngine.packetBufferSize > old(peerNetData.Capacity()) ==>
              && fresh(peerNetData) && peerNetData.Capacity() == sslEngine.packetBufferSize
              && peerNetData.position == old(peerNetData.position)
              && peerNetData.hb[..peerNetData.position] == old(peerNetData.hb[..peerNetData.position]))
        && (sslEngine.packetBufferSize <= old(peerNetData.Capacity()) ==>
              peerNetData == old(peerNetData) && peerNetData.position == 0)
    {
      peerAppData.Clear();
      var result := sslEngine.Unwrap(peerNetData, peerAppData);
      res := result;
      chunks', sizes' := chunks, sizes;
      match result.status {
        case StatusOk =>
          var decoded;
          decoded, chunks', sizes' := AppendDecoded(bos, chunks, sizes, plain0);
          r := Returned(decoded);
        case BufferOverflow =>
          GrowPeerAppData();
          r := Returned(bos);
        case BufferUnderflow =>
          GrowPeerNetData();
          r := Returned(bos);
        case Closed =>
          r := Threw(ClosedChannelException);
      }
    }

    /** Where readAndDecode's loop stands, read off the session. */
    ghost predicate Decoding(bos: seq<byte>, chunks: seq<seq<byte>>, sizes: seq<nat>, plain0: seq<byte>,
                             answers0: seq<EngineResult>, answers: seq<EngineResult>, capacity0: nat)
      reads this, sslEngine, peerAppData
    {
      && sslEngine != null && peerAppData != null
      && DecodeState(bos, chunks, sizes, plain0, sslEngine.plainOut, answers0, answers, sslEngine.unwrapResults,
                     capacity0, peerAppData.Capacity())
    }

    /** The input side of readAndDecode's loop: while none of its unwraps
        answered BUFFER_UNDERFLOW, peerNetData is still net0 with its bytes
        (bytes0) and limit (limit0) unchanged, and the engine's ciphertext
        input has grown from cipher0 by exactly the bytes from where the loop
        started, position0, to the current position. */
    ghost predicate Consuming(answers: seq<EngineResult>, net0: ByteBuffer, bytes0: seq<byte>, limit0: nat,
                              position0: nat, cipher0: seq<byte>)
      reads this, sslEngine, net0, net0.hb
    {
      NoUnderflow(answers) ==>
        && sslEngine != null && peerNetData == net0 && net0.limit == limit0 && net0.hb[..] == bytes0
        && position0 <= net0.position <= |bytes0|
        && sslEngine.cipherIn == cipher0 + bytes0[position0..net0.position]
    }

    /** One pass of readAndDecode's loop, with the loop's bookkeeping. */
    method DecodeStep(bos: seq<byte>, ghost chunks: seq<seq<byte>>, ghost sizes: seq<nat>, ghost plain0: seq<byte>,
                      ghost answers0: seq<EngineResult>, ghost answers: seq<EngineResult>, ghost capacity0: nat,
                      ghost net0: ByteBuffer, ghost bytes0: seq<byte>, ghost limit0: nat, ghost position0: nat, ghost cipher0: seq<byte>)
      returns (r: Outcome<seq<byte>>, ghost chunks': seq<seq<byte>>, ghost sizes': seq<nat>, ghost answers': seq<EngineResult>)
      requires Valid() && Decoding(bos, chunks, sizes, plain0, answers0, answers, capacity0)
      requires Consuming(answers, net0, bytes0, limit0, position0, cipher0)
      modifies this`peerAppData, this`peerNetData, peerAppData, peerAppData.hb, peerNetData, peerNetData.hb, sslEngine
      ensures Valid() && (peerAppData == old(peerAppData) || fresh(peerAppData.hb)) && (peerNetData == old(peerNetData) || fresh(peerNetData.hb))
      ensures sslEngine.cipherOut == old(sslEngine.cipherOut)
      ensures |answers'| == |answers| + 1 && answers'[..|answers|] == answers && sslEngine.unwrapResults == answers0 + answers'
      ensures !r.Stalled? && (r.Threw? <==> Last(answers').status == Closed) && (r.Threw? ==> r.exception == ClosedChannelException)
      ensures r.Returned? ==> Decoding(r.value, chunks', sizes', plain0, answers0, answers', capacity0)
      ensures r.Threw? ==>
        SizesFit(chunks, sizes) && sizes == OkSizes(answers') && LengthsWithin(chunks, capacity0, peerAppData.Capacity())
      ensures Consuming(answers', net0, bytes0, limit0, position0, cipher0)
    {
      ghost var capacity1 := peerAppData.Capacity();
      ghost var plainOut := sslEngine.plainOut;
      ghost var res;
      r, chunks', sizes', res := DecodeOnce(bos, chunks, sizes, plain0);
      answers' := answers + [res];
      DecodeStateStep(bos, chunks, sizes, plain0, plainOut, answers0, answers, capacity0, capacity1,
                      r, chunks', sizes', res, sslEngine.plainOut, sslEngine.unwrapResults, peerAppData.Capacity(), peerAppData.hb[..]);
      if NoUnderflow(answers') {
        assert answers'[..|answers|] == answers && NoUnderflow(answers);
        SliceJoin(bytes0, position0, old(peerNetData.position), peerNetData.position);
      }
    }

    /** readAndDecode's loop over the ciphertext just read into peerNetData:
        it unwraps until peerNetData is drained or the engine answers
        CLOSED. sizes are the plaintext counts of the OK answers, and each
        chunk is a whole backing array of peerAppData, which only grows. */
    method DecodeAvailable(fuel: nat) returns (r: Outcome<seq<byte>>, ghost chunks: seq<seq<byte>>, ghost sizes: seq<nat>)
      requires Valid()
      modifies this`peerAppData, this`peerNetData, peerAppData, peerAppData.hb, peerNetData, peerNetData.hb, sslEngine
      ensures Valid() && (peerAppData == old(peerAppData) || fresh(peerAppData.hb)) && (peerNetData == old(peerNetData) || fresh(peerNetData.hb))
      ensures sslEngine.cipherOut == old(sslEngine.cipherOut)
      ensures Extends(sslEngine.unwrapResults, old(sslEngine.unwrapResults))
      ensures var answers := sslEngine.unwrapResults[|old(sslEngine.unwrapResults)|..];
        && sizes == OkSizes(answers)
        && (r.Threw? <==> !NoneClosed(answers))
        && (NoneClosed(answers) || (Last(answers).status == Closed && NoneClosed(answers[..|answers| - 1])))
      ensures r.Threw? ==> r.exception == ClosedChannelException
      ensures SizesFit(chunks, sizes) && LengthsWithin(chunks, old(peerAppData.Capacity()), peerAppData.Capacity())
      ensures r.Returned? ==> Accumulated(r.value, chunks, sizes, old(sslEngine.plainOut))
      ensures r.Returned? ==> !peerNetData.HasRemaining()
      ensures r.Stalled? ==> |sslEngine.unwrapResults| == |old(sslEngine.unwrapResults)| + fuel
      ensures Consuming(sslEngine.unwrapResults[|old(sslEngine.unwrapResults)|..], old(peerNetData), old(peerNetData.hb[..]),
                        old(peerNetData.limit), old(peerNetData.position), old(sslEngine.cipherIn))
    {
      var bos: seq<byte> := [];
      chunks, sizes := [], [];
      ghost var answers0, answers := sslEngine.unwrapResults, [];
      ghost var plain0, capacity0 := sslEngine.plainOut, peerAppData.Capacity();
      ghost var net0, bytes0, limit0, position0, cipher0 := peerNetData, peerNetData.hb[..], peerNetData.limit, peerNetData.position, sslEngine.cipherIn;
      var rest := fuel;
      while peerNetData.HasRemaining()
        invariant Valid() && (peerAppData == old(peerAppData) || fresh(peerAppData.hb)) && (peerNetData == old(peerNetData) || fresh(peerNetData.hb))
        invariant sslEngine.cipherOut == old(sslEngine.cipherOut)
        invariant Decoding(bos, chunks, sizes, plain0, answers0, answers, capacity0)
        invariant |answers| + rest == fuel
        invariant Consuming(answers, net0, bytes0, limit0, position0, cipher0)
        decreases rest
      {
        if rest == 0 {
          assert sslEngine.unwrapResults[|answers0|..] == answers;
          return Stalled, chunks, sizes;
        }
        rest := rest - 1;
        var step;
        ghost var chunks1, sizes1, answers1;
        step, chunks1, sizes1, answers1 := DecodeStep(bos, chunks, sizes, plain0, answers0, answers, capacity0,
                                                      net0, bytes0, limit0, position0, cipher0);
        if step.Threw? {
          assert sslEngine.unwrapResults[|answers0|..] == answers1;
          return Threw(step.exception), chunks, sizes;
        }
        bos, chunks, sizes, answers := step.value, chunks1, sizes1, answers1;
      }
      assert sslEngine.unwrapResults[|answers0|..] == answers;
      r := Returned(bos);
    }

    /** readAndDecode: null exactly at end of stream with nothing decoded; a
        read of no bytes gives an empty array; otherwise the whole backing
        array of peerAppData is appended after every OK unwrap, so the result
        is the concatenation of those arrays, whose first bytes are the
        plaintext the engine produced. An unwrap answering CLOSED is
        ClosedChannelException. */
    method ReadAndDecode(channel: Channel, fuel: nat)
      returns (r: Outcome<Option<seq<byte>>>, ghost chunks: seq<seq<byte>>, ghost sizes: seq<nat>)
      requires Valid()
      modifies Footprint(), channel
      ensures Valid() && (peerAppData == old(peerAppData) || fresh(peerAppData.hb)) && (peerNetData == old(peerNetData) || fresh(peerNetData.hb))
      ensures sslEngine == old(sslEngine) && appData == old(appData) && netData == old(netData)
      ensures channel.sent == old(channel.sent) && channel.open == old(channel.open)
      ensures sslEngine.cipherOut == old(sslEngine.cipherOut)
      ensures Extends(sslEngine.unwrapResults, old(sslEngine.unwrapResults))
      ensures var answers := sslEngine.unwrapResults[|old(sslEngine.unwrapResults)|..];
        && sizes == OkSizes(answers)
        && (r.Threw? <==> !NoneClosed(answers))
        && (NoneClosed(answers) || (Last(answers).status == Closed && NoneClosed(answers[..|answers| - 1])))
      ensures r.Threw? ==> r.exception == ClosedChannelException
      ensures SizesFit(chunks, sizes) && LengthsWithin(chunks, old(peerAppData.Capacity()), peerAppData.Capacity())
      ensures r.Returned? ==>
        (r.value.None? <==> old(channel.inbound) == [] && old(channel.peerClosed) && old(peerNetData.Capacity()) > 0)
      ensures r.Returned? && channel.received == old(channel.received) && !(old(channel.inbound) == [] && old(channel.peerClosed))
        ==> r.value == Some([])
      ensures r.Returned? && r.value.Some? ==> r.value.value == Concat(chunks)
      ensures r.Returned? ==> sslEngine.plainOut == old(sslEngine.plainOut) + ConcatPrefixes(chunks, sizes)
      ensures r.Returned? && |channel.received| > |old(channel.received)| ==> !peerNetData.HasRemaining()
      ensures Extends(channel.received, old(channel.received))
      ensures channel.received == old(channel.received) ==> sslEngine.unwrapResults == old(sslEngine.unwrapResults)
      ensures r.Returned? && NoUnderflow(sslEngine.unwrapResults[|old(sslEngine.unwrapResults)|..]) ==>
        sslEngine.cipherIn == old(sslEngine.cipherIn) + channel.received[|old(channel.received)|..]
    {
      var bos: seq<byte> := [];
      chunks, sizes := [], [];
      peerNetData.Clear();
      var bytesRead := channel.Read(peerNetData);
      if bytesRead > 0 {
        peerNetData.Flip();
        var decoded;
        decoded, chunks, sizes := DecodeAvailable(fuel);
        if !decoded.Returned? {
          r := if decoded.Threw? then Threw(decoded.exception) else Stalled;
          return;
        }
        bos := decoded.value;
      }
      r := Returned(if bytesRead == -1 && |bos| == 0 then None else Some(bos));
    }

    /** One pass of writeAndEncode's loop: wrap into the cleared netData and,
        on OK, write it out completely; any other answer res is
        ClosedChannelException. */
    method EncodeOnce(channel: Channel, fuel: nat) returns (r: Outcome<()>, rest: nat, ghost res: EngineResult)
      requires Valid()
      modifies appData`position, netData, netData.hb, sslEngine, channel`sent
      ensures Valid() && rest <= fuel
      ensures old(appData.position) <= appData.position
      ensures sslEngine.plainIn == old(sslEngine.plainIn) + appData.hb[old(appData.position)..appData.position]
      ensures sslEngine.plainOut == old(sslEngine.plainOut)
      ensures sslEngine.wrapResults == old(sslEngine.wrapResults) + [res]
      ensures Extends(sslEngine.cipherOut, old(sslEngine.cipherOut))
      ensures r.Threw? <==> res.status != StatusOk
      ensures r.Threw? ==> r.exception == ClosedChannelException
      ensures r.Returned? ==> channel.sent == old(channel.sent) + sslEngine.cipherOut[|old(sslEngine.cipherOut)|..]
    {
      netData.Clear();
      var result := sslEngine.Wrap(appData, netData);
      res := result;
      rest := fuel;
      match result.status {
        case StatusOk =>
          netData.Flip();
          var flushed;
          flushed, rest := WriteFully(channel, netData, fuel);
          r := if flushed then Returned(()) else Stalled;
        case BufferOverflow =>
          r := Threw(ClosedChannelException);
        case BufferUnderflow =>
          r := Threw(ClosedChannelException);
        case Closed =>
          r := Threw(ClosedChannelException);
      }
    }

    /** writeAndEncode's loop: wrap and flush until appData, which holds
        exactly data, has been taken in whole by the engine. It throws
        exactly when a wrap answers anything but OK, and stops there. */
    method EncodeAll(channel: Channel, ghost data: seq<byte>, fuel: nat) returns (r: Outcome<()>)
      requires Valid()
      requires appData.position == 0 && appData.limit == |data| && appData.hb[..|data|] == data
      modifies appData`position, netData, netData.hb, sslEngine, channel`sent
      ensures Valid()
      ensures Extends(sslEngine.wrapResults, old(sslEngine.wrapResults))
      ensures var answers := sslEngine.wrapResults[|old(sslEngine.wrapResults)|..];
        && (r.Threw? <==> !AllOk(answers))
        && (|answers| > 0 ==> AllOk(answers[..|answers| - 1]))
      ensures r.Threw? ==> r.exception == ClosedChannelException
      ensures r.Returned? ==> !appData.HasRemaining()
      ensures r.Returned? ==> sslEngine.plainIn == old(sslEngine.plainIn) + data
      ensures sslEngine.plainOut == old(sslEngine.plainOut)
      ensures Extends(sslEngine.cipherOut, old(sslEngine.cipherOut))
      ensures r.Returned? ==> channel.sent == old(channel.sent) + sslEngine.cipherOut[|old(sslEngine.cipherOut)|..]
    {
      ghost var plain0, cipher0, sent0 := sslEngine.plainIn, sslEngine.cipherOut, channel.sent;
      ghost var answers0, answers := sslEngine.wrapResults, [];
      var rest := fuel;
      while appData.HasRemaining()
        invariant Valid()
        invariant appData.limit == |data| && appData.hb[..|data|] == data
        invariant sslEngine.plainIn == plain0 + data[..appData.position]
        invariant sslEngine.plainOut == old(sslEngine.plainOut)
        invariant sslEngine.wrapResults == answers0 + answers && AllOk(answers)
        invariant Extends(sslEngine.cipherOut, cipher0)
        invariant channel.sent == sent0 + sslEngine.cipherOut[|cipher0|..]
        decreases rest
      {
        if rest == 0 {
          assert sslEngine.wrapResults[|answers0|..] == answers;
          return Stalled;
        }
        ghost var position1, cipher1 := appData.position, sslEngine.cipherOut;
        var step;
        ghost var res;
        step, rest, res := EncodeOnce(channel, rest - 1);
        assert (answers + [res])[..|answers|] == answers;
        assert sslEngine.wrapResults[|answers0|..] == answers + [res];
        if !step.Returned? {
          assert (answers + [res])[|answers|] == res;
          return step;
        }
        answers := answers + [res];
        ExtendsTrans(sslEngine.cipherOut, cipher1, cipher0);
        assert data[..appData.position] == data[..position1] + data[position1..appData.position];
      }
      assert data[..appData.position] == data;
      assert sslEngine.wrapResults[|answers0|..] == answers;
      r := Returned(());
    }

    /** writeAndEncode: the engine takes in exactly data, and every byte of
        ciphertext it produces goes to the channel, in order, before the
        next wrap; data longer than appData's capacity is
        BufferOverflowException, before any wrap; a wrap answering
        anything but OK is ClosedChannelException. */
    method WriteAndEncode(channel: Channel, data: seq<byte>, fuel: nat) returns (r: Outcome<()>)
      requires Valid()
      modifies appData, appData.hb, netData, netData.hb, sslEngine, channel`sent
      ensures Valid()
      ensures r == Threw(BufferOverflowException) <==> |data| > appData.Capacity()
      ensures r == Threw(BufferOverflowException) ==> sslEngine.wrapResults == old(sslEngine.wrapResults)
      ensures Extends(sslEngine.wrapResults, old(sslEngine.wrapResults))
      ensures var answers := sslEngine.wrapResults[|old(sslEngine.wrapResults)|..];
        && (r == Threw(ClosedChannelException) <==> !AllOk(answers))
        && (|answers| > 0 ==> AllOk(answers[..|answers| - 1]))
      ensures r.Threw? ==> r.exception in {BufferOverflowException, ClosedChannelException}
      ensures r.Returned? ==> !appData.HasRemaining()
      ensures r.Returned? ==> sslEngine.plainIn == old(sslEngine.plainIn) + data
      ensures sslEngine.plainOut == old(sslEngine.plainOut)
      ensures Extends(sslEngine.cipherOut, old(sslEngine.cipherOut))
      ensures r.Returned? ==> channel.sent == old(channel.sent) + sslEngine.cipherOut[|old(sslEngine.cipherOut)|..]
    {
      appData.Clear();
      var overflow := appData.PutBytes(data);
      if overflow {
        return Threw(BufferOverflowException);
      }
      appData.Flip();
      assert appData.hb[..|data|] == data;
      r := EncodeAll(channel, data, fuel);
    }

    /** write: a null array is ignored; otherwise appData is replaced by a
        buffer of exactly data's length when it is too small, writeAndEncode
        runs, and whatever it throws is swallowed. After the growth the data
        always fits, so the only failure left is a wrap that answers
        anything but OK, after which nothing more is wrapped. */
    method Write(channel: Channel, data: Option<seq<byte>>, fuel: nat) returns (r: Outcome<()>)
      requires Valid()
      modifies this`appData, appData, appData.hb, netData, netData.hb, sslEngine, channel`sent
      ensures Valid() && sslEngine == old(sslEngine) && netData == old(netData)
      ensures !r.Threw? && Extends(sslEngine.cipherOut, old(sslEngine.cipherOut))
      ensures Extends(sslEngine.wrapResults, old(sslEngine.wrapResults))
      ensures data.None? ==>
        && r == Returned(()) && unchanged(this, old(appData), old(appData.hb), old(netData), old(netData.hb), old(sslEngine))
        && channel.sent == old(channel.sent)
      ensures data.Some? && |data.value| > old(appData.Capacity()) ==>
        fresh(appData) && fresh(appData.hb) && appData.Capacity() == |data.value|
      ensures data.Some? && |data.value| <= old(appData.Capacity()) ==> appData == old(appData)
      ensures var answers := sslEngine.wrapResults[|old(sslEngine.wrapResults)|..];
        && (|answers| > 0 ==> AllOk(answers[..|answers| - 1]))
        && (!AllOk(answers) ==> r == Returned(()))
        && (data.Some? && AllOk(answers) && !r.Stalled? ==>
              && r == Returned(())
              && sslEngine.plainIn == old(sslEngine.plainIn) + data.value
              && channel.sent == old(channel.sent) + sslEngine.cipherOut[|old(sslEngine.cipherOut)|..])
    {
      r := Returned(());
      if data.Some? {
        if |data.value| > appData.Capacity() {
          appData := new ByteBuffer.Allocate(|data.value|);
        }
        var result := WriteAndEncode(channel, data.value, fuel);
        r := if result.Stalled? then Stalled else Returned(());
      } else {
        assert sslEngine.wrapResults[|old(sslEngine.wrapResults)|..] == [];
      }
    }

    /** The start of accept: a new engine, its four buffers and beginHandshake. */
    method OpenSession(appSize: nat, packetSize: nat)
      modifies this
      ensures Valid() && fresh(sslEngine) && fresh(Footprint() - {this}) && submittedTasks == old(submittedTasks)
      ensures appData.Capacity() == peerAppData.Capacity() == appSize
      ensures netData.Capacity() == peerNetData.Capacity() == packetSize
      ensures sslEngine.handshakeBegun && !sslEngine.inboundDone && !sslEngine.outboundDone && sslEngine.pendingTasks == 0
      ensures !sslEngine.outboundClosed
      ensures sslEngine.plainIn == [] && sslEngine.cipherOut == []
      ensures sslEngine.wrapResults == [] && sslEngine.unwrapResults == [] && sslEngine.reported == []
    {
      sslEngine := new Engine(appSize, packetSize);
      CreateBuffers();
      sslEngine.BeginHandshake();
    }

    /** accept: a new engine (its session sizes given here), appData and
        netData sized from its session, beginHandshake and the handshake
        itself; any exception on the way surfaces as IOException. */
    method Accept(channel: Channel, fuel: nat, appSize: nat, packetSize: nat) returns (r: Outcome<bool>, ghost passes: seq<Pass>)
      modifies this, channel
      ensures Valid() && fresh(sslEngine) && sslEngine.handshakeBegun
      ensures appData.Capacity() == appSize && netData.Capacity() == packetSize
      ensures channel.open == old(channel.open)
      ensures peerNetData.Capacity() == packetSize && peerAppData.Capacity() >= appSize
      ensures HandshakeTrace(sslEngine.reported, 0)
      ensures HandshakeRun(passes, PassState([], [], old(submittedTasks), 0, old(channel.inbound) == [] && old(channel.peerClosed) && packetSize > 0, false, false),
                           Snap(channel), sslEngine.reported, 0)
      ensures r.Threw? ==> r.exception == IOException
      ensures r.Threw? <==> passes != [] && Last(passes).outcome.Threw?
      ensures r.Threw? ==> ThrewBecause(Last(passes), Last(passes).outcome.exception)
      ensures !r.Threw? ==> NoneClosed(sslEngine.wrapResults) && NoneClosed(sslEngine.unwrapResults)
      ensures r.Returned? ==> EndsHandshake(Last(sslEngine.reported)) && (r.value <==> Last(sslEngine.reported) == Finished)
      ensures r.Returned? ==> channel.sent == old(channel.sent) + sslEngine.cipherOut
    {
      OpenSession(appSize, packetSize);
      var handshake;
      handshake, passes := DoHandshake(channel, fuel);
      r := if handshake.Threw? then Threw(IOException) else handshake;
    }

    /** The flush in shuttingDownSSLConnection as written: netData is written
        from its position without a flip, then compacted, while it has room
        left. The bytes the wrap just produced lie before the position, so
        the first write takes its bytes from the part of netData after them. */
    method FlushAsWritten(channel: Channel, fuel: nat) returns (r: Outcome<()>, ghost firstWrite: seq<byte>)
      requires Valid()
      modifies netData, netData.hb, channel`sent
      ensures Valid() && !r.Threw? && Extends(channel.sent, old(channel.sent))
      ensures Extends(channel.sent[|old(channel.sent)|..], firstWrite)
      ensures old(netData.HasRemaining()) && fuel > 0 ==>
        |firstWrite| <= old(netData.limit - netData.position)
        && firstWrite == old(netData.hb[netData.position..netData.position + |firstWrite|])
      ensures r.Returned? && old(netData.HasRemaining()) ==> netData.position == netData.limit == netData.Capacity()
    {
      firstWrite := [];
      if !netData.HasRemaining() {
        return Returned(()), firstWrite;
      }
      if fuel == 0 {
        return Stalled, firstWrite;
      }
      ghost var sent0 := channel.sent;
      var n := channel.Write(netData);
      firstWrite := channel.sent[|sent0|..];
      netData.Compact();
      r := KeepFlushingAsWritten(channel, fuel - 1);
      assert channel.sent[|sent0|..][..|firstWrite|] == firstWrite;
    }

    /** The rest of the flush as written, once a compact has set the limit
        to the capacity: it stops only when netData has no room left. */
    method KeepFlushingAsWritten(channel: Channel, fuel: nat) returns (r: Outcome<()>)
      requires Valid() && netData.limit == netData.Capacity()
      modifies netData, netData.hb, channel`sent
      ensures Valid() && !r.Threw? && Extends(channel.sent, old(channel.sent))
      ensures netData.limit == netData.Capacity()
      ensures r.Returned? ==> netData.position == netData.limit
    {
      ghost var sent0 := channel.sent;
      var rest := fuel;
      while netData.HasRemaining()
        invariant Valid() && netData.limit == netData.Capacity() && Extends(channel.sent, sent0)
        decreases rest
      {
        if rest == 0 {
          return Stalled;
        }
        ghost var before := channel.sent;
        var n := channel.Write(netData);
        ExtendsTrans(channel.sent, before, sent0);
        netData.Compact();
        rest := rest - 1;
      }
      r := Returned(());
    }

    /** A concrete case of the unflipped write: a buffer of four bytes in
        which a wrap has just produced the single byte 7 is written out
        from its position, so the bytes sent are the zeros after the 7. */
    static method UnflippedWriteMissesCiphertext() returns (sent: seq<byte>)
      ensures |sent| <= 3 && forall i :: 0 <= i < |sent| ==> sent[i] == 0
      ensures 7 !in sent
    {
      var buffer := new ByteBuffer.Allocate(4);
      assert buffer.hb[..] == [0, 0, 0, 0];
      var overflow := buffer.PutBytes([7]);
      assert buffer.hb[..] == [7, 0, 0, 0];
      var channel := new Channel("peer", 443, [], false);
      var n := channel.Write(buffer);
      sent := channel.sent;
      assert sent == buffer.hb[1..1 + n];
    }

    /** The evidently intended flush: flip netData so that the bytes the
        wrap produced are the ones written, write them all, then compact so
        the next wrap starts from an empty buffer. */
    method FlushCiphertext(channel: Channel, fuel: nat) returns (r: Outcome<()>, rest: nat)
      requires Valid()
      modifies netData, netData.hb, channel`sent
      ensures Valid() && rest <= fuel && !r.Threw? && Extends(channel.sent, old(channel.sent))
      ensures r.Returned? ==> channel.sent == old(channel.sent) + old(netData.hb[..netData.position])
      ensures r.Returned? ==> netData.position == 0 && netData.limit == netData.Capacity()
    {
      netData.Flip();
      var flushed;
      flushed, rest := WriteFully(channel, netData, fuel);
      if !flushed {
        return Stalled, rest;
      }
      netData.Compact();
      r := Returned(());
    }

    /** shuttingDownSSLConnection: close the outbound side, clear appData and
        netData, wrap until the engine reports its outbound side done, flush
        what each wrap that does not report CLOSED produced, and close the
        channel last. */
    method ShuttingDownSSLConnection(channel: Channel, fuel: nat) returns (r: Outcome<()>)
      requires Valid()
      modifies appData, netData, netData.hb, sslEngine, channel`sent, channel`open
      ensures Valid() && !r.Threw?
      ensures sslEngine.outboundClosed
      ensures !old(sslEngine.outboundClosed) ==> sslEngine.closedAt == |old(sslEngine.wrapResults)|
      ensures Extends(sslEngine.wrapResults, old(sslEngine.wrapResults))
      ensures sslEngine.wrapResults == old(sslEngine.wrapResults) <==> old(sslEngine.outboundDone) || fuel == 0
      ensures sslEngine.plainOut == old(sslEngine.plainOut) && sslEngine.cipherIn == old(sslEngine.cipherIn)
      ensures Extends(channel.sent, old(channel.sent))
      ensures r.Returned? ==> !channel.open
      ensures r.Returned? ==> sslEngine.outboundDone
      ensures r.Stalled? ==> channel.open == old(channel.open)
    {
      sslEngine.CloseOutbound();
      appData.Clear();
      netData.Clear();
      ghost var sent0 := channel.sent;
      var rest: nat := fuel;
      while !sslEngine.IsOutboundDone()
        invariant Valid() && sslEngine.outboundClosed && channel.open == old(channel.open)
        invariant sslEngine.closedAt == old(if sslEngine.outboundClosed then sslEngine.closedAt else |sslEngine.wrapResults|)
        invariant rest <= fuel && Extends(sslEngine.wrapResults, old(sslEngine.wrapResults))
        invariant rest == fuel <==> sslEngine.wrapResults == old(sslEngine.wrapResults)
        invariant rest == fuel ==> sslEngine.outboundDone == old(sslEngine.outboundDone)
        invariant rest < fuel ==> !old(sslEngine.outboundDone)
        invariant sslEngine.plainOut == old(sslEngine.plainOut) && sslEngine.cipherIn == old(sslEngine.cipherIn)
        invariant Extends(channel.sent, sent0)
        decreases rest
      {
        if rest == 0 {
          return Stalled;
        }
        var result := sslEngine.Wrap(appData, netData);
        if result.status != Closed {
          ghost var before := channel.sent;
          var flushed;
          flushed, rest := FlushCiphertext(channel, rest - 1);
          ExtendsTrans(channel.sent, before, sent0);
          if flushed.Stalled? {
            return Stalled;
          }
        } else {
          rest := rest - 1;
        }
      }
      channel.Close();
      r := Returned(());
    }
  }
}
